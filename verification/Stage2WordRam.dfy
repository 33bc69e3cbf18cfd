/** The RAM mappers over host memory: what was proved of them on descriptors holds of the words. */
module Stage2WordRam {
  import opened Stage2Tables
  import opened Stage2Bits
  import opened Stage2Format
  import opened Stage2Refinement
  import opened Stage2Runs
  import opened Stage2Ram
  import opened Stage2Words
  import opened Stage2WordRuns
  import W = MmioWindows

  function PageCall(ipa: nat, pa: nat, flags: bv64): Call {
    MapPageCall(ipa, WordOf(pa), flags)
  }

  function HugeCall(ipa: nat, pa: nat, flags: bv64): Call {
    MapHugeCall(ipa, WordOf(pa), flags)
  }

  function Ram4kWords(h: Host, ws: seq<Window>, ipa: nat, pa: nat, size: nat, flags: bv64, off: nat): (Host, Errno)
    decreases size - off
  {
    if off >= size then (h, OK)
    else if OverlapsMmio(ws, U64(ipa + off), SIZE_4KB) then Ram4kWords(h, ws, ipa, pa, size, flags, off + SIZE_4KB)
    else
      var (h1, e) := CallWord(h, PageCall(U64(ipa + off), U64(pa + off), flags));
      if e != OK then (h1, e) else Ram4kWords(h1, ws, ipa, pa, size, flags, off + SIZE_4KB)
  }

  function MapRam4kWords(h: Host, ws: seq<Window>, ipa: nat, pa: nat, size: nat, flags: bv64): (Host, Errno) {
    if size == 0 || !Aligned(size, SIZE_4KB) then (h, EINVAL) else Ram4kWords(h, ws, ipa, pa, size, flags, 0)
  }

  function RamHugeWords(h: Host, ws: seq<Window>, address: nat, physical: nat, end: nat, flags: bv64): (Host, Errno)
    decreases end - address
  {
    if address >= end then (h, OK)
    else
      var whole := WholeStride(ws, address, physical, end);
      var chunk := if whole then SIZE_2MB else ChunkSize(address, end);
      var (h1, e) := if whole then CallWord(h, HugeCall(address, physical, flags))
                     else MapRam4kWords(h, ws, address, physical, chunk, flags);
      if e != OK then (h1, e) else RamHugeWords(h1, ws, address + chunk, U64(physical + chunk), end, flags)
  }

  /** relm_stage2_map_guest_ram_huge and relm_stage2_map_guest_ram_4kb. */
  function MapRamWords(huge: bool, h: Host, ws: seq<Window>, ipa: nat, pa: nat, size: nat, flags: bv64): (Host, Errno) {
    if !huge then MapRam4kWords(h, ws, ipa, pa, size, flags)
    else if size == 0 || !Aligned(size, SIZE_4KB) then (h, EINVAL)
    else RamHugeWords(h, ws, ipa, pa, U64(ipa + size), flags)
  }

  /** The flags fit a leaf of that level at `pa + off`, wrapping at 2^64. */
  predicate FitsAt(pa: nat, off: nat, flags: bv64, level: nat) {
    FlagsFit(WordOf(U64(pa + off)), flags, level)
  }

  /** They fit at every address of [pa, pa + size). */
  ghost predicate FitRange(pa: nat, size: nat, flags: bv64, level: nat) {
    forall off: nat | off < size :: FitsAt(pa, off, flags, level)
  }

  /** The flags fit all the leaves that a mapper may write for a region. */
  ghost predicate FitRegion(huge: bool, pa: nat, size: nat, flags: bv64) {
    FitRange(pa, size, flags, 3) && (huge ==> FitRange(pa, size, flags, 2))
  }

  lemma FitAt(pa: nat, size: nat, flags: bv64, level: nat, off: nat)
    requires FitRange(pa, size, flags, level) && off < size
    ensures FlagsFit(WordOf(U64(pa + off)), flags, level)
  {
    hide FlagsFit, WordOf, U64;
    assert FitsAt(pa, off, flags, level);
  }

  lemma FitRest(pa: nat, size: nat, flags: bv64, level: nat, off: nat, part: nat)
    requires FitRange(pa, size, flags, level) && off + part <= size
    ensures FitRange(U64(pa + off), part, flags, level)
  {
    hide FlagsFit, WordOf, U64;
    var base := U64(pa + off);
    forall x: nat | x < part
      ensures FitsAt(base, x, flags, level)
    {
      U64Sum(pa + off, x);
      assert FitsAt(pa, off + x, flags, level);
    }
  }

  lemma FitPart(pa: nat, size: nat, flags: bv64, level: nat, part: nat)
    requires FitRange(pa, size, flags, level) && part <= size
    ensures FitRange(pa, part, flags, level)
  {
    hide FitsAt;
  }

  lemma U64Sum(a: nat, b: nat)
    ensures U64(U64(a) + b) == U64(a + b)
  {
  }

  lemma U64Same(a: nat)
    requires a < U64_MOD
    ensures U64(a) == a && U64(a + 0) == a
  {
  }

  /** Flags that fit every leaf fit every region, so in particular flags inside S2_LEAF_FLAGS_MASK do. */
  lemma MaskedFitRegion(huge: bool, pa: nat, size: nat, flags: bv64)
    requires flags & !LEAF_FLAGS_MASK == 0
    ensures FitRegion(huge, pa, size, flags)
  {
    hide FlagsFit, WordOf, U64;
    forall off: nat | off < size
      ensures FitsAt(pa, off, flags, 2) && FitsAt(pa, off, flags, 3)
    {
      MaskedFlagsFit(WordOf(U64(pa + off)), flags, 2);
      MaskedFlagsFit(WordOf(U64(pa + off)), flags, 3);
    }
  }

  lemma PageSim(h: Host, c: Ctx, lv: Levels, ipa: nat, pa: nat, flags: bv64) returns (lv': Levels)
    requires Sim(h, c, lv) && FlagsFit(WordOf(pa), flags, 3) && pa < U64_MOD
    ensures var (h', e) := CallWord(h, PageCall(ipa, pa, flags));
            var (c', e') := MapPage(c, ipa, pa, flags);
            Sim(h', c', lv') && e == e'
  {
    hide Sim, CallWord, MapPage, WordOf, Value, FlagsFit;
    WordValue(pa);
    lv' := CallSim(h, c, lv, PageCall(ipa, pa, flags));
  }

  lemma HugeSim(h: Host, c: Ctx, lv: Levels, ipa: nat, pa: nat, flags: bv64) returns (lv': Levels)
    requires Sim(h, c, lv) && FlagsFit(WordOf(pa), flags, 2) && pa < U64_MOD
    ensures var (h', e) := CallWord(h, HugeCall(ipa, pa, flags));
            var (c', e') := MapHugePage(c, ipa, pa, flags);
            Sim(h', c', lv') && e == e'
  {
    hide Sim, CallWord, MapHugePage, WordOf, Value, FlagsFit;
    WordValue(pa);
    lv' := CallSim(h, c, lv, HugeCall(ipa, pa, flags));
  }

  lemma {:induction false} Ram4kSim(h: Host, c: Ctx, lv: Levels, ws: seq<Window>, ipa: nat, pa: nat, size: nat,
                                    flags: bv64, off: nat) returns (lv': Levels)
    requires Sim(h, c, lv) && FitRange(pa, size, flags, 3)
    ensures var (h', e) := Ram4kWords(h, ws, ipa, pa, size, flags, off);
            var (c', e') := Ram4kLoop(c, ws, ipa, pa, size, flags, off);
            Sim(h', c', lv') && e == e'
    decreases size - off
  {
    hide Sim, CallWord, MapPage, FitRange, OverlapsMmio, PageCall, FlagsFit, WordOf;
    lv' := lv;
    if off < size {
      var h1, c1, e := h, c, OK;
      if !OverlapsMmio(ws, U64(ipa + off), SIZE_4KB) {
        FitAt(pa, size, flags, 3, off);
        lv' := PageSim(h, c, lv, U64(ipa + off), U64(pa + off), flags);
        var r := CallWord(h, PageCall(U64(ipa + off), U64(pa + off), flags));
        h1, e := r.0, r.1;
        c1 := MapPage(c, U64(ipa + off), U64(pa + off), flags).0;
      }
      if e == OK {
        lv' := Ram4kSim(h1, c1, lv', ws, ipa, pa, size, flags, off + SIZE_4KB);
      }
    }
  }

  lemma Map4kSim(h: Host, c: Ctx, lv: Levels, ws: seq<Window>, ipa: nat, pa: nat, size: nat, flags: bv64)
      returns (lv': Levels)
    requires Sim(h, c, lv) && FitRange(pa, size, flags, 3)
    ensures var (h', e) := MapRam4kWords(h, ws, ipa, pa, size, flags);
            var (c', e') := MapGuestRam4k(c, ws, ipa, pa, size, flags);
            Sim(h', c', lv') && e == e'
  {
    hide Sim, FitRange, Ram4kWords, Ram4kLoop;
    lv' := lv;
    if size != 0 && Aligned(size, SIZE_4KB) {
      lv' := Ram4kSim(h, c, lv, ws, ipa, pa, size, flags, 0);
    }
  }

  lemma {:induction false} RamHugeSim(h: Host, c: Ctx, lv: Levels, ws: seq<Window>, address: nat, physical: nat,
                                      end: nat, flags: bv64) returns (lv': Levels)
    requires Sim(h, c, lv) && physical < U64_MOD
    requires address <= end ==> FitRegion(true, physical, end - address, flags)
    ensures var (h', e) := RamHugeWords(h, ws, address, physical, end, flags);
            var (c', e') := RamHugeLoop(c, ws, address, physical, end, flags);
            Sim(h', c', lv') && e == e'
    decreases end - address
  {
    hide Sim, CallWord, MapHugePage, FitRange, MapRam4kWords, MapGuestRam4k, HugeCall, FlagsFit, WordOf, U64,
      OverlapsMmio, Aligned;
    lv' := lv;
    if address < end {
      var whole := WholeStride(ws, address, physical, end);
      var chunk := if whole then SIZE_2MB else ChunkSize(address, end);
      var h1, c1, e;
      U64Same(physical);
      if whole {
        FitAt(physical, end - address, flags, 2, 0);
        lv' := HugeSim(h, c, lv, address, physical, flags);
        var r := CallWord(h, HugeCall(address, physical, flags));
        h1, e := r.0, r.1;
        c1 := MapHugePage(c, address, physical, flags).0;
      } else {
        FitPart(physical, end - address, flags, 3, chunk);
        lv' := Map4kSim(h, c, lv, ws, address, physical, chunk, flags);
        var r := MapRam4kWords(h, ws, address, physical, chunk, flags);
        h1, e := r.0, r.1;
        c1 := MapGuestRam4k(c, ws, address, physical, chunk, flags).0;
      }
      if e == OK {
        FitRest(physical, end - address, flags, 3, chunk, end - address - chunk);
        FitRest(physical, end - address, flags, 2, chunk, end - address - chunk);
        WrappedSmall(physical + chunk);
        lv' := RamHugeSim(h1, c1, lv', ws, address + chunk, U64(physical + chunk), end, flags);
      }
    }
  }

  lemma WrappedSmall(x: nat)
    ensures U64(x) < U64_MOD
  {
  }

  lemma RamSim(huge: bool, h: Host, c: Ctx, lv: Levels, ws: seq<Window>, ipa: nat, pa: nat, size: nat, flags: bv64)
      returns (lv': Levels)
    requires Sim(h, c, lv) && FitRegion(huge, pa, size, flags) && pa < U64_MOD
    ensures var (h', e) := MapRamWords(huge, h, ws, ipa, pa, size, flags);
            var (c', e') := MapGuestRam(huge, c, ws, ipa, pa, size, flags);
            Sim(h', c', lv') && e == e'
  {
    hide Sim, FitRange, Ram4kWords, Ram4kLoop, RamHugeWords, RamHugeLoop, U64;
    lv' := lv;
    if !huge {
      lv' := Map4kSim(h, c, lv, ws, ipa, pa, size, flags);
    } else if size != 0 && Aligned(size, SIZE_4KB) {
      var end := U64(ipa + size);
      EndWithin(ipa, size);
      if ipa <= end {
        FitPart(pa, size, flags, 3, end - ipa);
        FitPart(pa, size, flags, 2, end - ipa);
      }
      lv' := RamHugeSim(h, c, lv, ws, ipa, pa, end, flags);
    }
  }

  lemma EndWithin(ipa: nat, size: nat)
    ensures U64(ipa + size) <= ipa + size
  {
  }

  /** What get_mapping answers once the first `done` bytes of a region are mapped around windows. */
  function AroundWindows(before: (Errno, nat), ws: seq<Window>, ipa: nat, pa: nat, done: nat, a: nat): (Errno, nat)
    requires a < W.U64_MOD
  {
    if !(ipa <= a < ipa + done) then before
    else if W.IsMmio(ws, a) then (ENOENT, 0)
    else (OK, pa + (a - ipa))
  }

  /** Either RAM mapper over host memory, around windows of whole pages, on a region in which nothing is
      mapped: the only failure is running out of table pages. Of the part it came through, all of the region on
      success, exactly the addresses in a window stay unmapped and all others go to their place in RAM;
      everything else keeps its translation. On success both mappers thus agree. */
  lemma RamOfWords(huge: bool, h: Host, c: Ctx, lv: Levels, tab: Tree, f: Flat, ws: seq<Window>, ipa: nat,
                   pa: nat, size: nat, flags: bv64) returns (done: nat)
    requires Agree(h, c, lv, tab, f) && FitRegion(huge, pa, size, flags) && RegionOk(c.geo, ipa, pa, size, flags)
    requires size > 0 && WholePages(ws) && Reach(h.geo.start) <= W.U64_MOD
    requires forall b: nat | ipa <= b < ipa + size :: MappingOf(h, b).0 == ENOENT
    ensures var (h', ret) := MapRamWords(huge, h, ws, ipa, pa, size, flags);
            && ((ret == OK && done == size) || (ret == ENOMEM && done < size))
            && forall a: nat | a < Reach(h.geo.start) ::
                 MappingOf(h', a) == AroundWindows(MappingOf(h, a), ws, ipa, pa, done, a)
  {
    hide Sim, Inv, Refines, FitRegion, RegionOk, WholePages, MappingOf, GetMapping, MapRamWords, MapGuestRam, W.IsMmio,
      MmioPage, Reach;
    SameStart(h, c, lv);
    PhysicalBound(c, tab, ipa, pa, size, flags);
    var lv' := RamSim(huge, h, c, lv, ws, ipa, pa, size, flags);
    forall b: nat | ipa <= b < ipa + size
      ensures GetMapping(c, b).0 == ENOENT
    {
      MappingSim(h, c, lv, b);
      assert MappingOf(h, b).0 == ENOENT;
    }
    var h' := MapRamWords(huge, h, ws, ipa, pa, size, flags).0;
    var c', ret, d := RamMapped(huge, c, tab, f, ws, ipa, pa, size, flags);
    done := d;
    forall a: nat | a < Reach(h.geo.start)
      ensures MappingOf(h', a) == AroundWindows(MappingOf(h, a), ws, ipa, pa, done, a)
    {
      MappingSim(h, c, lv, a);
      MappingSim(h', c', lv', a);
      MmioPageIs(ws, a);
    }
  }

  /** The huge-preferring mapper refines the page-by-page one: when both succeed they give the same translation at
      every IPA. */
  lemma MappersAgree(h: Host, c: Ctx, lv: Levels, tab: Tree, f: Flat, ws: seq<Window>, ipa: nat, pa: nat, size: nat,
                     flags: bv64, a: nat)
    requires Agree(h, c, lv, tab, f) && FitRegion(false, pa, size, flags) && FitRegion(true, pa, size, flags)
    requires RegionOk(c.geo, ipa, pa, size, flags) && size > 0 && WholePages(ws)
    requires Reach(h.geo.start) <= W.U64_MOD && a < Reach(h.geo.start)
    requires forall b: nat | ipa <= b < ipa + size :: MappingOf(h, b).0 == ENOENT
    requires MapRamWords(false, h, ws, ipa, pa, size, flags).1 == MapRamWords(true, h, ws, ipa, pa, size, flags).1 == OK
    ensures MappingOf(MapRamWords(true, h, ws, ipa, pa, size, flags).0, a)
            == MappingOf(MapRamWords(false, h, ws, ipa, pa, size, flags).0, a)
  {
    hide Agree, FitRegion, RegionOk, WholePages, MapRamWords, MappingOf, Reach, AroundWindows;
    var d1 := RamOfWords(false, h, c, lv, tab, f, ws, ipa, pa, size, flags);
    var d2 := RamOfWords(true, h, c, lv, tab, f, ws, ipa, pa, size, flags);
  }

  /** The windows of the registry after any reservations and releases are windows of whole pages, and every
      reach fits 64 bits: RamOfWords applies to them. */
  lemma RegistryFits(ram: seq<Window>, ops: seq<W.Op>, c: Ctx, tab: Tree)
    requires Inv(c, tab)
    ensures WholePages(W.Run(ram, [], ops)) && Reach(c.geo.start) <= W.U64_MOD
  {
    hide W.Run, WholePages, TreeOk, Pow2;
    RegistryPages(ram, ops);
    GeometryOk(c, tab);
  }

  lemma SameStart(h: Host, c: Ctx, lv: Levels)
    requires Sim(h, c, lv)
    ensures h.geo == c.geo
  {
  }

  lemma PhysicalBound(c: Ctx, tab: Tree, ipa: nat, pa: nat, size: nat, flags: bv64)
    requires Inv(c, tab) && RegionOk(c.geo, ipa, pa, size, flags)
    ensures pa < U64_MOD
  {
    hide TreeOk, Pow2;
    GeometryOk(c, tab);
  }

  // ---------------------------------------------------------------- flags that do not fit

  const STRAY_GEOMETRY: Geometry := Geometry(39, 48, 1)

  function StrayHost(): Host {
    FreshHost(STRAY_GEOMETRY, 0x1000, [Some(WordOf(0x2000))], map[])
  }

  lemma StrayDescends()
    ensures Descend(Fresh(STRAY_GEOMETRY, 0x1000, [Some(0x2000)]), 0x1000, 1, 2, 0x20_0000).1 == Some(0x2000)
    ensures MapCheck(STRAY_GEOMETRY, 0x20_0000, 0x20_0000, 0x42, 2) == OK
  {
    PowLimits();
    PowGrows(39, 48);
    assert Index(0x20_0000, 1) == 0;
    var c := Fresh(STRAY_GEOMETRY, 0x1000, [Some(0x2000)]);
    assert GetOrCreate(c, 0x1000, 0).1 == Some(0x2000);
  }

  lemma StrayPages()
    ensures Pages([Some(WordOf(0x2000))]) == [Some(0x2000)] && PagesOk([Some(WordOf(0x2000))])
  {
    hide WordOf, Value;
    WordValue(0x2000);
    Below48();
    AddressBits(WordOf(0x2000));
    Outside(WordOf(0x2000));
  }

  lemma Below48()
    ensures Pow2(48) == 0x1_0000_0000_0000
  {
    PowLimits();
  }

  /** map_huge_page(0x20_0000, 0x20_0000, 0x42) on a fresh context succeeds, but the walker does not find the
      block: bit 1 of the flags makes the entry a table at the guest's own page. */
  lemma StrayFlagsRun()
    ensures var (h, e) := CallWord(StrayHost(), MapHugeCall(0x20_0000, WordOf(0x20_0000), 0x42));
            e == OK && WalkHost(h, 0x20_0000) != At(2, 0x20_0000)
  {
    hide Sim, Inv, WordOf, Value, WalkHost, FlagsFit, DescendWords, Descend, PutLeaf, MapCheck, Pages, PagesOk,
      FreshHost;
    var alloc := [Some(WordOf(0x2000))];
    StrayPages();
    var tab := StrayFresh();
    FreshSim(STRAY_GEOMETRY, 0x1000, alloc, map[]);
    var h, c, lv := StrayHost(), Fresh(STRAY_GEOMETRY, 0x1000, [Some(0x2000)]), map[0x1000 := 1];
    StrayDescends();
    RootOf(h, c, lv);
    var lv' := DescendSim(h, c, lv, 0x1000, 1, 2, 0x20_0000);
    WordValue(0x20_0000);
    MapFoundAgain(h, c, lv, tab, 0x20_0000, WordOf(0x20_0000), 0x42, 2);
    StrayBit(WordOf(0x20_0000));
  }

  lemma RootOf(h: Host, c: Ctx, lv: Levels)
    requires Sim(h, c, lv)
    ensures h.root == c.root && h.geo == c.geo && c.root in c.mem && c.root in lv && lv[c.root] == c.geo.start
  {
  }

  lemma StrayFresh() returns (tab: Tree)
    ensures AllocOk(Fresh(STRAY_GEOMETRY, 0x1000, [Some(0x2000)])) && STRAY_GEOMETRY.Valid()
    ensures Inv(Fresh(STRAY_GEOMETRY, 0x1000, [Some(0x2000)]), tab)
  {
    tab := FreshOk(STRAY_GEOMETRY, 0x1000, [Some(0x2000)]);
  }

  lemma StrayBit(pa: bv64)
    ensures !FlagsFit(pa, 0x42, 2)
  {
    hide AddressFits;
  }
}

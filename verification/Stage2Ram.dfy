/** The guest-RAM mappers of src/arch/arm64/stage2.c: the page-by-page one, which leaves MMIO
    windows unmapped, and the one that prefers 2 MiB blocks. Both give the same translations.
*/
module Stage2Ram {
  import opened Stage2Tables
  import opened Stage2Refinement
  import opened Stage2Runs
  import W = MmioWindows

  /** A reserved MMIO window of the VM. */
  type Window = W.Region

  predicate Touches(w: Window, ipa: nat, size: nat) {
    ipa < U64(w.start + w.size) && w.start < U64(ipa + size)
  }

  /** s2_range_overlaps_mmio. */
  predicate OverlapsMmio(ws: seq<Window>, ipa: nat, size: nat) {
    exists k | 0 <= k < |ws| :: Touches(ws[k], ipa, size)
  }

  function Ram4kLoop(c: Ctx, ws: seq<Window>, ipa: nat, pa: nat, size: nat, flags: bv64, off: nat): (Ctx, Errno)
    decreases size - off
  {
    if off >= size then (c, OK)
    else if OverlapsMmio(ws, U64(ipa + off), SIZE_4KB) then Ram4kLoop(c, ws, ipa, pa, size, flags, off + SIZE_4KB)
    else
      var (c1, e) := MapPage(c, U64(ipa + off), U64(pa + off), flags);
      if e != OK then (c1, e) else Ram4kLoop(c1, ws, ipa, pa, size, flags, off + SIZE_4KB)
  }

  /** relm_stage2_map_guest_ram_4kb; with no windows this is also relm_stage2_map_range. */
  function MapGuestRam4k(c: Ctx, ws: seq<Window>, ipa: nat, pa: nat, size: nat, flags: bv64): (Ctx, Errno) {
    if size == 0 || !Aligned(size, SIZE_4KB) then (c, EINVAL) else Ram4kLoop(c, ws, ipa, pa, size, flags, 0)
  }

  /** May the stride at `address` be one 2 MiB block? */
  predicate WholeStride(ws: seq<Window>, address: nat, physical: nat, end: nat)
    requires address <= end
  {
    && end - address >= SIZE_2MB
    && Aligned(address, SIZE_2MB) && Aligned(physical, SIZE_2MB)
    && !OverlapsMmio(ws, address, SIZE_2MB)
  }

  function ChunkSize(address: nat, end: nat): (chunk: nat)
    requires address < end
    ensures 0 < chunk <= end - address
  {
    var toBoundary := SIZE_2MB - address % SIZE_2MB;
    if end - address < toBoundary then end - address else toBoundary
  }

  function RamHugeLoop(c: Ctx, ws: seq<Window>, address: nat, physical: nat, end: nat, flags: bv64): (Ctx, Errno)
    decreases end - address
  {
    if address >= end then (c, OK)
    else
      var whole := WholeStride(ws, address, physical, end);
      var chunk := if whole then SIZE_2MB else ChunkSize(address, end);
      var (c1, e) := if whole then MapHugePage(c, address, physical, flags)
                     else MapGuestRam4k(c, ws, address, physical, chunk, flags);
      if e != OK then (c1, e) else RamHugeLoop(c1, ws, address + chunk, U64(physical + chunk), end, flags)
  }

  /** relm_stage2_map_guest_ram_huge. */
  function MapGuestRamHuge(c: Ctx, ws: seq<Window>, ipa: nat, pa: nat, size: nat, flags: bv64): (Ctx, Errno) {
    if size == 0 || !Aligned(size, SIZE_4KB) then (c, EINVAL) else RamHugeLoop(c, ws, ipa, pa, U64(ipa + size), flags)
  }

  // ---------------------------------------------------------------- what both must achieve

  /** The page of `a` overlaps a window. */
  predicate MmioPage(ws: seq<Window>, a: nat) {
    OverlapsMmio(ws, a - a % SIZE_4KB, SIZE_4KB)
  }

  /** `f` translates like `g`, except that the first `off` bytes of the region go to RAM or, for MMIO
      pages, nowhere. */
  ghost predicate RamImage(g: Flat, f: Flat, start: nat, ws: seq<Window>, ipa: nat, pa: nat, off: nat) {
    forall a: nat | a < Reach(start) ::
      FlatMapping(f, a) == if ipa <= a < ipa + off then (if MmioPage(ws, a) then (ENOENT, 0) else (OK, pa + (a - ipa)))
                           else FlatMapping(g, a)
  }

  /** Nothing translates in [ipa, ipa + size). */
  ghost predicate Unmapped(f: Flat, ipa: nat, size: nat) {
    forall a: nat | ipa <= a < ipa + size :: FlatWalk(f, a) == Hole
  }

  /** An aligned region that the geometry can map, with readable leaves. */
  predicate RegionOk(geo: Geometry, ipa: nat, pa: nat, size: nat, flags: bv64) {
    && Aligned(ipa, SIZE_4KB) && Aligned(pa, SIZE_4KB) && Aligned(size, SIZE_4KB)
    && flags & ACCESS_READ != 0
    && ipa + size <= Pow2(geo.ipaBits) && pa + size <= Pow2(geo.paBits)
  }

  lemma RegionPart(geo: Geometry, ipa: nat, pa: nat, size: nat, flags: bv64, off: nat, part: nat)
    requires geo.Valid() && RegionOk(geo, ipa, pa, size, flags)
    requires off + part <= size && Aligned(off, SIZE_4KB) && Aligned(part, SIZE_4KB)
    ensures RegionOk(geo, ipa + off, pa + off, part, flags)
    ensures U64(ipa + off) == ipa + off && U64(pa + off) == pa + off && Aligned(off + part, SIZE_4KB)
    ensures Aligned(ipa + off, SIZE_4KB) && ipa + off + part <= Reach(geo.start)
  {
    hide Aligned, U64, Pow2;
    WithinReach(geo);
    AlignedSum(ipa, off);
    AlignedSum(pa, off);
    AlignedSum(off, part);
    NoWrap(ipa + off);
    NoWrap(pa + off);
  }

  lemma AlignedSum(a: nat, b: nat)
    requires Aligned(a, SIZE_4KB) && Aligned(b, SIZE_4KB)
    ensures Aligned(a + b, SIZE_4KB)
  {
  }

  lemma NoWrap(x: nat)
    requires x < U64_MOD
    ensures U64(x) == x
  {
  }

  lemma RegionSize(geo: Geometry, ipa: nat, pa: nat, size: nat, flags: bv64)
    requires geo.Valid() && RegionOk(geo, ipa, pa, size, flags)
    ensures Aligned(size, SIZE_4KB) && Aligned(SIZE_4KB, SIZE_4KB) && ipa + size <= Reach(geo.start)
  {
    WithinReach(geo);
  }

  /** An unfinished region has at least a page left. */
  lemma PageLeft(size: nat, off: nat)
    requires off < size && Aligned(off, SIZE_4KB) && Aligned(size, SIZE_4KB)
    ensures off + SIZE_4KB <= size
  {
  }

  lemma UnmappedPart(f: Flat, ipa: nat, size: nat, part: nat)
    requires Unmapped(f, ipa, size) && part <= size
    ensures Unmapped(f, ipa, part)
  {
  }

  lemma ImageNone(f: Flat, start: nat, ws: seq<Window>, ipa: nat, pa: nat)
    ensures RamImage(f, f, start, ws, ipa, pa, 0)
  {
  }

  lemma ImageTrans(g: Flat, f: Flat, h: Flat, start: nat, ws: seq<Window>, ipa: nat, pa: nat, off: nat, d: nat)
    requires RamImage(g, f, start, ws, ipa, pa, off) && RamImage(f, h, start, ws, ipa + off, pa + off, d)
    ensures RamImage(g, h, start, ws, ipa, pa, off + d)
  {
  }

  /** The part of the region not yet reached is still unmapped. */
  lemma ImageRest(g: Flat, f: Flat, start: nat, ws: seq<Window>, ipa: nat, pa: nat, off: nat, size: nat)
    requires RamImage(g, f, start, ws, ipa, pa, off) && off <= size && Unmapped(g, ipa, size)
    requires ipa + size <= Reach(start)
    ensures Unmapped(f, ipa + off, size - off)
  {
    forall a: nat | ipa + off <= a < ipa + size
      ensures FlatWalk(f, a) == Hole
    {
      assert FlatWalk(g, a) == Hole;
      assert FlatMapping(f, a) == (ENOENT, 0);
    }
  }

  lemma PageImage(f: Flat, start: nat, ws: seq<Window>, ipa: nat, pa: nat, flags: bv64)
    requires FlatOk(f, start) && start <= 1 && ipa < Reach(start) && Aligned(ipa, SIZE_4KB)
    requires FlatWalk(f, ipa) == Hole && !OverlapsMmio(ws, ipa, SIZE_4KB)
    ensures RamImage(f, FlatMap(f, ipa, pa, flags, 3), start, ws, ipa, pa, SIZE_4KB)
  {
    var g := FlatMap(f, ipa, pa, flags, 3);
    FlatMapWalks(f, start, ipa, pa, flags, 3);
    forall a: nat | a < Reach(start)
      ensures FlatMapping(g, a) ==
              if ipa <= a < ipa + SIZE_4KB then (if MmioPage(ws, a) then (ENOENT, 0) else (OK, pa + (a - ipa)))
                                   else FlatMapping(f, a)
    {
      assert Number(a, 3) == Number(ipa, 3) <==> ipa <= a < ipa + SIZE_4KB;
    }
  }

  /** A page skipped because of a window stays as it was: unmapped. */
  lemma SkippedImage(f: Flat, start: nat, ws: seq<Window>, ipa: nat, pa: nat)
    requires Aligned(ipa, SIZE_4KB) && Unmapped(f, ipa, SIZE_4KB) && OverlapsMmio(ws, ipa, SIZE_4KB)
    ensures RamImage(f, f, start, ws, ipa, pa, SIZE_4KB)
  {
    forall a: nat | ipa <= a < ipa + SIZE_4KB
      ensures MmioPage(ws, a) && FlatMapping(f, a) == (ENOENT, 0)
    {
      assert FlatWalk(f, a) == Hole;
      assert a - a % SIZE_4KB == ipa;
    }
  }

  /** One map_page inside the region. */
  lemma PageStep(c: Ctx, tab: Tree, f: Flat, ws: seq<Window>, ipa: nat, pa: nat, flags: bv64)
      returns (c': Ctx, ret: Errno, tab': Tree, f': Flat)
    requires Inv(c, tab) && Refines(c, f) && RegionOk(c.geo, ipa, pa, SIZE_4KB, flags)
    requires Unmapped(f, ipa, SIZE_4KB) && !OverlapsMmio(ws, ipa, SIZE_4KB)
    ensures (c', ret) == MapPage(c, ipa, pa, flags)
    ensures Inv(c', tab') && Refines(c', f') && c'.geo == c.geo
    ensures ret == OK || ret == ENOMEM
    ensures RamImage(f, f', c.geo.start, ws, ipa, pa, if ret == OK then SIZE_4KB else 0)
  {
    hide TreeOk, FlatOk, Pow2, OverlapsMmio, FlatMap;
    WithinReach(c.geo);
    assert FlatWalk(f, ipa) == Hole;
    c', ret, tab' := MapOneRefines(c, tab, f, ipa, pa, flags, 3);
    f' := if ret == OK then FlatMap(f, ipa, pa, flags, 3) else f;
    PageImage(f, c.geo.start, ws, ipa, pa, flags);
  }

  /** The 4 KiB loop, from any offset: it maps a prefix of the region, all of it on success. */
  lemma {:induction false} Ram4kImage(c: Ctx, tab: Tree, f: Flat, ws: seq<Window>, ipa: nat, pa: nat, size: nat,
      flags: bv64, off: nat)
      returns (c': Ctx, ret: Errno, tab': Tree, f': Flat, done: nat)
    requires Inv(c, tab) && Refines(c, f) && RegionOk(c.geo, ipa, pa, size, flags)
    requires off <= size && Aligned(off, SIZE_4KB) && Unmapped(f, ipa + off, size - off)
    ensures (c', ret) == Ram4kLoop(c, ws, ipa, pa, size, flags, off)
    ensures Inv(c', tab') && Refines(c', f') && c'.geo == c.geo
    ensures (ret == OK && off + done == size) || (ret == ENOMEM && off + done < size)
    ensures RamImage(f, f', c.geo.start, ws, ipa + off, pa + off, done)
    decreases size - off
  {
    hide Inv, Refines, RamImage, OverlapsMmio, Unmapped, MapPage, Pow2, U64, RegionOk, Aligned;
    GeometryOk(c, tab);
    var start, ipa1, pa1 := c.geo.start, ipa + off, pa + off;
    if off == size {
      c', ret, tab', f', done := c, OK, tab, f, 0;
      ImageNone(f, start, ws, ipa1, pa1);
    } else {
      RegionSize(c.geo, ipa, pa, size, flags);
      PageLeft(size, off);
      RegionPart(c.geo, ipa, pa, size, flags, off, SIZE_4KB);
      UnmappedPart(f, ipa1, size - off, SIZE_4KB);
      var c1, ret1, tab1, f1 := c, OK, tab, f;
      if OverlapsMmio(ws, ipa1, SIZE_4KB) {
        SkippedImage(f, start, ws, ipa1, pa1);
      } else {
        c1, ret1, tab1, f1 := PageStep(c, tab, f, ws, ipa1, pa1, flags);
      }
      if ret1 != OK {
        c', ret, tab', f', done := c1, ret1, tab1, f1, 0;
      } else {
        ImageRest(f, f1, start, ws, ipa1, pa1, SIZE_4KB, size - off);
        var d: nat;
        c', ret, tab', f', d := Ram4kImage(c1, tab1, f1, ws, ipa, pa, size, flags, off + SIZE_4KB);
        ImageTrans(f, f1, f', start, ws, ipa1, pa1, SIZE_4KB, d);
        done := SIZE_4KB + d;
      }
    }
  }

  /** No page of an MMIO-free stride overlaps a window. */
  lemma StrideFree(ws: seq<Window>, ipa: nat, a: nat)
    requires ipa <= a < ipa + SIZE_2MB < U64_MOD && Aligned(ipa, SIZE_4KB) && !OverlapsMmio(ws, ipa, SIZE_2MB)
    ensures !MmioPage(ws, a)
  {
    var page := a - a % SIZE_4KB;
    assert ipa <= page && page + SIZE_4KB <= ipa + SIZE_2MB;
    forall k | 0 <= k < |ws|
      ensures !Touches(ws[k], page, SIZE_4KB)
    {
      assert !Touches(ws[k], ipa, SIZE_2MB);
    }
  }

  lemma BlockImage(f: Flat, start: nat, ws: seq<Window>, ipa: nat, pa: nat, flags: bv64)
    requires FlatOk(f, start) && start <= 1 && ipa + SIZE_2MB <= Reach(start) < U64_MOD && Aligned(ipa, SIZE_2MB)
    requires !OverlapsMmio(ws, ipa, SIZE_2MB)
    ensures RamImage(f, FlatMap(f, ipa, pa, flags, 2), start, ws, ipa, pa, SIZE_2MB)
  {
    hide FlatMap, FlatMapping, FlatOk, MmioPage, OverlapsMmio, Reach;
    var g := FlatMap(f, ipa, pa, flags, 2);
    forall a: nat | a < Reach(start)
      ensures FlatMapping(g, a) ==
              if ipa <= a < ipa + SIZE_2MB then (if MmioPage(ws, a) then (ENOENT, 0) else (OK, pa + (a - ipa)))
                                   else FlatMapping(f, a)
    {
      BlockMapping(f, start, ipa, pa, flags, a);
      if ipa <= a < ipa + SIZE_2MB {
        StrideFree(ws, ipa, a);
      }
    }
  }

  /** One block in the flat view. */
  lemma BlockMapping(f: Flat, start: nat, ipa: nat, pa: nat, flags: bv64, a: nat)
    requires FlatOk(f, start) && start <= 1 && ipa + SIZE_2MB <= Reach(start) && Aligned(ipa, SIZE_2MB)
    requires a < Reach(start)
    ensures FlatMapping(FlatMap(f, ipa, pa, flags, 2), a) ==
            if ipa <= a < ipa + SIZE_2MB then (OK, pa + (a - ipa)) else FlatMapping(f, a)
  {
    hide FlatMap, FlatOk;
    FlatMapWalks(f, start, ipa, pa, flags, 2);
    InBlock(ipa, a);
  }

  lemma InBlock(ipa: nat, a: nat)
    requires Aligned(ipa, SIZE_2MB)
    ensures Number(a, 2) == Number(ipa, 2) <==> ipa <= a < ipa + SIZE_2MB
    ensures ipa <= a < ipa + SIZE_2MB ==> a % LevelSize(2) == a - ipa
  {
  }

  lemma BlockStep(c: Ctx, tab: Tree, f: Flat, ws: seq<Window>, ipa: nat, pa: nat, flags: bv64)
      returns (c': Ctx, ret: Errno, tab': Tree, f': Flat)
    requires Inv(c, tab) && Refines(c, f) && RegionOk(c.geo, ipa, pa, SIZE_2MB, flags)
    requires Aligned(ipa, SIZE_2MB) && Aligned(pa, SIZE_2MB) && !OverlapsMmio(ws, ipa, SIZE_2MB)
    ensures (c', ret) == MapHugePage(c, ipa, pa, flags)
    ensures Inv(c', tab') && Refines(c', f') && c'.geo == c.geo
    ensures ret == OK || ret == ENOMEM
    ensures RamImage(f, f', c.geo.start, ws, ipa, pa, if ret == OK then SIZE_2MB else 0)
  {
    WithinReach(c.geo);
    c', ret, tab' := MapOneRefines(c, tab, f, ipa, pa, flags, 2);
    f' := if ret == OK then FlatMap(f, ipa, pa, flags, 2) else f;
    BlockImage(f, c.geo.start, ws, ipa, pa, flags);
  }

  lemma ChunkAligned(address: nat, end: nat)
    requires address < end && Aligned(address, SIZE_4KB) && Aligned(end, SIZE_4KB)
    ensures Aligned(ChunkSize(address, end), SIZE_4KB)
  {
  }

  /** One stride of the huge-preferring loop. */
  lemma StrideStep(c: Ctx, tab: Tree, f: Flat, ws: seq<Window>, ipa: nat, pa: nat, size: nat, flags: bv64)
      returns (chunk: nat, c': Ctx, ret: Errno, tab': Tree, f': Flat, done: nat)
    requires Inv(c, tab) && Refines(c, f) && RegionOk(c.geo, ipa, pa, size, flags)
    requires size > 0 && Unmapped(f, ipa, size)
    ensures chunk == if WholeStride(ws, ipa, pa, ipa + size) then SIZE_2MB else ChunkSize(ipa, ipa + size)
    ensures (c', ret) == if WholeStride(ws, ipa, pa, ipa + size) then MapHugePage(c, ipa, pa, flags)
                         else MapGuestRam4k(c, ws, ipa, pa, chunk, flags)
    ensures Inv(c', tab') && Refines(c', f') && c'.geo == c.geo
    ensures chunk <= size && Aligned(chunk, SIZE_4KB)
    ensures (ret == OK && done == chunk) || (ret == ENOMEM && done < chunk)
    ensures RamImage(f, f', c.geo.start, ws, ipa, pa, done)
  {
    hide Inv, Refines, RamImage, OverlapsMmio, Unmapped, MapHugePage, Ram4kLoop, Pow2;
    GeometryOk(c, tab);
    if WholeStride(ws, ipa, pa, ipa + size) {
      chunk := SIZE_2MB;
      c', ret, tab', f' := BlockStep(c, tab, f, ws, ipa, pa, flags);
      done := if ret == OK then chunk else 0;
    } else {
      chunk := ChunkSize(ipa, ipa + size);
      ChunkAligned(ipa, ipa + size);
      UnmappedPart(f, ipa, size, chunk);
      c', ret, tab', f', done := Ram4kImage(c, tab, f, ws, ipa, pa, chunk, flags, 0);
    }
  }

  lemma {:induction false} RamHugeImage(c: Ctx, tab: Tree, f: Flat, ws: seq<Window>, ipa: nat, pa: nat, size: nat,
      flags: bv64)
      returns (c': Ctx, ret: Errno, tab': Tree, f': Flat, done: nat)
    requires Inv(c, tab) && Refines(c, f) && RegionOk(c.geo, ipa, pa, size, flags) && Unmapped(f, ipa, size)
    ensures (c', ret) == RamHugeLoop(c, ws, ipa, pa, ipa + size, flags)
    ensures Inv(c', tab') && Refines(c', f') && c'.geo == c.geo
    ensures (ret == OK && done == size) || (ret == ENOMEM && done < size)
    ensures RamImage(f, f', c.geo.start, ws, ipa, pa, done)
    decreases size
  {
    hide Inv, Refines, RamImage, OverlapsMmio, Unmapped, MapHugePage, MapGuestRam4k, WholeStride, Pow2, U64,
      RegionOk, Aligned;
    GeometryOk(c, tab);
    if size == 0 {
      c', ret, tab', f', done := c, OK, tab, f, 0;
      ImageNone(f, c.geo.start, ws, ipa, pa);
    } else {
      RegionSize(c.geo, ipa, pa, size, flags);
      var chunk, c1, ret1, tab1, f1, d1 := StrideStep(c, tab, f, ws, ipa, pa, size, flags);
      if ret1 != OK {
        c', ret, tab', f', done := c1, ret1, tab1, f1, d1;
      } else {
        ImageRest(f, f1, c.geo.start, ws, ipa, pa, chunk, size);
        AlignedLess(size, chunk);
        RegionPart(c.geo, ipa, pa, size, flags, chunk, size - chunk);
        var d: nat;
        c', ret, tab', f', d := RamHugeImage(c1, tab1, f1, ws, ipa + chunk, pa + chunk, size - chunk, flags);
        ImageTrans(f, f1, f', c.geo.start, ws, ipa, pa, chunk, d);
        done := chunk + d;
      }
    }
  }

  lemma AlignedLess(a: nat, b: nat)
    requires Aligned(a, SIZE_4KB) && Aligned(b, SIZE_4KB) && b <= a
    ensures Aligned(a - b, SIZE_4KB)
  {
  }

  /** What get_mapping must answer once the first `done` bytes of the region are mapped. */
  function RamMapping(before: (Errno, nat), ws: seq<Window>, ipa: nat, pa: nat, done: nat, a: nat): (Errno, nat) {
    if ipa <= a < ipa + done then (if MmioPage(ws, a) then (ENOENT, 0) else (OK, pa + (a - ipa))) else before
  }

  function MapGuestRam(huge: bool, c: Ctx, ws: seq<Window>, ipa: nat, pa: nat, size: nat, flags: bv64): (Ctx, Errno) {
    if huge then MapGuestRamHuge(c, ws, ipa, pa, size, flags) else MapGuestRam4k(c, ws, ipa, pa, size, flags)
  }

  lemma UnmappedRegion(c: Ctx, f: Flat, ipa: nat, size: nat)
    requires c.geo.Valid() && Refines(c, f) && ipa + size <= Reach(c.geo.start)
    requires forall a: nat | ipa <= a < ipa + size :: GetMapping(c, a).0 == ENOENT
    ensures Unmapped(f, ipa, size)
  {
    forall a: nat | ipa <= a < ipa + size
      ensures FlatWalk(f, a) == Hole
    {
      MappingBelow(c, f, a);
      assert GetMapping(c, a).0 == ENOENT;
    }
  }

  lemma ImageMapping(c: Ctx, f: Flat, c': Ctx, f': Flat, ws: seq<Window>, ipa: nat, pa: nat, done: nat)
    requires c.geo.Valid() && Refines(c, f) && Refines(c', f') && c'.geo == c.geo
    requires RamImage(f, f', c.geo.start, ws, ipa, pa, done)
    ensures forall a: nat | a < Reach(c.geo.start) ::
          GetMapping(c', a) == RamMapping(GetMapping(c, a), ws, ipa, pa, done, a)
  {
    hide Refines, GetMapping, FlatMapping, MmioPage;
    forall a: nat | a < Reach(c.geo.start)
      ensures GetMapping(c', a) == RamMapping(GetMapping(c, a), ws, ipa, pa, done, a)
    {
      MappingBelow(c, f, a);
      MappingBelow(c', f', a);
    }
  }

  /** Either mapper, on an aligned in-range region in which nothing is mapped: the only failure is
      running out of table pages; a prefix of the region is mapped, the whole region on success;
      MMIO pages stay unmapped and everything outside keeps its translation. */
  lemma RamMapped(huge: bool, c: Ctx, tab: Tree, f: Flat, ws: seq<Window>, ipa: nat, pa: nat, size: nat, flags: bv64)
      returns (c': Ctx, ret: Errno, done: nat)
    requires Inv(c, tab) && Refines(c, f) && RegionOk(c.geo, ipa, pa, size, flags) && size > 0
    requires forall a: nat | ipa <= a < ipa + size :: GetMapping(c, a).0 == ENOENT
    ensures (c', ret) == MapGuestRam(huge, c, ws, ipa, pa, size, flags)
    ensures (ret == OK && done == size) || (ret == ENOMEM && done < size)
    ensures forall a: nat | a < Reach(c.geo.start) ::
          GetMapping(c', a) == RamMapping(GetMapping(c, a), ws, ipa, pa, done, a)
  {
    hide Inv, Refines, RamImage, Unmapped, Ram4kLoop, RamHugeLoop, GetMapping, RamMapping, Pow2;
    GeometryOk(c, tab);
    UnmappedRegion(c, f, ipa, size);
    var tab', f';
    if huge {
      c', ret, tab', f', done := RamHugeImage(c, tab, f, ws, ipa, pa, size, flags);
    } else {
      c', ret, tab', f', done := Ram4kImage(c, tab, f, ws, ipa, pa, size, flags, 0);
    }
    ImageMapping(c, f, c', f', ws, ipa, pa, done);
  }

  // ---------------------------------------------------------------- which addresses stay unmapped

  /** For one window of whole pages, wrapped or not. */
  lemma TouchesIsCovers(w: Window, a: nat)
    requires a < U64_MOD && W.Aligned(w)
    ensures Touches(w, a - a % SIZE_4KB, SIZE_4KB) <==> W.Covers(w, a)
  {
    assert W.End(w) % SIZE_4KB == 0;
    SamePage(a, w.start, W.End(w));
  }

  lemma SamePage(a: nat, start: nat, end: nat)
    requires start % SIZE_4KB == 0 && end % SIZE_4KB == 0 && start < U64_MOD && end < U64_MOD && a < U64_MOD
    ensures var p := a - a % SIZE_4KB; p < end && start < U64(p + SIZE_4KB) <==> start <= a < end
  {
  }

  ghost predicate WholePages(ws: seq<Window>) {
    forall k | 0 <= k < |ws| :: W.Aligned(ws[k])
  }

  /** The page of an address overlaps a window exactly when the address lies in one, as the registry sees it. */
  lemma MmioPageIs(ws: seq<Window>, a: nat)
    requires a < U64_MOD && WholePages(ws)
    ensures MmioPage(ws, a) <==> W.IsMmio(ws, a)
  {
    hide W.Aligned, W.Covers, Touches;
    forall k | 0 <= k < |ws|
      ensures Touches(ws[k], a - a % SIZE_4KB, SIZE_4KB) <==> W.Covers(ws[k], a)
    {
      TouchesIsCovers(ws[k], a);
    }
  }

  lemma RegistryPages(ram: seq<Window>, ops: seq<W.Op>)
    ensures WholePages(W.Run(ram, [], ops))
  {
    hide W.Run, W.Inv, W.Aligned;
    W.EmptyOk(ram);
    W.RunKeeps(ram, [], ops);
    W.AllAligned(ram, W.Run(ram, [], ops));
  }
}

/** relm_stage2_map_range, src/arch/arm64/stage2.c:445-459, and what mapping a page does around it. The header
    (include/arch/arm64/stage2.h:262-263) promises that a failed call undoes its own changes and that no call
    removes a mapping that was there before. The code keeps what it mapped, and a page that lands in a 2 MiB
    block takes the rest of the block away.
*/
module Stage2Range {
  import opened Stage2Tables
  import opened Stage2Refinement
  import opened Stage2Runs
  import opened Stage2Ram

  /** The page loop; it is the RAM mapper's without windows. */
  function MapRange(c: Ctx, ipa: nat, pa: nat, size: nat, flags: bv64): (Ctx, Errno) {
    MapGuestRam4k(c, [], ipa, pa, size, flags)
  }

  /** The bytes mapped, from offset `off` on, when the loop ends: all of them or up to the first failure. */
  function Mapped(c: Ctx, ipa: nat, pa: nat, size: nat, flags: bv64, off: nat): nat
    decreases size - off
  {
    if off >= size then off
    else
      var (c1, e) := MapPage(c, U64(ipa + off), U64(pa + off), flags);
      if e != OK then off else Mapped(c1, ipa, pa, size, flags, off + SIZE_4KB)
  }

  lemma RangeStep(c: Ctx, ipa: nat, pa: nat, size: nat, flags: bv64, off: nat)
    requires off < size
    ensures var (c1, e) := MapPage(c, U64(ipa + off), U64(pa + off), flags);
            Ram4kLoop(c, [], ipa, pa, size, flags, off) ==
              if e != OK then (c1, e) else Ram4kLoop(c1, [], ipa, pa, size, flags, off + SIZE_4KB)
  {
    hide MapPage;
  }

  // ---------------------------------------------------------------- what a range does to every walk

  /** The 2 MiB around `a` has a page in common with [ipa, ipa + done). */
  predicate Meets(a: nat, ipa: nat, done: nat) {
    done > 0 && Number(a, 2) * SIZE_2MB < ipa + done && ipa < (Number(a, 2) + 1) * SIZE_2MB
  }

  /** A walk after the first `done` bytes of a range were mapped: the range itself goes to its target, and of a
      block it met nothing else is left. */
  function RangeWalk(w: WalkResult, ipa: nat, pa: nat, flags: bv64, done: nat, a: nat): WalkResult {
    if ipa <= a < ipa + done && a % SIZE_4KB <= a - ipa then Found(3, pa + (a - ipa) - a % SIZE_4KB, flags)
    else if w.Found? && w.level == 2 && Meets(a, ipa, done) then Hole
    else w
  }

  /** One more page behind an aligned range. */
  lemma OneMorePage(ipa: nat, done: nat, a: nat)
    requires Aligned(ipa, SIZE_4KB) && Aligned(done, SIZE_4KB)
    ensures Meets(a, ipa, done + SIZE_4KB) <==> Meets(a, ipa, done) || Number(a, 2) == Number(ipa + done, 2)
    ensures Number(a, 3) == Number(ipa + done, 3) <==> ipa + done <= a < ipa + done + SIZE_4KB
    ensures ipa <= a ==> a % SIZE_4KB <= a - ipa
    ensures ipa + done <= a < ipa + done + SIZE_4KB ==> (a - ipa) - a % SIZE_4KB == done
  {
    var m := ipa + done;
    var b := Number(a, 2);
    assert Aligned(m, SIZE_4KB);
    BlockOf(m, b);
    BlockOf(a, b);
  }

  lemma BlockOf(m: nat, b: nat)
    ensures Number(m, 2) == b <==> b * SIZE_2MB <= m < (b + 1) * SIZE_2MB
    ensures Aligned(m, SIZE_4KB) ==> (b * SIZE_2MB < m + SIZE_4KB <==> b * SIZE_2MB <= m)
  {
  }

  lemma RangeWalkStep(w: WalkResult, w': WalkResult, ipa: nat, pa: nat, flags: bv64, done: nat, a: nat)
    requires Aligned(ipa, SIZE_4KB) && Aligned(done, SIZE_4KB)
    requires var prev := RangeWalk(w, ipa, pa, flags, done, a);
             w' == if Number(a, 3) == Number(ipa + done, 3) then Found(3, pa + done, flags)
                   else Cleared(prev, a, ipa + done)
    ensures w' == RangeWalk(w, ipa, pa, flags, done + SIZE_4KB, a)
  {
    hide Meets, Number, Aligned;
    OneMorePage(ipa, done, a);
  }

  /** Every walk of `c'` is the walk of `c` after that much of the range. */
  ghost predicate RangeImage(c: Ctx, c': Ctx, ipa: nat, pa: nat, flags: bv64, done: nat) {
    && c'.geo == c.geo
    && forall a: nat | a < Reach(c.geo.start) :: Walk(c', a) == RangeWalk(Walk(c, a), ipa, pa, flags, done, a)
  }

  lemma NothingMapped(c: Ctx, c': Ctx, f: Flat, ipa: nat, pa: nat, flags: bv64)
    requires Refines(c, f) && Refines(c', f) && c'.geo == c.geo
    ensures RangeImage(c, c', ipa, pa, flags, 0)
  {
    hide FlatWalk, Walk, Reach, FlatOk;
  }

  /** A failed page leaves the image as it was. */
  lemma FailedPage(c: Ctx, c1: Ctx, c2: Ctx, f: Flat, ipa: nat, pa: nat, flags: bv64, done: nat)
    requires RangeImage(c, c1, ipa, pa, flags, done) && Refines(c1, f) && Refines(c2, f) && c2.geo == c1.geo
    ensures RangeImage(c, c2, ipa, pa, flags, done)
  {
    hide FlatWalk, Walk, Reach, FlatOk, RangeWalk;
  }

  /** A mapped page extends it. */
  lemma MappedPage(c: Ctx, c1: Ctx, c2: Ctx, f: Flat, ipa: nat, pa: nat, flags: bv64, done: nat)
    requires RangeImage(c, c1, ipa, pa, flags, done) && Aligned(ipa, SIZE_4KB) && Aligned(done, SIZE_4KB)
    requires c.geo.Valid() && c2.geo == c1.geo && ipa + done < Reach(c.geo.start)
    requires Refines(c1, f) && Refines(c2, FlatMap(f, ipa + done, pa + done, flags, 3))
    ensures RangeImage(c, c2, ipa, pa, flags, done + SIZE_4KB)
  {
    hide FlatWalk, Walk, Reach, FlatOk, RangeWalk, FlatMap, Number, Aligned;
    RefinesFlatOk(c1, f);
    FlatMapWalks(f, c.geo.start, ipa + done, pa + done, flags, 3);
    forall a: nat | a < Reach(c.geo.start)
      ensures Walk(c2, a) == RangeWalk(Walk(c, a), ipa, pa, flags, done + SIZE_4KB, a)
    {
      RangeWalkStep(Walk(c, a), Walk(c2, a), ipa, pa, flags, done, a);
    }
  }

  /** What a page that was mapped tells about the offset: no address wrapped. */
  lemma PageFits(c: Ctx, tab: Tree, ipa: nat, pa: nat, flags: bv64, off: nat)
    requires Inv(c, tab) && ipa < U64_MOD && pa < U64_MOD && Aligned(off, SIZE_4KB)
    requires off > 0 ==> ipa + off <= 0x1_0000_0000_0000 && pa + off <= 0x1_0000_0000_0000
    requires MapPage(c, U64(ipa + off), U64(pa + off), flags).1 == OK
    ensures U64(ipa + off) == ipa + off && U64(pa + off) == pa + off && ipa + off < Reach(c.geo.start)
    ensures ipa + off + SIZE_4KB <= 0x1_0000_0000_0000 && pa + off + SIZE_4KB <= 0x1_0000_0000_0000
    ensures Aligned(ipa, SIZE_4KB) && Aligned(off + SIZE_4KB, SIZE_4KB)
  {
    hide TreeOk, MapOne, Pow2;
    WithinReach(c.geo);
  }

  /** The loop from offset `off` on, when the part before it is in place. */
  lemma {:induction false} LoopImage(c: Ctx, c1: Ctx, tab: Tree, f: Flat, ipa: nat, pa: nat, size: nat, flags: bv64,
                                     off: nat)
      returns (tab': Tree, f': Flat)
    requires c.geo.Valid() && Inv(c1, tab) && Refines(c1, f) && RangeImage(c, c1, ipa, pa, flags, off)
    requires ipa < U64_MOD && pa < U64_MOD && Aligned(off, SIZE_4KB)
    requires off > 0 ==> ipa + off <= 0x1_0000_0000_0000 && pa + off <= 0x1_0000_0000_0000
    ensures var c' := Ram4kLoop(c1, [], ipa, pa, size, flags, off).0;
            && Inv(c', tab') && Refines(c', f')
            && RangeImage(c, c', ipa, pa, flags, Mapped(c1, ipa, pa, size, flags, off))
    decreases size - off
  {
    hide Inv, Refines, MapPage, StatsExact, NoLeak, FlatCheck, U64, Mixed, RangeImage, Aligned, FlatMap;
    tab', f' := tab, f;
    if off < size {
      RangeStep(c1, ipa, pa, size, flags, off);
      var op := OpMapPage(U64(ipa + off), U64(pa + off), flags);
      var c2, e, tab2 := StepRefines(c1, tab, f, op);
      var f2 := FlatStep(c1.geo, f, op, e);
      SameGeometry(c, c1, ipa, pa, flags, off);
      if e == OK {
        PageFits(c1, tab, ipa, pa, flags, off);
        MappedPage(c, c1, c2, f, ipa, pa, flags, off);
        tab', f' := LoopImage(c, c2, tab2, f2, ipa, pa, size, flags, off + SIZE_4KB);
      } else {
        FailedPage(c, c1, c2, f, ipa, pa, flags, off);
        tab', f' := tab2, f2;
      }
    }
  }

  lemma SameGeometry(c: Ctx, c': Ctx, ipa: nat, pa: nat, flags: bv64, done: nat)
    requires RangeImage(c, c', ipa, pa, flags, done)
    ensures c'.geo == c.geo
  {
  }

  /** The bytes mapped by a whole call. */
  function Done(c: Ctx, ipa: nat, pa: nat, size: nat, flags: bv64): nat {
    if size == 0 || !Aligned(size, SIZE_4KB) then 0 else Mapped(c, ipa, pa, size, flags, 0)
  }

  /** Any call of map_range, successful or not: every walk afterwards, given by how far it came. */
  lemma RangeResult(c: Ctx, tab: Tree, f: Flat, ipa: nat, pa: nat, size: nat, flags: bv64)
      returns (tab': Tree, f': Flat)
    requires Inv(c, tab) && Refines(c, f) && ipa < U64_MOD && pa < U64_MOD
    ensures var (c', ret) := MapRange(c, ipa, pa, size, flags);
            var done := Done(c, ipa, pa, size, flags);
            && Inv(c', tab') && Refines(c', f') && RangeImage(c, c', ipa, pa, flags, done)
            && (size > 0 && Aligned(size, SIZE_4KB) ==> done <= size && (ret == OK <==> done == size))
  {
    hide Inv, Refines, RangeImage, Ram4kLoop, Mapped;
    GeometryOk(c, tab);
    NothingMapped(c, c, f, ipa, pa, flags);
    tab', f' := tab, f;
    if size != 0 && Aligned(size, SIZE_4KB) {
      tab', f' := LoopImage(c, c, tab, f, ipa, pa, size, flags, 0);
      MappedIs(c, ipa, pa, size, flags, 0);
    }
  }

  /** How far a call came: to the end exactly when it answers OK, otherwise up to the page that failed. */
  lemma {:induction false} MappedIs(c: Ctx, ipa: nat, pa: nat, size: nat, flags: bv64, off: nat)
    requires off <= size && Aligned(off, SIZE_4KB) && Aligned(size, SIZE_4KB)
    ensures var done := Mapped(c, ipa, pa, size, flags, off);
            && off <= done <= size && Aligned(done, SIZE_4KB)
            && (Ram4kLoop(c, [], ipa, pa, size, flags, off).1 == OK <==> done == size)
    decreases size - off
  {
    hide MapPage, U64;
    if off < size {
      PageLeft(size, off);
      AlignedSum(off, SIZE_4KB);
      RangeStep(c, ipa, pa, size, flags, off);
      var (c1, e) := MapPage(c, U64(ipa + off), U64(pa + off), flags);
      if e == OK {
        MappedIs(c1, ipa, pa, size, flags, off + SIZE_4KB);
      }
    }
  }

  // ---------------------------------------------------------------- translations after a range

  /** A 2 MiB block is found at `a`. */
  predicate BlockAt(c: Ctx, a: nat) {
    Walk(c, a).Found? && Walk(c, a).level == 2
  }

  /** The translation that belongs to a walk. */
  function Translated(w: WalkResult, a: nat): (Errno, nat) {
    match w
    case Hole => (ENOENT, 0)
    case Corrupt => (EINVAL, 0)
    case Found(level, pa, _) => (OK, pa + a % LevelSize(level))
  }

  /** One address: its translation afterwards. */
  lemma RangeMapping(c: Ctx, c': Ctx, ipa: nat, pa: nat, flags: bv64, done: nat, a: nat)
    requires RangeImage(c, c', ipa, pa, flags, done) && a < Reach(c.geo.start)
    requires done > 0 ==> Aligned(ipa, SIZE_4KB)
    ensures GetMapping(c', a) ==
            if ipa <= a < ipa + done then (OK, pa + (a - ipa))
            else if BlockAt(c, a) && Meets(a, ipa, done) then (ENOENT, 0)
            else GetMapping(c, a)
  {
    hide Meets, Reach;
    assert Walk(c', a) == RangeWalk(Walk(c, a), ipa, pa, flags, done, a);
    assert GetMapping(c', a) == Translated(Walk(c', a), a) && GetMapping(c, a) == Translated(Walk(c, a), a);
    if done > 0 && ipa <= a {
      PageOffset(ipa, a);
    }
  }

  lemma PageOffset(ipa: nat, a: nat)
    requires Aligned(ipa, SIZE_4KB) && ipa <= a
    ensures a % SIZE_4KB <= a - ipa
  {
  }

  lemma BlockTranslates(c: Ctx, a: nat)
    ensures BlockAt(c, a) ==> GetMapping(c, a).0 == OK
  {
  }

  lemma FirstAligned(c: Ctx, ipa: nat, pa: nat, size: nat, flags: bv64)
    requires Mapped(c, ipa, pa, size, flags, 0) > 0 && ipa < U64_MOD
    ensures Aligned(ipa, SIZE_4KB)
  {
    hide MapOne;
    assert Mapped(c, ipa, pa, size, flags, 0) > 0;
    assert U64(ipa + 0) == ipa;
  }

  /** With no size, or one that is not whole pages, nothing happens. */
  lemma BadSize(c: Ctx, ipa: nat, pa: nat, size: nat, flags: bv64)
    requires size == 0 || !Aligned(size, SIZE_4KB)
    ensures MapRange(c, ipa, pa, size, flags) == (c, EINVAL)
  {
  }

  // ---------------------------------------------------------------- one page in a block

  lemma PageImageOf(c: Ctx, tab: Tree, f: Flat, ipa: nat, pa: nat, flags: bv64)
    requires Inv(c, tab) && Refines(c, f) && MapPage(c, ipa, pa, flags).1 == OK
    ensures RangeImage(c, MapPage(c, ipa, pa, flags).0, ipa, pa, flags, SIZE_4KB)
    ensures ipa < Reach(c.geo.start) && Aligned(ipa, SIZE_4KB)
  {
    hide Inv, Refines, RangeImage, MapPage, StatsExact, NoLeak, FlatCheck, Mixed, FlatMap, Reach, Aligned, Pow2;
    AlignedZero();
    GeometryOk(c, tab);
    PageBounds(c, tab, ipa, pa, flags);
    var c1, e, tab1 := StepRefines(c, tab, f, OpMapPage(ipa, pa, flags));
    NothingMapped(c, c, f, ipa, pa, flags);
    MappedPage(c, c, c1, f, ipa, pa, flags, 0);
  }

  lemma AlignedZero()
    ensures Aligned(0, SIZE_4KB)
  {
  }

  lemma PageBounds(c: Ctx, tab: Tree, ipa: nat, pa: nat, flags: bv64)
    requires Inv(c, tab) && MapPage(c, ipa, pa, flags).1 == OK
    ensures ipa < Reach(c.geo.start) && Aligned(ipa, SIZE_4KB)
  {
    hide TreeOk, MapOne, Pow2;
    WithinReach(c.geo);
  }

  /** Another page of the same 2 MiB. */
  function Neighbour(ipa: nat): nat {
    var base := Number(ipa, 2) * SIZE_2MB;
    if ipa < base + SIZE_4KB then base + SIZE_4KB else base
  }

  lemma NeighbourIs(c: Ctx, ipa: nat)
    requires c.geo.start <= 1 && ipa < Reach(c.geo.start)
    ensures var a := Neighbour(ipa);
            && a < Reach(c.geo.start) && Number(a, 2) == Number(ipa, 2) && Meets(a, ipa, SIZE_4KB)
            && (Aligned(ipa, SIZE_4KB) ==> !(ipa <= a < ipa + SIZE_4KB))
  {
  }

  /** A block is found at all of its addresses or at none. */
  lemma BlockWhole(c: Ctx, f: Flat, a: nat, b: nat)
    requires Refines(c, f) && a < Reach(c.geo.start) && b < Reach(c.geo.start) && Number(a, 2) == Number(b, 2)
    ensures BlockAt(c, a) == BlockAt(c, b)
  {
    hide FlatOk, Reach;
  }

  lemma MeetsPage(ipa: nat, a: nat)
    requires Aligned(ipa, SIZE_4KB)
    ensures Meets(a, ipa, SIZE_4KB) <==> Number(a, 2) == Number(ipa, 2)
  {
    OneMorePage(ipa, 0, a);
  }

  /** A successful map_page changes a translation outside its own page if and only if that page lies in a live
      2 MiB block. */
  lemma PageReachesOut(c: Ctx, tab: Tree, f: Flat, ipa: nat, pa: nat, flags: bv64)
    requires Inv(c, tab) && Refines(c, f) && MapPage(c, ipa, pa, flags).1 == OK
    ensures var c' := MapPage(c, ipa, pa, flags).0;
            (exists a: nat ::
               a < Reach(c.geo.start) && !(ipa <= a < ipa + SIZE_4KB) && GetMapping(c', a) != GetMapping(c, a)) <==>
            BlockAt(c, ipa)
  {
    hide Inv, Refines, RangeImage, MapPage, GetMapping, BlockAt, Reach, Number, Meets, Aligned, Neighbour;
    var c' := MapPage(c, ipa, pa, flags).0;
    PageImageOf(c, tab, f, ipa, pa, flags);
    forall a: nat | a < Reach(c.geo.start) && !(ipa <= a < ipa + SIZE_4KB) && GetMapping(c', a) != GetMapping(c, a)
      ensures BlockAt(c, ipa)
    {
      RangeMapping(c, c', ipa, pa, flags, SIZE_4KB, a);
      MeetsPage(ipa, a);
      BlockWhole(c, f, a, ipa);
    }
    if BlockAt(c, ipa) {
      GeometryOk(c, tab);
      var a := Neighbour(ipa);
      NeighbourIs(c, ipa);
      BlockWhole(c, f, a, ipa);
      RangeMapping(c, c', ipa, pa, flags, SIZE_4KB, a);
      BlockTranslates(c, a);
    }
  }

  // ---------------------------------------------------------------- failing inputs

  const RANGE_START: Ctx := Fresh(Geometry(39, 48, 1), 0x1000, [Some(0x2000), Some(0x3000)])

  lemma RangeFreshOk() returns (tab: Tree)
    ensures Inv(RANGE_START, tab) && Refines(RANGE_START, NOTHING)
  {
    tab := FreshOk(Geometry(39, 48, 1), 0x1000, [Some(0x2000), Some(0x3000)]);
  }

  lemma FreshUnmapped(ipa: nat)
    ensures Walk(RANGE_START, ipa) == Hole && GetMapping(RANGE_START, ipa) == (ENOENT, 0)
  {
  }

  /** One table under the root, no page left to allocate, and nothing at the second 2 MiB. */
  predicate Exhausted(c: Ctx) {
    && c.root == 0x1000 && c.geo == RANGE_START.geo && c.alloc == []
    && Entry(c.mem, 0x1000, 0) == Table(0x2000) && Entry(c.mem, 0x2000, 1) == Invalid
  }

  lemma NoMorePages(c: Ctx, pa: nat)
    requires Exhausted(c) && Aligned(pa, SIZE_4KB) && pa < 0x1_0000_0000
    ensures MapPage(c, 0x20_0000, pa, ACCESS_READ).1 == ENOMEM
  {
    hide Descend, Pow2;
    PowLimits();
    PowGrows(32, 48);
    NoDescent(c);
  }

  lemma NoDescent(c: Ctx)
    requires Exhausted(c)
    ensures Descend(c, 0x1000, 1, 3, 0x20_0000).1 == None
  {
    assert Index(0x20_0000, 1) == 0 && Index(0x20_0000, 2) == 1;
    assert Descend(c, 0x2000, 2, 3, 0x20_0000).1 == None;
  }

  /** A write to one table is not seen in another. */
  lemma OtherEntry(mem: Heap)
    ensures forall i: nat, j: nat, d: Desc ::
              && Entry(SetEntry(mem, 0x3000, i, d), 0x1000, j) == Entry(mem, 0x1000, j)
              && Entry(SetEntry(mem, 0x3000, i, d), 0x2000, j) == Entry(mem, 0x2000, j)
  {
  }

  lemma FirstDescend() returns (d: Ctx)
    ensures Descend(RANGE_START, 0x1000, 1, 3, 0x1f_f000) == (d, Some(0x3000)) && Exhausted(d)
  {
    var c0 := RANGE_START;
    assert Index(0x1f_f000, 1) == 0 && Index(0x1f_f000, 2) == 0;
    var d1 := GetOrCreate(c0, 0x1000, 0).0;
    assert d1.alloc == [Some(0x3000)];
    d := GetOrCreate(d1, 0x2000, 0).0;
    assert Descend(d1, 0x2000, 2, 3, 0x1f_f000) == (d, Some(0x3000));
    assert Descend(c0, 0x1000, 1, 3, 0x1f_f000) == (d, Some(0x3000));
  }

  lemma FirstOfTwo()
    ensures var (c, e) := MapPage(RANGE_START, 0x1f_f000, 0, ACCESS_READ); e == OK && Exhausted(c)
  {
    hide Descend, Pow2, SetEntry;
    var d := FirstDescend();
    PowLimits();
    OtherEntry(d.mem);
  }

  /** The two pages of a range across the boundary at 2 MiB, when only the first can be mapped. */
  lemma TwoPages(c: Ctx, pa: nat)
    requires pa + SIZE_4KB < 0x1_0000_0000 && Aligned(pa, SIZE_4KB)
    requires var (c1, e) := MapPage(c, 0x1f_f000, pa, ACCESS_READ); e == OK && Exhausted(c1)
    ensures MapRange(c, 0x1f_f000, pa, 0x2000, ACCESS_READ).1 == ENOMEM
    ensures Done(c, 0x1f_f000, pa, 0x2000, ACCESS_READ) == SIZE_4KB
  {
    hide MapPage, Exhausted, Pow2;
    var c1 := MapPage(c, 0x1f_f000, pa, ACCESS_READ).0;
    AlignedSum(pa, SIZE_4KB);
    NoMorePages(c1, pa + SIZE_4KB);
    assert U64(pa + 0) == pa && U64(pa + SIZE_4KB) == pa + SIZE_4KB;
    RangeStep(c, 0x1f_f000, pa, 0x2000, ACCESS_READ, 0);
    RangeStep(c1, 0x1f_f000, pa, 0x2000, ACCESS_READ, SIZE_4KB);
    assert Mapped(c1, 0x1f_f000, pa, 0x2000, ACCESS_READ, SIZE_4KB) == SIZE_4KB;
  }

  /** On a fresh context, with table pages for the first page only: the call fails and that page stays mapped. */
  lemma RangeKeepsPrefix()
    ensures var (c, e) := MapRange(RANGE_START, 0x1f_f000, 0, 0x2000, ACCESS_READ);
            e == ENOMEM && GetMapping(RANGE_START, 0x1f_f000).0 == ENOENT && GetMapping(c, 0x1f_f000) == (OK, 0)
  {
    hide MapPage, Inv, Refines, RangeImage, GetMapping, MapRange, Done, Exhausted;
    FirstOfTwo();
    TwoPages(RANGE_START, 0);
    var tab := RangeFreshOk();
    FreshUnmapped(0x1f_f000);
    var tab', f' := RangeResult(RANGE_START, tab, NOTHING, 0x1f_f000, 0, 0x2000, ACCESS_READ);
    var c := MapRange(RANGE_START, 0x1f_f000, 0, 0x2000, ACCESS_READ).0;
    RangeMapping(RANGE_START, c, 0x1f_f000, 0, ACCESS_READ, SIZE_4KB, 0x1f_f000);
  }

  /** A context with one block at IPA 0. */
  function OneBlock(): Ctx {
    MapHugePage(RANGE_START, 0, 0, ACCESS_READ).0
  }

  lemma BlockStart()
    ensures var (c, e) := MapHugePage(RANGE_START, 0, 0, ACCESS_READ);
            && e == OK && c.root == 0x1000 && c.geo == RANGE_START.geo && c.alloc == [Some(0x3000)]
            && 0x1000 in c.mem && 0x2000 in c.mem && |c.mem[0x2000]| == ENTRIES
            && Entry(c.mem, 0x1000, 0) == Table(0x2000) && Entry(c.mem, 0x2000, 0) == Leaf(0, ACCESS_READ)
            && Entry(c.mem, 0x2000, 1) == Invalid
  {
    hide Descend, Pow2;
    PowLimits();
    var d := BlockDescend();
  }

  lemma BlockDescend() returns (d: Ctx)
    ensures Descend(RANGE_START, 0x1000, 1, 2, 0) == (d, Some(0x2000))
    ensures d.root == 0x1000 && d.geo == RANGE_START.geo && d.alloc == [Some(0x3000)]
    ensures 0x1000 in d.mem && 0x2000 in d.mem && |d.mem[0x2000]| == ENTRIES
    ensures Entry(d.mem, 0x1000, 0) == Table(0x2000) && Entry(d.mem, 0x2000, 1) == Invalid
  {
    d := GetOrCreate(RANGE_START, 0x1000, 0).0;
    assert d.alloc == [Some(0x3000)];
    assert Descend(RANGE_START, 0x1000, 1, 2, 0) == (d, Some(0x2000));
  }

  lemma IntoBlockDescend() returns (d: Ctx)
    ensures Descend(OneBlock(), 0x1000, 1, 3, 0x1f_f000) == (d, Some(0x3000)) && Exhausted(d)
  {
    hide MapHugePage;
    BlockStart();
    var c := OneBlock();
    assert Index(0x1f_f000, 1) == 0 && Index(0x1f_f000, 2) == 0;
    assert GetOrCreate(c, 0x1000, 0) == (c, Some(0x2000));
    d := GetOrCreate(c, 0x2000, 0).0;
    assert GetOrCreate(c, 0x2000, 0).1 == Some(0x3000);
    assert Descend(c, 0x2000, 2, 3, 0x1f_f000) == (d, Some(0x3000));
  }

  lemma IntoBlock()
    ensures var (c, e) := MapPage(OneBlock(), 0x1f_f000, 0x1f_f000, ACCESS_READ); e == OK && Exhausted(c)
  {
    hide Descend, Pow2, SetEntry, MapHugePage;
    BlockStart();
    var d := IntoBlockDescend();
    PowLimits();
    OtherEntry(d.mem);
  }

  lemma BlockTree() returns (tab: Tree, f: Flat)
    ensures Inv(OneBlock(), tab) && Refines(OneBlock(), f)
  {
    hide Inv, Refines, MapHugePage, StatsExact, NoLeak, FlatCheck, Mixed, FlatStep;
    var tab0 := RangeFreshOk();
    var c, e, tab1 := StepRefines(RANGE_START, tab0, NOTHING, OpMapHuge(0, 0, ACCESS_READ));
    tab, f := tab1, FlatStep(RANGE_START.geo, NOTHING, OpMapHuge(0, 0, ACCESS_READ), e);
  }

  lemma BlockFound(a: nat)
    requires a < SIZE_2MB
    ensures Walk(OneBlock(), a) == Found(2, 0, ACCESS_READ) && GetMapping(OneBlock(), a) == (OK, a)
  {
    hide MapHugePage;
    BlockStart();
    assert Index(a, 1) == 0 && Index(a, 2) == 0;
    var c := OneBlock();
    assert WalkFrom(c.mem, 0x2000, 2, a) == Found(2, 0, ACCESS_READ);
  }

  /** A 2 MiB block at IPA 0, then a range of two pages that starts with the block's last page, at the place it
      already goes to: the call fails, and IPA 0, which it never named, is no longer mapped. */
  lemma RangeLosesBlock()
    ensures var c := OneBlock();
            var (c', e) := MapRange(c, 0x1f_f000, 0x1f_f000, 0x2000, ACCESS_READ);
            && GetMapping(c, 0x1f_f000) == (OK, 0x1f_f000) && GetMapping(c, 0) == (OK, 0)
            && e == ENOMEM && GetMapping(c', 0) == (ENOENT, 0)
  {
    hide MapPage, Inv, Refines, RangeImage, GetMapping, MapRange, Done, Exhausted, OneBlock;
    IntoBlock();
    TwoPages(OneBlock(), 0x1f_f000);
    var tab, f := BlockTree();
    BlockFound(0);
    BlockFound(0x1f_f000);
    var tab', f' := RangeResult(OneBlock(), tab, f, 0x1f_f000, 0x1f_f000, 0x2000, ACCESS_READ);
    RangeMapping(OneBlock(), MapRange(OneBlock(), 0x1f_f000, 0x1f_f000, 0x2000, ACCESS_READ).0, 0x1f_f000, 0x1f_f000,
                 ACCESS_READ, SIZE_4KB, 0);
  }

  /** Already the one page does it, and answers OK. */
  lemma PageLosesBlock()
    ensures var c := OneBlock();
            var (c', e) := MapPage(c, 0x1f_f000, 0x1f_f000, ACCESS_READ);
            e == OK && GetMapping(c, 0) == (OK, 0) && GetMapping(c', 0) == (ENOENT, 0)
  {
    hide MapPage, Inv, Refines, RangeImage, GetMapping, Exhausted, OneBlock;
    IntoBlock();
    var tab, f := BlockTree();
    BlockFound(0);
    PageImageOf(OneBlock(), tab, f, 0x1f_f000, 0x1f_f000, ACCESS_READ);
    RangeMapping(OneBlock(), MapPage(OneBlock(), 0x1f_f000, 0x1f_f000, ACCESS_READ).0, 0x1f_f000, 0x1f_f000,
                 ACCESS_READ, SIZE_4KB, 0);
  }
}

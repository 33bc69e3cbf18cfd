/** What map_page, map_huge_page and unmap_page do to translations, statistics and table pages, for
    single calls and for whole runs.
*/
module Stage2Runs {
  import opened Arithmetic
  import opened Stage2Tables
  import opened Stage2Refinement

  // ---------------------------------------------------------------- mapping

  /** Does s2_map_one find its leaf entry invalid, and so count the new leaf? */
  predicate Counted(c: Ctx, f: Flat, ipa: nat, leaf: nat) {
    if leaf == 3 then Number(ipa, 3) !in f.pages else Number(ipa, 2) !in f.blocks && !TableBelow(c, ipa)
  }

  /** What a leaf-level entry of the tree says about the walk through it. */
  lemma EntryWalk(c: Ctx, tab: Tree, ipa: nat, leaf: nat)
    requires TreeOk(c.mem, tab, c.geo.start, c.root) && 2 <= leaf <= 3 && ipa < Reach(c.geo.start)
    requires SlotOf(ipa, leaf) in tab
    ensures var e := Entry(c.mem, tab[SlotOf(ipa, leaf)], Index(ipa, leaf));
            && (e.Invalid? ==> Walk(c, ipa) == Hole)
            && (e.Leaf? ==> Walk(c, ipa) == Found(leaf, e.pa, e.flags))
            && (e.Table? <==> leaf == 2 && SlotOf(ipa, 3) in tab)
  {
    var s, i := SlotOf(ipa, leaf), Index(ipa, leaf);
    WalkReaches(c.mem, tab, c.geo.start, c.root, ipa, leaf);
    assert EntryOk(c.mem, tab, s, i);
    if leaf == 2 {
      SlotStep(ipa, 2);
      ChildParent(s, i);
      assert Child(s, i) in tab ==> Linked(c.mem, tab, c.geo.start, Child(s, i));
    }
  }

  lemma BelowIsSlot(c: Ctx, tab: Tree, ipa: nat)
    requires TreeOk(c.mem, tab, c.geo.start, c.root) && ipa < Reach(c.geo.start)
    ensures TableBelow(c, ipa) <==> SlotOf(ipa, 3) in tab
  {
    RootSlot(ipa, c.geo.start);
    TableAtSlot(c.mem, tab, c.geo.start, c.root, Slot(c.geo.start, 0), ipa);
  }

  /** After the descent, the leaf entry is invalid exactly when the flat view says the leaf is new. */
  lemma LeafEntryBefore(c: Ctx, tab: Tree, f: Flat, ipa: nat, leaf: nat, c1: Ctx, tab1: Tree)
    requires Inv(c, tab) && Refines(c, f) && 2 <= leaf <= 3 && ipa < Reach(c.geo.start)
    requires Inv(c1, tab1) && c1 == c.(mem := c1.mem, alloc := c1.alloc)
    requires SlotOf(ipa, leaf) in tab1 && tab.Keys <= tab1.Keys && (forall u <- tab1 :: u in tab || u.level <= leaf)
    requires Walk(c1, ipa) == if leaf == 3 then Cleared(Walk(c, ipa), ipa, ipa) else Walk(c, ipa)
    ensures Entry(c1.mem, tab1[SlotOf(ipa, leaf)], Index(ipa, leaf)).Invalid? <==> Counted(c, f, ipa, leaf)
    ensures Entry(c1.mem, tab1[SlotOf(ipa, leaf)], Index(ipa, leaf)).Table? <==> leaf == 2 && TableBelow(c, ipa)
  {
    hide Inv, TreeOk, TableBelow, Walk, Entry, Index;
    InvRoot(c, tab);
    InvRoot(c1, tab1);
    EntryWalk(c1, tab1, ipa, leaf);
    BelowIsSlot(c, tab, ipa);
    assert Walk(c, ipa) == FlatWalk(f, ipa);
    BelowTable(c, tab, f, ipa);
    SlotStep(ipa, 2);
  }

  /** Under an L3 table no block translates. */
  lemma BelowTable(c: Ctx, tab: Tree, f: Flat, ipa: nat)
    requires Inv(c, tab) && Refines(c, f) && ipa < Reach(c.geo.start)
    ensures SlotOf(ipa, 3) in tab ==> Number(ipa, 2) !in f.blocks
  {
    if SlotOf(ipa, 3) in tab {
      assert Walk(c, ipa) == FlatWalk(f, ipa);
      WalkReaches(c.mem, tab, c.geo.start, c.root, ipa, 3);
      assert EntryOk(c.mem, tab, SlotOf(ipa, 3), Index(ipa, 3));
    }
  }

  lemma FlatMapWalks(f: Flat, start: nat, ipa: nat, pa: nat, flags: bv64, leaf: nat)
    requires FlatOk(f, start) && 2 <= leaf <= 3 && ipa < Reach(start) && start <= 1
    ensures FlatOk(FlatMap(f, ipa, pa, flags, leaf), start)
    ensures forall a: nat | a < Reach(start) ::
              FlatWalk(FlatMap(f, ipa, pa, flags, leaf), a)
              == if Number(a, leaf) == Number(ipa, leaf) then Found(leaf, pa, flags)
                 else if leaf == 3 then Cleared(FlatWalk(f, a), a, ipa) else FlatWalk(f, a)
  {
    forall a: nat
      ensures Number(a, 3) / ENTRIES == Number(a, 2)
    {
      SlotStep(a, 2);
    }
  }

  lemma HitsNumber(a: nat, ipa: nat, leaf: nat)
    ensures Hits(a, SlotOf(ipa, leaf), Index(ipa, leaf)) <==> Number(a, leaf) == Number(ipa, leaf)
  {
  }

  /** The leaf write that ends s2_map_one, after a descent that left the walks of `f` but for a cleared block. */
  lemma WriteLeafRefines(c1: Ctx, tab1: Tree, f: Flat, ipa: nat, pa: nat, flags: bv64, leaf: nat)
      returns (tab': Tree)
    requires Inv(c1, tab1) && FlatOk(f, c1.geo.start) && 2 <= leaf <= 3 && SlotOf(ipa, leaf) in tab1
    requires ipa < Reach(c1.geo.start) && pa % LevelSize(leaf) == 0
    requires forall a: nat | a < Reach(c1.geo.start) ::
               Walk(c1, a) == if leaf == 3 then Cleared(FlatWalk(f, a), a, ipa) else FlatWalk(f, a)
    ensures var c' := WriteLeaf(c1, tab1[SlotOf(ipa, leaf)], ipa, pa, flags, leaf);
            && Inv(c', tab') && Refines(c', FlatMap(f, ipa, pa, flags, leaf))
            && c'.mem.Keys == c1.mem.Keys && tab' == tab1 - {Child(SlotOf(ipa, leaf), Index(ipa, leaf))}
  {
    var s, i, d := SlotOf(ipa, leaf), Index(ipa, leaf), Leaf(pa, flags);
    var start := c1.geo.start;
    PutEntryWalks(c1.mem, tab1, start, c1.root, s, i, d);
    FlatMapWalks(f, start, ipa, pa, flags, leaf);
    tab' := PutEntry(c1.mem, tab1, start, c1.root, s, i, d);
    var c' := WriteLeaf(c1, tab1[s], ipa, pa, flags, leaf);
    forall a: nat | a < Reach(start)
      ensures Walk(c', a) == FlatWalk(FlatMap(f, ipa, pa, flags, leaf), a)
    {
      HitsNumber(a, ipa, leaf);
    }
  }

  lemma InvRoot(c: Ctx, tab: Tree)
    requires Inv(c, tab)
    ensures c.geo.start <= 1 && Slot(c.geo.start, 0) in tab && tab[Slot(c.geo.start, 0)] == c.root
    ensures TreeOk(c.mem, tab, c.geo.start, c.root)
  {
  }

  lemma MapOneLeaks(c: Ctx, tab: Tree, c1: Ctx, tab1: Tree, ipa: nat, pa: nat, flags: bv64, leaf: nat)
    requires TreeOk(c1.mem, tab1, c1.geo.start, c1.root) && SlotOf(ipa, leaf) in tab1
    requires Entry(c1.mem, tab1[SlotOf(ipa, leaf)], Index(ipa, leaf)).Table? <==> leaf == 2 && TableBelow(c, ipa)
    requires NoLeak(c.mem, tab) ==> NoLeak(c1.mem, tab1)
    requires leaf == 2 || leaf == 3
    ensures var mem' := WriteLeaf(c1, tab1[SlotOf(ipa, leaf)], ipa, pa, flags, leaf).mem;
            var tab' := tab1 - {Child(SlotOf(ipa, leaf), Index(ipa, leaf))};
            NoLeak(c.mem, tab) ==> (NoLeak(mem', tab') <==> leaf == 3 || !TableBelow(c, ipa))
  {
    hide TableBelow;
    var s, i := SlotOf(ipa, leaf), Index(ipa, leaf);
    if leaf == 3 || !TableBelow(c, ipa) {
      UnlinkedChild(c1.mem, tab1, c1.geo.start, c1.root, s, i);
      assert tab1 - {Child(s, i)} == tab1;
    } else {
      ChildGone(c1.mem, tab1, c1.geo.start, c1.root, s, i);
    }
  }

  /** Dropping the table behind an entry leaves its page without a home. */
  lemma ChildGone(mem: Heap, tab: Tree, start: nat, root: nat, s: Slot, i: nat)
    requires TreeOk(mem, tab, start, root) && s in tab && i < ENTRIES && Entry(mem, tab[s], i).Table?
    ensures Child(s, i) in tab && tab[Child(s, i)] in mem && !HasHome(tab - {Child(s, i)}, tab[Child(s, i)])
  {
    assert EntryOk(mem, tab, s, i);
    hide EntryOk, Linked;
  }

  /** s2_map_one refines adding one leaf to the flat view; running out of pages changes nothing there. */
  lemma MapOneRefines(c: Ctx, tab: Tree, f: Flat, ipa: nat, pa: nat, flags: bv64, leaf: nat)
      returns (c': Ctx, ret: Errno, tab': Tree)
    requires Inv(c, tab) && Refines(c, f) && 2 <= leaf <= 3
    requires ipa < Reach(c.geo.start) && pa % LevelSize(leaf) == 0
    ensures (c', ret) == MapOne(c, ipa, pa, flags, leaf)
    ensures Inv(c', tab')
    ensures ret == OK || ret == ENOMEM
    ensures c'.geo == c.geo
    ensures Refines(c', if ret == OK then FlatMap(f, ipa, pa, flags, leaf) else f)
    ensures c'.stats == if ret == OK && Counted(c, f, ipa, leaf) then CountMapped(c.stats, leaf) else c.stats
    ensures NoLeak(c.mem, tab) ==> (NoLeak(c'.mem, tab') <==> ret != OK || leaf == 3 || !TableBelow(c, ipa))
  {
    hide Inv, TreeOk, TableBelow, CountMapped, FlatMap, NoLeak, Counted, Cleared, FlatWalk, Walk;
    var (c1, r) := Descend(c, c.root, c.geo.start, leaf, ipa);
    InvRoot(c, tab);
    RootSlot(ipa, c.geo.start);
    tab' := DescendWalks(c, tab, Slot(c.geo.start, 0), leaf, ipa);
    c', ret := c1, ENOMEM;
    if r.Some? {
      var tab1 := tab';
      InvRoot(c1, tab1);
      LeafEntryBefore(c, tab, f, ipa, leaf, c1, tab1);
      c', ret := WriteLeaf(c1, r.value, ipa, pa, flags, leaf), OK;
      MapOneLeaks(c, tab, c1, tab1, ipa, pa, flags, leaf);
      tab' := WriteLeafRefines(c1, tab1, f, ipa, pa, flags, leaf);
    }
  }

  lemma UnlinkedChild(mem: Heap, tab: Tree, start: nat, root: nat, s: Slot, i: nat)
    requires TreeOk(mem, tab, start, root) && s in tab && i < ENTRIES && !Entry(mem, tab[s], i).Table?
    ensures Child(s, i) !in tab
  {
    ChildParent(s, i);
    assert Child(s, i) in tab ==> Linked(mem, tab, start, Child(s, i));
  }

  // ---------------------------------------------------------------- unmapping

  lemma FoldIndex(start: nat, level: nat, ipa: nat)
    requires start <= 1 && start <= level <= 3
    ensures Index(Fold(start, ipa), level) == Index(ipa, level)
    ensures Fold(start, ipa) % LevelSize(level) == ipa % LevelSize(level)
  {
    var q, a := ipa / Reach(start), Fold(start, ipa);
    var size := LevelSize(level);
    var m := LevelSize(start) / size;
    assert Reach(start) == ENTRIES * m * size;
    assert ipa == a + q * Reach(start);
    assert q * Reach(start) == q * m * ENTRIES * size;
    DivShift(a, q * m * ENTRIES, size);
    DivShift(a / size, q * m, ENTRIES);
  }

  lemma {:induction false} WalkFolds(mem: Heap, t: nat, start: nat, level: nat, leaf: nat, ipa: nat)
    requires start <= 1 && start <= level
    ensures WalkFrom(mem, t, level, Fold(start, ipa)) == WalkFrom(mem, t, level, ipa)
    ensures leaf <= 3 ==> LeafTable(mem, t, level, leaf, Fold(start, ipa)) == LeafTable(mem, t, level, leaf, ipa)
    decreases 4 - level
  {
    if level < 4 {
      FoldIndex(start, level, ipa);
      var e := Entry(mem, t, Index(ipa, level));
      WalkFolds(mem, if e.Table? then e.child else t, start, level + 1, leaf, ipa);
    }
  }

  /** Every walk ends in a hole or at a leaf of a linked table, and unmap_page's second descent finds that table. */
  lemma {:induction false} WalkEnds(mem: Heap, tab: Tree, start: nat, root: nat, s: Slot, a: nat)
    requires TreeOk(mem, tab, start, root) && s in tab && s == SlotOf(a, s.level)
    ensures var w := WalkFrom(mem, tab[s], s.level, a);
            && !w.Corrupt?
            && (w.Found? ==>
                  && 2 <= w.level <= 3 && s.level <= w.level && SlotOf(a, w.level) in tab
                  && LeafTable(mem, tab[s], s.level, w.level, a) == tab[SlotOf(a, w.level)]
                  && Entry(mem, tab[SlotOf(a, w.level)], Index(a, w.level)) == Leaf(w.pa, w.flags))
    decreases 4 - s.level
  {
    hide SlotOf, Index;
    var i := Index(a, s.level);
    assert EntryOk(mem, tab, s, i);
    if Entry(mem, tab[s], i).Table? {
      SlotStep(a, s.level);
      WalkEnds(mem, tab, start, root, Child(s, i), a);
    }
  }

  lemma FlatUnmapWalks(f: Flat, start: nat, a: nat)
    requires FlatOk(f, start)
    ensures FlatOk(FlatUnmap(f, a), start)
    ensures var w := FlatWalk(f, a);
            forall b: nat :: FlatWalk(FlatUnmap(f, a), b) ==
              if w.Found? && Number(b, w.level) == Number(a, w.level) then Hole else FlatWalk(f, b)
  {
    forall b: nat
      ensures Number(b, 3) / ENTRIES == Number(b, 2)
    {
      SlotStep(b, 2);
    }
  }

  lemma ClearLeafRefines(c: Ctx, tab: Tree, f: Flat, a: nat)
    requires Inv(c, tab) && Refines(c, f) && a < Reach(c.geo.start) && FlatWalk(f, a).Found?
    ensures var level := FlatWalk(f, a).level;
            && 2 <= level <= 3 && SlotOf(a, level) in tab
            && LeafTable(c.mem, c.root, c.geo.start, level, a) == tab[SlotOf(a, level)]
            && var mem' := SetEntry(c.mem, tab[SlotOf(a, level)], Index(a, level), Invalid);
            && TreeOk(mem', tab, c.geo.start, c.root)
            && forall b: nat | b < Reach(c.geo.start) ::
                  WalkFrom(mem', c.root, c.geo.start, b) == FlatWalk(FlatUnmap(f, a), b)
  {
    var start := c.geo.start;
    RootSlot(a, start);
    WalkEnds(c.mem, tab, start, c.root, Slot(start, 0), a);
    var w := FlatWalk(f, a);
    assert Walk(c, a) == w;
    var s, i := SlotOf(a, w.level), Index(a, w.level);
    PutEntryWalks(c.mem, tab, start, c.root, s, i, Invalid);
    FlatUnmapWalks(f, start, a);
    var tab' := PutEntry(c.mem, tab, start, c.root, s, i, Invalid);
    assert tab' == tab;
    forall b: nat | b < Reach(start)
      ensures Hits(b, s, i) <==> Number(b, w.level) == Number(a, w.level)
    {
      HitsNumber(b, a, w.level);
    }
  }

  /** unmap_page in terms of the flat view and the folded address. */
  lemma UnmapIs(c: Ctx, f: Flat, ipa: nat)
    requires c.geo.Valid() && Refines(c, f)
    ensures var a := Fold(c.geo.start, ipa);
            var w := FlatWalk(f, a);
            var t := LeafTable(c.mem, c.root, c.geo.start, if w.Found? then w.level else 0, a);
            UnmapPage(c, ipa) ==
              if !w.Found? then (c, OK)
              else if !Aligned(ipa, LevelSize(w.level)) then (c, EINVAL)
              else
                var mem' := SetEntry(c.mem, t, Index(a, w.level), Invalid);
                (c.(mem := mem', stats := CountUnmapped(c.stats, w.level)), OK)
  {
    var start := c.geo.start;
    var a := Fold(start, ipa);
    var w := FlatWalk(f, a);
    assert Walk(c, a) == w;
    WalkFolds(c.mem, c.root, start, start, if w.Found? then w.level else 0, ipa);
    if w.Found? {
      FoldIndex(start, w.level, ipa);
    }
  }

  /** unmap_page refines removing the leaf at the folded address; anything else changes nothing. */
  lemma UnmapRefines(c: Ctx, tab: Tree, f: Flat, ipa: nat) returns (c': Ctx, ret: Errno)
    requires Inv(c, tab) && Refines(c, f)
    ensures (c', ret) == UnmapPage(c, ipa)
    ensures Inv(c', tab)
    ensures ret == FlatCheck(c.geo, f, OpUnmap(ipa))
    ensures c'.geo == c.geo && c'.mem.Keys == c.mem.Keys
    ensures Refines(c', FlatStep(c.geo, f, OpUnmap(ipa), ret))
    ensures var w := FlatWalk(f, Fold(c.geo.start, ipa));
            c'.stats == if ret == OK && w.Found? then CountUnmapped(c.stats, w.level) else c.stats
  {
    hide UnmapPage, LeafTable, CountUnmapped, TreeOk, Fold;
    var a := Fold(c.geo.start, ipa);
    UnmapIs(c, f, ipa);
    c', ret := UnmapPage(c, ipa).0, UnmapPage(c, ipa).1;
    if FlatWalk(f, a).Found? && ret == OK {
      ClearLeafRefines(c, tab, f, a);
      FlatUnmapWalks(f, c.geo.start, a);
    }
  }

  // ---------------------------------------------------------------- statistics

  /** The counters equal the number of leaves, and total_mapped their byte sum. */
  ghost predicate StatsExact(st: Stats, f: Flat) {
    && st.pages4k == |f.pages.Keys|
    && st.pages2m == |f.blocks.Keys|
    && st.total == SIZE_4KB * |f.pages.Keys| + SIZE_2MB * |f.blocks.Keys|
  }

  /** The counters stay far below 2^64. */
  lemma FlatSmall(f: Flat, start: nat)
    requires FlatOk(f, start) && start <= 1
    ensures |f.pages.Keys| <= 0x10_0000_0000 && |f.blocks.Keys| <= 0x800_0000
  {
    BoundedCard(f.pages.Keys, Reach(start) / SIZE_4KB);
    BoundedCard(f.blocks.Keys, Reach(start) / SIZE_2MB);
  }

  lemma PageWalk(f: Flat, start: nat, n: nat)
    requires FlatOk(f, start) && n in f.pages
    ensures var a := n * SIZE_4KB; a < Reach(start) && FlatWalk(f, a).Found? && FlatWalk(f, a).level == 3
  {
    var a := n * SIZE_4KB;
    assert Number(a, 3) == n;
    assert Number(a, 2) == n / ENTRIES;
  }

  /** A page of the flat view sits in a linked L3 table. */
  lemma PageHasTable(c: Ctx, tab: Tree, f: Flat, n: nat)
    requires Inv(c, tab) && Refines(c, f) && n in f.pages
    ensures Slot(3, n / ENTRIES) in tab
  {
    hide FlatOk, TreeOk, FlatWalk;
    var start, a := c.geo.start, n * SIZE_4KB;
    PageWalk(f, start, n);
    assert Walk(c, a) == FlatWalk(f, a);
    RootSlot(a, start);
    RootLinked(c, tab);
    WalkEnds(c.mem, tab, start, c.root, Slot(start, 0), a);
    assert SlotOf(a, 3) == Slot(3, n / ENTRIES);
  }

  lemma RootLinked(c: Ctx, tab: Tree)
    requires Inv(c, tab)
    ensures Slot(c.geo.start, 0) in tab && tab[Slot(c.geo.start, 0)] == c.root && c.geo.start <= 1
  {
  }

  /** Where the level-2 entry is no table, the flat view has no page in that 2 MiB. */
  lemma NoTableNoPages(c: Ctx, tab: Tree, f: Flat, ipa: nat)
    requires Inv(c, tab) && Refines(c, f) && ipa < Reach(c.geo.start) && !TableBelow(c, ipa)
    ensures forall n <- f.pages :: n / ENTRIES != Number(ipa, 2)
  {
    hide Refines, TreeOk;
    var start := c.geo.start;
    RootLinked(c, tab);
    RootSlot(ipa, start);
    TableAtSlot(c.mem, tab, start, c.root, Slot(start, 0), ipa);
    assert SlotOf(ipa, 3) == Slot(3, Number(ipa, 2));
    forall n <- f.pages
      ensures n / ENTRIES != Number(ipa, 2)
    {
      PageHasTable(c, tab, f, n);
    }
  }

  lemma CardPlus(m: map<nat, Pte>, x: nat, v: Pte)
    ensures |m[x := v].Keys| == |m.Keys| + if x in m then 0 else 1
  {
    assert m[x := v].Keys == m.Keys + {x};
    if x in m {
      assert m.Keys + {x} == m.Keys;
    }
  }

  lemma CardMinus(m: map<nat, Pte>, x: nat)
    ensures |(m - {x}).Keys| == |m.Keys| - if x in m then 1 else 0
  {
    assert (m - {x}).Keys == m.Keys - {x};
    if x !in m {
      assert m.Keys - {x} == m.Keys;
    }
  }

  lemma PageAdded(f: Flat, ipa: nat, pa: nat, flags: bv64)
    ensures var g := FlatMap(f, ipa, pa, flags, 3);
            && |g.pages.Keys| == |f.pages.Keys| + (if Number(ipa, 3) in f.pages then 0 else 1)
            && |g.blocks.Keys| == |f.blocks.Keys| - (if Number(ipa, 2) in f.blocks then 1 else 0)
  {
    CardPlus(f.pages, Number(ipa, 3), Pte(pa, flags));
    CardMinus(f.blocks, Number(ipa, 2));
  }

  lemma BlockAdded(f: Flat, ipa: nat, pa: nat, flags: bv64)
    ensures var g := FlatMap(f, ipa, pa, flags, 2);
            && |g.blocks.Keys| == |f.blocks.Keys| + (if Number(ipa, 2) in f.blocks then 0 else 1)
            && ((forall n <- f.pages :: n / ENTRIES != Number(ipa, 2)) ==> g.pages.Keys == f.pages.Keys)
  {
    var g := FlatMap(f, ipa, pa, flags, 2);
    CardPlus(f.blocks, Number(ipa, 2), Pte(pa, flags));
  }

  /** Below 2^60 no counter wraps. */
  lemma CountUp(st: Stats, leaf: nat)
    requires st.pages4k < 0x1000_0000_0000_0000 && st.pages2m < 0x1000_0000_0000_0000
    requires st.total < 0x1000_0000_0000_0000
    ensures CountMapped(st, leaf) ==
              Stats(if leaf == 3 then st.pages4k + 1 else st.pages4k, if leaf == 3 then st.pages2m else st.pages2m + 1,
                    st.total + LevelSize(leaf))
  {
  }

  /** A counter that is large enough does not wrap downwards. */
  lemma CountDown(st: Stats, level: nat)
    requires st.pages4k < U64_MOD && st.pages2m < U64_MOD && LevelSize(level) <= st.total < U64_MOD
    requires if level == 3 then st.pages4k > 0 else st.pages2m > 0
    ensures CountUnmapped(st, level) ==
              Stats(if level == 3 then st.pages4k - 1 else st.pages4k,
                    if level == 3 then st.pages2m else st.pages2m - 1,
                    st.total - LevelSize(level))
  {
  }

  /** A successful 4 KiB map keeps the counters exact if and only if it does not land in a live block. */
  lemma MapPageStats(f: Flat, start: nat, st: Stats, ipa: nat, pa: nat, flags: bv64)
    requires FlatOk(f, start) && start <= 1 && StatsExact(st, f)
    ensures StatsExact(if Number(ipa, 3) !in f.pages then CountMapped(st, 3) else st, FlatMap(f, ipa, pa, flags, 3))
            <==> Number(ipa, 2) !in f.blocks
  {
    FlatSmall(f, start);
    CountUp(st, 3);
    PageAdded(f, ipa, pa, flags);
    SlotStep(ipa, 2);
  }

  /** A successful 2 MiB map keeps the counters exact if and only if its L2 entry held no table. */
  lemma MapHugeStats(c: Ctx, tab: Tree, f: Flat, ipa: nat, pa: nat, flags: bv64)
    requires Inv(c, tab) && Refines(c, f) && ipa < Reach(c.geo.start)
    requires StatsExact(c.stats, f)
    ensures var st := if Counted(c, f, ipa, 2) then CountMapped(c.stats, 2) else c.stats;
            StatsExact(st, FlatMap(f, ipa, pa, flags, 2)) <==> !TableBelow(c, ipa)
  {
    FlatSmall(f, c.geo.start);
    CountUp(c.stats, 2);
    BlockAdded(f, ipa, pa, flags);
    if TableBelow(c, ipa) {
      RootSlot(ipa, c.geo.start);
      TableAtSlot(c.mem, tab, c.geo.start, c.root, Slot(c.geo.start, 0), ipa);
      BelowTable(c, tab, f, ipa);
    } else {
      NoTableNoPages(c, tab, f, ipa);
    }
  }

  lemma LeafRemoved(f: Flat, a: nat)
    requires FlatWalk(f, a).Found?
    ensures var g := FlatUnmap(f, a);
            if FlatWalk(f, a).level == 3 then |g.pages.Keys| == |f.pages.Keys| - 1 && g.blocks == f.blocks
            else |g.blocks.Keys| == |f.blocks.Keys| - 1 && g.pages == f.pages
  {
    CardMinus(f.pages, Number(a, 3));
    CardMinus(f.blocks, Number(a, 2));
  }

  /** Removing a leaf that is there never underflows an exact counter and keeps it exact. */
  lemma UnmapStats(f: Flat, start: nat, st: Stats, a: nat)
    requires FlatOk(f, start) && start <= 1 && StatsExact(st, f) && FlatWalk(f, a).Found?
    ensures var level := FlatWalk(f, a).level;
            && st.total >= LevelSize(level) && (if level == 3 then st.pages4k > 0 else st.pages2m > 0)
            && StatsExact(CountUnmapped(st, level), FlatUnmap(f, a))
  {
    FlatSmall(f, start);
    LeafRemoved(f, a);
    CountDown(st, FlatWalk(f, a).level);
  }

  // ---------------------------------------------------------------- single calls and runs

  function LeafLevel(op: Op): nat {
    if op.OpMapPage? then 3 else 2
  }

  /** map_page and map_huge_page once their arguments passed the checks. */
  lemma MapStepRefines(c: Ctx, tab: Tree, f: Flat, op: Op) returns (c': Ctx, ret: Errno, tab': Tree)
    requires Inv(c, tab) && Refines(c, f) && !op.OpUnmap? && FlatCheck(c.geo, f, op) == OK
    ensures (c', ret) == Step(c, op)
    ensures Inv(c', tab') && c'.geo == c.geo
    ensures ret == OK || ret == ENOMEM
    ensures Refines(c', FlatStep(c.geo, f, op, ret))
    ensures c'.stats ==
            if ret == OK && Counted(c, f, op.ipa, LeafLevel(op)) then CountMapped(c.stats, LeafLevel(op)) else c.stats
    ensures NoLeak(c.mem, tab) ==> (NoLeak(c'.mem, tab') <==> !(ret == OK && op.OpMapHuge? && TableBelow(c, op.ipa)))
  {
    hide Inv, Refines, TableBelow, Counted, CountMapped, NoLeak, FlatMap, MapOne, Pow2;
    GeometryOk(c, tab);
    c', ret, tab' := MapOneRefines(c, tab, f, op.ipa, op.pa, op.flags, LeafLevel(op));
  }

  lemma RefinesFlatOk(c: Ctx, f: Flat)
    requires Refines(c, f)
    ensures FlatOk(f, c.geo.start)
  {
  }

  lemma MapStepStats(c: Ctx, tab: Tree, f: Flat, op: Op)
    requires Inv(c, tab) && Refines(c, f) && !op.OpUnmap? && FlatCheck(c.geo, f, op) == OK && StatsExact(c.stats, f)
    ensures StatsExact(if Counted(c, f, op.ipa, LeafLevel(op)) then CountMapped(c.stats, LeafLevel(op)) else c.stats,
                       FlatStep(c.geo, f, op, OK))
            <==> !Mixed(c, f, op)
  {
    hide Inv, Refines, TableBelow, CountMapped, FlatMap, StatsExact, Pow2;
    GeometryOk(c, tab);
    RefinesFlatOk(c, f);
    if op.OpMapPage? {
      MapPageStats(f, c.geo.start, c.stats, op.ipa, op.pa, op.flags);
    } else {
      MapHugeStats(c, tab, f, op.ipa, op.pa, op.flags);
    }
  }

  lemma SameKeysNoLeak(mem: Heap, mem': Heap, tab: Tree)
    requires mem.Keys == mem'.Keys
    ensures NoLeak(mem, tab) ==> NoLeak(mem', tab)
  {
  }

  lemma UnmapStepRefines(c: Ctx, tab: Tree, f: Flat, op: Op) returns (c': Ctx, ret: Errno)
    requires Inv(c, tab) && Refines(c, f) && op.OpUnmap?
    ensures (c', ret) == Step(c, op)
    ensures Inv(c', tab) && c'.geo == c.geo && c'.mem.Keys == c.mem.Keys
    ensures ret == FlatCheck(c.geo, f, op)
    ensures Refines(c', FlatStep(c.geo, f, op, ret))
    ensures StatsExact(c.stats, f) ==> StatsExact(c'.stats, FlatStep(c.geo, f, op, ret))
    ensures NoLeak(c.mem, tab) ==> NoLeak(c'.mem, tab)
  {
    hide Inv, Refines, UnmapPage, NoLeak, StatsExact, CountUnmapped, FlatOk, FlatWalk, Pow2;
    GeometryOk(c, tab);
    RefinesFlatOk(c, f);
    c', ret := UnmapRefines(c, tab, f, op.ipa);
    SameKeysNoLeak(c.mem, c'.mem, tab);
    var a := Fold(c.geo.start, op.ipa);
    if StatsExact(c.stats, f) && FlatWalk(f, a).Found? {
      UnmapStats(f, c.geo.start, c.stats, a);
    }
  }

  /** One call, in full: answer, translations, tree, statistics, page accounting. */
  lemma StepRefines(c: Ctx, tab: Tree, f: Flat, op: Op) returns (c': Ctx, ret: Errno, tab': Tree)
    requires Inv(c, tab) && Refines(c, f)
    ensures (c', ret) == Step(c, op)
    ensures Inv(c', tab') && c'.geo == c.geo
    ensures ret == FlatCheck(c.geo, f, op) || (ret == ENOMEM && FlatCheck(c.geo, f, op) == OK && !op.OpUnmap?)
    ensures Refines(c', FlatStep(c.geo, f, op, ret))
    ensures StatsExact(c.stats, f) ==>
              (StatsExact(c'.stats, FlatStep(c.geo, f, op, ret)) <==> !(ret == OK && Mixed(c, f, op)))
    ensures NoLeak(c.mem, tab) ==> (NoLeak(c'.mem, tab') <==> !(ret == OK && op.OpMapHuge? && Mixed(c, f, op)))
  {
    hide Inv, Refines, TableBelow, Counted, CountMapped, StatsExact, NoLeak, FlatMap, FlatUnmap, Fold, MapOne,
      UnmapPage;
    if op.OpUnmap? {
      c', ret := UnmapStepRefines(c, tab, f, op);
      tab' := tab;
    } else if FlatCheck(c.geo, f, op) == OK {
      c', ret, tab' := MapStepRefines(c, tab, f, op);
      if StatsExact(c.stats, f) {
        MapStepStats(c, tab, f, op);
      }
    } else {
      c', ret, tab' := c, FlatCheck(c.geo, f, op), tab;
    }
  }

  /** Every state a run reaches is a tree whose walks are those of the flat run. */
  lemma {:induction false} RunRefines(c: Ctx, tab: Tree, f: Flat, ops: seq<Op>) returns (tab': Tree)
    requires Inv(c, tab) && Refines(c, f)
    ensures Inv(Run(c, ops), tab') && Run(c, ops).geo == c.geo
    ensures Refines(Run(c, ops), FlatRun(c, f, ops))
    ensures Unmixed(c, f, ops) && StatsExact(c.stats, f) ==> StatsExact(Run(c, ops).stats, FlatRun(c, f, ops))
    ensures Unmixed(c, f, ops) && NoLeak(c.mem, tab) ==> NoLeak(Run(c, ops).mem, tab')
    decreases |ops|
  {
    hide Inv, Refines, StatsExact, NoLeak, Step, FlatStep, Mixed;
    tab' := tab;
    if ops != [] {
      var c1, ret, tab1 := StepRefines(c, tab, f, ops[0]);
      tab' := RunRefines(c1, tab1, FlatStep(c.geo, f, ops[0], ret), ops[1..]);
    }
  }

  /** No call of the run maps one granularity over the other. */
  ghost predicate Unmixed(c: Ctx, f: Flat, ops: seq<Op>)
    decreases |ops|
  {
    ops == [] ||
    var (c1, ret) := Step(c, ops[0]);
    !(ret == OK && Mixed(c, f, ops[0])) && Unmixed(c1, FlatStep(c.geo, f, ops[0], ret), ops[1..])
  }

  const NOTHING: Flat := Flat(map[], map[])

  lemma FreshOk(geo: Geometry, root: nat, alloc: seq<Option<nat>>) returns (tab: Tree)
    requires geo.Valid() && AllocOk(Fresh(geo, root, alloc))
    ensures tab == map[Slot(geo.start, 0) := root]
    ensures Inv(Fresh(geo, root, alloc), tab) && Refines(Fresh(geo, root, alloc), NOTHING)
    ensures NoLeak(Fresh(geo, root, alloc).mem, tab) && StatsExact(Fresh(geo, root, alloc).stats, NOTHING)
  {
    tab := map[Slot(geo.start, 0) := root];
    assert tab[Slot(geo.start, 0)] == root;
  }

  /** Translation in the flat view. */
  function FlatMapping(f: Flat, a: nat): (Errno, nat) {
    var w := FlatWalk(f, a);
    if w.Found? then (OK, w.pa + a % LevelSize(w.level)) else (ENOENT, 0)
  }

  /** After any run from a fresh context, with any pattern of allocation failures, get_mapping at
      every IPA is the translation of the flat view updated by the same calls; IPA bits above the
      root's reach are ignored. */
  lemma TranslationsOfRun(geo: Geometry, root: nat, alloc: seq<Option<nat>>, ops: seq<Op>, ipa: nat)
    requires geo.Valid() && AllocOk(Fresh(geo, root, alloc))
    ensures GetMapping(Run(Fresh(geo, root, alloc), ops), ipa)
            == FlatMapping(FlatRun(Fresh(geo, root, alloc), NOTHING, ops), Fold(geo.start, ipa))
  {
    hide Inv, Refines, StatsExact, NoLeak, GetMapping, Run, FlatRun, FlatMapping;
    var c0 := Fresh(geo, root, alloc);
    var tab := FreshOk(geo, root, alloc);
    tab := RunRefines(c0, tab, NOTHING, ops);
    MappingIsFlat(Run(c0, ops), FlatRun(c0, NOTHING, ops), ipa);
  }

  lemma MappingIsFlat(c: Ctx, f: Flat, ipa: nat)
    requires c.geo.Valid() && Refines(c, f)
    ensures GetMapping(c, ipa) == FlatMapping(f, Fold(c.geo.start, ipa))
  {
    var start, a := c.geo.start, Fold(c.geo.start, ipa);
    assert Walk(c, a) == FlatWalk(f, a);
    WalkFolds(c.mem, c.root, start, start, 0, ipa);
    if FlatWalk(f, a).Found? {
      FoldIndex(start, FlatWalk(f, a).level, ipa);
    }
  }

  lemma MappingBelow(c: Ctx, f: Flat, a: nat)
    requires c.geo.Valid() && Refines(c, f) && a < Reach(c.geo.start)
    ensures GetMapping(c, a) == FlatMapping(f, a)
  {
    assert Walk(c, a) == FlatWalk(f, a);
  }

  /** The page numbers (level 3) or block numbers (level 2) at which the walker finds a leaf of that level. */
  ghost function LeavesAt(c: Ctx, level: nat): set<nat> {
    set n: nat | n < Reach(c.geo.start) / LevelSize(level)
              && Walk(c, n * LevelSize(level)).Found? && Walk(c, n * LevelSize(level)).level == level
  }

  lemma LeavesAreFlat(c: Ctx, f: Flat)
    requires c.geo.Valid() && Refines(c, f)
    ensures LeavesAt(c, 3) == f.pages.Keys && LeavesAt(c, 2) == f.blocks.Keys
  {
    forall n: nat | n < Reach(c.geo.start) / SIZE_4KB
      ensures n in LeavesAt(c, 3) <==> n in f.pages
    {
      var a := n * LevelSize(3);
      assert Number(a, 3) == n;
      SlotStep(a, 2);
      assert Walk(c, a) == FlatWalk(f, a);
    }
    forall n: nat | n < Reach(c.geo.start) / SIZE_2MB
      ensures n in LeavesAt(c, 2) <==> n in f.blocks
    {
      var a := n * LevelSize(2);
      assert Number(a, 2) == n;
      assert Walk(c, a) == FlatWalk(f, a);
    }
  }

  /** In every run that never maps one granularity over the other, the statistics count exactly the
      leaves in the tree, and every table page is the root or hangs off exactly one parent entry. */
  lemma AccountsOfRun(geo: Geometry, root: nat, alloc: seq<Option<nat>>, ops: seq<Op>) returns (tab: Tree)
    requires geo.Valid() && AllocOk(Fresh(geo, root, alloc)) && Unmixed(Fresh(geo, root, alloc), NOTHING, ops)
    ensures var c := Run(Fresh(geo, root, alloc), ops);
            && c.stats.pages4k == |LeavesAt(c, 3)|
            && c.stats.pages2m == |LeavesAt(c, 2)|
            && c.stats.total == SIZE_4KB * |LeavesAt(c, 3)| + SIZE_2MB * |LeavesAt(c, 2)|
            && Inv(c, tab) && NoLeak(c.mem, tab)
  {
    hide Inv, Refines, NoLeak, Run, FlatRun;
    var c0 := Fresh(geo, root, alloc);
    tab := FreshOk(geo, root, alloc);
    tab := RunRefines(c0, tab, NOTHING, ops);
    LeavesAreFlat(Run(c0, ops), FlatRun(c0, NOTHING, ops));
  }

  const DRIFT_START: Ctx := Fresh(Geometry(39, 48, 1), 0x1000, [Some(0x2000), Some(0x3000)])

  /** The tables after one page was mapped at IPA 0: two links and, in the L3 table, `leaf`. */
  ghost predicate Chained(c: Ctx, leaf: Desc) {
    && c.geo == DRIFT_START.geo && c.root == 0x1000
    && Entry(c.mem, 0x1000, 0) == Table(0x2000) && Entry(c.mem, 0x2000, 0) == Table(0x3000)
    && Entry(c.mem, 0x3000, 0) == leaf && 0x3000 in c.mem && 0x2000 in c.mem
  }

  lemma DriftMap()
    ensures var c := MapPage(DRIFT_START, 0, 0, ACCESS_READ).0;
            Chained(c, Leaf(0, ACCESS_READ)) && c.stats == Stats(1, 0, SIZE_4KB)
  {
    hide Descend, Pow2, WriteLeaf;
    var d := DriftDescend();
    PowLimits();
    DriftLeaf(d);
  }

  /** The two tables that mapping IPA 0 creates. */
  lemma DriftDescend() returns (d: Ctx)
    ensures Descend(DRIFT_START, 0x1000, 1, 3, 0) == (d, Some(0x3000))
    ensures d.geo == DRIFT_START.geo && d.root == 0x1000 && d.stats == Stats(0, 0, 0)
    ensures 0x1000 in d.mem && 0x2000 in d.mem && 0x3000 in d.mem && d.mem[0x3000] == EmptyTable()
    ensures Entry(d.mem, 0x1000, 0) == Table(0x2000) && Entry(d.mem, 0x2000, 0) == Table(0x3000)
  {
    var c0 := DRIFT_START;
    var d1 := GetOrCreate(c0, 0x1000, 0).0;
    assert d1.alloc == [Some(0x3000)];
    d := GetOrCreate(d1, 0x2000, 0).0;
    assert Descend(d1, 0x2000, 2, 3, 0) == (d, Some(0x3000));
    assert Descend(c0, 0x1000, 1, 3, 0) == (d, Some(0x3000));
  }

  lemma DriftLeaf(d: Ctx)
    requires d.geo == DRIFT_START.geo && d.root == 0x1000 && d.stats == Stats(0, 0, 0)
    requires 0x1000 in d.mem && 0x2000 in d.mem && 0x3000 in d.mem && d.mem[0x3000] == EmptyTable()
    requires Entry(d.mem, 0x1000, 0) == Table(0x2000) && Entry(d.mem, 0x2000, 0) == Table(0x3000)
    ensures var c := WriteLeaf(d, 0x3000, 0, 0, ACCESS_READ, 3);
            Chained(c, Leaf(0, ACCESS_READ)) && c.stats == Stats(1, 0, SIZE_4KB)
  {
  }

  lemma DriftUnmap(c: Ctx)
    requires Chained(c, Leaf(0, ACCESS_READ)) && c.stats == Stats(1, 0, SIZE_4KB)
    ensures var d := UnmapPage(c, 0).0; Chained(d, Invalid) && d.stats == Stats(0, 0, 0)
  {
    assert WalkFrom(c.mem, 0x2000, 2, 0) == Found(3, 0, ACCESS_READ);
    assert LeafTable(c.mem, 0x2000, 2, 3, 0) == 0x3000;
  }

  lemma DriftHuge(c: Ctx)
    requires Chained(c, Invalid) && c.stats == Stats(0, 0, 0)
    ensures var d := MapHugePage(c, 0, 0, ACCESS_READ).0;
            && d.root == 0x1000 && d.geo == c.geo && d.stats == c.stats
            && Entry(d.mem, 0x1000, 0) == Table(0x2000) && Entry(d.mem, 0x2000, 0) == Leaf(0, ACCESS_READ)
  {
    hide Pow2;
    PowLimits();
    assert Descend(c, 0x1000, 1, 2, 0) == (c, Some(0x2000));
  }

  /** Mapping a page, unmapping it and then mapping a block there leaves the empty L3 table behind:
      the block is not counted, and unmapping it wraps the counter below zero. */
  lemma DriftExample()
    ensures var ops := [OpMapPage(0, 0, ACCESS_READ), OpUnmap(0), OpMapHuge(0, 0, ACCESS_READ)];
            var c := Run(DRIFT_START, ops);
            && Walk(c, 0) == Found(2, 0, ACCESS_READ)
            && c.stats.pages2m == 0
            && UnmapPage(c, 0).0.stats.pages2m == U64_MOD - 1
  {
    hide MapPage, MapHugePage, Chained;
    var c0 := DRIFT_START;
    DriftMap();
    var c1 := MapPage(c0, 0, 0, ACCESS_READ).0;
    DriftUnmap(c1);
    var c2 := UnmapPage(c1, 0).0;
    DriftHuge(c2);
    var c3 := MapHugePage(c2, 0, 0, ACCESS_READ).0;
    var ops := [OpMapPage(0, 0, ACCESS_READ), OpUnmap(0), OpMapHuge(0, 0, ACCESS_READ)];
    assert Run(c0, ops) == Run(c1, ops[1..]) == Run(c2, ops[1..][1..]) == Run(c3, ops[1..][1..][1..]);
  }

  // ---------------------------------------------------------------- addresses above the reach

  /** What a page mapped at IPA 0 looks like at the first address above the reach. */
  lemma AliasWalk(c: Ctx)
    requires Chained(c, Leaf(0, ACCESS_READ))
    ensures Walk(c, 0) == Walk(c, Reach(1)) == Found(3, 0, ACCESS_READ)
    ensures LeafTable(c.mem, 0x1000, 1, 3, Reach(1)) == 0x3000
  {
    var r := Reach(1);
    assert Index(r, 1) == 0 && Index(r, 2) == 0 && Index(r, 3) == 0;
    assert WalkFrom(c.mem, 0x2000, 2, 0) == Found(3, 0, ACCESS_READ);
    assert WalkFrom(c.mem, 0x2000, 2, r) == Found(3, 0, ACCESS_READ);
    assert LeafTable(c.mem, 0x2000, 2, 3, r) == 0x3000;
  }

  /** With a 39-bit IPA space and one page mapped at IPA 0: get_mapping of 2^39 answers for IPA 0, and
      unmap_page of 2^39 removes it. */
  lemma AliasExample()
    ensures var c := MapPage(DRIFT_START, 0, 0, ACCESS_READ).0;
            var ipa := 0x80_0000_0000;
            && GetMapping(c, ipa) == (OK, 0)
            && UnmapPage(c, ipa).1 == OK && GetMapping(c, 0) == (OK, 0)
            && GetMapping(UnmapPage(c, ipa).0, 0) == (ENOENT, 0)
  {
    hide MapPage, WalkFrom, LeafTable;
    DriftMap();
    var c := MapPage(DRIFT_START, 0, 0, ACCESS_READ).0;
    AliasWalk(c);
    assert Reach(1) == 0x80_0000_0000;
    assert Index(Reach(1), 3) == 0;
    GoneWalk(UnmapPage(c, Reach(1)).0);
  }

  lemma GoneWalk(c: Ctx)
    requires Chained(c, Invalid)
    ensures Walk(c, 0) == Hole
  {
    assert WalkFrom(c.mem, 0x2000, 2, 0) == Hole;
  }
}

/** The table heap refines a flat set of disjoint leaves.

    `Flat` is the independent reference: 4 KiB leaves by page number and 2 MiB leaves by block
    number. The heap is tied to it by walking: at every IPA the walker must find exactly the leaf
    that covers the IPA in the flat view.
*/
module Stage2Refinement {
  import opened Stage2Tables

  datatype Pte = Pte(pa: nat, flags: bv64)

  datatype Flat = Flat(pages: map<nat, Pte>, blocks: map<nat, Pte>)

  /** No page lies inside a block, and every leaf is inside the table's reach. */
  ghost predicate FlatOk(f: Flat, start: nat) {
    && (forall n <- f.pages :: n / ENTRIES !in f.blocks && n < Reach(start) / SIZE_4KB)
    && (forall b <- f.blocks :: b < Reach(start) / SIZE_2MB)
  }

  function FlatWalk(f: Flat, ipa: nat): WalkResult {
    if Number(ipa, 2) in f.blocks then
      var p := f.blocks[Number(ipa, 2)];
      Found(2, p.pa, p.flags)
    else if Number(ipa, 3) in f.pages then
      var p := f.pages[Number(ipa, 3)];
      Found(3, p.pa, p.flags)
    else Hole
  }

  function FlatMap(f: Flat, ipa: nat, pa: nat, flags: bv64, leaf: nat): Flat {
    if leaf == 3 then
      Flat(f.pages[Number(ipa, 3) := Pte(pa, flags)], f.blocks - {Number(ipa, 2)})
    else
      Flat(map n | n in f.pages && n / ENTRIES != Number(ipa, 2) :: f.pages[n],
           f.blocks[Number(ipa, 2) := Pte(pa, flags)])
  }

  function FlatUnmap(f: Flat, ipa: nat): Flat {
    match FlatWalk(f, ipa)
    case Hole => f
    case Corrupt => f
    case Found(level, _, _) =>
      if level == 2 then f.(blocks := f.blocks - {Number(ipa, 2)}) else f.(pages := f.pages - {Number(ipa, 3)})
  }

  /** What a call answers, judged from its arguments and the flat view alone. */
  function FlatCheck(geo: Geometry, f: Flat, op: Op): Errno {
    match op
    case OpMapPage(ipa, pa, flags) => MapCheck(geo, ipa, pa, flags, 3)
    case OpMapHuge(ipa, pa, flags) =>
      if !Aligned(ipa, SIZE_2MB) || !Aligned(pa, SIZE_2MB) then EINVAL else MapCheck(geo, ipa, pa, flags, 2)
    case OpUnmap(ipa) =>
      var w := FlatWalk(f, Fold(geo.start, ipa));
      if w.Found? && !Aligned(ipa, LevelSize(w.level)) then EINVAL else OK
  }

  /** The flat view after a call that answered `ret`: unchanged unless the call succeeded. */
  function FlatStep(geo: Geometry, f: Flat, op: Op, ret: Errno): Flat {
    if ret != OK then f
    else
      match op
      case OpMapPage(ipa, pa, flags) => FlatMap(f, ipa, pa, flags, 3)
      case OpMapHuge(ipa, pa, flags) => FlatMap(f, ipa, pa, flags, 2)
      case OpUnmap(ipa) => FlatUnmap(f, Fold(geo.start, ipa))
  }

  function FlatRun(c: Ctx, f: Flat, ops: seq<Op>): Flat
    decreases |ops|
  {
    if ops == [] then f
    else
      var (c1, ret) := Step(c, ops[0]);
      FlatRun(c1, FlatStep(c.geo, f, ops[0], ret), ops[1..])
  }

  /** The bytes a root table at level `start` can address. */
  function Reach(start: nat): (r: nat)
    ensures r > 0
  {
    ENTRIES * LevelSize(start)
  }

  /** The walker ignores IPA bits above the root's reach. */
  function Fold(start: nat, ipa: nat): (a: nat)
    ensures a < Reach(start)
  {
    ipa % Reach(start)
  }

  // ---------------------------------------------------------------- the tree

  /** A place for a table: `num` counts the tables of that level from IPA 0. */
  datatype Slot = Slot(level: nat, num: nat)

  /** The linked tables, by slot. */
  type Tree = map<Slot, nat>

  function SlotOf(ipa: nat, level: nat): Slot {
    Slot(level, Number(ipa, level) / ENTRIES)
  }

  function Child(s: Slot, i: nat): Slot {
    Slot(s.level + 1, s.num * ENTRIES + i)
  }

  function Parent(s: Slot): Slot
    requires s.level > 0
  {
    Slot(s.level - 1, s.num / ENTRIES)
  }

  ghost predicate EntryOk(mem: Heap, tab: Tree, s: Slot, i: nat)
    requires s in tab
  {
    match Entry(mem, tab[s], i)
    case Invalid => true
    case Table(t) => s.level < 3 && Child(s, i) in tab && tab[Child(s, i)] == t
    case Leaf(pa, _) => 2 <= s.level <= 3 && pa % LevelSize(s.level) == 0
  }

  /** `tab` names the linked tables: each sits in its own slot and hangs off its one parent entry. */
  ghost predicate TreeOk(mem: Heap, tab: Tree, start: nat, root: nat) {
    && start <= 1
    && Slot(start, 0) in tab && tab[Slot(start, 0)] == root
    && (forall s <- tab :: start <= s.level <= 3 && tab[s] in mem && |mem[tab[s]]| == ENTRIES)
    && (forall s <- tab, i: nat | i < ENTRIES :: EntryOk(mem, tab, s, i))
    && (forall s <- tab, u <- tab :: tab[s] == tab[u] ==> s == u)
    && (forall s <- tab :: s == Slot(start, 0) || Linked(mem, tab, start, s))
  }

  ghost predicate Linked(mem: Heap, tab: Tree, start: nat, s: Slot)
    requires s in tab
  {
    && s.level > start
    && Parent(s) in tab
    && Entry(mem, tab[Parent(s)], s.num % ENTRIES) == Table(tab[s])
  }

  /** The pages the allocator will hand out are new and pairwise different. */
  ghost predicate AllocOk(c: Ctx) {
    && (forall k | 0 <= k < |c.alloc| && c.alloc[k].Some? :: c.alloc[k].value !in c.mem)
    && (forall j, k | 0 <= j < k < |c.alloc| && c.alloc[j].Some? && c.alloc[k].Some? :: c.alloc[j] != c.alloc[k])
  }

  ghost predicate Inv(c: Ctx, tab: Tree) {
    c.geo.Valid() && TreeOk(c.mem, tab, c.geo.start, c.root) && AllocOk(c)
  }

  /** The walker and the flat view agree everywhere. */
  ghost predicate Refines(c: Ctx, f: Flat) {
    && FlatOk(f, c.geo.start)
    && forall ipa: nat | ipa < Reach(c.geo.start) :: Walk(c, ipa) == FlatWalk(f, ipa)
  }

  // ---------------------------------------------------------------- arithmetic of indices

  lemma SlotStep(ipa: nat, level: nat)
    requires level < 3
    ensures SlotOf(ipa, level + 1) == Child(SlotOf(ipa, level), Index(ipa, level))
  {
    assert Number(ipa, level + 1) / ENTRIES == Number(ipa, level);
  }

  lemma ChildParent(s: Slot, i: nat)
    requires i < ENTRIES
    ensures Parent(Child(s, i)) == s && Child(s, i).num % ENTRIES == i
  {
  }

  lemma ChildInjective(s: Slot, i: nat, u: Slot, j: nat)
    requires i < ENTRIES && j < ENTRIES && Child(s, i) == Child(u, j)
    ensures s == u && i == j
  {
    ChildParent(s, i);
    ChildParent(u, j);
  }

  lemma RootSlot(ipa: nat, start: nat)
    requires ipa < Reach(start) && start <= 1
    ensures SlotOf(ipa, start) == Slot(start, 0)
  {
  }

  // ---------------------------------------------------------------- one write to the heap

  /** Does `a` go through entry `i` of the table in slot `s`? */
  predicate Hits(a: nat, s: Slot, i: nat) {
    SlotOf(a, s.level) == s && Index(a, s.level) == i
  }

  /** Two heaps agree on all entries of the linked tables but one. */
  ghost predicate AgreeBut(mem: Heap, mem': Heap, tab: Tree, s0: Slot, i0: nat) {
    forall u <- tab, i: nat | i < ENTRIES && (u != s0 || i != i0) :: Entry(mem', tab[u], i) == Entry(mem, tab[u], i)
  }

  lemma AgreeAt(mem: Heap, mem': Heap, tab: Tree, s0: Slot, i0: nat, u: Slot, i: nat)
    requires AgreeBut(mem, mem', tab, s0, i0) && u in tab && i < ENTRIES && (u != s0 || i != i0)
    ensures Entry(mem', tab[u], i) == Entry(mem, tab[u], i)
  {
  }

  lemma TreeEntry(mem: Heap, tab: Tree, start: nat, root: nat, s: Slot, i: nat)
    requires TreeOk(mem, tab, start, root) && s in tab && i < ENTRIES
    ensures EntryOk(mem, tab, s, i) && start <= s.level <= 3
  {
  }

  /** Writing one entry leaves every walk that does not pass through that entry alone. */
  lemma {:induction false} WalkFrame(mem: Heap, mem': Heap, tab: Tree, start: nat,
                                    root: nat, s: Slot, ipa: nat, s0: Slot, i0: nat)
    requires TreeOk(mem, tab, start, root) && AgreeBut(mem, mem', tab, s0, i0)
    requires s in tab && s == SlotOf(ipa, s.level) && s0 in tab && i0 < ENTRIES && !Hits(ipa, s0, i0)
    ensures WalkFrom(mem', tab[s], s.level, ipa) == WalkFrom(mem, tab[s], s.level, ipa)
    decreases 4 - s.level
  {
    hide TreeOk, AgreeBut, Number;
    var i := Index(ipa, s.level);
    TreeEntry(mem, tab, start, root, s, i);
    AgreeAt(mem, mem', tab, s0, i0, s, i);
    if s.level < 3 {
      SlotStep(ipa, s.level);
      if Entry(mem, tab[s], i).Table? {
        WalkFrame(mem, mem', tab, start, root, Child(s, i), ipa, s0, i0);
      }
    }
  }

  /** A walk whose IPA belongs to a linked table comes to that table. */
  lemma {:induction false} WalkReaches(mem: Heap, tab: Tree, start: nat, root: nat, ipa: nat, level: nat)
    requires TreeOk(mem, tab, start, root)
    requires ipa < Reach(start) && start <= level <= 3 && SlotOf(ipa, level) in tab
    ensures WalkFrom(mem, root, start, ipa) == WalkFrom(mem, tab[SlotOf(ipa, level)], level, ipa)
    decreases level
  {
    var s := SlotOf(ipa, level);
    RootSlot(ipa, start);
    if level > start {
      SlotStep(ipa, level - 1);
      ChildParent(SlotOf(ipa, level - 1), Index(ipa, level - 1));
      assert Linked(mem, tab, start, s);
      WalkReaches(mem, tab, start, root, ipa, level - 1);
    }
  }

  // ---------------------------------------------------------------- descending

  /** The walk of `a` after a table took the place of a block at the level-2 entry of `ipa`. */
  function Cleared(w: WalkResult, a: nat, ipa: nat): WalkResult {
    if Number(a, 2) == Number(ipa, 2) && w.Found? && w.level == 2 then Hole else w
  }

  /** Linking an empty table into an entry that holds no table keeps the tree. */
  lemma LinkEmpty(c: Ctx, tab: Tree, s: Slot, i: nat, t: nat) returns (tab': Tree)
    requires TreeOk(c.mem, tab, c.geo.start, c.root)
    requires s in tab && s.level < 3 && i < ENTRIES && !Entry(c.mem, tab[s], i).Table? && t !in c.mem
    ensures tab' == tab[Child(s, i) := t]
    ensures TreeOk(SetEntry(c.mem[t := EmptyTable()], tab[s], i, Table(t)), tab', c.geo.start, c.root)
  {
    hide EntryOk, Linked, EmptyTable;
    var mem' := SetEntry(c.mem[t := EmptyTable()], tab[s], i, Table(t));
    tab' := tab[Child(s, i) := t];
    NotLinked(c.mem, tab, c.geo.start, c.root, s, i);
    LinkAgrees(c.mem, tab, c.geo.start, c.root, s, i, t);
    LinkEmptyEntries(c.mem, mem', tab, c.geo.start, c.root, s, i, t);
    LinkEmptyParents(c.mem, mem', tab, c.geo.start, c.root, s, i, t);
    EmptySize();
  }

  lemma EmptySize()
    ensures |EmptyTable()| == ENTRIES
  {
  }

  lemma NotLinked(mem: Heap, tab: Tree, start: nat, root: nat, s: Slot, i: nat)
    requires TreeOk(mem, tab, start, root) && s in tab && i < ENTRIES && !Entry(mem, tab[s], i).Table?
    ensures Child(s, i) !in tab
  {
    ChildParent(s, i);
    assert Child(s, i) in tab ==> Child(s, i) != Slot(start, 0);
    assert Child(s, i) in tab ==> Linked(mem, tab, start, Child(s, i));
  }

  lemma LinkEmptyEntries(mem: Heap, mem': Heap, tab: Tree, start: nat, root: nat, s: Slot, i: nat, t: nat)
    requires TreeOk(mem, tab, start, root) && s in tab && s.level < 3 && i < ENTRIES && Child(s, i) !in tab
    requires forall u <- tab, j: nat | j < ENTRIES ::
          Entry(mem', tab[u], j) == if u == s && j == i then Table(t) else Entry(mem, tab[u], j)
    requires forall j: nat :: Entry(mem', t, j) == Invalid
    ensures var tab' := tab[Child(s, i) := t]; forall u <- tab', j: nat | j < ENTRIES :: EntryOk(mem', tab', u, j)
  {
    var tab' := tab[Child(s, i) := t];
    forall u <- tab', j: nat | j < ENTRIES
      ensures EntryOk(mem', tab', u, j)
    {
      if u in tab {
        assert EntryOk(mem, tab, u, j);
      }
    }
  }

  lemma LinkEmptyParents(mem: Heap, mem': Heap, tab: Tree, start: nat, root: nat, s: Slot, i: nat, t: nat)
    requires TreeOk(mem, tab, start, root) && s in tab && s.level < 3 && i < ENTRIES && Child(s, i) !in tab
    requires !Entry(mem, tab[s], i).Table?
    requires forall u <- tab, j: nat | j < ENTRIES ::
          Entry(mem', tab[u], j) == if u == s && j == i then Table(t) else Entry(mem, tab[u], j)
    ensures var tab' := tab[Child(s, i) := t]; forall u <- tab' :: u == Slot(start, 0) || Linked(mem', tab', start, u)
  {
    var tab' := tab[Child(s, i) := t];
    ChildParent(s, i);
    forall u <- tab' | u != Slot(start, 0)
      ensures Linked(mem', tab', start, u)
    {
      if u in tab {
        assert Linked(mem, tab, start, u);
      }
    }
  }

  /** The walks and the tree after the next page of the allocator was linked into the entry of `ipa` in slot `s`. */
  lemma LinkNew(c: Ctx, tab: Tree, s: Slot, ipa: nat) returns (tab': Tree)
    requires Inv(c, tab) && s in tab && s.level < 3 && s == SlotOf(ipa, s.level)
    requires !Entry(c.mem, tab[s], Index(ipa, s.level)).Table?
    requires c.alloc != [] && c.alloc[0].Some?
    ensures var t := c.alloc[0].value;
            var mem' := SetEntry(c.mem[t := EmptyTable()], tab[s], Index(ipa, s.level), Table(t));
            && tab' == tab[SlotOf(ipa, s.level + 1) := t]
            && TreeOk(mem', tab', c.geo.start, c.root)
            && mem'.Keys == c.mem.Keys + {t}
            && (NoLeak(c.mem, tab) ==> NoLeak(mem', tab'))
            && forall a: nat | a < Reach(c.geo.start) ::
                 WalkFrom(mem', c.root, c.geo.start, a) ==
                         if s.level == 2 then Cleared(Walk(c, a), a, ipa) else Walk(c, a)
  {
    var i := Index(ipa, s.level);
    SlotStep(ipa, s.level);
    ChildParent(s, i);
    assert Child(s, i) in tab ==> Linked(c.mem, tab, c.geo.start, Child(s, i));
    tab' := LinkEmpty(c, tab, s, i, c.alloc[0].value);
    KeepsHome(c.mem, tab, Child(s, i), c.alloc[0].value);
    LinkEmptyWalks(c, tab, s, i, c.alloc[0].value, tab');
    BlockHits(c, tab, s, ipa);
  }

  /** A walk that ends in a 2 MiB block at the entry of `ipa` goes through that entry. */
  lemma BlockHits(c: Ctx, tab: Tree, s: Slot, ipa: nat)
    requires s == SlotOf(ipa, s.level)
    ensures s.level == 2 ==> forall a: nat :: Hits(a, s, Index(ipa, 2)) <==> Number(a, 2) == Number(ipa, 2)
  {
  }

  lemma AllocKept(c: Ctx, c': Ctx)
    requires AllocOk(c) && c.alloc != [] && c'.alloc == c.alloc[1..]
    requires c'.mem.Keys == c.mem.Keys || (c.alloc[0].Some? && c'.mem.Keys == c.mem.Keys + {c.alloc[0].value})
    ensures AllocOk(c')
  {
    forall k | 0 <= k < |c'.alloc| && c'.alloc[k].Some?
      ensures c'.alloc[k].value !in c'.mem
    {
      assert c'.alloc[k] == c.alloc[k + 1];
    }
  }

  /** One step of the descent: the tree stays a tree, and the only translation that can change is a
      2 MiB block sitting in the very entry that becomes a table. */
  lemma GetOrCreateStep(c: Ctx, tab: Tree, s: Slot, ipa: nat) returns (tab': Tree)
    requires Inv(c, tab) && s in tab && s.level < 3 && s == SlotOf(ipa, s.level)
    ensures var (c', r) := GetOrCreate(c, tab[s], Index(ipa, s.level));
            && Inv(c', tab')
            && c' == c.(mem := c'.mem, alloc := c'.alloc)
            && (r.Some? ==> SlotOf(ipa, s.level + 1) in tab' && tab'[SlotOf(ipa, s.level + 1)] == r.value)
            && (NoLeak(c.mem, tab) ==> NoLeak(c'.mem, tab'))
            && tab.Keys <= tab'.Keys <= tab.Keys + {SlotOf(ipa, s.level + 1)}
            && forall a: nat | a < Reach(c.geo.start) ::
                 Walk(c', a) == if r.Some? && s.level == 2 then Cleared(Walk(c, a), a, ipa) else Walk(c, a)
  {
    var i := Index(ipa, s.level);
    var (c', r) := GetOrCreate(c, tab[s], i);
    tab' := tab;
    if Entry(c.mem, tab[s], i).Table? {
      SlotStep(ipa, s.level);
      assert EntryOk(c.mem, tab, s, i);
      TableBlocksNothing(c, tab, s, ipa);
    } else if r.Some? {
      tab' := LinkNew(c, tab, s, ipa);
      AllocKept(c, c');
    } else if c.alloc != [] {
      AllocKept(c, c');
    }
  }

  /** Page `t` is one of the linked tables. */
  ghost predicate HasHome(tab: Tree, t: nat) {
    exists s <- tab :: tab[s] == t
  }

  /** Every allocated table page is linked: it is the root or hangs off a parent entry. */
  ghost predicate NoLeak(mem: Heap, tab: Tree) {
    forall t <- mem :: HasHome(tab, t)
  }

  lemma KeepsHome(mem: Heap, tab: Tree, s: Slot, t: nat)
    requires s !in tab
    ensures NoLeak(mem, tab) ==> forall u | u in mem || u == t :: HasHome(tab[s := t], u)
  {
    var tab' := tab[s := t];
    forall u | NoLeak(mem, tab) && (u in mem || u == t)
      ensures HasHome(tab', u)
    {
      if u == t {
        assert tab'[s] == u;
      } else {
        var v :| v in tab && tab[v] == u;
        assert tab'[v] == u;
      }
    }
  }

  /** Linking an empty table: the heaps agree but for the entry, and the new table is empty. */
  lemma LinkAgrees(mem: Heap, tab: Tree, start: nat, root: nat, s: Slot, i: nat, t: nat)
    requires TreeOk(mem, tab, start, root) && s in tab && i < ENTRIES && t !in mem
    ensures var mem' := SetEntry(mem[t := EmptyTable()], tab[s], i, Table(t));
            && AgreeBut(mem, mem', tab, s, i) && Entry(mem', tab[s], i) == Table(t)
            && forall j: nat :: Entry(mem', t, j) == Invalid
  {
    hide EntryOk, Linked;
  }

  /** One walk after an empty table was linked. */
  lemma LinkEmptyWalk(c: Ctx, tab: Tree, s: Slot, i: nat, t: nat, tab': Tree, a: nat)
    requires TreeOk(c.mem, tab, c.geo.start, c.root) && a < Reach(c.geo.start)
    requires s in tab && s.level < 3 && i < ENTRIES && !Entry(c.mem, tab[s], i).Table? && t !in c.mem
    requires tab' == tab[Child(s, i) := t]
    requires TreeOk(SetEntry(c.mem[t := EmptyTable()], tab[s], i, Table(t)), tab', c.geo.start, c.root)
    ensures WalkFrom(SetEntry(c.mem[t := EmptyTable()], tab[s], i, Table(t)), c.root, c.geo.start, a)
            == if Hits(a, s, i) then Hole else Walk(c, a)
    ensures Hits(a, s, i) ==> (Walk(c, a).Found? ==> Walk(c, a).level == 2 == s.level) && !Walk(c, a).Corrupt?
  {
    hide TreeOk, AgreeBut, Number, Reach, EmptyTable, SetEntry;
    var mem' := SetEntry(c.mem[t := EmptyTable()], tab[s], i, Table(t));
    LinkAgrees(c.mem, tab, c.geo.start, c.root, s, i, t);
    TreeRoot(c.mem, tab, c.geo.start, c.root);
    TreeEntry(c.mem, tab, c.geo.start, c.root, s, i);
    RootSlot(a, c.geo.start);
    if Hits(a, s, i) {
      SlotKept(tab, s, i, t);
      WalkReaches(c.mem, tab, c.geo.start, c.root, a, s.level);
      WalkReaches(mem', tab', c.geo.start, c.root, a, s.level);
      assert Entry(mem', t, Index(a, s.level + 1)) == Invalid;
    } else {
      WalkFrame(c.mem, mem', tab, c.geo.start, c.root, Slot(c.geo.start, 0), a, s, i);
    }
  }

  lemma TreeRoot(mem: Heap, tab: Tree, start: nat, root: nat)
    requires TreeOk(mem, tab, start, root)
    ensures start <= 1 && Slot(start, 0) in tab && tab[Slot(start, 0)] == root
  {
  }

  lemma SlotKept(tab: Tree, s: Slot, i: nat, t: nat)
    requires s in tab
    ensures s in tab[Child(s, i) := t] && tab[Child(s, i) := t][s] == tab[s]
  {
  }

  lemma LinkEmptyWalks(c: Ctx, tab: Tree, s: Slot, i: nat, t: nat, tab': Tree)
    requires TreeOk(c.mem, tab, c.geo.start, c.root)
    requires s in tab && s.level < 3 && i < ENTRIES && !Entry(c.mem, tab[s], i).Table? && t !in c.mem
    requires tab' == tab[Child(s, i) := t]
    requires TreeOk(SetEntry(c.mem[t := EmptyTable()], tab[s], i, Table(t)), tab', c.geo.start, c.root)
    ensures forall a: nat | a < Reach(c.geo.start) ::
              WalkFrom(SetEntry(c.mem[t := EmptyTable()], tab[s], i, Table(t)), c.root, c.geo.start, a)
              == if Hits(a, s, i) then Hole else Walk(c, a)
    ensures forall a: nat | a < Reach(c.geo.start) && Hits(a, s, i) ::
              (Walk(c, a).Found? ==> Walk(c, a).level == 2 == s.level) && !Walk(c, a).Corrupt?
  {
    hide TreeOk, WalkFrom, Walk, Hits, SetEntry, EmptyTable, Reach;
    forall a: nat | a < Reach(c.geo.start)
      ensures WalkFrom(SetEntry(c.mem[t := EmptyTable()], tab[s], i, Table(t)), c.root, c.geo.start, a)
              == if Hits(a, s, i) then Hole else Walk(c, a)
      ensures Hits(a, s, i) ==> (Walk(c, a).Found? ==> Walk(c, a).level == 2 == s.level) && !Walk(c, a).Corrupt?
    {
      LinkEmptyWalk(c, tab, s, i, t, tab', a);
    }
  }

  /** Where the level-2 entry already is a table, no 2 MiB block is found below it. */
  lemma TableBlocksNothing(c: Ctx, tab: Tree, s: Slot, ipa: nat)
    requires TreeOk(c.mem, tab, c.geo.start, c.root) && s in tab && s.level < 3 && s == SlotOf(ipa, s.level)
    requires Entry(c.mem, tab[s], Index(ipa, s.level)).Table?
    ensures s.level == 2 ==> forall a: nat | a < Reach(c.geo.start) :: Cleared(Walk(c, a), a, ipa) == Walk(c, a)
  {
    if s.level == 2 {
      forall a: nat | a < Reach(c.geo.start) && Number(a, 2) == Number(ipa, 2)
        ensures Cleared(Walk(c, a), a, ipa) == Walk(c, a)
      {
        WalkReaches(c.mem, tab, c.geo.start, c.root, a, 2);
        assert EntryOk(c.mem, tab, s, Index(a, 2));
        SlotStep(a, 2);
      }
    }
  }

  lemma {:induction false} DescendWalks(c: Ctx, tab: Tree, s: Slot, leaf: nat, ipa: nat) returns (tab': Tree)
    requires Inv(c, tab) && s in tab && s == SlotOf(ipa, s.level) && s.level <= leaf && 2 <= leaf <= 3
    ensures var (c', r) := Descend(c, tab[s], s.level, leaf, ipa);
            && Inv(c', tab')
            && c' == c.(mem := c'.mem, alloc := c'.alloc)
            && (r.Some? ==> SlotOf(ipa, leaf) in tab' && tab'[SlotOf(ipa, leaf)] == r.value)
            && (NoLeak(c.mem, tab) ==> NoLeak(c'.mem, tab'))
            && tab.Keys <= tab'.Keys && (forall u <- tab' :: u in tab || u.level <= leaf)
            && forall a: nat | a < Reach(c.geo.start) ::
                 Walk(c', a) == if r.Some? && leaf == 3 && s.level < 3 then Cleared(Walk(c, a), a, ipa) else Walk(c, a)
    decreases leaf - s.level
  {
    hide Inv, NoLeak, Walk, Cleared, GetOrCreate;
    tab' := tab;
    if s.level < leaf {
      var (c1, r1) := GetOrCreate(c, tab[s], Index(ipa, s.level));
      tab' := GetOrCreateStep(c, tab, s, ipa);
      if r1.Some? {
        tab' := DescendWalks(c1, tab', SlotOf(ipa, s.level + 1), leaf, ipa);
      }
    }
  }

  // ---------------------------------------------------------------- writing a leaf entry

  lemma PutEntryEntries(mem: Heap, tab: Tree, start: nat, root: nat, s: Slot, i: nat, d: Desc)
    requires TreeOk(mem, tab, start, root)
    requires s in tab && 2 <= s.level && i < ENTRIES && !d.Table? && (d.Leaf? ==> d.pa % LevelSize(s.level) == 0)
    ensures forall u <- tab - {Child(s, i)}, j: nat | j < ENTRIES ::
              EntryOk(SetEntry(mem, tab[s], i, d), tab - {Child(s, i)}, u, j)
  {
    var mem' := SetEntry(mem, tab[s], i, d);
    var tab' := tab - {Child(s, i)};
    forall u <- tab', j: nat | j < ENTRIES
      ensures EntryOk(mem', tab', u, j)
    {
      assert EntryOk(mem, tab, u, j);
      if Child(u, j) == Child(s, i) {
        ChildInjective(u, j, s, i);
      }
    }
  }

  lemma PutEntryParents(mem: Heap, tab: Tree, start: nat, root: nat, s: Slot, i: nat, d: Desc)
    requires TreeOk(mem, tab, start, root) && s in tab && 2 <= s.level && i < ENTRIES
    ensures forall u <- tab - {Child(s, i)} | u != Slot(start, 0) ::
              Linked(SetEntry(mem, tab[s], i, d), tab - {Child(s, i)}, start, u)
  {
    hide EntryOk;
    var mem' := SetEntry(mem, tab[s], i, d);
    var tab' := tab - {Child(s, i)};
    forall u <- tab' | u != Slot(start, 0)
      ensures Linked(mem', tab', start, u)
    {
      assert Linked(mem, tab, start, u);
      OwnChild(u);
      ParentStays(mem, tab, start, root, s, i, u);
    }
  }

  lemma OwnChild(u: Slot)
    requires u.level > 0
    ensures Child(Parent(u), u.num % ENTRIES) == u
  {
  }

  /** The parent of a slot other than the entry's child is not that child, which lies at the lowest level. */
  lemma ParentStays(mem: Heap, tab: Tree, start: nat, root: nat, s: Slot, i: nat, u: Slot)
    requires TreeOk(mem, tab, start, root) && s in tab && 2 <= s.level && u in tab && u.level > 0
    ensures Parent(u) != Child(s, i)
  {
    hide EntryOk, Linked;
  }

  /** Overwriting an entry of a level-2 or level-3 table by a leaf or by Invalid keeps the tree; an
      L3 table that hung there is no longer linked. */
  lemma PutEntry(mem: Heap, tab: Tree, start: nat, root: nat, s: Slot, i: nat, d: Desc)
      returns (tab': Tree)
    requires TreeOk(mem, tab, start, root)
    requires s in tab && 2 <= s.level && i < ENTRIES && !d.Table? && (d.Leaf? ==> d.pa % LevelSize(s.level) == 0)
    ensures tab' == tab - {Child(s, i)}
    ensures Child(s, i) in tab <==> Entry(mem, tab[s], i).Table?
    ensures TreeOk(SetEntry(mem, tab[s], i, d), tab', start, root)
  {
    tab' := tab - {Child(s, i)};
    ChildParent(s, i);
    assert EntryOk(mem, tab, s, i);
    assert Child(s, i) in tab ==> Linked(mem, tab, start, Child(s, i));
    PutEntryEntries(mem, tab, start, root, s, i, d);
    PutEntryParents(mem, tab, start, root, s, i, d);
    hide EntryOk, Linked;
  }

  lemma PutAgrees(mem: Heap, tab: Tree, start: nat, root: nat, s: Slot, i: nat, d: Desc)
    requires TreeOk(mem, tab, start, root) && s in tab && i < ENTRIES
    ensures var mem' := SetEntry(mem, tab[s], i, d); AgreeBut(mem, mem', tab, s, i) && Entry(mem', tab[s], i) == d
  {
    hide EntryOk, Linked;
  }

  /** One walk after an entry was overwritten. */
  lemma PutEntryWalk(mem: Heap, tab: Tree, start: nat, root: nat, s: Slot, i: nat, d: Desc, a: nat)
    requires TreeOk(mem, tab, start, root) && a < Reach(start)
    requires s in tab && 2 <= s.level && i < ENTRIES && !d.Table? && (d.Leaf? ==> d.pa % LevelSize(s.level) == 0)
    ensures WalkFrom(SetEntry(mem, tab[s], i, d), root, start, a)
            == if !Hits(a, s, i) then WalkFrom(mem, root, start, a)
               else if d.Leaf? then Found(s.level, d.pa, d.flags) else Hole
  {
    hide TreeOk, AgreeBut, Number, Reach, SetEntry;
    var mem' := SetEntry(mem, tab[s], i, d);
    PutAgrees(mem, tab, start, root, s, i, d);
    TreeRoot(mem, tab, start, root);
    TreeEntry(mem, tab, start, root, s, i);
    RootSlot(a, start);
    if Hits(a, s, i) {
      var tab' := PutEntry(mem, tab, start, root, s, i, d);
      assert s != Child(s, i);
      WalkReaches(mem', tab', start, root, a, s.level);
    } else {
      WalkFrame(mem, mem', tab, start, root, Slot(start, 0), a, s, i);
    }
  }

  lemma PutEntryWalks(mem: Heap, tab: Tree, start: nat, root: nat, s: Slot, i: nat, d: Desc)
    requires TreeOk(mem, tab, start, root)
    requires s in tab && 2 <= s.level && i < ENTRIES && !d.Table? && (d.Leaf? ==> d.pa % LevelSize(s.level) == 0)
    ensures forall a: nat | a < Reach(start) ::
              WalkFrom(SetEntry(mem, tab[s], i, d), root, start, a)
              == if !Hits(a, s, i) then WalkFrom(mem, root, start, a)
                 else if d.Leaf? then Found(s.level, d.pa, d.flags) else Hole
  {
    hide TreeOk, WalkFrom, Hits, SetEntry, Reach;
    forall a: nat | a < Reach(start)
      ensures WalkFrom(SetEntry(mem, tab[s], i, d), root, start, a)
              == if !Hits(a, s, i) then WalkFrom(mem, root, start, a)
                 else if d.Leaf? then Found(s.level, d.pa, d.flags) else Hole
    {
      PutEntryWalk(mem, tab, start, root, s, i, d, a);
    }
  }

  // ---------------------------------------------------------------- the operations

  predicate TableAt(mem: Heap, t: nat, level: nat, ipa: nat)
    decreases 3 - level
  {
    var e := Entry(mem, t, Index(ipa, level));
    e.Table? && (level >= 2 || TableAt(mem, e.child, level + 1, ipa))
  }

  /** The level-2 entry of `ipa` points to an L3 table (which may be empty). */
  predicate TableBelow(c: Ctx, ipa: nat) {
    TableAt(c.mem, c.root, c.geo.start, ipa)
  }

  lemma {:induction false} TableAtSlot(mem: Heap, tab: Tree, start: nat, root: nat, s: Slot, ipa: nat)
    requires TreeOk(mem, tab, start, root) && s in tab && s == SlotOf(ipa, s.level) && s.level <= 2
    ensures TableAt(mem, tab[s], s.level, ipa) <==> SlotOf(ipa, 3) in tab
    decreases 3 - s.level
  {
    var i := Index(ipa, s.level);
    SlotStep(ipa, s.level);
    ChildParent(s, i);
    assert EntryOk(mem, tab, s, i);
    if Child(s, i) in tab {
      assert Linked(mem, tab, start, Child(s, i));
      if s.level < 2 {
        TableAtSlot(mem, tab, start, root, Child(s, i), ipa);
      }
    } else if s.level < 2 {
      NoDeeper(mem, tab, start, root, ipa, s.level + 1, 3);
    }
  }

  /** Without a linked table at one level there is none below it. */
  lemma {:induction false} NoDeeper(mem: Heap, tab: Tree, start: nat, root: nat, ipa: nat, level: nat, deep: nat)
    requires TreeOk(mem, tab, start, root) && start < level <= deep <= 3 && SlotOf(ipa, level) !in tab
    ensures SlotOf(ipa, deep) !in tab
    decreases deep
  {
    if level < deep {
      NoDeeper(mem, tab, start, root, ipa, level, deep - 1);
      SlotStep(ipa, deep - 1);
      ChildParent(SlotOf(ipa, deep - 1), Index(ipa, deep - 1));
      assert SlotOf(ipa, deep) in tab ==> Linked(mem, tab, start, SlotOf(ipa, deep));
    }
  }

  /** Does the call map one granularity over the other? */
  predicate Mixed(c: Ctx, f: Flat, op: Op) {
    match op
    case OpMapPage(ipa, _, _) => Number(ipa, 2) in f.blocks
    case OpMapHuge(ipa, _, _) => TableBelow(c, ipa)
    case OpUnmap(_) => false
  }

  lemma {:induction false} PowGrows(m: nat, n: nat)
    requires m <= n
    ensures Pow2(m) <= Pow2(n)
    decreases n
  {
    if m < n {
      PowGrows(m, n - 1);
    }
  }

  lemma PowNibble(n: nat)
    ensures Pow2(n + 4) == 16 * Pow2(n)
  {
    assert Pow2(n + 2) == 2 * Pow2(n + 1);
    assert Pow2(n + 4) == 2 * Pow2(n + 3);
  }

  lemma PowLimits()
    ensures Pow2(39) == 0x80_0000_0000 && Pow2(48) == 0x1_0000_0000_0000
  {
    assert Pow2(0) == 1;
    PowNibble(0); PowNibble(4); PowNibble(8); PowNibble(12); PowNibble(16); PowNibble(20);
    PowNibble(24); PowNibble(28); PowNibble(32); PowNibble(36); PowNibble(40); PowNibble(44);
    assert Pow2(40) == 2 * Pow2(39);
  }

  /** The bits a geometry admits never exceed what its root table can address. */
  lemma WithinReach(geo: Geometry)
    requires geo.Valid()
    ensures Pow2(geo.ipaBits) <= Reach(geo.start) <= 0x1_0000_0000_0000
    ensures Pow2(geo.paBits) <= 0x1_0000_0000_0000
  {
    PowLimits();
    PowGrows(geo.ipaBits, if geo.start == 1 then 39 else 48);
    PowGrows(geo.paBits, 48);
  }

  lemma GeometryOk(c: Ctx, tab: Tree)
    requires Inv(c, tab)
    ensures c.geo.Valid()
    ensures Pow2(c.geo.ipaBits) <= Reach(c.geo.start) <= 0x1_0000_0000_0000 && Pow2(c.geo.paBits) <= 0x1_0000_0000_0000
  {
    WithinReach(c.geo);
  }
}

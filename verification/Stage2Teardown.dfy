/** s2_free_table_tree: the pages it frees are the linked tables, each exactly once. */
module Stage2Teardown {
  import opened Stage2Tables
  import opened Stage2Refinement

  /** The pages freed for the table `t` at `level`, in the order they are freed. */
  function FreeTree(mem: Heap, t: nat, level: nat): seq<nat>
    decreases 4 - level, ENTRIES + 1
  {
    if level >= 3 then [t] else FreeEntries(mem, t, level, 0) + [t]
  }

  /** The pages freed for the entries from `i` on. */
  function FreeEntries(mem: Heap, t: nat, level: nat, i: nat): seq<nat>
    requires level < 3
    decreases 4 - level, ENTRIES - i
  {
    if i >= ENTRIES then [] else FreeEntry(mem, t, level, i) + FreeEntries(mem, t, level, i + 1)
  }

  function FreeEntry(mem: Heap, t: nat, level: nat, i: nat): seq<nat>
    requires level < 3
    decreases 4 - level, 0
  {
    var e := Entry(mem, t, i);
    if e.Table? then FreeTree(mem, e.child, level + 1) else []
  }

  lemma FreeTreeIs(mem: Heap, t: nat, level: nat)
    requires level <= 3
    ensures FreeTree(mem, t, level) == (if level == 3 then [] else FreeEntries(mem, t, level, 0)) + [t]
  {
  }

  lemma FreeEntriesIs(mem: Heap, t: nat, level: nat, i: nat)
    requires level < 3
    ensures FreeEntries(mem, t, level, i) ==
            if i >= ENTRIES then [] else FreeEntry(mem, t, level, i) + FreeEntries(mem, t, level, i + 1)
  {
  }

  /** The slot at `level` above `s`. */
  function Ancestor(s: Slot, level: nat): Slot
    requires level <= s.level
    decreases s.level
  {
    if s.level == level then s else Ancestor(Parent(s), level)
  }

  /** `u` is `s` or lies below it. */
  predicate Under(u: Slot, s: Slot) {
    s.level <= u.level && Ancestor(u, s.level) == s
  }

  /** `u` lies below one of the entries of `s` from `i` on. */
  predicate UnderFrom(u: Slot, s: Slot, i: nat) {
    s.level < u.level && Under(u, s) && Ancestor(u, s.level + 1).num >= s.num * ENTRIES + i
  }

  ghost function PagesUnder(tab: Tree, s: Slot): set<nat> {
    set u | u in tab && Under(u, s) :: tab[u]
  }

  ghost function PagesFrom(tab: Tree, s: Slot, i: nat): set<nat> {
    set u | u in tab && UnderFrom(u, s, i) :: tab[u]
  }

  lemma {:induction false} AncestorStep(u: Slot, level: nat)
    requires level < u.level
    ensures Ancestor(u, level + 1).level == level + 1
    ensures Ancestor(u, level) == Parent(Ancestor(u, level + 1))
    decreases u.level
  {
    if u.level > level + 1 {
      AncestorStep(Parent(u), level);
    }
  }

  /** Being below the entries from `i` on means being below the child at `i` or below a later entry. */
  lemma UnderSplit(u: Slot, s: Slot, i: nat)
    requires i < ENTRIES
    ensures UnderFrom(u, s, i) <==> Under(u, Child(s, i)) || UnderFrom(u, s, i + 1)
    ensures !(Under(u, Child(s, i)) && UnderFrom(u, s, i + 1))
  {
    if s.level < u.level {
      AncestorStep(u, s.level);
      ChildParent(s, i);
    }
  }

  lemma UnderEnds(u: Slot, s: Slot)
    ensures !UnderFrom(u, s, ENTRIES)
    ensures Under(u, s) <==> u == s || UnderFrom(u, s, 0)
  {
    if s.level < u.level {
      AncestorStep(u, s.level);
    }
  }

  /** A linked table below a slot means a linked table in that slot. */
  lemma {:induction false} AncestorLinked(mem: Heap, tab: Tree, start: nat, root: nat, u: Slot, level: nat)
    requires TreeOk(mem, tab, start, root) && u in tab && start <= level <= u.level
    ensures Ancestor(u, level) in tab
    decreases u.level
  {
    if u.level > level {
      assert Linked(mem, tab, start, u);
      AncestorLinked(mem, tab, start, root, Parent(u), level);
    }
  }

  lemma PagesFromSplit(mem: Heap, tab: Tree, start: nat, root: nat, s: Slot, i: nat)
    requires TreeOk(mem, tab, start, root) && s in tab && s.level < 3 && i < ENTRIES
    ensures PagesFrom(tab, s, i) == PagesUnder(tab, Child(s, i)) + PagesFrom(tab, s, i + 1)
    ensures PagesUnder(tab, Child(s, i)) !! PagesFrom(tab, s, i + 1)
    ensures !Entry(mem, tab[s], i).Table? ==> PagesUnder(tab, Child(s, i)) == {}
  {
    forall u | u in tab
      ensures UnderFrom(u, s, i) <==> Under(u, Child(s, i)) || UnderFrom(u, s, i + 1)
      ensures !(Under(u, Child(s, i)) && UnderFrom(u, s, i + 1))
      ensures !Entry(mem, tab[s], i).Table? ==> !Under(u, Child(s, i))
    {
      UnderSplit(u, s, i);
      if Under(u, Child(s, i)) {
        AncestorLinked(mem, tab, start, root, u, s.level + 1);
        ChildParent(s, i);
        assert Linked(mem, tab, start, Child(s, i));
      }
    }
  }

  lemma NothingLast(tab: Tree, s: Slot)
    ensures PagesFrom(tab, s, ENTRIES) == {}
  {
    forall u | u in tab
      ensures !UnderFrom(u, s, ENTRIES)
    {
      UnderEnds(u, s);
    }
  }

  lemma EntryIsOk(mem: Heap, tab: Tree, start: nat, root: nat, s: Slot, i: nat)
    requires TreeOk(mem, tab, start, root) && s in tab && i < ENTRIES
    ensures EntryOk(mem, tab, s, i)
  {
  }

  lemma SetSum(a: set<nat>, b: set<nat>)
    requires a !! b
    ensures multiset(a + b) == multiset(a) + multiset(b)
  {
  }

  lemma {:induction false} FreesUnder(mem: Heap, tab: Tree, start: nat, root: nat, s: Slot)
    requires TreeOk(mem, tab, start, root) && s in tab
    ensures multiset(FreeTree(mem, tab[s], s.level)) == multiset(PagesUnder(tab, s))
    decreases 4 - s.level, ENTRIES + 1
  {
    var from := PagesFrom(tab, s, 0);
    forall u | u in tab
      ensures Under(u, s) <==> u == s || UnderFrom(u, s, 0)
    {
      UnderEnds(u, s);
    }
    assert PagesUnder(tab, s) == from + {tab[s]};
    SetSum(from, {tab[s]});
    if s.level < 3 {
      FreesFrom(mem, tab, start, root, s, 0);
    } else {
      assert from == {};
    }
  }

  lemma {:induction false} FreesFrom(mem: Heap, tab: Tree, start: nat, root: nat, s: Slot, i: nat)
    requires TreeOk(mem, tab, start, root) && s in tab && s.level < 3 && i <= ENTRIES
    ensures multiset(FreeEntries(mem, tab[s], s.level, i)) == multiset(PagesFrom(tab, s, i))
    decreases 4 - s.level, ENTRIES - i
  {
    hide TreeOk, PagesUnder, PagesFrom;
    if i == ENTRIES {
      NothingLast(tab, s);
    } else {
      PagesFromSplit(mem, tab, start, root, s, i);
      SetSum(PagesUnder(tab, Child(s, i)), PagesFrom(tab, s, i + 1));
      FreesFrom(mem, tab, start, root, s, i + 1);
      EntryIsOk(mem, tab, start, root, s, i);
      if Entry(mem, tab[s], i).Table? {
        FreesUnder(mem, tab, start, root, Child(s, i));
      }
    }
  }

  /** Everything linked is below the root. */
  lemma {:induction false} RootAbove(mem: Heap, tab: Tree, start: nat, root: nat, u: Slot)
    requires TreeOk(mem, tab, start, root) && u in tab
    ensures Under(u, Slot(start, 0))
    decreases u.level
  {
    if u != Slot(start, 0) {
      assert Linked(mem, tab, start, u);
      RootAbove(mem, tab, start, root, Parent(u));
    }
  }

  /** Teardown frees every table page exactly once when none has been dropped from the tree, and in
      any case never frees a page twice and frees only table pages. */
  lemma TeardownFreesAll(c: Ctx, tab: Tree)
    requires Inv(c, tab)
    ensures multiset(FreeTree(c.mem, c.root, c.geo.start)) == multiset(tab.Values)
    ensures tab.Values <= c.mem.Keys
    ensures NoLeak(c.mem, tab) <==> multiset(FreeTree(c.mem, c.root, c.geo.start)) == multiset(c.mem.Keys)
  {
    var s := Slot(c.geo.start, 0);
    FreesUnder(c.mem, tab, c.geo.start, c.root, s);
    forall u | u in tab
      ensures Under(u, s)
    {
      RootAbove(c.mem, tab, c.geo.start, c.root, u);
    }
    assert PagesUnder(tab, s) == tab.Values;
    LeakIsKeys(c.mem, tab);
    MultisetOfSet(tab.Values, c.mem.Keys);
  }

  lemma LeakIsKeys(mem: Heap, tab: Tree)
    requires tab.Values <= mem.Keys
    ensures NoLeak(mem, tab) <==> tab.Values == mem.Keys
  {
    forall t
      ensures HasHome(tab, t) <==> t in tab.Values
    {
    }
  }

  lemma MultisetOfSet(a: set<nat>, b: set<nat>)
    ensures multiset(a) == multiset(b) <==> a == b
  {
    if multiset(a) == multiset(b) {
      forall x
        ensures x in a <==> x in b
      {
        assert x in a <==> x in multiset(a);
        assert x in b <==> x in multiset(b);
      }
    }
  }
}

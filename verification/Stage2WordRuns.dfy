/** What was proved of the descriptor heap, stated of host memory: every call, every run, the statistics and
    the teardown, for leaf flags that fit; and that this condition on the flags is exact.
*/
module Stage2WordRuns {
  import opened Stage2Tables
  import opened Stage2Bits
  import opened Stage2Format
  import opened Stage2Refinement
  import opened Stage2Runs
  import opened Stage2Words
  import D = Stage2Teardown

  // ---------------------------------------------------------------- calls and runs

  lemma CallSim(h: Host, c: Ctx, lv: Levels, call: Call) returns (lv': Levels)
    requires Sim(h, c, lv) && CallFits(call)
    ensures var (h', e) := CallWord(h, call); var (c', e') := Step(c, Abstract(call)); Sim(h', c', lv') && e == e'
  {
    hide Sim, MapWord, UnmapWord, Map, UnmapPage, Value, FlagsFit;
    lv' := lv;
    match call
    case MapPageCall(ipa, pa, flags) =>
      if Aligned(Value(pa), SIZE_4KB) {
        lv' := MapSim(h, c, lv, ipa, pa, flags, 3);
      } else {
        Unaligned(h, c, lv, ipa, pa, flags);
      }
    case MapHugeCall(ipa, pa, flags) =>
      if Aligned(ipa, SIZE_2MB) && Aligned(Value(pa), SIZE_2MB) {
        lv' := MapSim(h, c, lv, ipa, pa, flags, 2);
      }
    case UnmapCall(ipa) => UnmapSim(h, c, lv, ipa);
  }

  lemma Unaligned(h: Host, c: Ctx, lv: Levels, ipa: nat, pa: bv64, flags: bv64)
    requires Sim(h, c, lv) && !Aligned(Value(pa), SIZE_4KB)
    ensures MapWord(h, ipa, pa, flags, 3) == (h, EINVAL) && Map(c, ipa, Value(pa), flags, 3) == (c, EINVAL)
  {
    hide Value;
  }

  lemma {:induction false} RunSim(h: Host, c: Ctx, lv: Levels, calls: seq<Call>) returns (lv': Levels)
    requires Sim(h, c, lv) && forall i | 0 <= i < |calls| :: CallFits(calls[i])
    ensures Sim(RunWords(h, calls), Run(c, AbstractAll(calls)), lv')
    decreases |calls|
  {
    hide Sim, CallWord, Step, CallFits, Abstract;
    lv' := lv;
    if calls != [] {
      lv' := CallSim(h, c, lv, calls[0]);
      lv' := RunSim(CallWord(h, calls[0]).0, Step(c, Abstract(calls[0])).0, lv', calls[1..]);
      assert AbstractAll(calls)[1..] == AbstractAll(calls[1..]);
    }
  }

  lemma FreshSim(geo: Geometry, root: nat, alloc: seq<Option<bv64>>, rest: HostMem)
    requires geo.Valid() && PagesOk(alloc) && AllocOk(Fresh(geo, root, Pages(alloc)))
    ensures Sim(FreshHost(geo, root, alloc, rest), Fresh(geo, root, Pages(alloc)), map[root := geo.start])
  {
    hide PagesOk, AllocOk, Decodes;
    var h, c, lv := FreshHost(geo, root, alloc, rest), Fresh(geo, root, Pages(alloc)), map[root := geo.start];
    ZeroDecodes(geo.start);
    forall t <- c.mem, i: nat | i < ENTRIES
      ensures EntryDecodes(h.words, c.mem, lv, t, i)
    {
    }
  }

  /** The flat view updated by the calls that answered OK. */
  function FlatCalls(h: Host, f: Flat, calls: seq<Call>): Flat
    decreases |calls|
  {
    if calls == [] then f
    else
      var (h1, ret) := CallWord(h, calls[0]);
      FlatCalls(h1, FlatStep(h.geo, f, Abstract(calls[0]), ret), calls[1..])
  }

  lemma {:induction false} FlatCallsAre(h: Host, c: Ctx, lv: Levels, f: Flat, calls: seq<Call>)
    requires Sim(h, c, lv) && forall i | 0 <= i < |calls| :: CallFits(calls[i])
    ensures FlatCalls(h, f, calls) == FlatRun(c, f, AbstractAll(calls))
    decreases |calls|
  {
    hide CallWord, Step, CallFits, Abstract, HeapDecodes, PagesOk, AllocOk;
    if calls != [] {
      var lv' := CallSim(h, c, lv, calls[0]);
      var (h1, ret) := CallWord(h, calls[0]);
      FlatCallsAre(h1, Step(c, Abstract(calls[0])).0, lv', FlatStep(h.geo, f, Abstract(calls[0]), ret), calls[1..]);
      assert AbstractAll(calls)[1..] == AbstractAll(calls[1..]);
    }
  }

  lemma MappingSim(h: Host, c: Ctx, lv: Levels, ipa: nat)
    requires Sim(h, c, lv)
    ensures WalkHost(h, ipa) == AsWords(Walk(c, ipa)) && MappingOf(h, ipa) == GetMapping(c, ipa)
  {
    hide HeapDecodes, PagesOk, AllocOk, WalkWords, WalkFrom;
    WalkSim(h.words, c.mem, lv, c.root, c.geo.start, ipa);
  }

  /** After any run of map, huge-map and unmap calls whose leaf flags fit, from a fresh context in any host
      memory and with any pattern of allocation failures, get_mapping at every IPA is the translation of
      the flat view updated by the calls that succeeded; IPA bits above the root's reach are ignored. */
  lemma TranslationsOfWords(geo: Geometry, root: nat, alloc: seq<Option<bv64>>, rest: HostMem,
                            calls: seq<Call>, ipa: nat)
    requires geo.Valid() && PagesOk(alloc) && AllocOk(Fresh(geo, root, Pages(alloc)))
    requires forall i | 0 <= i < |calls| :: CallFits(calls[i])
    ensures var h := FreshHost(geo, root, alloc, rest);
            MappingOf(RunWords(h, calls), ipa) == FlatMapping(FlatCalls(h, NOTHING, calls), Fold(geo.start, ipa))
  {
    hide Sim, RunWords, Run, FlatRun, FlatCalls, MappingOf, GetMapping, FlatMapping, CallFits, AllocOk, PagesOk;
    var h, c := FreshHost(geo, root, alloc, rest), Fresh(geo, root, Pages(alloc));
    FreshSim(geo, root, alloc, rest);
    var lv := RunSim(h, c, map[root := geo.start], calls);
    FlatCallsAre(h, c, map[root := geo.start], NOTHING, calls);
    MappingSim(RunWords(h, calls), Run(c, AbstractAll(calls)), lv, ipa);
    TranslationsOfRun(geo, root, Pages(alloc), AbstractAll(calls), ipa);
  }

  /** Host memory, descriptors, levels, linked tables and flat view all agree. */
  ghost predicate Agree(h: Host, c: Ctx, lv: Levels, tab: Tree, f: Flat) {
    Sim(h, c, lv) && Inv(c, tab) && Refines(c, f)
  }

  /** One call in full: its answer, its effect on every translation, the statistics staying exact if and only
      if a successful call does not map one granularity over the other, and table pages staying linked if and
      only if no successful 2 MiB map lands on a table. */
  lemma CallOfWords(h: Host, c: Ctx, lv: Levels, tab: Tree, f: Flat, call: Call)
      returns (c': Ctx, lv': Levels, tab': Tree)
    requires Agree(h, c, lv, tab, f) && CallFits(call)
    ensures var (h', ret) := CallWord(h, call);
            var op := Abstract(call);
            && (ret == FlatCheck(h.geo, f, op) || (ret == ENOMEM && FlatCheck(h.geo, f, op) == OK && !call.UnmapCall?))
            && Agree(h', c', lv', tab', FlatStep(h.geo, f, op, ret))
            && (StatsExact(h.stats, f) ==>
                  (StatsExact(h'.stats, FlatStep(h.geo, f, op, ret)) <==> !(ret == OK && MixesIn(h, f, call))))
            && (NoLeak(c.mem, tab) ==>
                  (NoLeak(c'.mem, tab') <==> !(ret == OK && call.MapHugeCall? && MixesIn(h, f, call))))
  {
    hide Inv, Refines, CallWord, Step, StatsExact, Mixed, MixesIn, NoLeak, FlatCheck, FlatStep, HeapDecodes, PagesOk,
      AllocOk, CallFits, Abstract;
    MixesSim(h, c, lv, f, call);
    lv' := CallSim(h, c, lv, call);
    var ret;
    c', ret, tab' := StepRefines(c, tab, f, Abstract(call));
    UnmapOnly(call);
  }

  lemma UnmapOnly(call: Call)
    ensures Abstract(call).OpUnmap? == call.UnmapCall? && Abstract(call).OpMapHuge? == call.MapHugeCall?
  {
  }

  // ---------------------------------------------------------------- the condition on flags is exact

  lemma {:induction false} WalkComesTo(words: HostMem, words': HostMem, c: Ctx, lv: Levels,
                                       tab: Tree, ipa: nat, level: nat, leaf: nat)
    requires HeapDecodes(words, c.mem, lv) && Inv(c, tab) && lv[c.root] == c.geo.start
    requires ipa < Reach(c.geo.start) && c.geo.start <= level <= leaf <= 3 && SlotOf(ipa, level) in tab
    requires forall u <- c.mem | lv[u] < leaf :: u in words' && words'[u] == words[u]
    ensures var t := tab[SlotOf(ipa, level)];
            && t in c.mem && lv[t] == level
            && WalkWords(words', c.root, c.geo.start, ipa) == WalkWords(words', t, level, ipa)
    decreases level
  {
    hide HeapDecodes, Value, Read, Decodes, Inv, Reach, SlotOf;
    var start := c.geo.start;
    RootLinked(c, tab);
    RootSlot(ipa, start);
    RootInHeap(words, c, lv, tab);
    if level > start {
      LinkAbove(c, tab, ipa, level);
      WalkComesTo(words, words', c, lv, tab, ipa, level - 1, leaf);
      var t, i := tab[SlotOf(ipa, level - 1)], Index(ipa, level - 1);
      EntryAt(words, c.mem, lv, t, i);
      TablePage(words, c.mem, lv, t);
      assert WordAt(words', t, i) == WordAt(words, t, i);
      TableEntry(WordAt(words, t, i), level - 1, tab[SlotOf(ipa, level)]);
    }
  }

  /** A linked table hangs off the entry above it. */
  lemma LinkAbove(c: Ctx, tab: Tree, ipa: nat, level: nat)
    requires Inv(c, tab) && c.geo.start < level <= 3 && SlotOf(ipa, level) in tab
    ensures SlotOf(ipa, level - 1) in tab
    ensures Entry(c.mem, tab[SlotOf(ipa, level - 1)], Index(ipa, level - 1)) == Table(tab[SlotOf(ipa, level)])
  {
    SlotStep(ipa, level - 1);
    ChildParent(SlotOf(ipa, level - 1), Index(ipa, level - 1));
    assert Linked(c.mem, tab, c.geo.start, SlotOf(ipa, level));
  }

  lemma RootInHeap(words: HostMem, c: Ctx, lv: Levels, tab: Tree)
    requires Inv(c, tab) && HeapDecodes(words, c.mem, lv)
    ensures c.root in c.mem && c.root in lv
  {
  }

  lemma TableEntry(w: bv64, level: nat, child: nat)
    requires level < 3 && Decodes(w, level, Table(child))
    ensures Read(w, level).RTable? && Value(Read(w, level).child) == child
  {
  }

  lemma OtherTables(words: HostMem, c: Ctx, lv: Levels, t: nat, i: nat, w: bv64, leaf: nat)
    requires HeapDecodes(words, c.mem, lv) && t in lv && lv[t] == leaf
    ensures forall u <- c.mem | lv[u] < leaf :: u in PutWord(words, t, i, w) && PutWord(words, t, i, w)[u] == words[u]
  {
    hide EntryDecodes;
  }

  /** What the walk finds in the table it came to. */
  lemma LeafFound(words: HostMem, t: nat, ipa: nat, pa: bv64, flags: bv64, leaf: nat)
    requires 2 <= leaf <= 3 && LeafAddress(pa, leaf) && t in words && |words[t]| == ENTRIES
    ensures var words' := PutWord(words, t, Index(ipa, leaf), LeafWord(pa, flags, leaf));
            WalkWords(words', t, leaf, ipa) == At(leaf, Value(pa)) <==> FlagsFit(pa, flags, leaf)
  {
    hide LeafWord, Value, Read, FlagsFit, LeafAddress, Attributes;
    var words' := PutWord(words, t, Index(ipa, leaf), LeafWord(pa, flags, leaf));
    var w := LeafWord(pa, flags, leaf);
    assert WordAt(words', t, Index(ipa, leaf)) == w;
    LeafReadsBack(pa, flags, leaf);
    var r := Read(w, leaf);
    if r.RLeaf? && Value(r.pa) == Value(pa) {
      ValueInjective(r.pa, pa);
    } else if r.RTable? && leaf < 3 {
      DeeperLevel(words', Value(r.child), leaf + 1, ipa);
    }
  }

  lemma {:induction false} DeeperLevel(words: HostMem, t: nat, level: nat, ipa: nat)
    ensures var w := WalkWords(words, t, level, ipa); w.At? ==> w.level >= level
    decreases 4 - level
  {
    if level < 3 {
      var r := Read(WordAt(words, t, Index(ipa, level)), level);
      if r.RTable? {
        DeeperLevel(words, Value(r.child), level + 1, ipa);
      }
    }
  }

  /** A successful map call is found again, at its level and address, if and only if its flags fit the leaf. */
  lemma MapFoundAgain(h: Host, c: Ctx, lv: Levels, tab: Tree, ipa: nat, pa: bv64, flags: bv64, leaf: nat)
    requires Sim(h, c, lv) && Inv(c, tab) && 2 <= leaf <= 3
    requires Aligned(Value(pa), LevelSize(leaf)) && MapWord(h, ipa, pa, flags, leaf).1 == OK
    ensures WalkHost(MapWord(h, ipa, pa, flags, leaf).0, ipa) == At(leaf, Value(pa)) <==> FlagsFit(pa, flags, leaf)
  {
    hide HeapDecodes, AllocOk, PagesOk, Value, FlagsFit, LeafAddress, WalkWords, TreeOk, Descend, DescendWords,
      LeafWord;
    CheckedAddress(c.geo, ipa, pa, flags, leaf);
    InReach(c, tab, ipa, Value(pa), flags, leaf);
    var lv' := DescendSim(h, c, lv, c.root, c.geo.start, leaf, ipa);
    var (h1, t) := DescendWords(h, h.root, h.geo.start, leaf, ipa);
    var (c1, t') := Descend(c, c.root, c.geo.start, leaf, ipa);
    RootSlot(ipa, c.geo.start);
    RootLinked(c, tab);
    var tab' := DescendWalks(c, tab, Slot(c.geo.start, 0), leaf, ipa);
    var w := LeafWord(pa, flags, leaf);
    OtherTables(h1.words, c1, lv', t.value, Index(ipa, leaf), w, leaf);
    WalkComesTo(h1.words, PutWord(h1.words, t.value, Index(ipa, leaf), w), c1, lv', tab', ipa, leaf, leaf);
    TablePage(h1.words, c1.mem, lv', t.value);
    LeafFound(h1.words, t.value, ipa, pa, flags, leaf);
  }

  lemma TablePage(words: HostMem, mem: Heap, lv: Levels, t: nat)
    requires HeapDecodes(words, mem, lv) && t in mem
    ensures t in words && |words[t]| == ENTRIES
  {
  }

  lemma InReach(c: Ctx, tab: Tree, ipa: nat, pa: nat, flags: bv64, leaf: nat)
    requires Inv(c, tab) && MapCheck(c.geo, ipa, pa, flags, leaf) == OK
    ensures ipa < Reach(c.geo.start)
  {
    WithinReach(c.geo);
  }

  // ---------------------------------------------------------------- statistics

  /** Does the level-2 entry of `ipa` point to an L3 table? */
  predicate TableUnder(words: HostMem, t: nat, level: nat, ipa: nat)
    decreases 3 - level
  {
    var w := WordAt(words, t, Index(ipa, level));
    Kind(w) == TABLE && (level >= 2 || TableUnder(words, Value(Address(w)), level + 1, ipa))
  }

  lemma {:induction false} TableUnderSim(words: HostMem, mem: Heap, lv: Levels, t: nat,
                                         level: nat, ipa: nat)
    requires HeapDecodes(words, mem, lv) && t in mem && lv[t] == level <= 2
    ensures TableUnder(words, t, level, ipa) == TableAt(mem, t, level, ipa)
    decreases 3 - level
  {
    hide HeapDecodes, Value, Kind, Address, Stage2Format.Valid, Decodes;
    var i := Index(ipa, level);
    EntryAt(words, mem, lv, t, i);
    TestsAgree(WordAt(words, t, i), level, Entry(mem, t, i));
    if Entry(mem, t, i).Table? && level < 2 {
      TableUnderSim(words, mem, lv, Entry(mem, t, i).child, level + 1, ipa);
    }
  }

  /** Would the call map one granularity over the other? */
  predicate MixesIn(h: Host, f: Flat, call: Call) {
    match call
    case MapPageCall(ipa, _, _) => Number(ipa, 2) in f.blocks
    case MapHugeCall(ipa, _, _) => TableUnder(h.words, h.root, h.geo.start, ipa)
    case UnmapCall(_) => false
  }

  lemma MixesSim(h: Host, c: Ctx, lv: Levels, f: Flat, call: Call)
    requires Sim(h, c, lv)
    ensures MixesIn(h, f, call) == Mixed(c, f, Abstract(call))
  {
    hide HeapDecodes, AllocOk, PagesOk, TableUnder, TableAt, Value;
    if call.MapHugeCall? {
      TableUnderSim(h.words, c.mem, lv, c.root, c.geo.start, call.ipa);
    }
  }

  /** No successful call of the run maps one granularity over the other. */
  predicate KeepsApart(h: Host, f: Flat, calls: seq<Call>)
    decreases |calls|
  {
    calls == [] ||
    var (h1, ret) := CallWord(h, calls[0]);
    !(ret == OK && MixesIn(h, f, calls[0])) && KeepsApart(h1, FlatStep(h.geo, f, Abstract(calls[0]), ret), calls[1..])
  }

  lemma {:induction false} KeepsApartSim(h: Host, c: Ctx, lv: Levels, f: Flat, calls: seq<Call>)
    requires Sim(h, c, lv) && forall i | 0 <= i < |calls| :: CallFits(calls[i])
    ensures KeepsApart(h, f, calls) == Unmixed(c, f, AbstractAll(calls))
    decreases |calls|
  {
    hide CallWord, Step, CallFits, Abstract, HeapDecodes, PagesOk, AllocOk, MixesIn, Mixed;
    if calls != [] {
      MixesSim(h, c, lv, f, calls[0]);
      var lv' := CallSim(h, c, lv, calls[0]);
      var (h1, ret) := CallWord(h, calls[0]);
      KeepsApartSim(h1, Step(c, Abstract(calls[0])).0, lv', FlatStep(h.geo, f, Abstract(calls[0]), ret), calls[1..]);
      assert AbstractAll(calls)[1..] == AbstractAll(calls[1..]);
    }
  }

  /** The page or block numbers at which the walker finds a leaf of that level. */
  ghost function LeavesOf(h: Host, level: nat): set<nat> {
    set n: nat | n < Reach(h.geo.start) / LevelSize(level)
              && WalkHost(h, n * LevelSize(level)).At? && WalkHost(h, n * LevelSize(level)).level == level
  }

  lemma LeavesSim(h: Host, c: Ctx, lv: Levels, level: nat)
    requires Sim(h, c, lv)
    ensures LeavesOf(h, level) == LeavesAt(c, level)
  {
    hide HeapDecodes, AllocOk, PagesOk, WalkHost, Walk, Reach, LevelSize;
    forall n: nat
      ensures WalkHost(h, n * LevelSize(level)) == AsWords(Walk(c, n * LevelSize(level)))
    {
      MappingSim(h, c, lv, n * LevelSize(level));
    }
  }

  // ---------------------------------------------------------------- teardown

  /** The pages s2_free_table_tree frees, by the type bits of the words. */
  function FreedBy(words: HostMem, t: nat, level: nat): seq<nat>
    decreases 4 - level, ENTRIES + 1
  {
    if level >= 3 then [t] else FreedFrom(words, t, level, 0) + [t]
  }

  function FreedFrom(words: HostMem, t: nat, level: nat, i: nat): seq<nat>
    requires level < 3
    decreases 4 - level, ENTRIES - i
  {
    if i >= ENTRIES then []
    else
      var w := WordAt(words, t, i);
      var below := if Kind(w) == TABLE then FreedBy(words, Value(Address(w)), level + 1) else [];
      below + FreedFrom(words, t, level, i + 1)
  }

  lemma {:induction false} FreedSim(words: HostMem, mem: Heap, lv: Levels, t: nat, level: nat)
    requires HeapDecodes(words, mem, lv) && t in mem && lv[t] == level <= 3
    ensures FreedBy(words, t, level) == D.FreeTree(mem, t, level)
    decreases 4 - level, ENTRIES + 1
  {
    hide HeapDecodes, FreedFrom, D.FreeEntries;
    if level < 3 {
      FreedFromSim(words, mem, lv, t, level, 0);
    }
  }

  lemma {:induction false} FreedFromSim(words: HostMem, mem: Heap, lv: Levels, t: nat,
                                        level: nat, i: nat)
    requires HeapDecodes(words, mem, lv) && t in mem && lv[t] == level < 3
    ensures FreedFrom(words, t, level, i) == D.FreeEntries(mem, t, level, i)
    decreases 4 - level, ENTRIES - i
  {
    hide HeapDecodes, Value, Kind, Address, Stage2Format.Valid, Decodes, FreedBy, D.FreeTree;
    if i < ENTRIES {
      EntryAt(words, mem, lv, t, i);
      var d := Entry(mem, t, i);
      TestsAgree(WordAt(words, t, i), level, d);
      FreedFromSim(words, mem, lv, t, level, i + 1);
      if d.Table? {
        FreedSim(words, mem, lv, d.child, level + 1);
      }
    }
  }

  /** In every run with fitting flags that never maps one granularity over the other: the counters equal the
      leaves the walker finds and their bytes, every table page is the root or hangs off exactly one parent
      entry, and teardown frees every table page exactly once. `tables` are the pages taken for tables. */
  lemma AccountsOfWords(geo: Geometry, root: nat, alloc: seq<Option<bv64>>, rest: HostMem, calls: seq<Call>)
      returns (c: Ctx, tab: Tree)
    requires geo.Valid() && PagesOk(alloc) && AllocOk(Fresh(geo, root, Pages(alloc)))
    requires forall i | 0 <= i < |calls| :: CallFits(calls[i])
    requires KeepsApart(FreshHost(geo, root, alloc, rest), NOTHING, calls)
    ensures var h := RunWords(FreshHost(geo, root, alloc, rest), calls);
            && c == Run(Fresh(geo, root, Pages(alloc)), AbstractAll(calls))
            && h.stats.pages4k == |LeavesOf(h, 3)| && h.stats.pages2m == |LeavesOf(h, 2)|
            && h.stats.total == SIZE_4KB * |LeavesOf(h, 3)| + SIZE_2MB * |LeavesOf(h, 2)|
            && Inv(c, tab) && NoLeak(c.mem, tab) && c.mem.Keys <= h.words.Keys
            && multiset(FreedBy(h.words, h.root, h.geo.start)) == multiset(c.mem.Keys)
  {
    hide RunWords, Run, CallFits, AllocOk, PagesOk, HeapDecodes, KeepsApart, Unmixed, Inv, NoLeak, FreedBy, D.FreeTree;
    var h0, c0, lv0 := FreshHost(geo, root, alloc, rest), Fresh(geo, root, Pages(alloc)), map[root := geo.start];
    FreshSim(geo, root, alloc, rest);
    KeepsApartSim(h0, c0, lv0, NOTHING, calls);
    var lv := RunSim(h0, c0, lv0, calls);
    var h := RunWords(h0, calls);
    c := Run(c0, AbstractAll(calls));
    tab := AccountsOfRun(geo, root, Pages(alloc), AbstractAll(calls));
    LeavesSim(h, c, lv, 2);
    LeavesSim(h, c, lv, 3);
    HeapKeys(h.words, c.mem, lv);
    FreedSim(h.words, c.mem, lv, c.root, c.geo.start);
    D.TeardownFreesAll(c, tab);
  }

  lemma HeapKeys(words: HostMem, mem: Heap, lv: Levels)
    requires HeapDecodes(words, mem, lv)
    ensures mem.Keys <= words.Keys
  {
  }
}

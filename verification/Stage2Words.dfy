/** The stage-2 tables as src/arch/arm64/stage2.c keeps them: pages of 64-bit words in host memory. While
    every leaf is written with flags that fit it, the words decode at every step to the descriptors of
    Stage2Tables.
*/
module Stage2Words {
  import opened Stage2Tables
  import opened Stage2Bits
  import opened Stage2Format
  import opened Stage2Refinement

  /** Pages of words by physical address. */
  type HostMem = map<nat, seq<bv64>>

  /** The level at which a page is used as a table. */
  type Levels = map<nat, nat>

  /** `words` is host memory by page; it may hold any pages besides the tables. */
  datatype Host = Host(geo: Geometry, root: nat, words: HostMem, stats: Stats, alloc: seq<Option<bv64>>)

  function ZeroPage(): seq<bv64> {
    seq(ENTRIES, _ => 0)
  }

  function WordAt(words: HostMem, t: nat, i: nat): bv64 {
    if t in words && i < |words[t]| then words[t][i] else 0
  }

  function PutWord(words: HostMem, t: nat, i: nat, w: bv64): HostMem {
    if t in words && i < |words[t]| then words[t := words[t][i := w]] else words
  }

  /** s2_alloc_table. */
  function TakePage(h: Host): (Host, Option<bv64>) {
    if h.alloc == [] then (h, None)
    else if h.alloc[0].None? then (h.(alloc := h.alloc[1..]), None)
    else (h.(words := h.words[Value(h.alloc[0].value) := ZeroPage()], alloc := h.alloc[1..]), h.alloc[0])
  }

  /** s2_get_or_create: the address of the child table. */
  function ChildOf(h: Host, t: nat, i: nat): (Host, Option<nat>) {
    var w := WordAt(h.words, t, i);
    if Kind(w) == TABLE then (h, Some(Value(Address(w))))
    else
      var (h1, page) := TakePage(h);
      if page.None? then (h1, None)
      else (h1.(words := PutWord(h1.words, t, i, TableWord(page.value))), Some(Value(page.value)))
  }

  function DescendWords(h: Host, t: nat, level: nat, leaf: nat, ipa: nat): (Host, Option<nat>)
    decreases leaf - level
  {
    if level >= leaf then (h, Some(t))
    else
      var (h1, child) := ChildOf(h, t, Index(ipa, level));
      if child.None? then (h1, None) else DescendWords(h1, child.value, level + 1, leaf, ipa)
  }

  function PutLeaf(h: Host, t: nat, ipa: nat, pa: bv64, flags: bv64, leaf: nat): Host {
    var old_ := WordAt(h.words, t, Index(ipa, leaf));
    h.(stats := if Stage2Format.Valid(old_) then h.stats else CountMapped(h.stats, leaf),
       words := PutWord(h.words, t, Index(ipa, leaf), LeafWord(pa, flags, leaf)))
  }

  /** s2_map with s2_map_one. */
  function MapWord(h: Host, ipa: nat, pa: bv64, flags: bv64, leaf: nat): (Host, Errno) {
    var e := MapCheck(h.geo, ipa, Value(pa), flags, leaf);
    if e != OK then (h, e)
    else
      var (h1, t) := DescendWords(h, h.root, h.geo.start, leaf, ipa);
      if t.None? then (h1, ENOMEM) else (PutLeaf(h1, t.value, ipa, pa, flags, leaf), OK)
  }

  datatype WordWalk = NoEntry | BadEntry | At(level: nat, pa: nat)

  /** s2_walk. */
  function WalkWords(words: HostMem, t: nat, level: nat, ipa: nat): WordWalk
    decreases 4 - level
  {
    if level >= 4 then NoEntry
    else
      match Read(WordAt(words, t, Index(ipa, level)), level)
      case RInvalid => NoEntry
      case RTable(child) => if level < 3 then WalkWords(words, Value(child), level + 1, ipa) else BadEntry
      case RLeaf(pa, _) => At(level, Value(pa))
      case RCorrupt => BadEntry
  }

  function WalkHost(h: Host, ipa: nat): WordWalk {
    WalkWords(h.words, h.root, h.geo.start, ipa)
  }

  /** relm_stage2_get_mapping. */
  function MappingOf(h: Host, ipa: nat): (Errno, nat) {
    match WalkHost(h, ipa)
    case NoEntry => (ENOENT, 0)
    case BadEntry => (EINVAL, 0)
    case At(level, pa) => (OK, pa + ipa % LevelSize(level))
  }

  /** The second descent of unmap_page, which follows addresses without looking at types. */
  function FollowWords(words: HostMem, t: nat, level: nat, leaf: nat, ipa: nat): nat
    decreases leaf - level
  {
    if level >= leaf then t
    else FollowWords(words, Value(Address(WordAt(words, t, Index(ipa, level)))), level + 1, leaf, ipa)
  }

  function UnmapWord(h: Host, ipa: nat): (Host, Errno) {
    match WalkHost(h, ipa)
    case NoEntry => (h, OK)
    case BadEntry => (h, EINVAL)
    case At(level, _) =>
      if !Aligned(ipa, LevelSize(level)) then (h, EINVAL)
      else
        var t := FollowWords(h.words, h.root, h.geo.start, level, ipa);
        (h.(words := PutWord(h.words, t, Index(ipa, level), 0), stats := CountUnmapped(h.stats, level)), OK)
  }

  datatype Call =
    | MapPageCall(ipa: nat, pa: bv64, flags: bv64)
    | MapHugeCall(ipa: nat, pa: bv64, flags: bv64)
    | UnmapCall(ipa: nat)

  function CallWord(h: Host, call: Call): (Host, Errno) {
    match call
    case MapPageCall(ipa, pa, flags) => MapWord(h, ipa, pa, flags, 3)
    case MapHugeCall(ipa, pa, flags) =>
      if !Aligned(ipa, SIZE_2MB) || !Aligned(Value(pa), SIZE_2MB) then (h, EINVAL) else MapWord(h, ipa, pa, flags, 2)
    case UnmapCall(ipa) => UnmapWord(h, ipa)
  }

  function RunWords(h: Host, calls: seq<Call>): Host
    decreases |calls|
  {
    if calls == [] then h else RunWords(CallWord(h, calls[0]).0, calls[1..])
  }

  /** A context around a fresh root page; `rest` is all other host memory. */
  function FreshHost(geo: Geometry, root: nat, alloc: seq<Option<bv64>>, rest: HostMem): Host {
    Host(geo, root, rest[root := ZeroPage()], Stats(0, 0, 0), alloc)
  }

  // ---------------------------------------------------------------- words and descriptors

  /** The call on descriptors. */
  function Abstract(call: Call): Op {
    match call
    case MapPageCall(ipa, pa, flags) => OpMapPage(ipa, Value(pa), flags)
    case MapHugeCall(ipa, pa, flags) => OpMapHuge(ipa, Value(pa), flags)
    case UnmapCall(ipa) => OpUnmap(ipa)
  }

  function AbstractAll(calls: seq<Call>): (r: seq<Op>)
    ensures |r| == |calls| && forall i | 0 <= i < |r| :: r[i] == Abstract(calls[i])
  {
    seq(|calls|, i requires 0 <= i < |calls| => Abstract(calls[i]))
  }

  function Pages(alloc: seq<Option<bv64>>): (r: seq<Option<nat>>)
    ensures |r| == |alloc|
    ensures forall i | 0 <= i < |r| :: r[i] == if alloc[i].Some? then Some(Value(alloc[i].value)) else None
  {
    seq(|alloc|, i requires 0 <= i < |alloc| => if alloc[i].Some? then Some(Value(alloc[i].value)) else None)
  }

  /** The leaf this call writes has flags that fit it. */
  predicate CallFits(call: Call) {
    match call
    case MapPageCall(_, pa, flags) => FlagsFit(pa, flags, 3)
    case MapHugeCall(_, pa, flags) => FlagsFit(pa, flags, 2)
    case UnmapCall(_) => true
  }

  /** The descriptor with the flags a reader can get out of the word. */
  function Readable(d: Desc): Desc {
    if d.Leaf? then d.(flags := Attributes(d.flags)) else d
  }

  /** A word in a level-`level` table decodes to the descriptor. */
  predicate Decodes(w: bv64, level: nat, d: Desc) {
    !Read(w, level).RCorrupt? && Meaning(Read(w, level)) == Readable(d)
  }

  ghost predicate EntryDecodes(words: HostMem, mem: Heap, lv: Levels, t: nat, i: nat)
    requires t in mem && t in lv && i < ENTRIES
  {
    var d := Entry(mem, t, i);
    && Decodes(WordAt(words, t, i), lv[t], d)
    && (d.Table? ==> lv[t] < 3 && d.child in mem && d.child in lv && lv[d.child] == lv[t] + 1)
    && (d.Leaf? ==> lv[t] >= 1)
  }

  /** Host memory decodes to the descriptor heap; `lv` is the level at which each table page is used. */
  ghost predicate HeapDecodes(words: HostMem, mem: Heap, lv: Levels) {
    && mem.Keys <= lv.Keys && mem.Keys <= words.Keys
    && (forall t <- mem :: lv[t] <= 3 && |words[t]| == |mem[t]| == ENTRIES)
    && (forall t <- mem, i: nat | i < ENTRIES :: EntryDecodes(words, mem, lv, t, i))
  }

  ghost predicate PagesOk(alloc: seq<Option<bv64>>) {
    forall k | 0 <= k < |alloc| && alloc[k].Some? :: alloc[k].value & !ADDR_MASK == 0
  }

  ghost predicate Sim(h: Host, c: Ctx, lv: Levels) {
    && h.geo == c.geo && h.root == c.root && h.stats == c.stats && Pages(h.alloc) == c.alloc
    && PagesOk(h.alloc) && AllocOk(c) && c.geo.Valid()
    && c.root in c.mem && HeapDecodes(h.words, c.mem, lv) && lv[c.root] == c.geo.start
  }

  lemma EntryAt(words: HostMem, mem: Heap, lv: Levels, t: nat, i: nat)
    requires HeapDecodes(words, mem, lv) && t in mem && i < ENTRIES
    ensures t in lv && lv[t] <= 3 && EntryDecodes(words, mem, lv, t, i)
  {
  }

  /** What the code tests on a word, the model tests on the descriptor. */
  lemma TestsAgree(w: bv64, level: nat, d: Desc)
    requires level <= 3 && Decodes(w, level, d) && (d.Table? ==> level < 3)
    ensures Stage2Format.Valid(w) <==> !d.Invalid?
    ensures level < 3 ==> (Kind(w) == TABLE <==> d.Table?)
    ensures d.Table? ==> Value(Address(w)) == d.child
  {
    hide Value, Kind, Address, Stage2Format.Valid, Base, Attributes;
    TypesTell(w, level);
  }

  // ---------------------------------------------------------------- the descent

  /** Writing one word and one descriptor that agree. */
  lemma PutDecodes(words: HostMem, mem: Heap, lv: Levels, t: nat, i: nat, w: bv64, d: Desc)
    requires HeapDecodes(words, mem, lv) && t in mem && i < ENTRIES
    requires Decodes(w, lv[t], d) && (d.Leaf? ==> lv[t] >= 1)
    requires d.Table? ==> lv[t] < 3 && d.child in mem && d.child in lv && lv[d.child] == lv[t] + 1
    ensures HeapDecodes(PutWord(words, t, i, w), SetEntry(mem, t, i, d), lv) && SetEntry(mem, t, i, d).Keys == mem.Keys
  {
    hide Decodes;
    var words', mem' := PutWord(words, t, i, w), SetEntry(mem, t, i, d);
    forall u <- mem', j: nat | j < ENTRIES
      ensures EntryDecodes(words', mem', lv, u, j)
    {
      assert EntryDecodes(words, mem, lv, u, j);
    }
  }

  /** A zeroed page is an empty table. */
  lemma NewPage(words: HostMem, mem: Heap, lv: Levels, t: nat, level: nat)
    requires HeapDecodes(words, mem, lv) && t !in mem && level <= 3
    ensures HeapDecodes(words[t := ZeroPage()], mem[t := EmptyTable()], lv[t := level])
  {
    hide Decodes;
    var words', mem', lv' := words[t := ZeroPage()], mem[t := EmptyTable()], lv[t := level];
    ZeroDecodes(level);
    forall u <- mem', j: nat | j < ENTRIES
      ensures EntryDecodes(words', mem', lv', u, j)
    {
      if u != t {
        assert EntryDecodes(words, mem, lv, u, j);
      }
    }
  }

  lemma ZeroDecodes(level: nat)
    ensures Decodes(0, level, Invalid)
  {
  }

  lemma TableDecodes(p: bv64, level: nat)
    requires level < 3 && p & !ADDR_MASK == 0
    ensures Decodes(TableWord(p), level, Table(Value(p)))
  {
    hide TableWord, Value, Read;
    TableReadsBack(p, level);
  }

  lemma PagesRest(alloc: seq<Option<bv64>>)
    requires alloc != []
    ensures Pages(alloc)[1..] == Pages(alloc[1..])
    ensures PagesOk(alloc) ==> PagesOk(alloc[1..]) && (alloc[0].Some? ==> alloc[0].value & !ADDR_MASK == 0)
  {
  }

  lemma ChildSim(h: Host, c: Ctx, lv: Levels, t: nat, i: nat) returns (lv': Levels)
    requires Sim(h, c, lv) && t in c.mem && lv[t] < 3 && i < ENTRIES
    ensures var (h', r) := ChildOf(h, t, i);
            var (c', r') := GetOrCreate(c, t, i);
            && Sim(h', c', lv') && r == r' && c'.mem.Keys >= c.mem.Keys
            && (r.Some? ==> r.value in c'.mem && lv'[r.value] == lv[t] + 1)
            && (forall u <- c.mem :: lv'[u] == lv[u])
  {
    hide HeapDecodes, Decodes, AllocOk, PagesOk, Value, Kind, Address, TableWord, ZeroPage, EmptyTable;
    lv' := lv;
    EntryAt(h.words, c.mem, lv, t, i);
    TestsAgree(WordAt(h.words, t, i), lv[t], Entry(c.mem, t, i));
    var (h', r) := ChildOf(h, t, i);
    var (c', r') := GetOrCreate(c, t, i);
    if !Entry(c.mem, t, i).Table? && h.alloc != [] {
      PagesRest(h.alloc);
      assert c.alloc[0] == Pages(h.alloc)[0];
      if h.alloc[0].Some? {
        var p := h.alloc[0].value;
        FreshAlloc(c);
        lv' := LinkSim(h.words, c.mem, lv, t, i, p);
      }
      AllocKept(c, c');
    }
  }

  lemma FreshAlloc(c: Ctx)
    requires AllocOk(c) && c.alloc != [] && c.alloc[0].Some?
    ensures c.alloc[0].value !in c.mem
  {
  }

  lemma LinkSim(words: HostMem, mem: Heap, lv: Levels, t: nat, i: nat, p: bv64)
      returns (lv': Levels)
    requires HeapDecodes(words, mem, lv) && t in mem && t in lv && lv[t] < 3 && i < ENTRIES
    requires p & !ADDR_MASK == 0 && Value(p) !in mem
    ensures var words' := PutWord(words[Value(p) := ZeroPage()], t, i, TableWord(p));
            var mem' := SetEntry(mem[Value(p) := EmptyTable()], t, i, Table(Value(p)));
            HeapDecodes(words', mem', lv') && mem'.Keys == mem.Keys + {Value(p)} && lv' == lv[Value(p) := lv[t] + 1]
  {
    hide HeapDecodes, Decodes, Value, TableWord, ZeroPage, EmptyTable;
    var q := Value(p);
    NewPage(words, mem, lv, q, lv[t] + 1);
    lv' := lv[q := lv[t] + 1];
    TableDecodes(p, lv[t]);
    PutDecodes(words[q := ZeroPage()], mem[q := EmptyTable()], lv', t, i, TableWord(p), Table(q));
  }

  lemma {:induction false} DescendSim(h: Host, c: Ctx, lv: Levels, t: nat, level: nat, leaf: nat, ipa: nat)
      returns (lv': Levels)
    requires Sim(h, c, lv) && t in c.mem && lv[t] == level <= leaf <= 3
    ensures var (h', r) := DescendWords(h, t, level, leaf, ipa);
            var (c', r') := Descend(c, t, level, leaf, ipa);
            && Sim(h', c', lv') && r == r'
            && (r.Some? ==> r.value in c'.mem && r.value in lv' && lv'[r.value] == leaf)
    decreases leaf - level
  {
    hide HeapDecodes, AllocOk, PagesOk, ChildOf, GetOrCreate;
    lv' := lv;
    if level < leaf {
      lv' := ChildSim(h, c, lv, t, Index(ipa, level));
      var (h1, child) := ChildOf(h, t, Index(ipa, level));
      var (c1, child') := GetOrCreate(c, t, Index(ipa, level));
      if child.Some? {
        lv' := DescendSim(h1, c1, lv', child.value, level + 1, leaf, ipa);
      }
    }
    LevelsKnown(DescendWords(h, t, level, leaf, ipa).0, Descend(c, t, level, leaf, ipa).0, lv');
  }

  lemma LevelsKnown(h: Host, c: Ctx, lv: Levels)
    requires Sim(h, c, lv)
    ensures c.mem.Keys <= lv.Keys
  {
  }

  // ---------------------------------------------------------------- leaves

  /** An address that passed the checks of s2_map has bits in the leaf's address field only. */
  lemma CheckedAddress(geo: Geometry, ipa: nat, pa: bv64, flags: bv64, leaf: nat)
    requires geo.Valid() && 2 <= leaf <= 3 && MapCheck(geo, ipa, Value(pa), flags, leaf) == OK
    requires Aligned(Value(pa), LevelSize(leaf))
    ensures LeafAddress(pa, leaf)
  {
    hide Value;
    PowGrows(geo.paBits, 48);
    AddressBits(pa);
    if leaf == 2 {
      BlockBits(pa);
      Narrow(pa, 0x1f_ffff);
    } else {
      PageBits(pa);
    }
  }

  lemma Narrow(x: bv64, mask: bv64)
    requires x & 0xffff_0000_0000_0fff == 0 && x & mask == 0
    ensures AddressUnder(x, mask)
  {
    Outside(x);
  }

  lemma Outside(x: bv64)
    requires x & 0xffff_0000_0000_0fff == 0
    ensures x & !ADDR_MASK == 0
  {
  }

  lemma PageBits(x: bv64)
    requires x & 0xffff_0000_0000_0fff == 0
    ensures AddressUnder(x, 0xfff)
  {
  }

  lemma LeafDecodes(pa: bv64, flags: bv64, leaf: nat)
    requires 2 <= leaf <= 3 && LeafAddress(pa, leaf)
    ensures FlagsFit(pa, flags, leaf) ==> Decodes(LeafWord(pa, flags, leaf), leaf, Leaf(Value(pa), flags))
    ensures ReadsAt(LeafWord(pa, flags, leaf), leaf, pa) <==> FlagsFit(pa, flags, leaf)
  {
    hide LeafWord, Value, Read, Attributes, FlagsFit, LeafAddress;
    LeafReadsBack(pa, flags, leaf);
  }

  lemma LeafSim(h: Host, c: Ctx, lv: Levels, t: nat, ipa: nat, pa: bv64, flags: bv64, leaf: nat)
    requires Sim(h, c, lv) && t in c.mem && lv[t] == leaf && 2 <= leaf <= 3
    requires LeafAddress(pa, leaf) && FlagsFit(pa, flags, leaf)
    ensures Sim(PutLeaf(h, t, ipa, pa, flags, leaf), WriteLeaf(c, t, ipa, Value(pa), flags, leaf), lv)
  {
    hide HeapDecodes, Decodes, PagesOk, Value, LeafWord, LeafAddress, FlagsFit, Stage2Format.Valid, CountMapped;
    var i := Index(ipa, leaf);
    EntryAt(h.words, c.mem, lv, t, i);
    TestsAgree(WordAt(h.words, t, i), leaf, Entry(c.mem, t, i));
    LeafDecodes(pa, flags, leaf);
    PutDecodes(h.words, c.mem, lv, t, i, LeafWord(pa, flags, leaf), Leaf(Value(pa), flags));
  }

  lemma MapSim(h: Host, c: Ctx, lv: Levels, ipa: nat, pa: bv64, flags: bv64, leaf: nat) returns (lv': Levels)
    requires Sim(h, c, lv) && 2 <= leaf <= 3 && FlagsFit(pa, flags, leaf) && Aligned(Value(pa), LevelSize(leaf))
    ensures var (h', e) := MapWord(h, ipa, pa, flags, leaf);
            var (c', e') := Map(c, ipa, Value(pa), flags, leaf);
            Sim(h', c', lv') && e == e'
  {
    hide HeapDecodes, PagesOk, AllocOk, Value, FlagsFit, LeafAddress, PutLeaf, WriteLeaf, DescendWords, Descend,
      MapCheck;
    lv' := lv;
    if MapCheck(c.geo, ipa, Value(pa), flags, leaf) == OK {
      CheckedAddress(c.geo, ipa, pa, flags, leaf);
      lv' := DescendSim(h, c, lv, c.root, c.geo.start, leaf, ipa);
      var (h1, t) := DescendWords(h, h.root, h.geo.start, leaf, ipa);
      var (c1, t') := Descend(c, c.root, c.geo.start, leaf, ipa);
      if t.Some? {
        LeafSim(h1, c1, lv', t.value, ipa, pa, flags, leaf);
      }
    }
  }

  // ---------------------------------------------------------------- walking

  function AsWords(w: WalkResult): WordWalk {
    match w
    case Hole => NoEntry
    case Corrupt => BadEntry
    case Found(level, pa, _) => At(level, pa)
  }

  lemma {:induction false} WalkSim(words: HostMem, mem: Heap, lv: Levels, t: nat, level: nat, ipa: nat)
    requires HeapDecodes(words, mem, lv) && t in mem && lv[t] == level <= 3
    ensures WalkWords(words, t, level, ipa) == AsWords(WalkFrom(mem, t, level, ipa))
    decreases 4 - level
  {
    hide HeapDecodes, Value, Read, Attributes;
    var i := Index(ipa, level);
    EntryAt(words, mem, lv, t, i);
    var d := Entry(mem, t, i);
    if d.Table? {
      WalkSim(words, mem, lv, d.child, level + 1, ipa);
    }
  }

  lemma {:induction false} FollowSim(words: HostMem, mem: Heap, lv: Levels, t: nat, level: nat, ipa: nat)
    requires HeapDecodes(words, mem, lv) && t in mem && lv[t] == level <= 3 && WalkFrom(mem, t, level, ipa).Found?
    ensures var leaf := WalkFrom(mem, t, level, ipa).level;
            var u := LeafTable(mem, t, level, leaf, ipa);
            && FollowWords(words, t, level, leaf, ipa) == u
            && level <= leaf <= 3 && u in mem && u in lv && lv[u] == leaf
    decreases 4 - level
  {
    hide HeapDecodes, Value, Read, Kind, Address, Stage2Format.Valid, Decodes;
    var i := Index(ipa, level);
    EntryAt(words, mem, lv, t, i);
    var d := Entry(mem, t, i);
    TestsAgree(WordAt(words, t, i), level, d);
    if d.Table? {
      FollowSim(words, mem, lv, d.child, level + 1, ipa);
    }
  }

  lemma UnmapSim(h: Host, c: Ctx, lv: Levels, ipa: nat)
    requires Sim(h, c, lv)
    ensures var (h', e) := UnmapWord(h, ipa); var (c', e') := UnmapPage(c, ipa); Sim(h', c', lv) && e == e'
  {
    hide HeapDecodes, PagesOk, WalkWords, WalkFrom, FollowWords, LeafTable, CountUnmapped;
    WalkSim(h.words, c.mem, lv, c.root, c.geo.start, ipa);
    var w := Walk(c, ipa);
    if w.Found? {
      FollowSim(h.words, c.mem, lv, c.root, c.geo.start, ipa);
      var t := LeafTable(c.mem, c.root, c.geo.start, w.level, ipa);
      ZeroDecodes(w.level);
      PutDecodes(h.words, c.mem, lv, t, Index(ipa, w.level), 0, Invalid);
    }
  }
}

/** The stage-2 translation tables of src/arch/arm64/stage2.c as a heap of 512-entry tables.

    A table lives at a physical address; `mem` maps that address to its 512 descriptors. Host page
    allocation is an oracle: the sequence of answers `__get_free_page` will give, so that every
    pattern of allocation failures is covered. All arithmetic on u64 values that the C code lets
    wrap is written out with U64.
*/
module Stage2Tables {

  const ENTRIES: nat := 512
  const SIZE_4KB: nat := 0x1000
  const SIZE_2MB: nat := 0x20_0000
  const SIZE_1GB: nat := 0x4000_0000
  const SIZE_512GB: nat := 0x80_0000_0000

  const U64_MOD: nat := 0x1_0000_0000_0000_0000

  const ACCESS_READ: bv64 := 0x40

  function U64(x: int): nat {
    x % U64_MOD
  }

  datatype Option<T> = None | Some(value: T)

  datatype Errno = OK | EINVAL | ERANGE | ENOMEM | ENOENT

  /** A descriptor, as s2_walk tells them apart. */
  datatype Desc = Invalid | Table(child: nat) | Leaf(pa: nat, flags: bv64)

  /** Table pages by physical address. */
  type Heap = map<nat, seq<Desc>>

  datatype Geometry = Geometry(ipaBits: nat, paBits: nat, start: nat) {
    predicate Valid() {
      && 32 <= ipaBits <= 48
      && paBits in {32, 36, 40, 42, 44, 48}
      && start == (if ipaBits <= 39 then 1 else 0)
    }
  }

  datatype Stats = Stats(pages4k: nat, pages2m: nat, total: nat)

  datatype Ctx = Ctx(geo: Geometry, root: nat, mem: Heap, stats: Stats, alloc: seq<Option<nat>>)

  /** The bytes one entry of a level-`level` table spans. */
  function LevelSize(level: nat): (size: nat)
    ensures size > 0
  {
    if level == 0 then SIZE_512GB else if level == 1 then SIZE_1GB else if level == 2 then SIZE_2MB else SIZE_4KB
  }

  /** The number of the level-`level` entry that covers `ipa`, counted from IPA 0. */
  function Number(ipa: nat, level: nat): nat {
    ipa / LevelSize(level)
  }

  function Index(ipa: nat, level: nat): (i: nat)
    ensures i < ENTRIES
  {
    Number(ipa, level) % ENTRIES
  }

  function Pow2(n: nat): (p: nat)
    ensures p > 0
  {
    if n == 0 then 1 else 2 * Pow2(n - 1)
  }

  predicate RangeFits(address: nat, size: nat, bits: nat) {
    size != 0 && address < Pow2(bits) && size <= Pow2(bits) - address
  }

  predicate Aligned(x: nat, size: nat)
    requires size > 0
  {
    x % size == 0
  }

  // ---------------------------------------------------------------- heap access

  function EmptyTable(): seq<Desc> {
    seq(ENTRIES, _ => Invalid)
  }

  function Entry(mem: Heap, t: nat, i: nat): Desc {
    if t in mem && i < |mem[t]| then mem[t][i] else Invalid
  }

  function SetEntry(mem: Heap, t: nat, i: nat, d: Desc): Heap {
    if t in mem && i < |mem[t]| then mem[t := mem[t][i := d]] else mem
  }

  /** s2_alloc_table: one zeroed page, or nothing. */
  function AllocTable(c: Ctx): (Ctx, Option<nat>) {
    if c.alloc == [] then (c, None)
    else if c.alloc[0].None? then (c.(alloc := c.alloc[1..]), None)
    else
      (c.(mem := c.mem[c.alloc[0].value := EmptyTable()], alloc := c.alloc[1..]), c.alloc[0])
  }

  /** s2_get_or_create: note that a leaf in the slot is replaced by the new table. */
  function GetOrCreate(c: Ctx, t: nat, i: nat): (Ctx, Option<nat>) {
    var e := Entry(c.mem, t, i);
    if e.Table? then (c, Some(e.child))
    else
      var (c1, child) := AllocTable(c);
      if child.None? then (c1, None)
      else (c1.(mem := SetEntry(c1.mem, t, i, Table(child.value))), child)
  }

  /** The descent of s2_map_one from `t` at `level` to the table holding the leaf. */
  function Descend(c: Ctx, t: nat, level: nat, leaf: nat, ipa: nat): (Ctx, Option<nat>)
    decreases leaf - level
  {
    if level >= leaf then (c, Some(t))
    else
      var (c1, child) := GetOrCreate(c, t, Index(ipa, level));
      if child.None? then (c1, None) else Descend(c1, child.value, level + 1, leaf, ipa)
  }

  function CountMapped(st: Stats, leaf: nat): Stats {
    var st1 := if leaf == 3 then st.(pages4k := U64(st.pages4k + 1)) else st.(pages2m := U64(st.pages2m + 1));
    st1.(total := U64(st1.total + LevelSize(leaf)))
  }

  function CountUnmapped(st: Stats, level: nat): Stats {
    var st1 := if level == 3 then st.(pages4k := U64(st.pages4k - 1)) else st.(pages2m := U64(st.pages2m - 1));
    st1.(total := U64(st1.total - LevelSize(level)))
  }

  function WriteLeaf(c: Ctx, t: nat, ipa: nat, pa: nat, flags: bv64, leaf: nat): Ctx {
    var old_ := Entry(c.mem, t, Index(ipa, leaf));
    c.(stats := if old_.Invalid? then CountMapped(c.stats, leaf) else c.stats,
       mem := SetEntry(c.mem, t, Index(ipa, leaf), Leaf(pa, flags)))
  }

  function MapOne(c: Ctx, ipa: nat, pa: nat, flags: bv64, leaf: nat): (Ctx, Errno) {
    var (c1, t) := Descend(c, c.root, c.geo.start, leaf, ipa);
    if t.None? then (c1, ENOMEM) else (WriteLeaf(c1, t.value, ipa, pa, flags, leaf), OK)
  }

  /** The argument checks of s2_map, in the order the code makes them. */
  function MapCheck(geo: Geometry, ipa: nat, pa: nat, flags: bv64, leaf: nat): Errno {
    if !Aligned(ipa, SIZE_4KB) || !Aligned(pa, SIZE_4KB) then EINVAL
    else if flags & ACCESS_READ == 0 then EINVAL
    else if !RangeFits(ipa, LevelSize(leaf), geo.ipaBits) || !RangeFits(pa, LevelSize(leaf), geo.paBits) then ERANGE
    else OK
  }

  function Map(c: Ctx, ipa: nat, pa: nat, flags: bv64, leaf: nat): (Ctx, Errno) {
    var e := MapCheck(c.geo, ipa, pa, flags, leaf);
    if e != OK then (c, e) else MapOne(c, ipa, pa, flags, leaf)
  }

  function MapPage(c: Ctx, ipa: nat, pa: nat, flags: bv64): (Ctx, Errno) {
    Map(c, ipa, pa, flags, 3)
  }

  function MapHugePage(c: Ctx, ipa: nat, pa: nat, flags: bv64): (Ctx, Errno) {
    if !Aligned(ipa, SIZE_2MB) || !Aligned(pa, SIZE_2MB) then (c, EINVAL) else Map(c, ipa, pa, flags, 2)
  }

  // ---------------------------------------------------------------- walking

  datatype WalkResult = Hole | Corrupt | Found(level: nat, pa: nat, flags: bv64)

  function WalkFrom(mem: Heap, t: nat, level: nat, ipa: nat): WalkResult
    decreases 4 - level
  {
    if level >= 4 then Hole
    else
      match Entry(mem, t, Index(ipa, level))
      case Invalid => Hole
      case Table(child) => if level < 3 then WalkFrom(mem, child, level + 1, ipa) else Corrupt
      case Leaf(pa, flags) => if level == 0 then Corrupt else Found(level, pa, flags)
  }

  function Walk(c: Ctx, ipa: nat): WalkResult {
    WalkFrom(c.mem, c.root, c.geo.start, ipa)
  }

  /** relm_stage2_get_mapping. */
  function GetMapping(c: Ctx, ipa: nat): (Errno, nat) {
    match Walk(c, ipa)
    case Hole => (ENOENT, 0)
    case Corrupt => (EINVAL, 0)
    case Found(level, pa, _) => (OK, pa + ipa % LevelSize(level))
  }

  /** The second descent of unmap_page, to the table that holds the leaf. */
  function LeafTable(mem: Heap, t: nat, level: nat, leaf: nat, ipa: nat): nat
    decreases leaf - level
  {
    if level >= leaf then t
    else
      var e := Entry(mem, t, Index(ipa, level));
      LeafTable(mem, if e.Table? then e.child else t, level + 1, leaf, ipa)
  }

  function UnmapPage(c: Ctx, ipa: nat): (Ctx, Errno) {
    match Walk(c, ipa)
    case Hole => (c, OK)
    case Corrupt => (c, EINVAL)
    case Found(level, _, _) =>
      if !Aligned(ipa, LevelSize(level)) then (c, EINVAL)
      else
        var t := LeafTable(c.mem, c.root, c.geo.start, level, ipa);
        (c.(mem := SetEntry(c.mem, t, Index(ipa, level), Invalid), stats := CountUnmapped(c.stats, level)), OK)
  }

  /** A context as relm_stage2_context_create leaves it, around the root page it was given. */
  function Fresh(geo: Geometry, root: nat, alloc: seq<Option<nat>>): Ctx {
    Ctx(geo, root, map[root := EmptyTable()], Stats(0, 0, 0), alloc)
  }

  // ---------------------------------------------------------------- runs

  datatype Op =
    | OpMapPage(ipa: nat, pa: nat, flags: bv64)
    | OpMapHuge(ipa: nat, pa: nat, flags: bv64)
    | OpUnmap(ipa: nat)

  function Step(c: Ctx, op: Op): (Ctx, Errno) {
    match op
    case OpMapPage(ipa, pa, flags) => MapPage(c, ipa, pa, flags)
    case OpMapHuge(ipa, pa, flags) => MapHugePage(c, ipa, pa, flags)
    case OpUnmap(ipa) => UnmapPage(c, ipa)
  }

  function Run(c: Ctx, ops: seq<Op>): Ctx
    decreases |ops|
  {
    if ops == [] then c else Run(Step(c, ops[0]).0, ops[1..])
  }
}

/** The 64-bit words behind the descriptors of Stage2Tables (VMSAv8-64 stage 2, 4 KiB granule):
    how stage2.c assembles them and how its walker, its map path and its teardown take them apart.
*/
module Stage2Format {
  import Stage2Tables
  import Stage2Bits

  const TYPE_MASK: bv64 := 0x3
  const VALID: bv64 := 0x1
  const BLOCK: bv64 := 0x1
  const TABLE: bv64 := 0x3
  const PAGE: bv64 := 0x3
  const AF: bv64 := 0x400
  const ADDR_MASK: bv64 := 0x0000_ffff_ffff_f000
  const LEAF_FLAGS_MASK: bv64 := 0x0040_0000_0000_03fc

  /** What a word means to the walker at a given level. */
  datatype Raw = RInvalid | RTable(child: bv64) | RLeaf(pa: bv64, flags: bv64) | RCorrupt

  function OffsetMask(level: nat): bv64 {
    if level == 0 then 0x7f_ffff_ffff else if level == 1 then 0x3fff_ffff else if level == 2 then 0x1f_ffff else 0xfff
  }

  /** The leaf word s2_map_one writes. */
  function LeafWord(pa: bv64, flags: bv64, level: nat): bv64 {
    Assemble(pa, flags, if level == 3 then PAGE else BLOCK)
  }

  function Assemble(pa: bv64, flags: bv64, kind: bv64): bv64 {
    (pa & ADDR_MASK) | flags | AF | kind
  }

  /** The table word s2_get_or_create writes. */
  function TableWord(pa: bv64): bv64 {
    pa | TABLE
  }

  // ---------------------------------------------------------------- taking words apart

  function Kind(w: bv64): bv64 { w & TYPE_MASK }
  function Address(w: bv64): bv64 { w & ADDR_MASK }
  function BaseUnder(w: bv64, mask: bv64): bv64 { w & ADDR_MASK & !mask }
  function Base(w: bv64, level: nat): bv64 { BaseUnder(w, OffsetMask(level)) }
  function Attributes(w: bv64): bv64 { w & LEAF_FLAGS_MASK }
  predicate Valid(w: bv64) { w & VALID != 0 }

  /** The case split of s2_walk. */
  function Read(w: bv64, level: nat): Raw {
    if w == 0 then RInvalid
    else if level < 3 && Kind(w) == TABLE then RTable(Address(w))
    else if level == 0 || (level == 3 && Kind(w) != PAGE) || (level < 3 && Kind(w) != BLOCK) then RCorrupt
    else RLeaf(Base(w, level), Attributes(w))
  }

  // ---------------------------------------------------------------- leaves

  /** The flags leave the type and the address of a leaf alone: no block turned into a table, no address
      bit set that `pa` does not have. s2_map does not test this, nor does it use S2_LEAF_FLAGS_MASK. */
  predicate FlagsFit(pa: bv64, flags: bv64, level: nat) {
    KindFits(flags, level) && AddressFits(pa, flags, level)
  }

  predicate KindFits(flags: bv64, level: nat) {
    level == 3 || flags & 2 == 0
  }

  predicate AddressFits(pa: bv64, flags: bv64, level: nat) {
    FitsUnder(pa, flags, OffsetMask(level))
  }

  predicate FitsUnder(pa: bv64, flags: bv64, mask: bv64) {
    flags & ADDR_MASK & !mask & !pa == 0
  }

  /** An address a leaf of that level can have. */
  predicate LeafAddress(pa: bv64, level: nat) {
    AddressUnder(pa, OffsetMask(level))
  }

  predicate AddressUnder(pa: bv64, mask: bv64) {
    pa & !ADDR_MASK == 0 && pa & mask == 0
  }

  lemma PageType(pa: bv64, flags: bv64)
    ensures Assemble(pa, flags, PAGE) & TYPE_MASK == PAGE
  {
  }

  lemma BlockType(pa: bv64, flags: bv64)
    requires pa & !ADDR_MASK == 0
    ensures Assemble(pa, flags, BLOCK) & TYPE_MASK == (if flags & 2 == 0 then BLOCK else TABLE)
  {
  }

  lemma PageBase(pa: bv64, flags: bv64)
    requires AddressUnder(pa, 0xfff)
    ensures BaseUnder(Assemble(pa, flags, PAGE), 0xfff) == pa <==> FitsUnder(pa, flags, 0xfff)
  {
  }

  lemma BlockBase(pa: bv64, flags: bv64)
    requires AddressUnder(pa, 0x1f_ffff)
    ensures BaseUnder(Assemble(pa, flags, BLOCK), 0x1f_ffff) == pa <==> FitsUnder(pa, flags, 0x1f_ffff)
  {
  }

  lemma PageKind(pa: bv64, flags: bv64)
    ensures Kind(Assemble(pa, flags, PAGE)) == PAGE
  {
    hide Assemble;
    PageType(pa, flags);
  }

  lemma PageAddress(pa: bv64, flags: bv64)
    requires LeafAddress(pa, 3)
    ensures Base(Assemble(pa, flags, PAGE), 3) == pa <==> AddressFits(pa, flags, 3)
  {
    hide Assemble, AddressUnder, BaseUnder, FitsUnder;
    PageBase(pa, flags);
  }

  lemma BlockKind(pa: bv64, flags: bv64)
    requires LeafAddress(pa, 2)
    ensures Kind(Assemble(pa, flags, BLOCK)) == if KindFits(flags, 2) then BLOCK else TABLE
  {
    hide Assemble;
    BlockType(pa, flags);
  }

  lemma BlockAddress(pa: bv64, flags: bv64)
    requires LeafAddress(pa, 2)
    ensures Base(Assemble(pa, flags, BLOCK), 2) == pa <==> AddressFits(pa, flags, 2)
  {
    hide Assemble, AddressUnder, BaseUnder, FitsUnder;
    BlockBase(pa, flags);
  }

  lemma LeafParts(pa: bv64, flags: bv64, kind: bv64)
    requires pa & !ADDR_MASK == 0 && (kind == PAGE || kind == BLOCK)
    ensures Attributes(Assemble(pa, flags, kind)) == Attributes(flags)
    ensures Assemble(pa, flags, kind) != 0 && Valid(Assemble(pa, flags, kind))
  {
  }

  lemma IsAddress(pa: bv64, level: nat)
    requires LeafAddress(pa, level)
    ensures pa & !ADDR_MASK == 0
  {
  }

  /** The word is read as a leaf at `pa`, whatever its flags. */
  predicate ReadsAt(w: bv64, level: nat, pa: bv64) {
    Read(w, level).RLeaf? && Read(w, level).pa == pa
  }

  /** A written leaf is read back as a leaf at its address if and only if the flags fit; then the flags
      read back are those inside the mask. */
  lemma LeafReadsBack(pa: bv64, flags: bv64, level: nat)
    requires 2 <= level <= 3 && LeafAddress(pa, level)
    ensures var w := LeafWord(pa, flags, level);
            && (ReadsAt(w, level, pa) <==> FlagsFit(pa, flags, level))
            && (ReadsAt(w, level, pa) ==> Read(w, level) == RLeaf(pa, Attributes(flags))) && Valid(w)
  {
    hide Assemble, Kind, Base, Attributes, Valid, AddressFits, LeafAddress;
    IsAddress(pa, level);
    if level == 3 {
      PageKind(pa, flags);
      PageAddress(pa, flags);
      LeafParts(pa, flags, PAGE);
    } else {
      BlockKind(pa, flags);
      BlockAddress(pa, flags);
      LeafParts(pa, flags, BLOCK);
      assert BLOCK != TABLE;
    }
  }

  /** The flags that fit every leaf of a level are those without address bits and, in a block, without the
      table bit. */
  lemma FitsEverywhere(flags: bv64, level: nat)
    requires 2 <= level <= 3
    ensures (forall pa | LeafAddress(pa, level) :: FlagsFit(pa, flags, level)) <==>
            KindFits(flags, level) && AddressFits(0, flags, level)
  {
    hide AddressFits, KindFits;
    ZeroAddress(level);
    assert LeafAddress(0, level);
    forall pa | AddressFits(0, flags, level)
      ensures AddressFits(pa, flags, level)
    {
      FitsMore(pa, flags, level);
    }
  }

  lemma ZeroAddress(level: nat)
    ensures LeafAddress(0, level)
  {
    AndZero(OffsetMask(level));
  }

  lemma FitsMore(pa: bv64, flags: bv64, level: nat)
    requires AddressFits(0, flags, level)
    ensures AddressFits(pa, flags, level)
  {
    AndOnes(flags & ADDR_MASK & !OffsetMask(level));
    AndZero(!pa);
  }

  lemma AndOnes(x: bv64)
    ensures x & !0 == x
  {
  }

  lemma AndZero(x: bv64)
    ensures 0 & x == 0
  {
  }

  /** Flags inside S2_LEAF_FLAGS_MASK fit every leaf. */
  lemma MaskedFlagsFit(pa: bv64, flags: bv64, level: nat)
    requires 2 <= level <= 3 && flags & !LEAF_FLAGS_MASK == 0
    ensures FlagsFit(pa, flags, level)
  {
    InsideMask(flags);
    AndZero(!OffsetMask(level));
    AndZero(!pa);
  }

  lemma InsideMask(flags: bv64)
    requires flags & !LEAF_FLAGS_MASK == 0
    ensures flags & 2 == 0 && flags & ADDR_MASK == 0
  {
  }

  /** Two flag words that s2_map accepts: one turns a 2 MiB block into a table at the guest's own page, the
      other moves a page. */
  lemma StrayFlags()
    ensures Read(LeafWord(0x20_0000, 0x42, 2), 2) == RTable(0x20_0000)
    ensures Read(LeafWord(0, 0x5040, 3), 3) == RLeaf(0x5000, 0x40)
  {
  }

  // ---------------------------------------------------------------- tables and holes

  lemma TableParts(pa: bv64)
    requires pa & !ADDR_MASK == 0
    ensures Kind(TableWord(pa)) == TABLE && Address(TableWord(pa)) == pa && TableWord(pa) != 0
  {
  }

  lemma TableReadsBack(pa: bv64, level: nat)
    requires level < 3 && pa & !ADDR_MASK == 0
    ensures Read(TableWord(pa), level) == RTable(pa)
  {
    hide TableWord, Kind, Address;
    TableParts(pa);
  }

  /** What the map path and the teardown test agrees with what the walker reads: the valid bit tells entries
      from holes, and above level 3 the type bits alone single out tables. */
  lemma TypesTell(w: bv64, level: nat)
    requires level <= 3 && !Read(w, level).RCorrupt?
    ensures Valid(w) <==> !Read(w, level).RInvalid?
    ensures level < 3 ==> (Kind(w) == TABLE <==> Read(w, level).RTable?)
    ensures Read(w, level).RTable? ==> level < 3 && Read(w, level).child == Address(w)
  {
    hide Kind, Base, Address, Attributes, Valid;
    ValidType(w);
  }

  lemma ValidType(w: bv64)
    ensures Kind(w) == BLOCK || Kind(w) == TABLE ==> Valid(w)
    ensures !Valid(0) && Kind(0) != TABLE
  {
    LowTwo(w);
    LowTwo(0);
  }

  lemma LowTwo(w: bv64)
    ensures w & TYPE_MASK == BLOCK || w & TYPE_MASK == TABLE <==> w & VALID != 0
  {
  }

  /** The descriptor of the table model that a word stands for. */
  function Meaning(d: Raw): Stage2Tables.Desc
    requires !d.RCorrupt?
  {
    match d
    case RInvalid => Stage2Tables.Invalid
    case RTable(pa) => Stage2Tables.Table(Stage2Bits.Value(pa))
    case RLeaf(pa, flags) => Stage2Tables.Leaf(Stage2Bits.Value(pa), flags)
  }
}

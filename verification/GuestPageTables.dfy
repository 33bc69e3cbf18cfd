/** relm_ept_create_guest_page_tables (relm_npt_create_guest_page_tables is the same code): the guest's
    own identity map of the first GiB, checked by the independent long-mode walker.
*/
module GuestPageTables {
  import opened Arithmetic
  import opened GuestMemory
  import opened GuestCopy
  import opened GuestMmu
  import opened GuestVirtCopy

  const WORDS: nat := 512
  const LIMIT: nat := 0x10_0000_0000_0000  // physical addresses have 52 bits

  /** Byte `k` of the little-endian word `x`. */
  function LeByte(x: nat, k: nat): byte
    decreases k
  {
    if k == 0 then x % 256 else LeByte(x / 256, k - 1)
  }

  function Pow256(n: nat): nat {
    if n == 0 then 1 else 256 * Pow256(n - 1)
  }

  /** A 512-word buffer as the bytes memcpy moves. */
  function TableBytes(words: seq<nat>): (b: seq<byte>)
    requires |words| == WORDS
    ensures |b| == PAGE
  {
    seq(PAGE, i requires 0 <= i < PAGE => LeByte(words[i / 8], i % 8))
  }

  /** Word `i` of the page directory: a present, writable, user 2 MiB page at i * 2 MiB. */
  function PdWord(i: nat): nat {
    i * SIZE_2MB + 0x87
  }

  function PdWords(): seq<nat> {
    seq(WORDS, i requires 0 <= i < WORDS => PdWord(i))
  }

  /** A table whose only entry points to the table at `gpa`. */
  function LinkWords(gpa: nat): seq<nat> {
    [gpa + 7] + seq(WORDS - 1, _ => 0)
  }

  lemma {:induction false} WordAt(rs: seq<Region>, gpa: nat, n: nat, x: nat)
    requires RegionsOk(rs) && x < Pow256(n)
    requires forall a: nat | gpa <= a < gpa + n :: ByteAt(rs, a) == Some(LeByte(x, a - gpa))
    ensures LeAt(rs, gpa, n) == x
    decreases n
  {
    hide RegionsOk, ByteAt;
    if n > 0 {
      assert ByteAt(rs, gpa) == Some(LeByte(x, gpa - gpa));
      forall a: nat | gpa + 1 <= a < gpa + 1 + (n - 1)
        ensures ByteAt(rs, a) == Some(LeByte(x / 256, a - (gpa + 1)))
      {
        assert ByteAt(rs, a) == Some(LeByte(x, a - gpa));
      }
      WordAt(rs, gpa + 1, n - 1, x / 256);
    }
  }

  lemma WordByte(words: seq<nat>, i: nat, k: nat)
    requires |words| == WORDS && i < WORDS && k < 8
    ensures TableBytes(words)[i * 8 + k] == LeByte(words[i], k)
  {
    assert (i * 8 + k) / 8 == i && (i * 8 + k) % 8 == k;
  }

  lemma HeldByte(rs: seq<Region>, gpa: nat, data: seq<byte>, a: nat)
    requires RegionsOk(rs) && Holds(rs, gpa, data) && gpa <= a < gpa + |data|
    ensures ByteAt(rs, a) == Some(data[a - gpa])
  {
    hide RegionsOk, ByteAt;
  }

  /** The walker reads back the word that was put into the buffer. */
  lemma EntryOfTable(rs: seq<Region>, table: nat, words: seq<nat>, i: nat)
    requires RegionsOk(rs) && |words| == WORDS && i < WORDS && Holds(rs, table, TableBytes(words)) && words[i] < LIMIT
    ensures EntryAt(rs, table + i * 8, 8) == Some(words[i])
  {
    hide RegionsOk, ByteAt, LeByte, Pow256, TableBytes, Holds, Backed, LeAt;
    var gpa := table + i * 8;
    forall a: nat | gpa <= a < gpa + 8
      ensures ByteAt(rs, a) == Some(LeByte(words[i], a - gpa))
    {
      WordByte(words, i, a - gpa);
      HeldByte(rs, table, TableBytes(words), a);
    }
    Pow8();
    WordAt(rs, gpa, 8, words[i]);
    BackedIs(rs, gpa, 8, 8);
  }

  lemma Pow8()
    ensures Pow256(8) > LIMIT
  {
    assert Pow256(2) == 0x1_0000;
    assert Pow256(4) == 0x1_0000_0000;
    assert Pow256(6) == 0x1_0000_0000_0000;
    assert Pow256(7) == 256 * Pow256(6) && Pow256(8) == 256 * Pow256(7);
  }

  // ---------------------------------------------------------------- reading the words

  lemma LinkFields(gpa: nat)
    requires gpa % PAGE == 0 && gpa < LIMIT
    ensures Present(gpa + 7) && !Large(gpa + 7) && Address(gpa + 7) == gpa
  {
    var q := gpa / PAGE;
    assert gpa == q * PAGE;
    assert (gpa + 7) / 128 == q * 32;
    assert (gpa + 7) / PAGE == q;
  }

  lemma PdFields(i: nat)
    requires i < WORDS
    ensures Present(PdWord(i)) && Large(PdWord(i)) && Address(PdWord(i)) == i * SIZE_2MB
  {
    var w := PdWord(i);
    QuotientUnique(w, i * 0x4000 + 1, 7, 128);
    QuotientUnique(w, i * 512, 0x87, PAGE);
    QuotientUnique(w, i * 0x10_0000 + 0x43, 1, 2);
    QuotientUnique(i * 0x4000 + 1, i * 0x2000, 1, 2);
    QuotientUnique(i * 512, 0, i * 512, 0x100_0000_0000);
  }

  lemma ZeroFields()
    ensures !Present(0)
  {
  }

  /** The three tables are in place. */
  ghost predicate Tables(rs: seq<Region>, pml4: nat)
    requires RegionsOk(rs)
  {
    && pml4 % PAGE == 0 && pml4 + 3 * PAGE <= LIMIT
    && Holds(rs, pml4, TableBytes(LinkWords(pml4 + PAGE)))
    && Holds(rs, pml4 + PAGE, TableBytes(LinkWords(pml4 + 2 * PAGE)))
    && Holds(rs, pml4 + 2 * PAGE, TableBytes(PdWords()))
  }

  /** What a link table makes of an index: the next table at index 0, nothing elsewhere. */
  lemma LinkEntry(rs: seq<Region>, table: nat, next: nat, i: nat)
    requires RegionsOk(rs) && Holds(rs, table, TableBytes(LinkWords(next))) && i < WORDS && next % PAGE == 0
    requires next + 7 < LIMIT
    ensures EntryAt(rs, table + i * 8, 8) == Some(if i == 0 then next + 7 else 0)
  {
    hide RegionsOk, Holds, EntryAt, TableBytes;
    EntryOfTable(rs, table, LinkWords(next), i);
  }

  lemma PdEntry(rs: seq<Region>, table: nat, i: nat)
    requires RegionsOk(rs) && Holds(rs, table, TableBytes(PdWords())) && i < WORDS
    ensures EntryAt(rs, table + i * 8, 8) == Some(PdWord(i))
  {
    hide RegionsOk, Holds, EntryAt, TableBytes;
    EntryOfTable(rs, table, PdWords(), i);
  }

  lemma WalkLink(rs: seq<Region>, table: nat, next: nat, level: nat, gva: nat)
    requires RegionsOk(rs) && Holds(rs, table, TableBytes(LinkWords(next))) && 3 <= level <= 4
    requires next % PAGE == 0 && next + PAGE <= LIMIT
    ensures WalkLong(rs, table, level, gva) ==
              if Index(gva, Span(level), 512) == 0 then WalkLong(rs, next, level - 1, gva) else None
  {
    hide RegionsOk, Holds, EntryAt, TableBytes, Present, Large, Address, Span, Index;
    LinkEntry(rs, table, next, Index(gva, Span(level), 512));
    LinkFields(next);
    ZeroFields();
  }

  lemma WalkPd(rs: seq<Region>, table: nat, gva: nat)
    requires RegionsOk(rs) && Holds(rs, table, TableBytes(PdWords()))
    ensures WalkLong(rs, table, 2, gva) == Some(Index(gva, SIZE_2MB, 512) * SIZE_2MB + gva % SIZE_2MB)
  {
    hide RegionsOk, Holds, EntryAt, TableBytes, Present, Large, Address, Index;
    PdEntry(rs, table, Index(gva, SIZE_2MB, 512));
    PdFields(Index(gva, SIZE_2MB, 512));
  }

  /** The walker maps every address below 1 GiB to itself and faults from there up to 2^48. */
  lemma IdentityMap(rs: seq<Region>, pml4: nat, gva: nat)
    requires RegionsOk(rs) && Tables(rs, pml4) && gva < 0x1_0000_0000_0000
    ensures WalkLong(rs, pml4, 4, gva) == if gva < SIZE_1GB then Some(gva) else None
  {
    hide RegionsOk, Holds, TableBytes, WalkLong, Index;
    WalkLink(rs, pml4, pml4 + PAGE, 4, gva);
    WalkLink(rs, pml4 + PAGE, pml4 + 2 * PAGE, 3, gva);
    WalkPd(rs, pml4 + 2 * PAGE, gva);
    Indices(gva);
  }

  lemma Indices(gva: nat)
    requires gva < 0x1_0000_0000_0000
    ensures Index(gva, SIZE_512GB, 512) == 0 && Index(gva, SIZE_1GB, 512) == 0 <==> gva < SIZE_1GB
    ensures gva < SIZE_1GB ==> Index(gva, SIZE_2MB, 512) * SIZE_2MB + gva % SIZE_2MB == gva
  {
  }

  // ---------------------------------------------------------------- the builder

  /** One RAM region at guest-physical 0 with all its pages. */
  ghost predicate OneRegion(rs: seq<Region>, ram: nat) {
    && |rs| == 1 && rs[0].start == 0 && rs[0].Size() == ram && rs[0].Ok()
    && forall k | 0 <= k < |rs[0].pages| :: rs[0].pages[k].Some?
  }

  /** Exactly the addresses below `ram` are backed. */
  ghost predicate BackedBelow(rs: seq<Region>, ram: nat)
    requires RegionsOk(rs)
  {
    forall a: nat :: ByteAt(rs, a).Some? <==> a < ram
  }

  lemma OneRegionBacked(rs: seq<Region>, ram: nat)
    requires OneRegion(rs, ram)
    ensures RegionsOk(rs) && BackedBelow(rs, ram)
  {
    forall gpa: nat
      ensures ByteAt(rs, gpa).Some? <==> gpa < ram
    {
      if gpa < ram {
        ByteInRegion(rs, 0, gpa);
      }
    }
  }

  lemma PageBackedBelow(rs: seq<Region>, ram: nat, gpa: nat)
    requires RegionsOk(rs) && BackedBelow(rs, ram) && gpa % PAGE == 0 && ram % PAGE == 0
    ensures Backed(rs, gpa, PAGE) == if gpa < ram then PAGE else 0
  {
    hide RegionsOk, ByteAt;
    BackedIs(rs, gpa, PAGE, if gpa < ram then PAGE else 0);
  }

  lemma BackedBelowKept(rs: seq<Region>, rs': seq<Region>, ram: nat, gpa: nat, data: seq<byte>)
    requires RegionsOk(rs) && RegionsOk(rs') && BackedBelow(rs, ram) && Written(rs, rs', gpa, data)
    requires data == [] || gpa + |data| <= ram
    ensures BackedBelow(rs', ram)
  {
    hide RegionsOk, ByteAt;
  }

  /** Writing a table keeps what other pages hold. */
  lemma HoldsKept(rs: seq<Region>, rs': seq<Region>, gpa: nat, data: seq<byte>, other: nat, held: seq<byte>)
    requires RegionsOk(rs) && RegionsOk(rs') && Written(rs, rs', gpa, data) && Holds(rs, other, held)
    requires gpa + |data| <= other || other + |held| <= gpa
    ensures Holds(rs', other, held)
  {
    hide RegionsOk, ByteAt;
  }

  lemma WrittenHolds(rs: seq<Region>, rs': seq<Region>, gpa: nat, data: seq<byte>)
    requires RegionsOk(rs) && RegionsOk(rs') && Written(rs, rs', gpa, data)
    ensures Holds(rs', gpa, data)
  {
    hide RegionsOk, ByteAt;
  }

  lemma WrittenNothing(rs: seq<Region>, rs': seq<Region>, gpa: nat, at: nat, held: seq<byte>)
    requires RegionsOk(rs) && RegionsOk(rs') && Written(rs, rs', gpa, []) && Holds(rs, at, held)
    ensures Holds(rs', at, held)
  {
    hide RegionsOk, ByteAt;
  }

  lemma AlignedRoom(gpa: nat, ram: nat)
    requires gpa % PAGE == 0 && ram % PAGE == 0 && gpa < ram
    ensures gpa + PAGE <= ram
  {
  }

  /** One table page goes to guest memory: all of it or nothing. */
  method PutTable(mem: Memory, gpa: nat, words: seq<nat>, ghost ram: nat) returns (ret: int)
    requires mem.Valid() && |words| == WORDS && gpa < U64_MOD && gpa % PAGE == 0 && ram % PAGE == 0
    requires BackedBelow(mem.regions, ram)
    modifies mem
    ensures mem.Valid() && BackedBelow(mem.regions, ram)
    ensures ret < 0 <==> gpa >= ram
    ensures ret < 0 ==> ret == EFAULT && Written(old(mem.regions), mem.regions, gpa, [])
    ensures ret >= 0 ==> Written(old(mem.regions), mem.regions, gpa, TableBytes(words))
  {
    hide RegionsOk, ByteAt, TableBytes, BackedBelow, Written;
    PageBackedBelow(mem.regions, ram, gpa);
    ret := mem.CopyToGuest(gpa, TableBytes(words));
    ghost var n := if gpa < ram then PAGE else 0;
    SmallResult(PAGE, n);
    assert TableBytes(words)[..PAGE] == TableBytes(words) && TableBytes(words)[..0] == [];
    if gpa < ram {
      AlignedRoom(gpa, ram);
    }
    BackedBelowKept(old(mem.regions), mem.regions, ram, gpa, TableBytes(words)[..n]);
  }

  method FillPd() returns (words: seq<nat>)
    ensures words == PdWords()
  {
    var buf := new nat[WORDS];
    for i := 0 to WORDS
      invariant forall j | 0 <= j < i :: buf[j] == PdWord(j)
    {
      buf[i] := PdWord(i);
    }
    words := buf[..];
  }

  /** What a build that fails leaves in RAM too small for it: with one page, the directory on page 0; with two,
      the directory on page 1 and the table that links to it on page 0. */
  ghost predicate Overwritten(rs: seq<Region>, ram: nat)
    requires RegionsOk(rs)
  {
    && (ram == PAGE ==> Holds(rs, 0, TableBytes(PdWords())))
    && (ram == 2 * PAGE ==> Holds(rs, PAGE, TableBytes(PdWords())) && Holds(rs, 0, TableBytes(LinkWords(PAGE))))
  }

  /** Builds the tables in the top three pages of RAM. Without memory for the buffer nothing happens. Otherwise
      it succeeds if and only if there are three pages; then the walker over guest memory is the identity on
      the first GiB and faults on every other address below 2^48, and RAM below the tables is untouched. With
      one or two pages the call fails and has overwritten all of them. */
  method CreateGuestPageTables(mem: Memory, ram: nat, memory: bool) returns (ret: int, pml4: nat)
    requires OneRegion(mem.regions, ram) && mem.Valid() && ram <= LIMIT
    modifies mem
    ensures mem.Valid()
    ensures ret == if !memory then ENOMEM else if ram >= 3 * PAGE then 0 else EFAULT
    ensures ret == ENOMEM ==> mem.regions == old(mem.regions)
    ensures ret == EFAULT ==> Overwritten(mem.regions, ram)
    ensures ret == 0 ==> forall gva: nat | gva < 0x1_0000_0000_0000 ::
              WalkLong(mem.regions, pml4, 4, gva) == if gva < SIZE_1GB then Some(gva) else None
    ensures ret == 0 ==> forall a: nat | a < ram - 3 * PAGE :: ByteAt(mem.regions, a) == ByteAt(old(mem.regions), a)
  {
    hide RegionsOk, ByteAt, TableBytes, BackedBelow, Holds, WalkLong;
    OneRegionBacked(mem.regions, ram);
    ghost var rs0 := mem.regions;
    var base := (ram - 3 * PAGE) % U64_MOD;
    pml4 := base;
    if !memory {
      return ENOMEM, pml4;
    }
    var pdpt, pd := (base + PAGE) % U64_MOD, (base + 2 * PAGE) % U64_MOD;
    Places(ram);
    var words := FillPd();
    ret := PutTable(mem, pd, words, ram);
    if ret < 0 {
      return;
    }
    ghost var rs1 := mem.regions;
    WrittenHolds(rs0, rs1, pd, TableBytes(PdWords()));
    ret := PutTable(mem, pdpt, LinkWords(pd), ram);
    ghost var rs2 := mem.regions;
    if ret < 0 {
      WrittenNothing(rs1, rs2, pdpt, pd, TableBytes(PdWords()));
      return;
    }
    WrittenHolds(rs1, rs2, pdpt, TableBytes(LinkWords(pd)));
    HoldsKept(rs1, rs2, pdpt, TableBytes(LinkWords(pd)), pd, TableBytes(PdWords()));
    ret := PutTable(mem, pml4, LinkWords(pdpt), ram);
    ghost var rs3 := mem.regions;
    if ret < 0 {
      WrittenNothing(rs2, rs3, pml4, pd, TableBytes(PdWords()));
      WrittenNothing(rs2, rs3, pml4, pdpt, TableBytes(LinkWords(pd)));
      return;
    }
    WrittenHolds(rs2, rs3, pml4, TableBytes(LinkWords(pdpt)));
    HoldsKept(rs2, rs3, pml4, TableBytes(LinkWords(pdpt)), pd, TableBytes(PdWords()));
    HoldsKept(rs2, rs3, pml4, TableBytes(LinkWords(pdpt)), pdpt, TableBytes(LinkWords(pd)));
    forall gva: nat | gva < 0x1_0000_0000_0000
      ensures WalkLong(mem.regions, pml4, 4, gva) == if gva < SIZE_1GB then Some(gva) else None
    {
      IdentityMap(rs3, pml4, gva);
    }
    ret := 0;
  }

  /** Where the three tables go; with fewer than three pages of RAM the addresses wrap at 2^64. */
  lemma Places(ram: nat)
    requires ram % PAGE == 0 && ram <= LIMIT
    ensures var base := (ram - 3 * PAGE) % U64_MOD;
            var pdpt, pd := (base + PAGE) % U64_MOD, (base + 2 * PAGE) % U64_MOD;
            && base % PAGE == 0 && pdpt % PAGE == 0 && pd % PAGE == 0
            && (ram >= 3 * PAGE ==> base == ram - 3 * PAGE && pdpt == base + PAGE && pd == base + 2 * PAGE)
            && (ram < 3 * PAGE ==> base >= ram && (ram == 0 || ram == PAGE || ram == 2 * PAGE))
            && (ram == 0 ==> pd >= ram) && (ram == PAGE ==> pd == 0 && pdpt >= ram)
            && (ram == 2 * PAGE ==> pd == PAGE && pdpt == 0)
  {
  }

  /** A guest with one page of zeroes: the call fails and the first directory entry stands at address 0. */
  method OnePageExample() returns (mem: Memory, ret: int)
    ensures mem.Valid() && ret == EFAULT && ByteAt(mem.regions, 0) == Some(0x87)
  {
    hide ByteAt, TableBytes, Holds, WalkLong, LeByte;
    mem := new Memory([Region(0, [Some(seq(PAGE, _ => 0))])]);
    var pml4;
    ret, pml4 := CreateGuestPageTables(mem, PAGE, true);
    HeldByte(mem.regions, 0, TableBytes(PdWords()), 0);
    WordByte(PdWords(), 0, 0);
    FirstByte();
  }

  lemma FirstByte()
    ensures LeByte(PdWords()[0], 0) == 0x87
  {
  }
}

/** The software page-table walker of src/arch/x86/svm/mmu.c (src/arch/x86/vmx/mmu.c has the same
    walkers over VMCS fields): long mode, PAE, 32-bit and no paging, and the virtual copy built on it.
    Paging-structure words are taken apart with division and remainder.
*/
module GuestMmu {
  import opened Arithmetic
  import opened GuestMemory

  const SIZE_2MB: nat := 0x20_0000
  const SIZE_4MB: nat := 0x40_0000
  const SIZE_1GB: nat := 0x4000_0000
  const SIZE_512GB: nat := 0x80_0000_0000
  const U32_MOD: nat := 0x1_0000_0000

  datatype Cpu = Cpu(cr0: nat, cr3: nat, cr4: nat, efer: nat) {
    predicate Paging() { Bit(cr0, 0x8000_0000) }
    predicate LongMode() { Bit(efer, 0x400) }
    predicate La57() { Bit(cr4, 0x1000) }
    predicate Pae() { Bit(cr4, 0x20) }
    predicate Pse() { Bit(cr4, 0x10) }
  }

  /** Is the bit of weight `weight` set? */
  predicate Bit(x: nat, weight: nat)
    requires weight > 0
  {
    x / weight % 2 == 1
  }

  predicate Present(e: nat) { Bit(e, 1) }

  predicate Large(e: nat) { Bit(e, 0x80) }

  /** Bits 51:12 of a word, in place. */
  function Address(e: nat): (a: nat)
    ensures a < 0x10_0000_0000_0000
  {
    e / PAGE % 0x100_0000_0000 * PAGE
  }

  function LowAddress(e: nat): (a: nat)
    ensures a < U32_MOD
  {
    e / PAGE % 0x10_0000 * PAGE
  }

  /** The bytes one entry of a level-`level` long-mode table spans. */
  function Span(level: nat): (s: nat)
    ensures s > 0
  {
    if level == 4 then SIZE_512GB else if level == 3 then SIZE_1GB else if level == 2 then SIZE_2MB else PAGE
  }

  function Index(gva: nat, span: nat, entries: nat): (i: nat)
    requires span > 0 && entries > 0
    ensures i < entries
  {
    gva / span % entries
  }

  function LeValue(data: seq<byte>): nat {
    if data == [] then 0 else data[0] + 256 * LeValue(data[1..])
  }

  /** The little-endian value of the backed prefix of `size` bytes. */
  ghost function LeAt(rs: seq<Region>, gpa: nat, size: nat): nat
    requires RegionsOk(rs)
    decreases size
  {
    if size == 0 || ByteAt(rs, gpa).None? then 0 else ByteAt(rs, gpa).value + 256 * LeAt(rs, gpa + 1, size - 1)
  }

  lemma {:induction false} LeAtIs(rs: seq<Region>, gpa: nat, size: nat, data: seq<byte>)
    requires RegionsOk(rs) && Holds(rs, gpa, data) && |data| == Backed(rs, gpa, size)
    ensures LeAt(rs, gpa, size) == LeValue(data)
    decreases size
  {
    hide RegionsOk, ByteAt;
    if size > 0 && ByteAt(rs, gpa).Some? {
      assert ByteAt(rs, gpa) == Some(data[gpa - gpa]);
      LeAtIs(rs, gpa + 1, size - 1, data[1..]);
    }
  }

  /** mmu_read_entry: fails only when not even the first byte is there. */
  ghost function EntryAt(rs: seq<Region>, gpa: nat, size: nat): Option<nat>
    requires RegionsOk(rs)
  {
    if Backed(rs, gpa, size) == 0 then None else Some(LeAt(rs, gpa, size))
  }

  /** mmu_walk_long from the table at `table`. */
  ghost function WalkLong(rs: seq<Region>, table: nat, level: nat, gva: nat): Option<nat>
    requires RegionsOk(rs)
    decreases level
  {
    if level == 0 then None
    else
      var entry := EntryAt(rs, table + Index(gva, Span(level), 512) * 8, 8);
      if entry.None? || !Present(entry.value) then None
      else if level > 1 && Large(entry.value) then
        if level >= 4 then None
        else Some(Address(entry.value) / Span(level) * Span(level) + gva % Span(level))
      else if level == 1 then Some(Address(entry.value) + gva % PAGE)
      else WalkLong(rs, Address(entry.value), level - 1, gva)
  }

  /** mmu_walk_pae. */
  ghost function WalkPae(rs: seq<Region>, pdpt: nat, gva: nat): Option<nat>
    requires RegionsOk(rs)
  {
    var pdpte := EntryAt(rs, pdpt + Index(gva, SIZE_1GB, 4) * 8, 8);
    if pdpte.None? || !Present(pdpte.value) then None
    else
      var pde := EntryAt(rs, Address(pdpte.value) + Index(gva, SIZE_2MB, 512) * 8, 8);
      if pde.None? || !Present(pde.value) then None
      else if Large(pde.value) then Some(Address(pde.value) / SIZE_2MB * SIZE_2MB + gva % SIZE_2MB)
      else
        var pte := EntryAt(rs, Address(pde.value) + Index(gva, PAGE, 512) * 8, 8);
        if pte.None? || !Present(pte.value) then None else Some(Address(pte.value) + gva % PAGE)
  }

  /** mmu_walk_legacy. */
  ghost function WalkLegacy(rs: seq<Region>, pd: nat, pse: bool, gva: nat): Option<nat>
    requires RegionsOk(rs)
  {
    var pde := EntryAt(rs, pd + Index(gva, SIZE_4MB, 1024) * 4, 4);
    if pde.None? || !Present(pde.value) then None
    else if pse && Large(pde.value) then Some(pde.value / SIZE_4MB % 1024 * SIZE_4MB + gva % SIZE_4MB)
    else
      var pte := EntryAt(rs, LowAddress(pde.value) + Index(gva, PAGE, 1024) * 4, 4);
      if pte.None? || !Present(pte.value) then None else Some(LowAddress(pte.value) + gva % PAGE)
  }

  datatype Translation = Ok(gpa: nat) | Fail(errno: int)

  function FromWalk(w: Option<nat>): Translation {
    if w.Some? then Ok(w.value) else Fail(EFAULT)
  }

  function PaeRoot(cr3: nat): nat {
    cr3 / 32 % 0x800_0000 * 32
  }

  /** relm_mmu_gva_to_gpa. */
  ghost function Translate(rs: seq<Region>, cpu: Cpu, gva: nat): Translation
    requires RegionsOk(rs)
  {
    if !cpu.Paging() then Ok(gva)
    else if cpu.LongMode() then
      if cpu.La57() then Fail(EINVAL) else FromWalk(WalkLong(rs, Address(cpu.cr3), 4, gva))
    else if cpu.Pae() then FromWalk(WalkPae(rs, PaeRoot(cpu.cr3), gva % U32_MOD))
    else FromWalk(WalkLegacy(rs, LowAddress(cpu.cr3), cpu.Pse(), gva % U32_MOD))
  }

  /** Flat guest-virtual memory. */
  ghost function VirtByte(rs: seq<Region>, cpu: Cpu, gva: nat): Option<byte>
    requires RegionsOk(rs)
  {
    var t := Translate(rs, cpu, gva);
    if t.Ok? then ByteAt(rs, t.gpa) else None
  }

  // ---------------------------------------------------------------- offsets

  function Shift(w: Option<nat>, d: nat): Option<nat> {
    if w.Some? then Some(w.value + d) else None
  }

  predicate MultipleOfPage(span: nat) {
    span in {PAGE, SIZE_2MB, SIZE_4MB, SIZE_1GB, SIZE_512GB, U32_MOD}
  }

  /** Moving inside a page keeps every index and moves the offset. */
  lemma WithinPage(gva: nat, d: nat, span: nat)
    requires gva % PAGE + d < PAGE && MultipleOfPage(span)
    ensures (gva + d) / span == gva / span && (gva + d) % span == gva % span + d
  {
    var m := span / PAGE;
    assert span == m * PAGE;
    WithinUnit(gva, d, PAGE, m, span);
  }

  lemma AddressAligned(e: nat)
    ensures Address(e) % PAGE == 0 && LowAddress(e) % PAGE == 0
  {
  }

  /** A base aligned to a large page plus the offset in it keeps the offset in the small page. */
  lemma LargeOffset(base: nat, gva: nat, span: nat)
    requires MultipleOfPage(span)
    ensures (base * span + gva % span) % PAGE == gva % PAGE
    ensures (base * span) % PAGE == 0
  {
    var m := span / PAGE;
    assert span == m * PAGE;
    RemainderOfMultiple(gva, gva / span, gva % span, PAGE, m);
    RemainderOfMultiple(base * span + gva % span, base, gva % span, PAGE, m);
    RemainderOfMultiple(base * span, base, 0, PAGE, m);
  }

  lemma SumOffset(a: nat, gva: nat)
    requires a % PAGE == 0
    ensures (a + gva % PAGE) % PAGE == gva % PAGE
  {
  }

  lemma SpanOk(level: nat)
    ensures MultipleOfPage(Span(level)) && MultipleOfPage(PAGE)
  {
  }

  lemma LeafBelow(a: nat, gva: nat, span: nat)
    requires a < 0x10_0000_0000_0000 && MultipleOfPage(span)
    ensures a / span * span + gva % span < U64_MOD / 2 && a + gva % PAGE < U64_MOD / 2
  {
    assert a / span * span <= a;
  }

  lemma {:induction false} WalkLongShift(rs: seq<Region>, table: nat, level: nat, gva: nat, d: nat)
    requires RegionsOk(rs) && level <= 4 && gva % PAGE + d < PAGE
    ensures WalkLong(rs, table, level, gva + d) == Shift(WalkLong(rs, table, level, gva), d)
    ensures var w := WalkLong(rs, table, level, gva); w.Some? ==> w.value % PAGE == gva % PAGE && w.value < U64_MOD / 2
    decreases level
  {
    hide RegionsOk, Address, Present, Large, EntryAt, Span, MultipleOfPage;
    if level > 0 {
      SpanOk(level);
      WithinPage(gva, d, Span(level));
      WithinPage(gva, d, PAGE);
      var entry := EntryAt(rs, table + Index(gva, Span(level), 512) * 8, 8);
      if entry.Some? {
        AddressAligned(entry.value);
        LargeOffset(Address(entry.value) / Span(level), gva, Span(level));
        SumOffset(Address(entry.value), gva);
        LeafBelow(Address(entry.value), gva, Span(level));
        WalkLongShift(rs, Address(entry.value), level - 1, gva, d);
      }
    }
  }

  lemma WalkPaeShift(rs: seq<Region>, pdpt: nat, gva: nat, d: nat)
    requires RegionsOk(rs) && gva % PAGE + d < PAGE
    ensures WalkPae(rs, pdpt, gva + d) == Shift(WalkPae(rs, pdpt, gva), d)
    ensures var w := WalkPae(rs, pdpt, gva); w.Some? ==> w.value % PAGE == gva % PAGE && w.value < U64_MOD / 2
  {
    hide RegionsOk, Address, Present, Large, EntryAt;
    WithinPage(gva, d, SIZE_1GB);
    WithinPage(gva, d, SIZE_2MB);
    WithinPage(gva, d, PAGE);
    var pdpte := EntryAt(rs, pdpt + Index(gva, SIZE_1GB, 4) * 8, 8);
    if pdpte.Some? {
      var pde := EntryAt(rs, Address(pdpte.value) + Index(gva, SIZE_2MB, 512) * 8, 8);
      if pde.Some? {
        LargeOffset(Address(pde.value) / SIZE_2MB, gva, SIZE_2MB);
        var pte := EntryAt(rs, Address(pde.value) + Index(gva, PAGE, 512) * 8, 8);
        if pte.Some? {
          AddressAligned(pte.value);
          SumOffset(Address(pte.value), gva);
        }
      }
    }
  }

  lemma WalkLegacyShift(rs: seq<Region>, pd: nat, pse: bool, gva: nat, d: nat)
    requires RegionsOk(rs) && gva % PAGE + d < PAGE
    ensures WalkLegacy(rs, pd, pse, gva + d) == Shift(WalkLegacy(rs, pd, pse, gva), d)
    ensures var w := WalkLegacy(rs, pd, pse, gva); w.Some? ==> w.value % PAGE == gva % PAGE && w.value < U64_MOD / 2
  {
    hide RegionsOk, LowAddress, Present, Large, EntryAt;
    WithinPage(gva, d, SIZE_4MB);
    WithinPage(gva, d, PAGE);
    var pde := EntryAt(rs, pd + Index(gva, SIZE_4MB, 1024) * 4, 4);
    if pde.Some? {
      LargeOffset(pde.value / SIZE_4MB % 1024, gva, SIZE_4MB);
      var pte := EntryAt(rs, LowAddress(pde.value) + Index(gva, PAGE, 1024) * 4, 4);
      if pte.Some? {
        AddressAligned(pte.value);
        SumOffset(LowAddress(pte.value), gva);
      }
    }
  }

  /** In all four paging regimes, translation preserves offsets within a 4 KiB page. */
  lemma TranslateShift(rs: seq<Region>, cpu: Cpu, gva: nat, d: nat)
    requires RegionsOk(rs) && gva % PAGE + d < PAGE && gva < U64_MOD
    ensures Translate(rs, cpu, gva + d)
            == (if Translate(rs, cpu, gva).Ok? then Ok(Translate(rs, cpu, gva).gpa + d) else Translate(rs, cpu, gva))
    ensures Translate(rs, cpu, gva).Ok? ==>
              Translate(rs, cpu, gva).gpa % PAGE == gva % PAGE && Translate(rs, cpu, gva).gpa < U64_MOD
  {
    hide RegionsOk, WalkLong, WalkPae, WalkLegacy, Bit, Address, LowAddress, PaeRoot;
    WithinPage(gva, d, U32_MOD);
    var g := gva % U32_MOD;
    LargeOffset(0, gva, U32_MOD);
    WalkLongShift(rs, Address(cpu.cr3), 4, gva, d);
    WalkPaeShift(rs, PaeRoot(cpu.cr3), g, d);
    WalkLegacyShift(rs, LowAddress(cpu.cr3), cpu.Pse(), g, d);
  }
}

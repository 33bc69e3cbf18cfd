/** The walkers and relm_mmu_copy_from_guest_virt as the C code runs them, over a guest memory object. */
module GuestVirtCopy {
  import opened Arithmetic
  import opened GuestMemory
  import opened GuestCopy
  import opened GuestMmu

  lemma SmallResult(size: nat, n: nat)
    requires 0 < size <= PAGE && n <= size
    ensures CopyResult(size, n) < 0 <==> n == 0
    ensures n > 0 ==> CopyResult(size, n) == n
  {
  }

  method ReadEntry(mem: Memory, gpa: nat, size: nat) returns (entry: Option<nat>)
    requires mem.Valid() && gpa < U64_MOD && 0 < size <= 8
    ensures entry == EntryAt(mem.regions, gpa, size)
  {
    var ret, data := mem.CopyFromGuest(gpa, size);
    SmallResult(size, |data|);
    if ret < 0 {
      return None;
    }
    LeAtIs(mem.regions, gpa, size, data);
    entry := Some(LeValue(data));
  }

  /** mmu_walk_long. */
  method LongWalk(mem: Memory, cr3: nat, gva: nat) returns (gpa: Option<nat>)
    requires mem.Valid()
    ensures gpa == WalkLong(mem.regions, Address(cr3), 4, gva)
  {
    hide RegionsOk, EntryAt, Address, Span, Index, Present, Large;
    var table: nat, level: nat := Address(cr3), 4;
    while level >= 1
      invariant 0 <= level <= 4 && table < 0x10_0000_0000_0000
      invariant WalkLong(mem.regions, table, level, gva) == WalkLong(mem.regions, Address(cr3), 4, gva)
    {
      var entry := ReadEntry(mem, table + Index(gva, Span(level), 512) * 8, 8);
      if entry.None? || !Present(entry.value) {
        return None;
      }
      if level > 1 && Large(entry.value) {
        if level == 4 {
          return None;
        }
        return Some(Address(entry.value) / Span(level) * Span(level) + gva % Span(level));
      }
      if level == 1 {
        return Some(Address(entry.value) + gva % PAGE);
      }
      table, level := Address(entry.value), level - 1;
    }
    return None;
  }

  /** mmu_walk_pae. */
  method PaeWalk(mem: Memory, pdpt: nat, gva: nat) returns (gpa: Option<nat>)
    requires mem.Valid() && pdpt < U32_MOD
    ensures gpa == WalkPae(mem.regions, pdpt, gva)
  {
    hide RegionsOk, EntryAt, Address;
    var pdpte := ReadEntry(mem, pdpt + Index(gva, SIZE_1GB, 4) * 8, 8);
    if pdpte.None? || !Present(pdpte.value) {
      return None;
    }
    var pde := ReadEntry(mem, Address(pdpte.value) + Index(gva, SIZE_2MB, 512) * 8, 8);
    if pde.None? || !Present(pde.value) {
      return None;
    }
    if Large(pde.value) {
      return Some(Address(pde.value) / SIZE_2MB * SIZE_2MB + gva % SIZE_2MB);
    }
    var pte := ReadEntry(mem, Address(pde.value) + Index(gva, PAGE, 512) * 8, 8);
    if pte.None? || !Present(pte.value) {
      return None;
    }
    return Some(Address(pte.value) + gva % PAGE);
  }

  /** mmu_walk_legacy. */
  method LegacyWalk(mem: Memory, pd: nat, pse: bool, gva: nat) returns (gpa: Option<nat>)
    requires mem.Valid() && pd < U32_MOD
    ensures gpa == WalkLegacy(mem.regions, pd, pse, gva)
  {
    hide RegionsOk, EntryAt, LowAddress;
    var pde := ReadEntry(mem, pd + Index(gva, SIZE_4MB, 1024) * 4, 4);
    if pde.None? || !Present(pde.value) {
      return None;
    }
    if pse && Large(pde.value) {
      return Some(pde.value / SIZE_4MB % 1024 * SIZE_4MB + gva % SIZE_4MB);
    }
    var pte := ReadEntry(mem, LowAddress(pde.value) + Index(gva, PAGE, 1024) * 4, 4);
    if pte.None? || !Present(pte.value) {
      return None;
    }
    return Some(LowAddress(pte.value) + gva % PAGE);
  }

  method GvaToGpa(mem: Memory, cpu: Cpu, gva: nat) returns (t: Translation)
    requires mem.Valid() && gva < U64_MOD
    ensures t == Translate(mem.regions, cpu, gva)
  {
    hide RegionsOk, WalkLong, WalkPae, WalkLegacy, Address, LowAddress;
    if !cpu.Paging() {
      return Ok(gva);
    }
    if cpu.LongMode() {
      if cpu.La57() {
        return Fail(EINVAL);
      }
      var w := LongWalk(mem, cpu.cr3, gva);
      return FromWalk(w);
    }
    if cpu.Pae() {
      var w := PaeWalk(mem, PaeRoot(cpu.cr3), gva % U32_MOD);
      return FromWalk(w);
    }
    var w := LegacyWalk(mem, LowAddress(cpu.cr3), cpu.Pse(), gva % U32_MOD);
    return FromWalk(w);
  }

  // ---------------------------------------------------------------- the virtual copy

  ghost predicate PageAligned(rs: seq<Region>) {
    forall i | 0 <= i < |rs| :: rs[i].start % PAGE == 0
  }

  /** With page-aligned regions a guest page is backed as a whole or not at all. */
  lemma WholePage(rs: seq<Region>, gpa: nat, n: nat)
    requires RegionsOk(rs) && PageAligned(rs) && gpa % PAGE + n <= PAGE
    ensures Backed(rs, gpa, n) == if ByteAt(rs, gpa).Some? then n else 0
  {
    if ByteAt(rs, gpa).Some? {
      var k := Find(rs, gpa);
      OffsetFromAligned(gpa, rs[k].start);
      ByteInPage(rs, k, gpa, 0);
      forall a: nat | gpa <= a < gpa + n
        ensures ByteAt(rs, a).Some?
      {
        ByteInPage(rs, k, gpa, a - gpa);
      }
      BackedIs(rs, gpa, n, n);
    } else {
      BackedIs(rs, gpa, n, 0);
    }
  }

  lemma OffsetFromAligned(a: nat, start: nat)
    requires start % PAGE == 0 && start <= a
    ensures (a - start) % PAGE == a % PAGE
  {
  }

  /** Byte `i` of `data` is the guest-virtual byte at gva + i, where addresses wrap at 2^64. */
  ghost predicate VirtHolds(rs: seq<Region>, cpu: Cpu, gva: nat, data: seq<byte>)
    requires RegionsOk(rs)
  {
    forall i: nat | i < |data| :: VirtByte(rs, cpu, (gva + i) % U64_MOD) == Some(data[i])
  }

  /** A chunk read at the translation of its first byte extends the virtual view. */
  lemma VirtChunk(rs: seq<Region>, cpu: Cpu, gva: nat, data: seq<byte>, gpa: nat, part: seq<byte>)
    requires RegionsOk(rs) && VirtHolds(rs, cpu, gva, data)
    requires var cur := (gva + |data|) % U64_MOD;
             cur % PAGE + |part| <= PAGE && Translate(rs, cpu, cur) == Ok(gpa) && Holds(rs, gpa, part)
    ensures VirtHolds(rs, cpu, gva, data + part)
  {
    hide RegionsOk, Translate, ByteAt;
    var cur := (gva + |data|) % U64_MOD;
    var data' := data + part;
    forall i: nat | i < |data'|
      ensures VirtByte(rs, cpu, (gva + i) % U64_MOD) == Some(data'[i])
    {
      if i >= |data| {
        var j := i - |data|;
        SameTop(gva + |data|, j);
        TranslateShift(rs, cpu, cur, j);
        assert ByteAt(rs, gpa + j) == Some(part[gpa + j - gpa]);
      } else {
        assert data'[i] == data[i];
      }
    }
  }

  /** Inside a page the address does not wrap. */
  lemma SameTop(x: nat, j: nat)
    requires x % U64_MOD % PAGE + j < PAGE
    ensures (x + j) % U64_MOD == x % U64_MOD + j
  {
  }

  /** relm_mmu_copy_from_guest_virt: on success every byte is the guest-virtual byte at its address;
      otherwise the byte the copy stopped at cannot be read. No chunk is ever short. */
  method CopyFromGuestVirt(mem: Memory, cpu: Cpu, gva: nat, size: nat) returns (ret: int, data: seq<byte>)
    requires mem.Valid() && PageAligned(mem.regions) && gva < U64_MOD
    ensures VirtHolds(mem.regions, cpu, gva, data) && |data| <= size
    ensures size == 0 ==> ret == EINVAL
    ensures size > 0 && |data| == size ==> ret == AsInt(size)
    ensures |data| < size ==> ret == EFAULT || ret == EINVAL
    ensures |data| < size ==> VirtByte(mem.regions, cpu, (gva + |data|) % U64_MOD).None?
  {
    hide RegionsOk, Translate, ByteAt, AsInt;
    data := [];
    if size == 0 {
      return EINVAL, data;
    }
    while |data| < size
      invariant |data| <= size && VirtHolds(mem.regions, cpu, gva, data)
    {
      var cur := (gva + |data|) % U64_MOD;
      var chunk := Min(size - |data|, PAGE - cur % PAGE);
      var t := GvaToGpa(mem, cpu, cur);
      if t.Fail? {
        TranslateFails(mem.regions, cpu, cur);
        return t.errno, data;
      }
      TranslateShift(mem.regions, cpu, cur, 0);
      var part;
      ret, part := mem.CopyFromGuest(t.gpa, chunk);
      WholePage(mem.regions, t.gpa, chunk);
      SmallResult(chunk, |part|);
      if ret < 0 {
        assert ret == EFAULT;
        return ret, data;
      }
      VirtChunk(mem.regions, cpu, gva, data, t.gpa, part);
      data := data + part;
    }
    return AsInt(|data|), data;
  }

  lemma TranslateFails(rs: seq<Region>, cpu: Cpu, gva: nat)
    requires RegionsOk(rs) && Translate(rs, cpu, gva).Fail?
    ensures Translate(rs, cpu, gva).errno == EFAULT || Translate(rs, cpu, gva).errno == EINVAL
  {
    hide RegionsOk, WalkLong, WalkPae, WalkLegacy;
  }

  // ---------------------------------------------------------------- instruction pointers

  /** relm_mmu_rip_to_linear of the SVM backend. */
  function RipToLinear(wide: bool, base: nat, rip: nat): nat {
    if wide then rip else (base + rip) % U32_MOD
  }

  /** The VMX backend multiplies where the SVM backend masks. */
  function RipToLinearVmx(wide: bool, base: nat, rip: nat): nat {
    if wide then rip else (base + rip) % U64_MOD * 0xffff_ffff % U64_MOD
  }

  lemma TimesAllOnes(s: nat)
    requires s < U64_MOD
    ensures var k := (s % U32_MOD - s / U32_MOD) * U32_MOD - s % U32_MOD;
            s * 0xffff_ffff % U64_MOD == if k >= 0 then k else k + U64_MOD
  {
    var h: nat, l: nat := s / U32_MOD, s % U32_MOD;
    var k := (l - h) * U32_MOD - l;
    assert s * 0xffff_ffff == h * U64_MOD + k;
    if k >= 0 {
      QuotientUnique(s * 0xffff_ffff, h, k, U64_MOD);
    } else {
      assert h > 0;
      QuotientUnique(s * 0xffff_ffff, h - 1, k + U64_MOD, U64_MOD);
    }
  }

  /** Outside 64-bit code the two backends agree for exactly two values of CS.base + RIP. */
  lemma RipBackendsAgree(base: nat, rip: nat)
    ensures var s := (base + rip) % U64_MOD;
            RipToLinearVmx(false, base, rip) == RipToLinear(false, base, rip) <==> s == 0 || s == 0x7fff_ffff_8000_0000
  {
    var s := (base + rip) % U64_MOD;
    assert (base + rip) % U32_MOD == s % U32_MOD;
    TimesAllOnes(s);
  }

  /** At linear address 1 outside 64-bit code the VMX backend answers 0xffff_ffff. */
  lemma RipExample()
    ensures RipToLinear(false, 0, 1) == 1 && RipToLinearVmx(false, 0, 1) == 0xffff_ffff
  {
  }
}

/** The walkers of src/arch/x86/svm/mmu.c against an address put together from its indices, as chapter 4 of
    volume 3A of the Intel SDM describes it: which entries are read, and where the offset goes.
*/
module GuestWalks {
  import opened Arithmetic
  import opened GuestMemory
  import opened GuestMmu

  /** A present entry of `size` bytes at index `i` of a table. */
  ghost function Slot(rs: seq<Region>, table: nat, i: nat, size: nat): Option<nat>
    requires RegionsOk(rs)
  {
    var e := EntryAt(rs, table + i * size, size);
    if e.Some? && Present(e.value) then e else None
  }

  /** One digit of an address: below it `r`, above it `q`. */
  lemma Digit(gva: nat, q: nat, i: nat, n: nat, span: nat, r: nat)
    requires i < n && r < span && gva == (q * n + i) * span + r
    ensures Index(gva, span, n) == i && gva % span == r
  {
    QuotientUnique(gva, q * n + i, r, span);
    QuotientUnique(q * n + i, q, i, n);
  }

  lemma Parts32(dir: nat, tbl: nat, off: nat)
    requires dir < 1024 && tbl < 1024 && off < PAGE
    ensures var gva := dir * SIZE_4MB + tbl * PAGE + off;
            && Index(gva, SIZE_4MB, 1024) == dir && Index(gva, PAGE, 1024) == tbl
            && gva % PAGE == off && gva % SIZE_4MB == tbl * PAGE + off
  {
  }

  /** 32-bit paging: directory, table, offset; with PSE a large directory entry maps 4 MiB. */
  lemma LegacyAt(rs: seq<Region>, pd: nat, pse: bool, dir: nat, tbl: nat, off: nat)
    requires RegionsOk(rs) && dir < 1024 && tbl < 1024 && off < PAGE
    ensures var w := WalkLegacy(rs, pd, pse, dir * SIZE_4MB + tbl * PAGE + off);
            var pde := Slot(rs, pd, dir, 4);
            && (pde.None? ==> w.None?)
            && (pde.Some? && pse && Large(pde.value) ==>
                  w == Some(pde.value / SIZE_4MB % 1024 * SIZE_4MB + tbl * PAGE + off))
            && (pde.Some? && !(pse && Large(pde.value)) ==>
                  var pte := Slot(rs, LowAddress(pde.value), tbl, 4);
                  w == if pte.Some? then Some(LowAddress(pte.value) + off) else None)
  {
    hide RegionsOk, EntryAt, Present, Large, LowAddress, Index;
    Parts32(dir, tbl, off);
  }

  lemma PartsPae(p: nat, dir: nat, tbl: nat, off: nat)
    requires p < 4 && dir < 512 && tbl < 512 && off < PAGE
    ensures var gva := p * SIZE_1GB + dir * SIZE_2MB + tbl * PAGE + off;
            && Index(gva, SIZE_1GB, 4) == p && Index(gva, SIZE_2MB, 512) == dir && Index(gva, PAGE, 512) == tbl
            && gva % PAGE == off && gva % SIZE_2MB == tbl * PAGE + off
  {
    var gva := p * SIZE_1GB + dir * SIZE_2MB + tbl * PAGE + off;
    hide Index;
    Digit(gva, 0, p, 4, SIZE_1GB, dir * SIZE_2MB + tbl * PAGE + off);
    Digit(gva, p, dir, 512, SIZE_2MB, tbl * PAGE + off);
    Digit(gva, p * 512 + dir, tbl, 512, PAGE, off);
  }

  /** PAE paging: pointer, directory, table, offset; a large directory entry maps 2 MiB. */
  lemma PaeAt(rs: seq<Region>, pdpt: nat, p: nat, dir: nat, tbl: nat, off: nat)
    requires RegionsOk(rs) && p < 4 && dir < 512 && tbl < 512 && off < PAGE
    ensures var w := WalkPae(rs, pdpt, p * SIZE_1GB + dir * SIZE_2MB + tbl * PAGE + off);
            var pdpte := Slot(rs, pdpt, p, 8);
            var pde := if pdpte.Some? then Slot(rs, Address(pdpte.value), dir, 8) else None;
            && (pde.None? ==> w.None?)
            && (pde.Some? && Large(pde.value) ==>
                  w == Some(Address(pde.value) / SIZE_2MB * SIZE_2MB + tbl * PAGE + off))
            && (pde.Some? && !Large(pde.value) ==>
                  var pte := Slot(rs, Address(pde.value), tbl, 8);
                  w == if pte.Some? then Some(Address(pte.value) + off) else None)
  {
    hide RegionsOk, EntryAt, Present, Large, Address, Index;
    PartsPae(p, dir, tbl, off);
  }

  lemma PartsLong(i4: nat, i3: nat, i2: nat, i1: nat, off: nat)
    requires i4 < 512 && i3 < 512 && i2 < 512 && i1 < 512 && off < PAGE
    ensures var gva := i4 * SIZE_512GB + i3 * SIZE_1GB + i2 * SIZE_2MB + i1 * PAGE + off;
            && Index(gva, SIZE_512GB, 512) == i4 && Index(gva, SIZE_1GB, 512) == i3
            && Index(gva, SIZE_2MB, 512) == i2 && Index(gva, PAGE, 512) == i1
            && gva % PAGE == off && gva % SIZE_2MB == i1 * PAGE + off
            && gva % SIZE_1GB == i2 * SIZE_2MB + i1 * PAGE + off
  {
    hide Index;
    var gva := i4 * SIZE_512GB + i3 * SIZE_1GB + i2 * SIZE_2MB + i1 * PAGE + off;
    Digit(gva, 0, i4, 512, SIZE_512GB, i3 * SIZE_1GB + i2 * SIZE_2MB + i1 * PAGE + off);
    Digit(gva, i4, i3, 512, SIZE_1GB, i2 * SIZE_2MB + i1 * PAGE + off);
    Digit(gva, i4 * 512 + i3, i2, 512, SIZE_2MB, i1 * PAGE + off);
    Digit(gva, (i4 * 512 + i3) * 512 + i2, i1, 512, PAGE, off);
  }

  /** One level of the long-mode walk. */
  lemma LongStep(rs: seq<Region>, table: nat, level: nat, gva: nat)
    requires RegionsOk(rs) && 1 <= level <= 4
    ensures var e := Slot(rs, table, Index(gva, Span(level), 512), 8);
            WalkLong(rs, table, level, gva) ==
              if e.None? then None
              else if level == 1 then Some(Address(e.value) + gva % PAGE)
              else if !Large(e.value) then WalkLong(rs, Address(e.value), level - 1, gva)
              else if level == 4 then None
              else Some(Address(e.value) / Span(level) * Span(level) + gva % Span(level))
  {
    hide RegionsOk, EntryAt, Present, Large, Address, Index;
  }

  /** Four-level paging, one entry per level: a large entry at level 3 or 2 ends the walk, one at level 4
      faults, and a level-1 entry is the page. */
  lemma LongAt(rs: seq<Region>, pml4: nat, i4: nat, i3: nat, i2: nat, i1: nat, off: nat)
    requires RegionsOk(rs) && i4 < 512 && i3 < 512 && i2 < 512 && i1 < 512 && off < PAGE
    ensures var w := WalkLong(rs, pml4, 4, i4 * SIZE_512GB + i3 * SIZE_1GB + i2 * SIZE_2MB + i1 * PAGE + off);
            var e4 := Slot(rs, pml4, i4, 8);
            var e3 := if e4.Some? && !Large(e4.value) then Slot(rs, Address(e4.value), i3, 8) else None;
            var e2 := if e3.Some? && !Large(e3.value) then Slot(rs, Address(e3.value), i2, 8) else None;
            var e1 := if e2.Some? && !Large(e2.value) then Slot(rs, Address(e2.value), i1, 8) else None;
            w == if e3.Some? && Large(e3.value) then
                   Some(Address(e3.value) / SIZE_1GB * SIZE_1GB + i2 * SIZE_2MB + i1 * PAGE + off)
                 else if e2.Some? && Large(e2.value) then
                   Some(Address(e2.value) / SIZE_2MB * SIZE_2MB + i1 * PAGE + off)
                 else if e1.Some? then Some(Address(e1.value) + off)
                 else None
  {
    hide RegionsOk, Slot, Large, Address, Index, WalkLong;
    PartsLong(i4, i3, i2, i1, off);
    var gva := i4 * SIZE_512GB + i3 * SIZE_1GB + i2 * SIZE_2MB + i1 * PAGE + off;
    LongStep(rs, pml4, 4, gva);
    var e4 := Slot(rs, pml4, i4, 8);
    if e4.Some? && !Large(e4.value) {
      LongStep(rs, Address(e4.value), 3, gva);
      var e3 := Slot(rs, Address(e4.value), i3, 8);
      if e3.Some? && !Large(e3.value) {
        LongStep(rs, Address(e3.value), 2, gva);
        var e2 := Slot(rs, Address(e3.value), i2, 8);
        if e2.Some? && !Large(e2.value) {
          LongStep(rs, Address(e2.value), 1, gva);
        }
      }
    }
  }
}

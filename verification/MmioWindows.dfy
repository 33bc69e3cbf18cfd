/** The MMIO window registry of src/virtio/mmio.c:36-198. Ends are computed in 64-bit arithmetic, so a window
    that reaches 2^64 has a wrapped end and covers nothing.
*/
module MmioWindows {

  const PAGE: nat := 4096
  const MAX_REGIONS: nat := 8
  const U64_MOD: nat := 0x1_0000_0000_0000_0000

  type U64 = n: nat | n < 0x1_0000_0000_0000_0000

  datatype Region = Region(start: U64, size: U64)

  datatype Errno = OK | EINVAL | EBUSY | ENOSPC

  function End(r: Region): U64 {
    (r.start + r.size) % U64_MOD
  }

  /** The addresses relm_vm_gpa_is_mmio_region recognises. */
  predicate Covers(r: Region, gpa: U64) {
    r.start <= gpa < End(r)
  }

  /** The overlap test of the code. */
  predicate Clash(a: Region, b: Region) {
    a.start < End(b) && b.start < End(a)
  }

  predicate ClashesAny(r: Region, rs: seq<Region>) {
    exists i | 0 <= i < |rs| :: Clash(r, rs[i])
  }

  function Reserve(ram: seq<Region>, rs: seq<Region>, r: Region): (Errno, seq<Region>) {
    if r.size == 0 || r.start % PAGE != 0 || r.size % PAGE != 0 then (EINVAL, rs)
    else if ClashesAny(r, ram) || ClashesAny(r, rs) then (EBUSY, rs)
    else if |rs| >= MAX_REGIONS then (ENOSPC, rs)
    else (OK, rs + [r])
  }

  function Release(rs: seq<Region>, start: U64): (r: seq<Region>) {
    if rs == [] then []
    else if rs[0].start == start then rs[1..]
    else [rs[0]] + Release(rs[1..], start)
  }

  predicate IsMmio(rs: seq<Region>, gpa: U64) {
    exists i | 0 <= i < |rs| :: Covers(rs[i], gpa)
  }

  // ---------------------------------------------------------------- runs

  datatype Op = ReserveOp(r: Region) | ReleaseOp(start: U64)

  function Step(ram: seq<Region>, rs: seq<Region>, op: Op): seq<Region> {
    match op
    case ReserveOp(r) => Reserve(ram, rs, r).1
    case ReleaseOp(start) => Release(rs, start)
  }

  function Run(ram: seq<Region>, rs: seq<Region>, ops: seq<Op>): seq<Region>
    decreases |ops|
  {
    if ops == [] then rs else Run(ram, Step(ram, rs, ops[0]), ops[1..])
  }

  predicate Aligned(r: Region) {
    r.size > 0 && r.start % PAGE == 0 && r.size % PAGE == 0
  }

  /** No address in two windows, none in a window and in RAM, all windows whole pages, room respected. */
  ghost predicate Inv(ram: seq<Region>, rs: seq<Region>) {
    && |rs| <= MAX_REGIONS
    && (forall i | 0 <= i < |rs| :: Aligned(rs[i]) && !ClashesAny(rs[i], ram))
    && (forall i, j | 0 <= i < j < |rs| :: !Clash(rs[j], rs[i]))
  }

  /** The code's test finds exactly the windows that share an address. */
  lemma ClashIsSharing(a: Region, b: Region)
    ensures a.size > 0 && b.size > 0 && a.start < End(a) && b.start < End(b) ==>
              (Clash(a, b) <==> exists g: U64 :: Covers(a, g) && Covers(b, g))
    ensures !Clash(a, b) ==> forall g: U64 :: !(Covers(a, g) && Covers(b, g))
  {
    if a.start < End(a) && b.start < End(b) && Clash(a, b) {
      var g: U64 := if a.start < b.start then b.start else a.start;
      assert Covers(a, g) && Covers(b, g);
    }
  }

  lemma {:induction false} ReleaseWhere(rs: seq<Region>, start: U64) returns (k: nat)
    ensures k <= |rs| && (forall i | 0 <= i < k :: rs[i].start != start) && (k < |rs| ==> rs[k].start == start)
    ensures Release(rs, start) == if k < |rs| then rs[..k] + rs[k + 1..] else rs
    decreases |rs|
  {
    if rs == [] {
      k := 0;
    } else if rs[0].start == start {
      k := 0;
    } else {
      var m := ReleaseWhere(rs[1..], start);
      k := m + 1;
      assert forall i | 0 < i < |rs| :: rs[i] == rs[1..][i - 1];
    }
  }

  lemma ReserveKeeps(ram: seq<Region>, rs: seq<Region>, r: Region)
    requires Inv(ram, rs)
    ensures Inv(ram, Reserve(ram, rs, r).1)
  {
  }

  lemma ReleaseKeeps(ram: seq<Region>, rs: seq<Region>, start: U64)
    requires Inv(ram, rs)
    ensures Inv(ram, Release(rs, start))
  {
    hide ClashesAny, Clash, Aligned, Release;
    var k := ReleaseWhere(rs, start);
    if k < |rs| {
      DropOne(ram, rs, k);
    }
  }

  lemma DropOne(ram: seq<Region>, rs: seq<Region>, k: nat)
    requires Inv(ram, rs) && k < |rs|
    ensures Inv(ram, rs[..k] + rs[k + 1..])
  {
    hide ClashesAny, Clash, Aligned;
    var out := rs[..k] + rs[k + 1..];
    assert forall i | 0 <= i < |out| :: out[i] == rs[if i < k then i else i + 1];
  }

  lemma {:induction false} RunKeeps(ram: seq<Region>, rs: seq<Region>, ops: seq<Op>)
    requires Inv(ram, rs)
    ensures Inv(ram, Run(ram, rs, ops))
    decreases |ops|
  {
    hide Inv;
    if ops != [] {
      match ops[0] {
        case ReserveOp(r) => ReserveKeeps(ram, rs, r);
        case ReleaseOp(start) => ReleaseKeeps(ram, rs, start);
      }
      RunKeeps(ram, Step(ram, rs, ops[0]), ops[1..]);
    }
  }

  lemma EmptyOk(ram: seq<Region>)
    ensures Inv(ram, [])
  {
  }

  lemma AllAligned(ram: seq<Region>, rs: seq<Region>)
    requires Inv(ram, rs)
    ensures forall i | 0 <= i < |rs| :: Aligned(rs[i])
  {
  }

  /** After any run of reservations and releases, wrapping ones included, every address lies in at most
      one window and an address in a window lies in no RAM region. */
  lemma WindowsAreApart(ram: seq<Region>, ops: seq<Op>, gpa: U64)
    ensures var rs := Run(ram, [], ops);
            && |rs| <= MAX_REGIONS
            && (forall i, j | 0 <= i < |rs| && 0 <= j < |rs| && Covers(rs[i], gpa) && Covers(rs[j], gpa) :: i == j)
            && (IsMmio(rs, gpa) ==> forall k | 0 <= k < |ram| :: !Covers(ram[k], gpa))
  {
    hide Run;
    EmptyOk(ram);
    RunKeeps(ram, [], ops);
    var rs := Run(ram, [], ops);
    forall i, j | 0 <= i < |rs| && 0 <= j < |rs| && Covers(rs[i], gpa) && Covers(rs[j], gpa)
      ensures i == j
    {
      ClashIsSharing(rs[i], rs[j]);
      ClashIsSharing(rs[j], rs[i]);
    }
    if IsMmio(rs, gpa) {
      var i :| 0 <= i < |rs| && Covers(rs[i], gpa);
      forall k | 0 <= k < |ram|
        ensures !Covers(ram[k], gpa)
      {
        ClashIsSharing(rs[i], ram[k]);
      }
    }
  }

  /** A granted reservation adds exactly its own addresses; it adds none if and only if its end wraps. */
  lemma ReserveCovers(ram: seq<Region>, rs: seq<Region>, r: Region, gpa: U64)
    requires Reserve(ram, rs, r).0 == OK
    ensures IsMmio(Reserve(ram, rs, r).1, gpa) <==> IsMmio(rs, gpa) || Covers(r, gpa)
    ensures (exists g: U64 :: Covers(r, g)) <==> r.start + r.size < U64_MOD
  {
    var rs' := rs + [r];
    assert forall i | 0 <= i < |rs| :: rs'[i] == rs[i];
    assert rs'[|rs|] == r;
    if r.start + r.size < U64_MOD {
      assert Covers(r, r.start);
    }
  }

  /** Some window other than number `k` covers the address. */
  ghost predicate CoveredElsewhere(rs: seq<Region>, k: nat, gpa: U64) {
    exists i | 0 <= i < |rs| && i != k :: Covers(rs[i], gpa)
  }

  lemma WithoutOne(rs: seq<Region>, k: nat, gpa: U64)
    requires k < |rs|
    ensures IsMmio(rs[..k] + rs[k + 1..], gpa) <==> CoveredElsewhere(rs, k, gpa)
  {
    hide Covers;
    var rs' := rs[..k] + rs[k + 1..];
    if IsMmio(rs', gpa) {
      var i :| 0 <= i < |rs'| && Covers(rs'[i], gpa);
      assert rs'[i] == rs[if i < k then i else i + 1];
    }
    if CoveredElsewhere(rs, k, gpa) {
      var i :| 0 <= i < |rs| && i != k && Covers(rs[i], gpa);
      assert rs[i] == rs'[if i < k then i else i - 1];
    }
  }

  /** Releasing gives back exactly the addresses of the first window with that start. */
  lemma ReleaseUncovers(ram: seq<Region>, rs: seq<Region>, start: U64, gpa: U64) returns (k: nat)
    requires Inv(ram, rs)
    ensures k <= |rs| && (k < |rs| ==> rs[k].start == start) && forall i | 0 <= i < k :: rs[i].start != start
    ensures IsMmio(Release(rs, start), gpa) <==> IsMmio(rs, gpa) && !(k < |rs| && Covers(rs[k], gpa))
  {
    hide Release, Inv, ClashesAny;
    k := ReleaseWhere(rs, start);
    if k < |rs| {
      WithoutOne(rs, k, gpa);
      OnlyOne(ram, rs, k, gpa);
    }
  }

  lemma OnlyOne(ram: seq<Region>, rs: seq<Region>, k: nat, gpa: U64)
    requires Inv(ram, rs) && k < |rs|
    ensures CoveredElsewhere(rs, k, gpa) <==> IsMmio(rs, gpa) && !Covers(rs[k], gpa)
  {
    hide Covers, ClashesAny, Clash, Aligned;
    forall i | 0 <= i < |rs| && i != k
      ensures !(Covers(rs[i], gpa) && Covers(rs[k], gpa))
    {
      ClashIsSharing(rs[i], rs[k]);
      ClashIsSharing(rs[k], rs[i]);
    }
  }

  /** Releasing the start of what was just reserved restores the registry if and only if every window from the
      first one with that start on is the very same window; in particular when no window had that start. */
  lemma ReserveThenRelease(ram: seq<Region>, rs: seq<Region>, r: Region)
    requires Reserve(ram, rs, r).0 == OK
    ensures Release(Reserve(ram, rs, r).1, r.start) == rs <==>
            forall i, j | 0 <= i <= j < |rs| && rs[i].start == r.start :: rs[j] == r
  {
    hide Release, ClashesAny;
    var rs' := rs + [r];
    var k := ReleaseWhere(rs', r.start);
    assert rs'[|rs|] == r && forall i | 0 <= i < |rs| :: rs'[i] == rs[i];
    var out := rs'[..k] + rs'[k + 1..];
    assert |out| == |rs| && forall i | 0 <= i < |rs| :: out[i] == if i < k then rs[i] else rs'[i + 1];
    assert k == |rs| ==> out == rs;
    if out == rs {
      AllSame(rs, r, k);
    }
  }

  /** A list that shifting does not change is constant from there on. */
  lemma AllSame(rs: seq<Region>, r: Region, k: nat)
    requires k <= |rs| && forall i | k <= i < |rs| :: rs[i] == (rs + [r])[i + 1]
    ensures forall i | k <= i < |rs| :: rs[i] == r
  {
    forall i | k <= i < |rs|
      ensures rs[i] == r
    {
      SameToEnd(rs, r, k, i);
    }
  }

  lemma {:induction false} SameToEnd(rs: seq<Region>, r: Region, k: nat, i: nat)
    requires k <= i < |rs| && forall i | k <= i < |rs| :: rs[i] == (rs + [r])[i + 1]
    ensures rs[i] == r
    decreases |rs| - i
  {
    if i + 1 < |rs| {
      SameToEnd(rs, r, k, i + 1);
    }
  }

  /** The last page of the address space: granted, and covering nothing. */
  lemma WrappingGranted()
    ensures var r := Region(0xffff_ffff_ffff_f000, 0x1000);
            Reserve([], [], r) == (OK, [r]) && forall g: U64 :: !Covers(r, g)
  {
    var r := Region(0xffff_ffff_ffff_f000, 0x1000);
    assert [] + [r] == [r];
    assert End(r) == 0;
  }

  // ---------------------------------------------------------------- the registry in place

  class Registry {
    const slots: array<Region>
    var count: nat

    ghost predicate Valid()
      reads this
    {
      slots.Length == MAX_REGIONS && count <= slots.Length
    }

    function View(): seq<Region>
      requires Valid()
      reads this, slots
    {
      slots[..count]
    }

    constructor ()
      ensures Valid() && fresh(slots) && View() == []
    {
      slots := new Region[MAX_REGIONS](_ => Region(0, 0));
      count := 0;
    }

    /** relm_vm_reserve_mmio_region against a list of RAM regions. */
    method ReserveRegion(ram: seq<Region>, r: Region) returns (err: Errno)
      requires Valid()
      modifies this, slots
      ensures Valid() && (err, View()) == Reserve(ram, old(View()), r)
    {
      if r.size == 0 || r.start % PAGE != 0 || r.size % PAGE != 0 {
        return EINVAL;
      }
      var i: nat := 0;
      while i < |ram|
        invariant i <= |ram| && forall j | 0 <= j < i :: !Clash(r, ram[j])
      {
        if r.start < End(ram[i]) && ram[i].start < End(r) {
          return EBUSY;
        }
        i := i + 1;
      }
      i := 0;
      while i < count
        invariant i <= count && forall j | 0 <= j < i :: !Clash(r, slots[j])
      {
        if r.start < End(slots[i]) && slots[i].start < End(r) {
          assert Clash(r, View()[i]);
          return EBUSY;
        }
        i := i + 1;
      }
      if count >= MAX_REGIONS {
        return ENOSPC;
      }
      slots[count] := r;
      count := count + 1;
      assert View() == old(View()) + [r];
      return OK;
    }

    /** Later entries move down one slot over entry `i`. */
    method CloseGap(i: nat)
      requires Valid() && i < count
      modifies this, slots
      ensures Valid() && View() == old(View()[..i] + View()[i + 1..])
    {
      var j := i;
      while j + 1 < count
        invariant count == old(count) <= slots.Length && i <= j < count
        invariant forall m | 0 <= m < i :: slots[m] == old(slots[m])
        invariant forall m | i <= m < j :: slots[m] == old(slots[m + 1])
        invariant forall m | j <= m < count :: slots[m] == old(slots[m])
      {
        slots[j] := slots[j + 1];
        j := j + 1;
      }
      count := count - 1;
    }

    /** The first slot with that start, or the count. */
    method Find(start: U64) returns (i: nat)
      requires Valid()
      ensures i <= count && (i < count ==> View()[i].start == start)
      ensures forall j | 0 <= j < i :: View()[j].start != start
    {
      i := 0;
      while i < count && slots[i].start != start
        invariant i <= count && forall j | 0 <= j < i :: slots[j].start != start
      {
        i := i + 1;
      }
    }

    /** relm_vm_release_mmio_region. */
    method ReleaseRegion(start: U64)
      requires Valid()
      modifies this, slots
      ensures Valid() && View() == Release(old(View()), start)
    {
      hide Release;
      ghost var rs := View();
      ghost var k := ReleaseWhere(rs, start);
      var i := Find(start);
      assert (i < |rs| ==> rs[i].start == start) && (k < |rs| ==> rs[k].start == start);
      assert i == k;
      if i < count {
        CloseGap(i);
      }
    }

    method GpaIsMmio(gpa: U64) returns (yes: bool)
      requires Valid()
      ensures yes == IsMmio(View(), gpa)
    {
      var i: nat := 0;
      while i < count
        invariant i <= count && forall j | 0 <= j < i :: !Covers(slots[j], gpa)
      {
        if slots[i].start <= gpa && gpa < End(slots[i]) {
          assert Covers(View()[i], gpa);
          return true;
        }
        i := i + 1;
      }
      return false;
    }
  }
}

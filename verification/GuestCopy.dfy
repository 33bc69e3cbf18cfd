/** relm_vm_copy_to_guest, relm_vm_copy_from_guest and relm_vm_zero_guest_memory: chunk loops over
    the region list, proved to act on flat guest memory.
*/
module GuestCopy {
  import opened GuestMemory

  function Min(a: nat, b: nat): nat {
    if a < b then a else b
  }

  /** The chunk length the copy loops compute: to the page end, the end of the buffer and the end
      of the region. */
  function Chunk(r: Region, off: nat, left: nat): (n: nat)
    requires off < r.Size()
    ensures n <= left && off % PAGE + n <= PAGE && off + n <= r.Size()
    ensures left > 0 ==> n > 0
  {
    Min(Min(PAGE - off % PAGE, left), r.Size() - off)
  }

  /** A whole page is left in its region, so the clamp to the region's end never bites. */
  lemma RegionClampIdle(r: Region, off: nat, left: nat)
    requires off < r.Size()
    ensures Chunk(r, off, left) == Min(PAGE - off % PAGE, left)
  {
    assert off / PAGE < |r.pages|;
    assert off - off % PAGE + PAGE <= r.Size();
  }

  /** Reading one more chunk out of a page. */
  lemma ReadChunk(rs: seq<Region>, gpa: nat, data: seq<byte>, k: nat, n: nat)
    requires RegionsOk(rs) && Holds(rs, gpa, data) && k < |rs| && rs[k].Contains(gpa + |data|)
    requires var off := gpa + |data| - rs[k].start; off % PAGE + n <= PAGE && rs[k].pages[off / PAGE].Some?
    ensures var off := gpa + |data| - rs[k].start;
            var p := rs[k].pages[off / PAGE].value;
            |p| == PAGE && Holds(rs, gpa, data + p[off % PAGE..off % PAGE + n])
  {
    var cur := gpa + |data|;
    var off := cur - rs[k].start;
    var p := rs[k].pages[off / PAGE].value;
    var data' := data + p[off % PAGE..off % PAGE + n];
    forall a: nat | gpa <= a < gpa + |data'|
      ensures ByteAt(rs, a) == Some(data'[a - gpa])
    {
      if a >= cur {
        ByteInPage(rs, k, cur, a - cur);
      }
    }
  }

  /** An address outside every region, or in a null page, is not backed. */
  lemma NotBacked(rs: seq<Region>, k: nat, gpa: nat)
    requires RegionsOk(rs) && k < |rs| && rs[k].Contains(gpa) && rs[k].pages[(gpa - rs[k].start) / PAGE].None?
    ensures ByteAt(rs, gpa).None?
  {
    ByteInPage(rs, k, gpa, 0);
  }

  lemma NoRegion(rs: seq<Region>, gpa: nat)
    requires RegionsOk(rs) && Find(rs, gpa) == |rs|
    ensures ByteAt(rs, gpa).None?
  {
  }

  /** A chunk inside a region does not carry the address past 2^64. */
  lemma NoWrap(rs: seq<Region>, k: nat, gpa: nat, n: nat)
    requires RegionsOk(rs) && k < |rs| && gpa + n <= rs[k].start + rs[k].Size()
    ensures (gpa + n) % U64_MOD == gpa + n
  {
    assert rs[k].Ok();
  }

  lemma HoldsBacked(rs: seq<Region>, gpa: nat, data: seq<byte>, size: nat)
    requires RegionsOk(rs) && Holds(rs, gpa, data) && |data| <= size
    requires |data| < size ==> ByteAt(rs, gpa + |data|).None?
    ensures Backed(rs, gpa, size) == |data|
  {
    BackedIs(rs, gpa, size, |data|);
  }

  /** What is written stays backed where it was backed. */
  lemma {:induction false} BackedAfter(rs: seq<Region>, rs': seq<Region>, gpa: nat, data: seq<byte>, at: nat, size: nat)
    requires RegionsOk(rs) && RegionsOk(rs') && Written(rs, rs', gpa, data) && AllBacked(rs, gpa, gpa + |data|)
    ensures Backed(rs', at, size) == Backed(rs, at, size)
    decreases size
  {
    hide RegionsOk, ByteAt;
    assert ByteAt(rs', at).Some? <==> ByteAt(rs, at).Some?;
    if size > 0 && ByteAt(rs, at).Some? {
      BackedAfter(rs, rs', gpa, data, at + 1, size - 1);
    }
  }

  lemma WrittenMore(rs: seq<Region>, rs1: seq<Region>, rs2: seq<Region>, gpa: nat, d1: seq<byte>, d2: seq<byte>)
    requires RegionsOk(rs) && RegionsOk(rs1) && RegionsOk(rs2)
    requires Written(rs, rs1, gpa, d1) && Written(rs1, rs2, gpa + |d1|, d2)
    ensures Written(rs, rs2, gpa, d1 + d2)
  {
    hide RegionsOk, ByteAt;
  }

  function Zeros(n: nat): (z: seq<byte>)
    ensures |z| == n
  {
    seq(n, _ => 0)
  }

  class Memory {
    var regions: seq<Region>

    ghost predicate Valid()
      reads this
    {
      RegionsOk(regions)
    }

    constructor (regions: seq<Region>)
      requires RegionsOk(regions)
      ensures Valid() && this.regions == regions
    {
      this.regions := regions;
    }

    /** The scan of the region list. */
    method FindRegion(gpa: nat) returns (k: nat)
      ensures k == Find(regions, gpa)
    {
      k := 0;
      while k < |regions| && !regions[k].Contains(gpa)
        invariant k <= |regions| && FindFrom(regions, gpa, k) == Find(regions, gpa)
      {
        k := k + 1;
      }
    }

    /** relm_vm_copy_from_guest: reads exactly the longest backed prefix. */
    method CopyFromGuest(gpa: nat, size: nat) returns (ret: int, data: seq<byte>)
      requires Valid() && gpa < U64_MOD
      ensures ret == CopyResult(size, Backed(regions, gpa, size))
      ensures |data| == Backed(regions, gpa, size) && Holds(regions, gpa, data)
    {
      hide RegionsOk, ByteAt, AsInt;
      data := [];
      if size == 0 {
        return EINVAL, data;
      }
      var cur: nat, k: nat := gpa, |regions|;
      while |data| < size
        invariant |data| <= size && k <= |regions| && cur == gpa + |data| && Holds(regions, gpa, data)
      {
        if k == |regions| || !regions[k].Contains(cur) {
          k := FindRegion(cur);
        }
        if k == |regions| {
          NoRegion(regions, cur);
          HoldsBacked(regions, gpa, data, size);
          return if |data| > 0 then AsInt(|data|) else EFAULT, data;
        }
        var off := cur - regions[k].start;
        var n := Chunk(regions[k], off, size - |data|);
        var page := regions[k].pages[off / PAGE];
        if page.None? {
          NotBacked(regions, k, cur);
          HoldsBacked(regions, gpa, data, size);
          return if |data| > 0 then AsInt(|data|) else EFAULT, data;
        }
        ReadChunk(regions, gpa, data, k, n);
        data := data + page.value[off % PAGE..off % PAGE + n];
        NoWrap(regions, k, cur, n);
        cur := (cur + n) % U64_MOD;
      }
      HoldsBacked(regions, gpa, data, size);
      return AsInt(|data|), data;
    }

    /** relm_vm_copy_to_guest: writes exactly the longest backed prefix and nothing else. */
    method CopyToGuest(gpa: nat, data: seq<byte>) returns (ret: int)
      requires Valid() && gpa < U64_MOD
      modifies this
      ensures Valid()
      ensures var n := Backed(old(regions), gpa, |data|);
              ret == CopyResult(|data|, n) && Written(old(regions), regions, gpa, data[..n])
    {
      hide RegionsOk, ByteAt, AsInt, PutChunk;
      var copied := 0;
      if |data| == 0 {
        assert data[..0] == [];
        return EINVAL;
      }
      var cur: nat, k: nat := gpa, |regions|;
      while copied < |data|
        invariant Valid() && copied <= |data| && k <= |regions| && cur == gpa + copied
        invariant AllBacked(old(regions), gpa, gpa + copied) && Written(old(regions), regions, gpa, data[..copied])
      {
        if k == |regions| || !regions[k].Contains(cur) {
          k := FindRegion(cur);
        }
        if k == |regions| {
          NoRegion(regions, cur);
          BackedIs(old(regions), gpa, |data|, copied);
          return if copied > 0 then AsInt(copied) else EFAULT;
        }
        var off := cur - regions[k].start;
        var n := Chunk(regions[k], off, |data| - copied);
        if regions[k].pages[off / PAGE].None? {
          NotBacked(regions, k, cur);
          BackedIs(old(regions), gpa, |data|, copied);
          return if copied > 0 then AsInt(copied) else EFAULT;
        }
        var part := data[copied..copied + n];
        NoWrap(regions, k, cur, n);
        WriteStep(old(regions), regions, gpa, data[..copied], k, part);
        assert data[..copied] + part == data[..copied + n];
        regions := PutChunk(regions, k, off, part);
        copied, cur := copied + n, (cur + n) % U64_MOD;
      }
      BackedIs(old(regions), gpa, |data|, copied);
      return AsInt(copied);
    }

    /** relm_vm_zero_guest_memory, which clamps a chunk to its page only. */
    method ZeroGuestMemory(gpa: nat, size: nat) returns (ret: int)
      requires Valid() && gpa < U64_MOD
      modifies this
      ensures Valid()
      ensures var n := Backed(old(regions), gpa, size);
              ret == CopyResult(size, n) && Written(old(regions), regions, gpa, Zeros(n))
    {
      hide RegionsOk, ByteAt, AsInt, PutChunk;
      var zeroed := 0;
      if size == 0 {
        return EINVAL;
      }
      var cur: nat, k: nat := gpa, |regions|;
      while zeroed < size
        invariant Valid() && zeroed <= size && k <= |regions| && cur == gpa + zeroed
        invariant AllBacked(old(regions), gpa, gpa + zeroed) && Written(old(regions), regions, gpa, Zeros(zeroed))
      {
        if k == |regions| || !regions[k].Contains(cur) {
          k := FindRegion(cur);
        }
        if k == |regions| {
          NoRegion(regions, cur);
          BackedIs(old(regions), gpa, size, zeroed);
          return if zeroed > 0 then AsInt(zeroed) else EFAULT;
        }
        var off := cur - regions[k].start;
        var n := Min(PAGE - off % PAGE, size - zeroed);
        RegionClampIdle(regions[k], off, size - zeroed);
        if regions[k].pages[off / PAGE].None? {
          NotBacked(regions, k, cur);
          BackedIs(old(regions), gpa, size, zeroed);
          return if zeroed > 0 then AsInt(zeroed) else EFAULT;
        }
        NoWrap(regions, k, cur, n);
        WriteStep(old(regions), regions, gpa, Zeros(zeroed), k, Zeros(n));
        assert Zeros(zeroed) + Zeros(n) == Zeros(zeroed + n);
        regions := PutChunk(regions, k, off, Zeros(n));
        zeroed, cur := zeroed + n, (cur + n) % U64_MOD;
      }
      BackedIs(old(regions), gpa, size, zeroed);
      return AsInt(zeroed);
    }
  }

  /** One more chunk of a write that has come to `gpa + |done|`. */
  lemma WriteStep(rs: seq<Region>, now: seq<Region>, gpa: nat, done: seq<byte>, k: nat, part: seq<byte>)
    requires RegionsOk(rs) && RegionsOk(now) && Written(rs, now, gpa, done) && AllBacked(rs, gpa, gpa + |done|)
    requires k < |now| && now[k].Contains(gpa + |done|)
    requires var off := gpa + |done| - now[k].start;
             off % PAGE + |part| <= PAGE && now[k].pages[off / PAGE].Some?
    ensures var after := PutChunk(now, k, gpa + |done| - now[k].start, part);
            && RegionsOk(after) && |after| == |now| && Written(rs, after, gpa, done + part)
    ensures AllBacked(rs, gpa, gpa + |done| + |part|)
  {
    hide RegionsOk, ByteAt;
    var cur := gpa + |done|;
    var after := PutChunk(now, k, cur - now[k].start, part);
    PutChunkShape(now, k, cur - now[k].start, part);
    PutChunkWrites(now, k, cur, part);
    WrittenMore(rs, now, after, gpa, done, part);
    forall a: nat | cur <= a < cur + |part|
      ensures ByteAt(rs, a).Some?
    {
      ByteInPage(now, k, cur, a - cur);
      assert ByteAt(now, a).Some?;
    }
  }

  /** A read after a write returns the written prefix. */
  lemma ReadAfterWrite(rs: seq<Region>, rs': seq<Region>, gpa: nat, data: seq<byte>, got: seq<byte>)
    requires RegionsOk(rs) && RegionsOk(rs')
    requires Written(rs, rs', gpa, data[..Backed(rs, gpa, |data|)])
    requires |got| == Backed(rs', gpa, |data|) && Holds(rs', gpa, got)
    ensures got == data[..Backed(rs, gpa, |data|)]
  {
    hide RegionsOk, ByteAt, Holds, Written, AllBacked;
    var n := Backed(rs, gpa, |data|);
    BackedSpec(rs, gpa, |data|);
    BackedAfter(rs, rs', gpa, data[..n], gpa, |data|);
    assert |got| == n;
    forall i | 0 <= i < n
      ensures got[i] == data[i]
    {
      SameByte(rs, rs', gpa, data[..n], got, gpa + i);
    }
  }

  lemma SameByte(rs: seq<Region>, rs': seq<Region>, gpa: nat, data: seq<byte>, got: seq<byte>, a: nat)
    requires RegionsOk(rs) && RegionsOk(rs') && Written(rs, rs', gpa, data) && Holds(rs', gpa, got)
    requires gpa <= a < gpa + |data| && |got| == |data|
    ensures got[a - gpa] == data[a - gpa]
  {
    hide RegionsOk, ByteAt;
    assert ByteAt(rs', a) == Some(got[a - gpa]);
  }
}

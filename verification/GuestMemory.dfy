/** Guest RAM as src/core/vm.c keeps it: a list of regions, each a run of 4 KiB pages (a page
    pointer may be null), copied page chunk by page chunk. The flat reference is ByteAt: the guest
    byte at a guest-physical address, if any.
*/
module GuestMemory {

  type byte = x: int | 0 <= x < 256

  datatype Option<T> = None | Some(value: T)

  const PAGE: nat := 4096
  const U64_MOD: nat := 0x1_0000_0000_0000_0000

  const EINVAL: int := -22
  const EFAULT: int := -14
  const ENOMEM: int := -12

  /** The C conversion of a size_t to int. */
  function AsInt(n: nat): int {
    var m := n % 0x1_0000_0000;
    if m < 0x8000_0000 then m else m - 0x1_0000_0000
  }

  datatype Region = Region(start: nat, pages: seq<Option<seq<byte>>>) {
    function Size(): nat {
      |pages| * PAGE
    }

    predicate Contains(gpa: nat) {
      start <= gpa < start + Size()
    }

    ghost predicate Ok() {
      && start + Size() < U64_MOD
      && forall k | 0 <= k < |pages| && pages[k].Some? :: |pages[k].value| == PAGE
    }

    /** The byte at offset `off` of the region. */
    ghost function At(off: nat): Option<byte>
      requires Ok() && off < Size()
    {
      var p := pages[off / PAGE];
      if p.None? then None else Some(p.value[off % PAGE])
    }
  }

  ghost predicate Disjoint(rs: seq<Region>) {
    forall i, j, gpa | 0 <= i < |rs| && 0 <= j < |rs| && rs[i].Contains(gpa) && rs[j].Contains(gpa) :: i == j
  }

  ghost predicate RegionsOk(rs: seq<Region>) {
    && (forall i | 0 <= i < |rs| :: rs[i].Ok())
    && Disjoint(rs)
  }

  /** The index of the region holding `gpa`, or the number of regions. */
  function Find(rs: seq<Region>, gpa: nat): (i: nat)
    ensures i <= |rs|
    ensures i < |rs| ==> rs[i].Contains(gpa)
    ensures i == |rs| ==> forall j | 0 <= j < |rs| :: !rs[j].Contains(gpa)
  {
    FindFrom(rs, gpa, 0)
  }

  function FindFrom(rs: seq<Region>, gpa: nat, i: nat): (k: nat)
    requires i <= |rs|
    ensures i <= k <= |rs|
    ensures k < |rs| ==> rs[k].Contains(gpa)
    ensures forall j | i <= j < k :: !rs[j].Contains(gpa)
    decreases |rs| - i
  {
    if i == |rs| || rs[i].Contains(gpa) then i else FindFrom(rs, gpa, i + 1)
  }

  /** Flat guest memory. */
  ghost function ByteAt(rs: seq<Region>, gpa: nat): Option<byte>
    requires RegionsOk(rs)
  {
    var i := Find(rs, gpa);
    if i == |rs| then None else rs[i].At(gpa - rs[i].start)
  }

  /** Every address in [lo, hi) is backed. */
  ghost predicate AllBacked(rs: seq<Region>, lo: nat, hi: nat)
    requires RegionsOk(rs)
  {
    forall a: nat | lo <= a < hi :: ByteAt(rs, a).Some?
  }

  /** The flat bytes from `gpa` on are `data`. */
  ghost predicate Holds(rs: seq<Region>, gpa: nat, data: seq<byte>)
    requires RegionsOk(rs)
  {
    forall a: nat | gpa <= a < gpa + |data| :: ByteAt(rs, a) == Some(data[a - gpa])
  }

  /** The length of the longest backed prefix of [gpa, gpa + size). */
  ghost function Backed(rs: seq<Region>, gpa: nat, size: nat): (n: nat)
    requires RegionsOk(rs)
    ensures n <= size
    decreases size
  {
    if size == 0 || ByteAt(rs, gpa).None? then 0 else 1 + Backed(rs, gpa + 1, size - 1)
  }

  lemma {:induction false} BackedIs(rs: seq<Region>, gpa: nat, size: nat, n: nat)
    requires RegionsOk(rs) && n <= size && AllBacked(rs, gpa, gpa + n)
    requires n < size ==> ByteAt(rs, gpa + n).None?
    ensures Backed(rs, gpa, size) == n
    decreases size
  {
    hide RegionsOk, ByteAt;
    if n > 0 {
      assert ByteAt(rs, gpa).Some?;
      BackedIs(rs, gpa + 1, size - 1, n - 1);
    }
  }

  lemma {:induction false} BackedSpec(rs: seq<Region>, gpa: nat, size: nat)
    requires RegionsOk(rs)
    ensures var n := Backed(rs, gpa, size);
            AllBacked(rs, gpa, gpa + n) && (n < size ==> ByteAt(rs, gpa + n).None?)
    decreases size
  {
    hide RegionsOk, ByteAt;
    if size > 0 && ByteAt(rs, gpa).Some? {
      BackedSpec(rs, gpa + 1, size - 1);
    }
  }

  /** What a copy call returns when `n` of `size` bytes went through. */
  function CopyResult(size: nat, n: nat): int {
    if size == 0 then EINVAL else if n == 0 then EFAULT else AsInt(n)
  }

  /** Inside one region, the flat byte is the region's byte. */
  lemma ByteInRegion(rs: seq<Region>, k: nat, gpa: nat)
    requires RegionsOk(rs) && k < |rs| && rs[k].Contains(gpa)
    ensures ByteAt(rs, gpa) == rs[k].At(gpa - rs[k].start)
  {
    assert rs[Find(rs, gpa)].Contains(gpa);
  }

  /** Inside one page of a region. */
  lemma ByteInPage(rs: seq<Region>, k: nat, gpa: nat, j: nat)
    requires RegionsOk(rs) && k < |rs| && rs[k].Contains(gpa) && (gpa - rs[k].start) % PAGE + j < PAGE
    ensures rs[k].Contains(gpa + j)
    ensures var off := gpa - rs[k].start; var p := rs[k].pages[off / PAGE];
            ByteAt(rs, gpa + j) == if p.None? then None else Some(p.value[off % PAGE + j])
  {
    var off := gpa - rs[k].start;
    assert (off + j) / PAGE == off / PAGE && (off + j) % PAGE == off % PAGE + j;
    assert off / PAGE < |rs[k].pages|;
    ByteInRegion(rs, k, gpa + j);
  }

  // ---------------------------------------------------------------- writing

  /** `rs'` is `rs` with `data` laid over the bytes from `gpa` on. */
  ghost predicate Written(rs: seq<Region>, rs': seq<Region>, gpa: nat, data: seq<byte>)
    requires RegionsOk(rs) && RegionsOk(rs')
  {
    forall a: nat :: ByteAt(rs', a) == if gpa <= a < gpa + |data| then Some(data[a - gpa]) else ByteAt(rs, a)
  }

  /** memcpy into one page. */
  function Splice(page: seq<byte>, off: nat, data: seq<byte>): (p: seq<byte>)
    requires off + |data| <= |page|
    ensures |p| == |page|
    ensures forall i | 0 <= i < |page| :: p[i] == if off <= i < off + |data| then data[i - off] else page[i]
  {
    page[..off] + data + page[off + |data|..]
  }

  function PutChunk(rs: seq<Region>, k: nat, off: nat, data: seq<byte>): seq<Region>
    requires k < |rs| && off < rs[k].Size()
  {
    var p := rs[k].pages[off / PAGE];
    if p.Some? && off % PAGE + |data| <= |p.value| then
      rs[k := Region(rs[k].start, rs[k].pages[off / PAGE := Some(Splice(p.value, off % PAGE, data))])]
    else rs
  }

  /** Writing a chunk leaves the layout alone. */
  lemma PutChunkShape(rs: seq<Region>, k: nat, off: nat, data: seq<byte>)
    requires RegionsOk(rs) && k < |rs| && off < rs[k].Size()
    ensures var rs' := PutChunk(rs, k, off, data);
            && RegionsOk(rs') && |rs'| == |rs|
            && (forall i | 0 <= i < |rs| :: rs'[i].start == rs[i].start && |rs'[i].pages| == |rs[i].pages|)
            && (forall i, j | 0 <= i < |rs| && 0 <= j < |rs[i].pages| ::
                  rs'[i].pages[j].None? <==> rs[i].pages[j].None?)
  {
    var rs' := PutChunk(rs, k, off, data);
    assert forall i | 0 <= i < |rs| :: rs'[i].start == rs[i].start && |rs'[i].pages| == |rs[i].pages|;
    assert rs'[k].Ok();
    forall i, j, gpa | 0 <= i < |rs| && 0 <= j < |rs| && rs'[i].Contains(gpa) && rs'[j].Contains(gpa)
      ensures i == j
    {
      assert rs[i].Contains(gpa) && rs[j].Contains(gpa);
    }
  }

  lemma PutChunkWrites(rs: seq<Region>, k: nat, gpa: nat, data: seq<byte>)
    requires RegionsOk(rs) && k < |rs| && rs[k].Contains(gpa)
    requires (gpa - rs[k].start) % PAGE + |data| <= PAGE && rs[k].pages[(gpa - rs[k].start) / PAGE].Some?
    ensures RegionsOk(PutChunk(rs, k, gpa - rs[k].start, data))
    ensures Written(rs, PutChunk(rs, k, gpa - rs[k].start, data), gpa, data)
  {
    hide RegionsOk, ByteAt;
    PutChunkShape(rs, k, gpa - rs[k].start, data);
    var rs' := PutChunk(rs, k, gpa - rs[k].start, data);
    forall a: nat
      ensures ByteAt(rs', a) == if gpa <= a < gpa + |data| then Some(data[a - gpa]) else ByteAt(rs, a)
    {
      PutChunkByte(rs, k, gpa, data, a);
    }
  }

  /** The chunk within its own region. */
  lemma PutChunkAt(rs: seq<Region>, k: nat, off: nat, data: seq<byte>, x: nat)
    requires k < |rs| && rs[k].Ok() && off < rs[k].Size() && x < rs[k].Size()
    requires off % PAGE + |data| <= PAGE && rs[k].pages[off / PAGE].Some?
    ensures var rs' := PutChunk(rs, k, off, data);
            && |rs'| == |rs| && |rs'[k].pages| == |rs[k].pages| && x < rs'[k].Size()
            && rs'[k].At(x) == if off <= x < off + |data| then Some(data[x - off]) else rs[k].At(x)
  {
    SamePage(off, x, |data|);
    PageNumber(off, |rs[k].pages|);
    PageNumber(x, |rs[k].pages|);
    hide Splice;
    var p := rs[k].pages[off / PAGE].value;
    SpliceAt(p, off % PAGE, data, x % PAGE);
  }

  lemma PageNumber(x: nat, n: nat)
    requires x < n * PAGE
    ensures x / PAGE < n
  {
  }

  lemma SpliceAt(page: seq<byte>, off: nat, data: seq<byte>, i: nat)
    requires off + |data| <= |page| && i < |page|
    ensures |Splice(page, off, data)| == |page|
    ensures Splice(page, off, data)[i] == if off <= i < off + |data| then data[i - off] else page[i]
  {
  }

  lemma PutChunkByte(rs: seq<Region>, k: nat, gpa: nat, data: seq<byte>, a: nat)
    requires RegionsOk(rs) && k < |rs| && rs[k].Contains(gpa)
    requires (gpa - rs[k].start) % PAGE + |data| <= PAGE && rs[k].pages[(gpa - rs[k].start) / PAGE].Some?
    requires RegionsOk(PutChunk(rs, k, gpa - rs[k].start, data))
    ensures ByteAt(PutChunk(rs, k, gpa - rs[k].start, data), a)
            == if gpa <= a < gpa + |data| then Some(data[a - gpa]) else ByteAt(rs, a)
  {
    hide RegionsOk, ByteAt, PutChunk;
    var off := gpa - rs[k].start;
    if rs[k].Contains(a) {
      SameRegion(rs, k, off, data, a);
    } else {
      ChunkInside(rs[k], gpa, |data|, a);
      OtherRegion(rs, k, off, data, a);
    }
  }

  lemma SameRegion(rs: seq<Region>, k: nat, off: nat, data: seq<byte>, a: nat)
    requires RegionsOk(rs) && k < |rs| && off < rs[k].Size() && rs[k].Contains(a)
    requires off % PAGE + |data| <= PAGE && rs[k].pages[off / PAGE].Some? && RegionsOk(PutChunk(rs, k, off, data))
    ensures var x := a - rs[k].start;
            ByteAt(PutChunk(rs, k, off, data), a) ==
                    if off <= x < off + |data| then Some(data[x - off]) else ByteAt(rs, a)
  {
    hide RegionsOk, ByteAt, PutChunk;
    var rs' := PutChunk(rs, k, off, data);
    RegionOkAt(rs, k);
    PutChunkAt(rs, k, off, data, a - rs[k].start);
    PutChunkShape(rs, k, off, data);
    ByteInRegion(rs, k, a);
    ByteInRegion(rs', k, a);
  }

  lemma RegionOkAt(rs: seq<Region>, k: nat)
    requires RegionsOk(rs) && k < |rs|
    ensures rs[k].Ok()
  {
  }

  lemma OtherRegion(rs: seq<Region>, k: nat, off: nat, data: seq<byte>, a: nat)
    requires RegionsOk(rs) && k < |rs| && off < rs[k].Size() && !rs[k].Contains(a)
    requires RegionsOk(PutChunk(rs, k, off, data))
    ensures ByteAt(PutChunk(rs, k, off, data), a) == ByteAt(rs, a)
  {
    PutChunkShape(rs, k, off, data);
    SameFind(rs, PutChunk(rs, k, off, data), a);
    hide RegionsOk, Splice;
  }

  lemma ChunkInside(r: Region, gpa: nat, len: nat, a: nat)
    requires r.Contains(gpa) && (gpa - r.start) % PAGE + len <= PAGE && !r.Contains(a)
    ensures !(gpa <= a < gpa + len)
  {
    var off := gpa - r.start;
    assert off / PAGE < |r.pages|;
    assert off - off % PAGE + PAGE <= r.Size();
  }

  lemma SameFind(rs: seq<Region>, rs': seq<Region>, gpa: nat)
    requires |rs'| == |rs| && forall i | 0 <= i < |rs| :: rs'[i].start == rs[i].start && |rs'[i].pages| == |rs[i].pages|
    ensures Find(rs', gpa) == Find(rs, gpa)
  {
    SameFindFrom(rs, rs', gpa, 0);
  }

  lemma {:induction false} SameFindFrom(rs: seq<Region>, rs': seq<Region>, gpa: nat, i: nat)
    requires i <= |rs'| == |rs|
    requires forall j | 0 <= j < |rs| :: rs'[j].start == rs[j].start && |rs'[j].pages| == |rs[j].pages|
    ensures FindFrom(rs', gpa, i) == FindFrom(rs, gpa, i)
    decreases |rs| - i
  {
    if i < |rs| && !rs[i].Contains(gpa) {
      SameFindFrom(rs, rs', gpa, i + 1);
    }
  }

  /** Offset `x` lies in the chunk of `len` bytes at `off` exactly when it is in that page at that place. */
  lemma SamePage(off: nat, x: nat, len: nat)
    requires off % PAGE + len <= PAGE
    ensures off <= x < off + len <==> x / PAGE == off / PAGE && off % PAGE <= x % PAGE < off % PAGE + len
    ensures off <= x < off + len ==> x % PAGE - off % PAGE == x - off
  {
  }
}

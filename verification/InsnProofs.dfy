/** A successful decode accounts for every byte: the fields, put together again, are the instruction. */
module InsnProofs {
  import opened InsnTables
  import opened InsnDecoder

  /** The instruction bytes a field stands for. */
  function Raw(f: Field): seq<byte> {
    if f.nbytes <= 4 then f.bytes[..f.nbytes] else []
  }

  /** Everything after the legacy prefixes, put together again. */
  function Body(s: Insn): seq<byte> {
    Raw(s.rex) + Raw(s.vex) + Raw(s.opcode) + Raw(s.modrm) + Raw(s.sib) + Raw(s.disp) + Raw(s.imm1) + Raw(s.imm2)
  }

  function Sum(s: Insn): nat {
    s.emulate + s.prefixes.nbytes + s.rex.nbytes + s.vex.nbytes + s.opcode.nbytes + s.modrm.nbytes + s.sib.nbytes
    + s.disp.nbytes + s.imm1.nbytes + s.imm2.nbytes
  }

  predicate SmallFields(s: Insn) {
    && s.rex.nbytes <= 4 && s.vex.nbytes <= 4 && s.opcode.nbytes <= 4 && s.modrm.nbytes <= 4 && s.sib.nbytes <= 4
    && s.disp.nbytes <= 4 && s.imm1.nbytes <= 4 && s.imm2.nbytes <= 4
  }

  /** The bytes read so far are the fields filled so far. */
  ghost predicate Sound(buf: seq<byte>, s: Insn) {
    && s.emulate + s.prefixes.nbytes <= s.pos <= |buf|
    && SmallFields(s)
    && Body(s) == buf[s.emulate + s.prefixes.nbytes..s.pos]
  }

  /** The fields of stage `k` and later are still blank. */
  predicate Clean(k: nat, s: Insn) {
    && (k <= PREFIXES ==> s.rex == s.vex == BLANK && s.emulate == 0)
    && (k <= OPCODE ==> s.opcode == BLANK)
    && (k <= MODRM ==> s.modrm == BLANK)
    && (k <= SIB ==> s.sib == BLANK)
    && (k <= DISPLACEMENT ==> s.disp == BLANK)
    && (k <= IMMEDIATE ==> s.imm1 == s.imm2 == BLANK)
  }

  lemma SumIsPosition(buf: seq<byte>, s: Insn)
    requires Sound(buf, s)
    ensures Sum(s) == s.pos
  {
    assert |Body(s)| == s.pos - (s.emulate + s.prefixes.nbytes);
  }

  /** One step: the parts before, the new piece, and nothing after. */
  lemma Extended(buf: seq<byte>, s: Insn, s': Insn)
    requires Sound(buf, s) && SmallFields(s') && s'.emulate == s.emulate && s'.prefixes.nbytes == s.prefixes.nbytes
    requires s.pos <= s'.pos <= |buf| && Body(s') == Body(s) + buf[s.pos..s'.pos]
    ensures Sound(buf, s')
  {
    hide Body, SmallFields;
    Adjacent(buf, s.emulate + s.prefixes.nbytes, s.pos, s'.pos);
  }

  lemma Adjacent(buf: seq<byte>, a: nat, b: nat, c: nat)
    requires a <= b <= c <= |buf|
    ensures buf[a..b] + buf[b..c] == buf[a..c]
  {
  }

  // ---------------------------------------------------------------- prefixes

  ghost predicate ScanOk(buf: seq<byte>, start: nat, p: Scan) {
    && p.kept <= 4 && start <= p.pos <= |buf| && p.count == p.pos - start
    && (p.count > 0 ==> p.last == buf[p.pos - 1]) && (p.count == 0 ==> p.last == 0)
    && (forall b: byte :: b in buf[start..p.pos] <==> b in p.bytes[..p.kept])
    && (forall i | p.kept <= i < 4 :: p.bytes[i] == 0)
  }

  lemma ScanStep(buf: seq<byte>, start: nat, p: Scan, q: Scan)
    requires ScanOk(buf, start, p) && p.pos < |buf|
    requires var b := buf[p.pos];
             || (b in p.bytes[..p.kept] && q == Advance(p, b))
             || (p.kept < 4 && exists x64, a :: q == Advance(Keep(x64, p, b, a), b))
    ensures ScanOk(buf, start, q)
  {
    var b := buf[p.pos];
    assert buf[start..q.pos] == buf[start..p.pos] + [b];
    if q.kept != p.kept {
      assert q.bytes[..q.kept] == p.bytes[..p.kept] + [b];
    }
  }

  lemma {:induction false} ScanKeeps(t: Tables, buf: seq<byte>, x64: bool, start: nat, p: Scan)
    requires ScanOk(buf, start, p)
    ensures var r := ScanLegacy(t, buf, x64, p); r.Some? ==> ScanOk(buf, start, r.value) && p.pos <= r.value.pos < |buf|
    decreases |buf| - p.pos
  {
    hide ScanOk;
    ScanBounds(buf, start, p);
    if p.pos < |buf| {
      var b := buf[p.pos];
      if b in p.bytes[..p.kept] {
        ScanStep(buf, start, p, Advance(p, b));
        ScanKeeps(t, buf, x64, start, Advance(p, b));
      } else if p.kept < 4 {
        var q := Advance(Keep(x64, p, b, t.primary(b)), b);
        ScanStep(buf, start, p, q);
        ScanBounds(buf, start, q);
        ScanKeeps(t, buf, x64, start, q);
      }
    }
  }

  lemma ScanBounds(buf: seq<byte>, start: nat, p: Scan)
    requires ScanOk(buf, start, p)
    ensures p.kept <= 4 && start <= p.pos <= |buf| && p.count == p.pos - start
  {
  }

  /** The four prefix bytes hold exactly the distinct nonzero prefixes, the last one in byte 3. */
  ghost predicate PrefixBytes(buf: seq<byte>, start: nat, f: Field) {
    && start + f.nbytes <= |buf|
    && (forall b: byte | b != 0 :: b in f.bytes <==> b in buf[start..start + f.nbytes])
    && (f.nbytes > 0 && buf[start + f.nbytes - 1] != 0 ==> f.bytes[3] == buf[start + f.nbytes - 1])
  }

  lemma LastPrefix(buf: seq<byte>, start: nat, p: Scan)
    requires ScanOk(buf, start, p)
    ensures PrefixBytes(buf, start, Field(WithLast(p), p.count))
  {
    var q := WithLast(p);
    var seen := buf[start..p.pos];
    assert forall b: byte | b != 0 :: b in p.bytes <==> b in p.bytes[..p.kept];
    if p.last != 0 && p.last != p.bytes[3] {
      assert p.last == seen[|seen| - 1] && p.last in seen;
      if p.bytes[3] != 0 {
        SwapKeeps(p.bytes, p.last, q);
      } else {
        PutLast(p.bytes, p.last);
      }
    }
  }

  lemma PutLast(bytes: Quad, last: byte)
    requires bytes[3] == 0
    ensures forall b: byte | b != 0 :: b in bytes[3 := last] <==> b in bytes || b == last
  {
    var q := bytes[3 := last];
    assert q[3] == last;
    forall b: byte | b != 0 && b in bytes
      ensures b in q
    {
      var i :| 0 <= i < 4 && bytes[i] == b;
      assert q[i] == b;
    }
  }

  lemma SwapKeeps(bytes: Quad, last: byte, q: Quad)
    requires last in bytes && bytes[3] != last && q == Swapped(bytes, 4, last, bytes[3])[3 := last]
    ensures forall b: byte :: b in q <==> b in bytes
  {
    assert q[3] == last;
    forall b: byte
      ensures b in q <==> b in bytes
    {
      if b in bytes {
        var i :| 0 <= i < 4 && bytes[i] == b;
        var j :| 0 <= j < 4 && bytes[j] == last;
        assert i < 3 && b != last ==> q[i] == b;
        assert q[j] == bytes[3];
      }
    }
  }

  lemma VexBytes(buf: seq<byte>, s: Insn, a: Attr)
    ensures var r := VexStep(buf, s, a);
            r.Ok? && r.insn != s ==>
              && s.pos <= r.insn.pos <= |buf| && r.insn.vex.nbytes <= 4 && Raw(r.insn.vex) == buf[s.pos..r.insn.pos]
              && r.insn == s.(pos := r.insn.pos, vex := r.insn.vex, opnd := r.insn.opnd)
  {
  }

  lemma VexSound(buf: seq<byte>, s: Insn, a: Attr)
    requires Sound(buf, s) && s.vex == BLANK && Clean(OPCODE, s)
    ensures var r := VexStep(buf, s, a);
            r.Ok? ==>
              && Sound(buf, r.insn) && Clean(OPCODE, r.insn)
              && r.insn == s.(pos := r.insn.pos, vex := r.insn.vex, opnd := r.insn.opnd)
  {
    hide VexStep, Body, Raw;
    var r := VexStep(buf, s, a);
    VexBytes(buf, s, a);
    if r.Ok? && r.insn != s {
      RawBlank();
      HeadBody(s);
      HeadBody(r.insn);
      assert Raw(s.rex) + [] + [] == Raw(s.rex);
      assert Raw(s.rex) + Raw(r.insn.vex) + [] == Raw(s.rex) + Raw(r.insn.vex);
      Extended(buf, s, r.insn);
    }
  }

  lemma RexBytes(t: Tables, buf: seq<byte>, s: Insn)
    ensures var r := RexStep(t, buf, s);
            !r.RexFail? && r.insn != s ==>
              && s.pos <= r.insn.pos <= |buf| && r.insn.rex.nbytes <= 4 && Raw(r.insn.rex) == buf[s.pos..r.insn.pos]
              && r.insn == s.(pos := r.insn.pos, rex := r.insn.rex, opnd := r.insn.opnd)
  {
  }

  /** With nothing but REX there is nothing else in the body. */
  lemma RexBody(s: Insn)
    requires s.vex == BLANK && Clean(OPCODE, s)
    ensures Body(s) == Raw(s.rex)
  {
    hide Raw;
    RawBlank();
    HeadBody(s);
  }

  lemma RexSound(t: Tables, buf: seq<byte>, s: Insn)
    requires Sound(buf, s) && s.rex == s.vex == BLANK && Clean(OPCODE, s)
    ensures var r := RexStep(t, buf, s);
            !r.RexFail? ==>
              && Sound(buf, r.insn) && r.insn.vex == BLANK && Clean(OPCODE, r.insn)
              && r.insn == s.(pos := r.insn.pos, rex := r.insn.rex, opnd := r.insn.opnd)
  {
    hide RexStep, Body, Raw;
    var r := RexStep(t, buf, s);
    RexBytes(t, buf, s);
    if !r.RexFail? && r.insn != s {
      RexBody(s);
      RexBody(r.insn);
      RawBlank();
      Extended(buf, s, r.insn);
    }
  }

  lemma StartScanOk(buf: seq<byte>, s: Insn)
    requires s.pos == 0 && s.prefixes == BLANK
    ensures ScanOk(buf, EmulateSize(buf, 0), StartScan(s, buf))
  {
  }

  lemma PrefixesSound(t: Tables, buf: seq<byte>, s: Insn)
    requires s.pos == 0 && s.prefixes == BLANK && Clean(PREFIXES, s)
    ensures var r := GetPrefixes(t, buf, s);
            r.Ok? ==>
              && Sound(buf, r.insn) && Clean(OPCODE, r.insn) && r.insn.emulate == EmulateSize(buf, 0)
              && PrefixBytes(buf, r.insn.emulate, r.insn.prefixes)
  {
    hide VexStep, RexStep, WithLast, Sound, PrefixBytes, ScanOk;
    var p0 := StartScan(s, buf);
    StartScanOk(buf, s);
    ScanKeeps(t, buf, s.x64, p0.pos, p0);
    var scan := ScanLegacy(t, buf, s.x64, p0);
    if scan.Some? {
      LastPrefix(buf, p0.pos, scan.value);
      var s1 := AfterScan(s, buf, scan.value);
      ScanBounds(buf, p0.pos, scan.value);
      NothingYet(buf, s1);
      RexSound(t, buf, s1);
      var r := RexStep(t, buf, s1);
      if r.TryVex? {
        VexSound(buf, r.insn, r.attr);
      }
    }
  }

  lemma NothingYet(buf: seq<byte>, s: Insn)
    requires s.rex == s.vex == BLANK && Clean(OPCODE, s) && s.pos == s.emulate + s.prefixes.nbytes <= |buf|
    ensures Sound(buf, s)
  {
  }

  // ---------------------------------------------------------------- later stages

  lemma {:induction false} EscapesSound(t: Tables, buf: seq<byte>, s: Insn)
    requires Sound(buf, s) && Clean(MODRM, s)
    ensures var r := Escapes(t, buf, s);
            r.Ok? ==>
              && Sound(buf, r.insn)
              && r.insn == s.(pos := r.insn.pos, opcode := r.insn.opcode, attr := r.insn.attr)
    decreases |buf| - s.pos
  {
    hide EscapeAttr, PrefixId, Sound;
    if IsEscape(s.attr) && s.pos < |buf| && s.opcode.nbytes < 4 {
      var a := EscapeAttr(t, buf[s.pos], PrefixId(t, s), s.attr);
      OpcodeAppended(buf, s, a);
      EscapesSound(t, buf, WithOpcode(s, buf[s.pos], a));
    }
  }

  /** The structure after one more opcode byte. */
  function WithOpcode(s: Insn, op: byte, a: Attr): Insn
    requires s.opcode.nbytes < 4
  {
    s.(pos := s.pos + 1, opcode := Field(s.opcode.bytes[s.opcode.nbytes := op], s.opcode.nbytes + 1), attr := a)
  }

  /** Up to the opcode the later fields add nothing. */
  lemma HeadBody(s: Insn)
    requires Clean(MODRM, s)
    ensures Body(s) == Raw(s.rex) + Raw(s.vex) + Raw(s.opcode)
  {
    RawBlank();
    DropEmpty(Raw(s.rex) + Raw(s.vex) + Raw(s.opcode));
  }

  lemma RawBlank()
    ensures Raw(BLANK) == []
  {
  }

  lemma DropEmpty(x: seq<byte>)
    ensures x + [] + [] + [] + [] + [] == x
  {
  }

  lemma RawAppended(f: Field, op: byte)
    requires f.nbytes < 4
    ensures Raw(Field(f.bytes[f.nbytes := op], f.nbytes + 1)) == Raw(f) + [op]
  {
  }

  lemma Reassociate(x: seq<byte>, y: seq<byte>, z: seq<byte>)
    ensures x + (y + z) == x + y + z
  {
  }

  lemma OpcodeAppended(buf: seq<byte>, s: Insn, a: Attr)
    requires Sound(buf, s) && Clean(MODRM, s) && s.pos < |buf| && s.opcode.nbytes < 4
    ensures Sound(buf, WithOpcode(s, buf[s.pos], a))
  {
    hide Body, Raw;
    var s' := WithOpcode(s, buf[s.pos], a);
    HeadBody(s);
    HeadBody(s');
    RawAppended(s.opcode, buf[s.pos]);
    Reassociate(Raw(s.rex) + Raw(s.vex), Raw(s.opcode), [buf[s.pos]]);
    OneByte(buf, s.pos);
    Extended(buf, s, s');
  }

  lemma OneByte(buf: seq<byte>, pos: nat)
    requires pos < |buf|
    ensures buf[pos..pos + 1] == [buf[pos]]
  {
  }

  lemma FirstByteSound(buf: seq<byte>, s: Insn)
    requires Sound(buf, s) && Clean(OPCODE, s) && s.pos < |buf|
    ensures Sound(buf, FirstByte(buf, s))
  {
    var s' := FirstByte(buf, s);
    assert Body(s') == Body(s) + buf[s.pos..s'.pos];
    Extended(buf, s, s');
  }

  lemma SameBody(buf: seq<byte>, s: Insn, s': Insn)
    requires Sound(buf, s) && s' == s.(attr := s'.attr, opnd := s'.opnd, got := s'.got, length := s'.length)
    ensures Sound(buf, s')
  {
    assert Body(s') == Body(s);
  }

  /** What every stage but the first promises: sound in, sound out, and only its own field is filled. */
  ghost predicate StagePromise(k: nat, buf: seq<byte>, s: Insn, r: Outcome) {
    r.Ok? ==>
      && Sound(buf, r.insn) && Clean(k + 1, r.insn)
      && r.insn.emulate == s.emulate && r.insn.prefixes == s.prefixes && r.insn.got == s.got
      && r.insn.length == s.length
      && s.pos <= r.insn.pos
  }

  lemma OpcodeSound(t: Tables, buf: seq<byte>, s: Insn)
    requires Sound(buf, s) && Clean(OPCODE, s)
    ensures StagePromise(OPCODE, buf, s, GetOpcode(t, buf, s))
    ensures GetOpcode(t, buf, s).Ok? ==> GetOpcode(t, buf, s).insn.pos > s.pos
  {
    hide Sound, Escapes, EscapeAttr, AvxAttr, XopAttr, PrefixId, FirstAttr;
    if s.pos < |buf| {
      var s1 := FirstByte(buf, s);
      FirstByteSound(buf, s);
      var r := GetOpcode(t, buf, s);
      var s2 := s1.(attr := FirstAttr(t, s.x64, buf[s.pos]));
      SameBody(buf, s1, s2);
      EscapesSound(t, buf, s2);
      EscapesAdvance(t, buf, s2);
      if r.Ok? && (IsAvxOrXop(s1) || s1.rex.nbytes == 2) {
        SameBody(buf, s1, r.insn);
      }
    }
  }

  lemma {:induction false} EscapesAdvance(t: Tables, buf: seq<byte>, s: Insn)
    ensures var r := Escapes(t, buf, s); r.Ok? ==> r.insn.pos >= s.pos + (if IsEscape(s.attr) then 1 else 0)
    decreases |buf| - s.pos
  {
    if IsEscape(s.attr) && s.pos < |buf| && s.opcode.nbytes < 4 {
      var op := buf[s.pos];
      EscapesAdvance(t, buf, WithOpcode(s, op, EscapeAttr(t, op, PrefixId(t, s), s.attr)));
    }
  }

  lemma ModrmSound(t: Tables, buf: seq<byte>, s: Insn)
    requires Sound(buf, s) && Clean(MODRM, s)
    ensures StagePromise(MODRM, buf, s, GetModrm(t, buf, s))
  {
    hide Sound, GroupAttr, PrefixId;
    var r := GetModrm(t, buf, s);
    if r.Ok? {
      if s.attr.modrm {
        var s' := s.(modrm := Field([buf[s.pos], 0, 0, 0], 1), pos := s.pos + 1);
        ModrmAppended(buf, s);
        SameBody(buf, s', r.insn);
      } else {
        SameBody(buf, s, r.insn);
      }
    }
  }

  lemma ModrmAppended(buf: seq<byte>, s: Insn)
    requires Sound(buf, s) && Clean(MODRM, s) && s.pos < |buf|
    ensures Sound(buf, s.(modrm := Field([buf[s.pos], 0, 0, 0], 1), pos := s.pos + 1))
  {
    var s' := s.(modrm := Field([buf[s.pos], 0, 0, 0], 1), pos := s.pos + 1);
    assert Body(s') == Body(s) + buf[s.pos..s'.pos];
    Extended(buf, s, s');
  }

  lemma SibSound(buf: seq<byte>, s: Insn)
    requires Sound(buf, s) && Clean(SIB, s)
    ensures StagePromise(SIB, buf, s, GetSib(buf, s))
  {
    var r := GetSib(buf, s);
    if r.Ok? && r.insn != s {
      assert Body(r.insn) == Body(s) + buf[s.pos..r.insn.pos];
      Extended(buf, s, r.insn);
    }
  }

  lemma WidenedRaw(buf: seq<byte>, pos: nat, n: nat, signed: bool)
    requires 1 <= n <= 4 && pos + n <= |buf|
    ensures Raw(Field(Widened(buf, pos, n, signed), n)) == buf[pos..pos + n]
  {
  }

  lemma DisplacementSound(buf: seq<byte>, s: Insn)
    requires Sound(buf, s) && Clean(DISPLACEMENT, s)
    ensures StagePromise(DISPLACEMENT, buf, s, GetDisplacement(buf, s))
  {
    hide DispSize, Widened;
    var r := GetDisplacement(buf, s);
    if r.Ok? && r.insn != s {
      WidenedRaw(buf, s.pos, DispSize(s), true);
      assert Body(r.insn) == Body(s) + buf[s.pos..r.insn.pos];
      Extended(buf, s, r.insn);
    }
  }

  lemma Take1Sound(buf: seq<byte>, s: Insn, n: nat)
    requires Sound(buf, s) && 1 <= n <= 4 && s.imm1 == s.imm2 == BLANK
    ensures var r := Take1(buf, s, n);
            r.Ok? ==> Sound(buf, r.insn) && r.insn == s.(imm1 := r.insn.imm1, pos := s.pos + n)
  {
    hide Widened;
    var r := Take1(buf, s, n);
    if r.Ok? {
      WidenedRaw(buf, s.pos, n, true);
      assert Body(r.insn) == Body(s) + buf[s.pos..r.insn.pos];
      Extended(buf, s, r.insn);
    }
  }

  lemma Take2Sound(buf: seq<byte>, s: Insn, n: nat, signed: bool)
    requires Sound(buf, s) && 1 <= n <= 4 && s.imm2 == BLANK
    ensures var r := Take2(buf, s, n, signed);
            r.Ok? ==>
              && Sound(buf, r.insn) && r.insn.imm2.nbytes == n
              && r.insn == s.(imm2 := r.insn.imm2, pos := s.pos + n)
  {
    hide Widened;
    var r := Take2(buf, s, n, signed);
    if r.Ok? {
      WidenedRaw(buf, s.pos, n, signed);
      assert Body(r.insn) == Body(s) + buf[s.pos..r.insn.pos];
      Extended(buf, s, r.insn);
    }
  }

  lemma TakeBothSound(buf: seq<byte>, s: Insn, n1: nat, n2: nat, signed: bool)
    requires Sound(buf, s) && 1 <= n1 <= 4 && 1 <= n2 <= 4 && s.imm1 == s.imm2 == BLANK
    ensures var r := TakeBoth(buf, s, n1, n2, signed);
            r.Ok? ==>
              && Sound(buf, r.insn) && r.insn == s.(imm1 := r.insn.imm1, imm2 := r.insn.imm2, pos := s.pos + n1 + n2)
              && r.insn.imm2.nbytes == n2
  {
    hide Sound, Widened;
    Take1Sound(buf, s, n1);
    var r := Take1(buf, s, n1);
    if r.Ok? {
      Take2Sound(buf, r.insn, n2, signed);
    }
  }

  /** Does the first immediate of this instruction occupy both immediate fields? */
  predicate TakesBothFields(s: Insn) {
    s.attr.imm == 4 || s.attr.imm == 5 || (s.attr.imm == 7 && s.opnd == 8)
  }

  lemma FirstImmediateSound(buf: seq<byte>, s: Insn)
    requires Sound(buf, s) && Clean(IMMEDIATE, s) && s.attr.imm != 0
    ensures var r := FirstImmediate(buf, s);
            r.Ok? ==>
              && Sound(buf, r.insn) && r.insn == s.(imm1 := r.insn.imm1, imm2 := r.insn.imm2, pos := r.insn.pos)
              && s.pos <= r.insn.pos && (TakesBothFields(s) ==> r.insn.imm2.nbytes > 0)
              && (!TakesBothFields(s) ==> r.insn.imm2 == BLANK)
  {
    hide Sound, Take1, TakeBoth;
    Take1Sound(buf, s, 1);
    Take1Sound(buf, s, 2);
    Take1Sound(buf, s, 4);
    TakeBothSound(buf, s, 4, 4, true);
    TakeBothSound(buf, s, 2, 2, false);
    TakeBothSound(buf, s, 4, 2, false);
  }

  /** The second immediate of this instruction replaces bytes the first one already put there. */
  predicate LosesBytes(s: Insn) {
    !s.attr.moffset && s.attr.imm != 0 && s.attr.secondImm && TakesBothFields(s)
  }

  lemma ImmediateSound(buf: seq<byte>, s: Insn)
    requires Sound(buf, s) && Clean(IMMEDIATE, s)
    ensures var r := GetImmediate(buf, s);
            r.Ok? ==>
              && r.insn == s.(imm1 := r.insn.imm1, imm2 := r.insn.imm2, pos := r.insn.pos)
              && s.pos <= r.insn.pos <= |buf|
              && (!LosesBytes(s) ==> Sound(buf, r.insn))
              && (LosesBytes(s) ==> Sum(r.insn) < r.insn.pos)
  {
    hide Sound, Take1, TakeBoth, FirstImmediate;
    Take1Sound(buf, s, 2);
    Take1Sound(buf, s, 4);
    TakeBothSound(buf, s, 4, 4, true);
    var r := GetImmediate(buf, s);
    if r.Ok? {
      SoundFits(buf, s);
      if !s.attr.moffset && s.attr.imm != 0 {
        FirstImmediateSound(buf, s);
        var s1 := FirstImmediate(buf, s).insn;
        SumIsPosition(buf, s1);
        SoundFits(buf, s1);
        if s.attr.secondImm && !TakesBothFields(s) {
          Take2Sound(buf, s1, 1, true);
        }
      }
      if !LosesBytes(s) {
        SoundFits(buf, r.insn);
      }
    }
  }

  lemma SoundFits(buf: seq<byte>, s: Insn)
    requires Sound(buf, s)
    ensures s.pos <= |buf|
  {
  }

  // ---------------------------------------------------------------- the whole decode

  /** The stages done so far, always a first part of the six. */
  function Upto(k: nat): (r: set<nat>)
    ensures forall i: nat :: i in r <==> i < k
  {
    if k == 0 then {} else Upto(k - 1) + {k - 1}
  }

  /** A structure on which the first `k` stages were done. */
  ghost predicate Reached(k: nat, buf: seq<byte>, s: Insn) {
    && s.got == Upto(k) && s.length == 0 && Clean(k, s)
    && (k == 0 ==> s.pos == 0 && s.prefixes == BLANK)
    && (k > 0 ==> Sound(buf, s) && s.emulate == EmulateSize(buf, 0) && PrefixBytes(buf, s.emulate, s.prefixes))
    && (k >= 2 ==> s.pos > 0)
  }

  lemma StageReaches(k: nat, t: Tables, buf: seq<byte>, s: Insn)
    requires k < IMMEDIATE && Reached(k, buf, s)
    ensures var r := Stage(k, t, buf, s);
            r.Ok? ==> Reached(k + 1, buf, r.insn.(got := r.insn.got + {k})) && s.pos <= r.insn.pos
  {
    hide Sound, PrefixBytes, GetPrefixes, GetOpcode, GetModrm, GetSib, GetDisplacement, EmulateSize;
    var r := Stage(k, t, buf, s);
    if r.Ok? {
      var s' := r.insn.(got := r.insn.got + {k});
      match k {
        case 0 => PrefixesSound(t, buf, s); PrefixesKeep(t, buf, s);
        case 1 => OpcodeSound(t, buf, s);
        case 2 => ModrmSound(t, buf, s);
        case 3 => SibSound(buf, s);
        case 4 => DisplacementSound(buf, s);
      }
      SameBody(buf, r.insn, s');
      assert Upto(k + 1) == Upto(k) + {k};
    }
  }

  lemma PrefixesKeep(t: Tables, buf: seq<byte>, s: Insn)
    ensures var r := GetPrefixes(t, buf, s); r.Ok? ==> r.insn.got == s.got && r.insn.length == s.length
  {
    hide ScanLegacy, WithLast, EmulateSize;
  }

  lemma {:induction false} GetReaches(k: nat, t: Tables, buf: seq<byte>, s: Insn)
    requires k < IMMEDIATE && Reached(0, buf, s)
    ensures var r := Get(k, t, buf, s); r.Ok? ==> Reached(k + 1, buf, r.insn)
    decreases k
  {
    hide Reached, Stage;
    NothingGot(buf, s);
    if k == 0 {
      StageReaches(0, t, buf, s);
    } else {
      GetReaches(k - 1, t, buf, s);
      var r := Get(k - 1, t, buf, s);
      if r.Ok? {
        StageReaches(k, t, buf, r.insn);
      }
    }
  }

  lemma NothingGot(buf: seq<byte>, s: Insn)
    requires Reached(0, buf, s)
    ensures s.got == {}
  {
  }

  lemma InitReached(buf: seq<byte>, x64: bool)
    ensures Reached(0, buf, Init(x64))
  {
  }

  /** What a successful decode of a window `w` has to satisfy. */
  ghost predicate Accounted(w: seq<byte>, s: Insn) {
    var start := s.emulate + s.prefixes.nbytes;
    && s.length == s.pos && 0 < s.length <= |w|
    && s.emulate == EmulateSize(w, 0) && PrefixBytes(w, s.emulate, s.prefixes)
    && (!LosesBytes(s) ==> SmallFields(s) && start <= s.length && Body(s) == w[start..s.length] && Sum(s) == s.length)
    && (LosesBytes(s) ==> Sum(s) < s.length)
  }

  /** Every successful decode has a length from 1 to min(15, buffer), and its fields put together are
      exactly its bytes, unless a second immediate replaced the other half of a two-part first one: the
      field sizes add up to the length if and only if that did not happen. */
  lemma DecodeAccounts(t: Tables, buf: seq<byte>, x64: bool)
    ensures var r := Decode(t, buf, x64);
            r.Ok? ==> Accounted(Window(buf), r.insn) && (Sum(r.insn) == r.insn.length <==> !LosesBytes(r.insn))
  {
    hide Stage, Sound, PrefixBytes, EmulateSize, Complete, Body, Sum, Reached;
    var w := Window(buf);
    var s := Init(x64);
    InitReached(w, x64);
    NothingGot(w, s);
    GetReaches(DISPLACEMENT, t, w, s);
    var r := Get(DISPLACEMENT, t, w, s);
    if r.Ok? && Stage(IMMEDIATE, t, w, r.insn).Ok? {
      LastStage(t, w, r.insn);
    }
  }

  lemma LastStage(t: Tables, w: seq<byte>, s: Insn)
    requires Reached(IMMEDIATE, w, s) && Stage(IMMEDIATE, t, w, s).Ok? && |w| <= MAX_INSN_SIZE
    ensures var r := Stage(IMMEDIATE, t, w, s).insn;
            var r' := r.(got := r.got + {IMMEDIATE});
            Accounted(w, r'.(length := r'.pos % 256)) && s.pos <= r.pos && r.attr == s.attr
  {
    hide PrefixBytes, EmulateSize, GetImmediate, Body, Sum, Sound, LosesBytes;
    ImmediateSound(w, s);
    var r := GetImmediate(w, s).insn;
    var r' := r.(got := r.got + {IMMEDIATE}, length := r.pos % 256);
    SameLoss(s, r');
    SameSum(r, r');
    if !LosesBytes(s) {
      SameBody(w, r, r');
      SumIsPosition(w, r');
      SoundBody(w, r');
    }
  }

  lemma SoundBody(w: seq<byte>, s: Insn)
    requires Sound(w, s)
    ensures s.emulate + s.prefixes.nbytes <= s.pos <= |w| && SmallFields(s)
    ensures Body(s) == w[s.emulate + s.prefixes.nbytes..s.pos]
  {
  }

  lemma SameLoss(s: Insn, r: Insn)
    requires r.attr == s.attr && r.opnd == s.opnd
    ensures LosesBytes(r) == LosesBytes(s)
  {
  }

  lemma SameSum(s: Insn, r: Insn)
    requires r == s.(got := r.got, length := r.length)
    ensures Sum(r) == Sum(s)
  {
  }
}

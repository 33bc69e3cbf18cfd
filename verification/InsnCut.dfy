/** How a decode depends on its buffer: cutting the buffer anywhere behind the instruction changes nothing,
    bytes added behind it matter only through an emulate prefix, and the getters may be called in any order.
*/
module InsnCut {
  import opened InsnTables
  import opened InsnDecoder
  import opened InsnProofs

  // ---------------------------------------------------------------- one buffer inside another

  lemma {:induction false} ScanCut(t: Tables, buf: seq<byte>, x64: bool, p: Scan, n: nat)
    requires p.kept <= 4 && n <= |buf| && p.pos <= |buf|
    requires var r := ScanLegacy(t, buf, x64, p); r.Some? && r.value.pos < n
    ensures p.pos <= ScanLegacy(t, buf, x64, p).value.pos
    ensures ScanLegacy(t, buf[..n], x64, p) == ScanLegacy(t, buf, x64, p)
    decreases |buf| - p.pos
  {
    var b := buf[p.pos];
    var a := t.primary(b);
    if IsLegacyPrefix(a) {
      if b in p.bytes[..p.kept] {
        ScanCut(t, buf, x64, Advance(p, b), n);
      } else if p.kept < 4 {
        ScanCut(t, buf, x64, Advance(Keep(x64, p, b, a), b), n);
      }
    }
    assert p.pos < n ==> buf[..n][p.pos] == b;
  }

  lemma {:induction false} ScanExtend(t: Tables, buf: seq<byte>, x64: bool, p: Scan, n: nat)
    requires p.kept <= 4 && n <= |buf| && p.pos <= n && ScanLegacy(t, buf[..n], x64, p).Some?
    ensures ScanLegacy(t, buf, x64, p) == ScanLegacy(t, buf[..n], x64, p)
    ensures p.pos <= ScanLegacy(t, buf, x64, p).value.pos < n
    decreases n - p.pos
  {
    var b := buf[p.pos];
    var a := t.primary(b);
    if IsLegacyPrefix(a) {
      if b in p.bytes[..p.kept] {
        ScanExtend(t, buf, x64, Advance(p, b), n);
      } else if p.kept < 4 {
        ScanExtend(t, buf, x64, Advance(Keep(x64, p, b, a), b), n);
      }
    }
  }

  /** The prefix stage also looks at the byte behind a VEX or XOP byte that turns out to be an opcode. */
  predicate LooksFurther(t: Tables, buf: seq<byte>, r: Insn) {
    && r.pos < |buf| && r.rex == BLANK && r.vex == BLANK
    && (IsXop(t.primary(buf[r.pos])) || (!r.x64 && IsVex(t.primary(buf[r.pos]))))
  }

  lemma RexCut(t: Tables, buf: seq<byte>, s: Insn, n: nat)
    requires var r := RexStep(t, buf, s); !r.RexFail? && (r.insn.pos < n || (r.SkipVex? && r.insn.pos <= n))
    requires n <= |buf|
    ensures RexStep(t, buf[..n], s) == RexStep(t, buf, s) && s.pos <= RexStep(t, buf, s).insn.pos
  {
  }

  lemma VexCut(t: Tables, buf: seq<byte>, s: Insn, a: Attr, n: nat)
    requires n <= |buf| && s.vex == BLANK
    requires var r := VexStep(buf, s, a); r.Ok? && r.insn.pos < n
    requires s.pos < |buf| && (IsVex(a) || IsXop(a) ==> a == t.primary(buf[s.pos]) && s.rex == BLANK)
    requires LooksFurther(t, buf, VexStep(buf, s, a).insn) ==> VexStep(buf, s, a).insn.pos + 1 < n
    ensures VexStep(buf[..n], s, a) == VexStep(buf, s, a) && s.pos <= VexStep(buf, s, a).insn.pos
  {
  }

  /** An attribute that counts as VEX or XOP after the REX step belongs to the byte at hand. */
  lemma RexAttr(t: Tables, buf: seq<byte>, s: Insn)
    requires s.rex == s.vex == BLANK
    ensures var r := RexStep(t, buf, s);
            r.TryVex? ==>
              && r.insn.vex == BLANK && s.pos <= r.insn.pos
              && (IsVex(r.attr) || IsXop(r.attr) ==>
                    r.insn.pos < |buf| && r.attr == t.primary(buf[r.insn.pos]) && r.insn.rex == BLANK)
    ensures RexStep(t, buf, s).SkipVex? ==> RexStep(t, buf, s).insn.rex.nbytes == 2
  {
  }

  lemma VexNext(buf: seq<byte>, s: Insn, a: Attr)
    ensures VexStep(buf, s, a).Ok? ==> s.pos < |buf| && s.pos <= VexStep(buf, s, a).insn.pos
  {
  }

  lemma EmulateCut(buf: seq<byte>, n: nat)
    requires n <= |buf| && EmulateSize(buf, 0) <= n
    ensures EmulateSize(buf[..n], 0) == EmulateSize(buf, 0)
  {
    assert n >= 5 ==> buf[..n][0..5] == buf[0..5];
  }

  lemma PrefixesCut(t: Tables, buf: seq<byte>, s: Insn, n: nat)
    requires n <= |buf| && s.pos == 0 && s.prefixes == BLANK && Clean(PREFIXES, s)
    requires var r := GetPrefixes(t, buf, s); r.Ok? && r.insn.pos < n
    requires LooksFurther(t, buf, GetPrefixes(t, buf, s).insn) ==> GetPrefixes(t, buf, s).insn.pos + 1 < n
    ensures GetPrefixes(t, buf[..n], s) == GetPrefixes(t, buf, s)
  {
    hide VexStep, RexStep, EmulateSize, WithLast, LooksFurther, ScanLegacy;
    var p0 := StartScan(s, buf);
    StartScanFits(buf, s);
    var p := ScanLegacy(t, buf, s.x64, p0).value;
    ScanAhead(t, buf, s.x64, p0);
    var s1 := AfterScan(s, buf, p);
    var x := RexStep(t, buf, s1);
    RexAttr(t, buf, s1);
    RexAhead(t, buf, s1);
    if x.TryVex? {
      VexNext(buf, x.insn, x.attr);
      VexCut(t, buf, x.insn, x.attr, n);
    }
    RexCut(t, buf, s1, n);
    EmulateCut(buf, n);
    ScanCut(t, buf, s.x64, p0, n);
    assert StartScan(s, buf[..n]) == p0 && AfterScan(s, buf[..n], p) == s1;
  }

  lemma StartScanFits(buf: seq<byte>, s: Insn)
    requires s.pos == 0
    ensures StartScan(s, buf).pos == EmulateSize(buf, 0) <= |buf|
  {
  }

  lemma {:induction false} ScanAhead(t: Tables, buf: seq<byte>, x64: bool, p: Scan)
    requires p.kept <= 4
    ensures ScanLegacy(t, buf, x64, p).Some? ==> p.pos <= ScanLegacy(t, buf, x64, p).value.pos
    decreases |buf| - p.pos
  {
    if p.pos < |buf| {
      var b := buf[p.pos];
      if b in p.bytes[..p.kept] {
        ScanAhead(t, buf, x64, Advance(p, b));
      } else if p.kept < 4 {
        ScanAhead(t, buf, x64, Advance(Keep(x64, p, b, t.primary(b)), b));
      }
    }
  }

  lemma RexAhead(t: Tables, buf: seq<byte>, s: Insn)
    ensures !RexStep(t, buf, s).RexFail? ==> s.pos <= RexStep(t, buf, s).insn.pos
  {
  }

  lemma PrefixesExtend(t: Tables, buf: seq<byte>, s: Insn, n: nat)
    requires n <= |buf| && s.pos == 0 && s.prefixes == BLANK && Clean(PREFIXES, s)
    requires GetPrefixes(t, buf[..n], s).Ok? && EmulateSize(buf[..n], 0) == EmulateSize(buf, 0)
    ensures GetPrefixes(t, buf, s) == GetPrefixes(t, buf[..n], s)
  {
    hide EmulateSize, WithLast, ScanLegacy, VexStep, RexStep;
    var p0 := StartScan(s, buf);
    StartScanFits(buf[..n], s);
    assert StartScan(s, buf[..n]) == p0;
    ScanExtend(t, buf, s.x64, p0, n);
    var p := ScanLegacy(t, buf[..n], s.x64, p0).value;
    var s1 := AfterScan(s, buf, p);
    assert AfterScan(s, buf[..n], p) == s1;
    RexExtend(t, buf, s1, n);
    var x := RexStep(t, buf[..n], s1);
    if x.TryVex? {
      VexExtend(buf, x.insn, x.attr, n);
    }
  }

  /** Where the prefix stage looks one byte further, that byte was there. */
  lemma LookedAt(t: Tables, buf: seq<byte>, s: Insn)
    requires s.pos == 0 && s.prefixes == BLANK && Clean(PREFIXES, s) && GetPrefixes(t, buf, s).Ok?
    requires LooksFurther(t, buf, GetPrefixes(t, buf, s).insn)
    ensures GetPrefixes(t, buf, s).insn.pos + 1 < |buf|
  {
    hide EmulateSize, WithLast, ScanLegacy;
  }

  /** A cut between the two bytes makes the prefix stage fail. */
  lemma PrefixesCutShort(t: Tables, buf: seq<byte>, s: Insn)
    requires s.pos == 0 && s.prefixes == BLANK && Clean(PREFIXES, s) && GetPrefixes(t, buf, s).Ok?
    requires LooksFurther(t, buf, GetPrefixes(t, buf, s).insn)
    ensures GetPrefixes(t, buf[..GetPrefixes(t, buf, s).insn.pos + 1], s) == Fail(ENODATA)
  {
    hide GetPrefixes, EmulateSize;
    var p := GetPrefixes(t, buf, s).insn;
    var cut := buf[..p.pos + 1];
    BehindEmulate(t, buf, s);
    EmulateCut(buf, p.pos + 1);
    if GetPrefixes(t, cut, s).Ok? {
      PrefixesExtend(t, buf, s, p.pos + 1);
      LookedAt(t, cut, s);
    } else {
      OnlyNoData(t, cut, s);
    }
  }

  lemma BehindEmulate(t: Tables, buf: seq<byte>, s: Insn)
    requires s.pos == 0 && s.prefixes == BLANK && GetPrefixes(t, buf, s).Ok?
    ensures EmulateSize(buf, 0) <= GetPrefixes(t, buf, s).insn.pos
  {
    hide VexStep, RexStep, EmulateSize, WithLast, ScanLegacy;
    var p0 := StartScan(s, buf);
    ScanAhead(t, buf, s.x64, p0);
    var s1 := AfterScan(s, buf, ScanLegacy(t, buf, s.x64, p0).value);
    RexAhead(t, buf, s1);
    var x := RexStep(t, buf, s1);
    if x.TryVex? {
      VexNext(buf, x.insn, x.attr);
    }
  }

  lemma OnlyNoData(t: Tables, buf: seq<byte>, s: Insn)
    requires GetPrefixes(t, buf, s).Fail?
    ensures GetPrefixes(t, buf, s) == Fail(ENODATA)
  {
    hide RexStep, EmulateSize, WithLast, ScanLegacy;
  }

  lemma RexExtend(t: Tables, buf: seq<byte>, s: Insn, n: nat)
    requires n <= |buf| && !RexStep(t, buf[..n], s).RexFail?
    ensures RexStep(t, buf, s) == RexStep(t, buf[..n], s)
  {
  }

  lemma VexExtend(buf: seq<byte>, s: Insn, a: Attr, n: nat)
    requires n <= |buf| && VexStep(buf[..n], s, a).Ok?
    ensures VexStep(buf, s, a) == VexStep(buf[..n], s, a)
  {
  }

  // ---------------------------------------------------------------- the other stages

  lemma {:induction false} EscapesCut(t: Tables, buf: seq<byte>, s: Insn, n: nat)
    requires n <= |buf| && Escapes(t, buf, s).Ok? && Escapes(t, buf, s).insn.pos <= n
    ensures Escapes(t, buf[..n], s) == Escapes(t, buf, s)
    decreases |buf| - s.pos
  {
    hide EscapeAttr, PrefixId;
    if IsEscape(s.attr) && s.pos < |buf| && s.opcode.nbytes < 4 {
      var op := buf[s.pos];
      var s' := s.(pos := s.pos + 1, opcode := Field(s.opcode.bytes[s.opcode.nbytes := op], s.opcode.nbytes + 1),
                   attr := EscapeAttr(t, op, PrefixId(t, s), s.attr));
      EscapesAdvance(t, buf, s');
      EscapesCut(t, buf, s', n);
      assert buf[..n][s.pos] == op;
    }
  }

  lemma {:induction false} EscapesExtend(t: Tables, buf: seq<byte>, s: Insn, n: nat)
    requires n <= |buf| && Escapes(t, buf[..n], s).Ok?
    ensures Escapes(t, buf, s) == Escapes(t, buf[..n], s)
    decreases n - s.pos
  {
    hide EscapeAttr, PrefixId;
    if IsEscape(s.attr) && s.pos < n && s.opcode.nbytes < 4 {
      var op := buf[s.pos];
      EscapesExtend(t, buf, WithOpcode(s, op, EscapeAttr(t, op, PrefixId(t, s), s.attr)), n);
    }
  }

  lemma OpcodeCut(t: Tables, buf: seq<byte>, s: Insn, n: nat)
    requires n <= |buf| && GetOpcode(t, buf, s).Ok? && GetOpcode(t, buf, s).insn.pos <= n
    ensures GetOpcode(t, buf[..n], s) == GetOpcode(t, buf, s) && s.pos < GetOpcode(t, buf, s).insn.pos
  {
    hide Escapes, EscapeAttr, PrefixId, FirstAttr, AvxAttr, XopAttr;
    var s1 := FirstByte(buf, s);
    var s2 := s1.(attr := FirstAttr(t, s.x64, buf[s.pos]));
    EscapesAdvance(t, buf, s2);
    if !IsAvxOrXop(s1) && s1.rex.nbytes != 2 {
      EscapesCut(t, buf, s2, n);
    }
    assert s.pos < n && buf[..n][s.pos] == buf[s.pos];
  }

  lemma OpcodeExtend(t: Tables, buf: seq<byte>, s: Insn, n: nat)
    requires n <= |buf| && GetOpcode(t, buf[..n], s).Ok?
    ensures GetOpcode(t, buf, s) == GetOpcode(t, buf[..n], s)
  {
    hide Escapes, EscapeAttr, PrefixId, FirstAttr, AvxAttr, XopAttr;
    var s1 := FirstByte(buf, s);
    assert FirstByte(buf[..n], s) == s1;
    if !IsAvxOrXop(s1) && s1.rex.nbytes != 2 {
      EscapesExtend(t, buf, s1.(attr := FirstAttr(t, s.x64, buf[s.pos])), n);
    }
  }

  /** The `n` bytes at `pos` are the same in both buffers. */
  lemma WidenedCut(buf: seq<byte>, pos: nat, k: nat, signed: bool, n: nat)
    requires 1 <= k <= 4 && pos + k <= n <= |buf|
    ensures Widened(buf[..n], pos, k, signed) == Widened(buf, pos, k, signed)
  {
    assert buf[..n][pos..pos + k] == buf[pos..pos + k];
  }

  lemma TakeCut(buf: seq<byte>, s: Insn, k: nat, signed: bool, n: nat)
    requires 1 <= k <= 4 && n <= |buf|
    ensures s.pos + k <= n ==> Take1(buf[..n], s, k) == Take1(buf, s, k)
    ensures s.pos + k <= n ==> Take2(buf[..n], s, k, signed) == Take2(buf, s, k, signed)
    ensures s.pos + k > n ==> !Take1(buf[..n], s, k).Ok? && !Take2(buf[..n], s, k, signed).Ok?
    ensures Take1(buf, s, k).Ok? ==> Take1(buf, s, k).insn.pos == s.pos + k
    ensures Take2(buf, s, k, signed).Ok? ==> Take2(buf, s, k, signed).insn.pos == s.pos + k
  {
    hide Widened;
    if s.pos + k <= n {
      WidenedCut(buf, s.pos, k, true, n);
      WidenedCut(buf, s.pos, k, signed, n);
    }
  }

  /** Two outcomes that agree as far as the first `n` bytes decide: equal when the second ends within
      them, a failure otherwise. */
  ghost predicate Agree(short: Outcome, long: Outcome, from: nat, n: nat) {
    && (long.Ok? ==> from <= long.insn.pos)
    && (long.Ok? && long.insn.pos <= n ==> short == long)
    && (short.Ok? ==> short == long)
  }

  lemma Take1Agree(buf: seq<byte>, s: Insn, k: nat, n: nat)
    requires 1 <= k <= 4 && n <= |buf|
    ensures Agree(Take1(buf[..n], s, k), Take1(buf, s, k), s.pos, n)
  {
    hide Take1, Take2;
    TakeCut(buf, s, k, true, n);
  }

  lemma TakeBothAgree(buf: seq<byte>, s: Insn, k1: nat, k2: nat, signed: bool, n: nat)
    requires 1 <= k1 <= 4 && 1 <= k2 <= 4 && n <= |buf|
    ensures Agree(TakeBoth(buf[..n], s, k1, k2, signed), TakeBoth(buf, s, k1, k2, signed), s.pos, n)
  {
    hide Take1, Take2;
    TakeCut(buf, s, k1, signed, n);
    var r := Take1(buf, s, k1);
    if r.Ok? {
      TakeCut(buf, r.insn, k2, signed, n);
    }
  }

  lemma FirstImmediateAgree(buf: seq<byte>, s: Insn, n: nat)
    requires n <= |buf|
    ensures Agree(FirstImmediate(buf[..n], s), FirstImmediate(buf, s), s.pos, n)
  {
    hide Take1, TakeBoth;
    Take1Agree(buf, s, 1, n);
    Take1Agree(buf, s, 2, n);
    Take1Agree(buf, s, 4, n);
    TakeBothAgree(buf, s, 4, 4, true, n);
    TakeBothAgree(buf, s, 2, 2, false, n);
    TakeBothAgree(buf, s, 4, 2, false, n);
  }

  lemma ImmediateAgree(buf: seq<byte>, s: Insn, n: nat)
    requires n <= |buf|
    ensures Agree(GetImmediate(buf[..n], s), GetImmediate(buf, s), s.pos, n)
  {
    hide Take1, Take2, TakeBoth, FirstImmediate;
    Take1Agree(buf, s, 2, n);
    Take1Agree(buf, s, 4, n);
    TakeBothAgree(buf, s, 4, 4, true, n);
    FirstImmediateAgree(buf, s, n);
    var r := FirstImmediate(buf, s);
    if r.Ok? {
      TakeCut(buf, r.insn, 1, true, n);
    }
  }

  lemma DisplacementAgree(buf: seq<byte>, s: Insn, n: nat)
    requires n <= |buf|
    ensures Agree(GetDisplacement(buf[..n], s), GetDisplacement(buf, s), s.pos, n)
  {
    hide DispSize, Widened;
    var k := DispSize(s);
    if k > 0 && s.pos + k <= n {
      WidenedCut(buf, s.pos, k, true, n);
    }
  }

  lemma SibAgree(buf: seq<byte>, s: Insn, n: nat)
    requires n <= |buf|
    ensures Agree(GetSib(buf[..n], s), GetSib(buf, s), s.pos, n)
  {
  }

  lemma ModrmAgree(t: Tables, buf: seq<byte>, s: Insn, n: nat)
    requires n <= |buf|
    ensures Agree(GetModrm(t, buf[..n], s), GetModrm(t, buf, s), s.pos, n)
  {
    hide GroupAttr, PrefixId;
  }

  lemma StageAgree(k: nat, t: Tables, buf: seq<byte>, s: Insn, n: nat)
    requires 1 <= k <= IMMEDIATE && n <= |buf|
    ensures Agree(Stage(k, t, buf[..n], s), Stage(k, t, buf, s), s.pos, n)
  {
    hide GetOpcode, GetModrm, GetSib, GetDisplacement, GetImmediate;
    match k {
      case 1 => OpcodeAgree(t, buf, s, n);
      case 2 => ModrmAgree(t, buf, s, n);
      case 3 => SibAgree(buf, s, n);
      case 4 => DisplacementAgree(buf, s, n);
      case _ => ImmediateAgree(buf, s, n);
    }
  }

  lemma OpcodeAgree(t: Tables, buf: seq<byte>, s: Insn, n: nat)
    requires n <= |buf|
    ensures Agree(GetOpcode(t, buf[..n], s), GetOpcode(t, buf, s), s.pos, n)
  {
    hide GetOpcode;
    var r := GetOpcode(t, buf, s);
    if r.Ok? {
      OpcodeAhead(t, buf, s);
      if r.insn.pos <= n {
        OpcodeCut(t, buf, s, n);
      }
    }
    if GetOpcode(t, buf[..n], s).Ok? {
      OpcodeExtend(t, buf, s, n);
    }
  }

  lemma OpcodeAhead(t: Tables, buf: seq<byte>, s: Insn)
    requires GetOpcode(t, buf, s).Ok?
    ensures s.pos < GetOpcode(t, buf, s).insn.pos
  {
    hide Escapes, EscapeAttr, PrefixId, FirstAttr, AvxAttr, XopAttr;
    EscapesAdvance(t, buf, FirstByte(buf, s).(attr := FirstAttr(t, s.x64, buf[s.pos])));
  }
}

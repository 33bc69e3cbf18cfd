/** The getters as they are on one structure that is used again after a failure: what a failing stage leaves
    behind, and what later calls make of it.
*/
module InsnRetry {
  import opened InsnTables
  import opened InsnDecoder
  import opened InsnProofs
  import InsnCut
  import opened InsnTheorems

  // ---------------------------------------------------------------- what a failing stage leaves

  /** Where the legacy prefix loop stops, at the end of the buffer or before. */
  function ScanEnd(t: Tables, buf: seq<byte>, x64: bool, p: Scan): (q: Scan)
    requires p.kept <= 4
    ensures ScanLegacy(t, buf, x64, p) == if q.pos >= |buf| then None else Some(q)
    ensures q.kept <= 4
    decreases |buf| - p.pos
  {
    if p.pos >= |buf| then p
    else
      var b := buf[p.pos];
      var a := t.primary(b);
      if !IsLegacyPrefix(a) then p
      else if b in p.bytes[..p.kept] then ScanEnd(t, buf, x64, Advance(p, b))
      else if p.kept == 4 then p
      else ScanEnd(t, buf, x64, Advance(Keep(x64, p, b, a), b))
  }

  /** A VEX, EVEX or XOP prefix of which not all bytes are there. */
  function LeftVex(buf: seq<byte>, s: Insn): Insn {
    if s.pos + 1 >= |buf| then s
    else
      var third := if s.pos + 2 < |buf| then buf[s.pos + 2] else s.vex.bytes[2];
      s.(vex := Field([buf[s.pos], buf[s.pos + 1], third, s.vex.bytes[3]], s.vex.nbytes))
  }

  function LeftPrefixes(t: Tables, buf: seq<byte>, s: Insn): Insn {
    var p := ScanEnd(t, buf, s.x64, StartScan(s, buf));
    if p.pos >= |buf| then
      s.(emulate := Emulate(s, buf), pos := p.pos, prefixes := Field(p.bytes, p.count), opnd := p.opnd, addr := p.addr)
    else
      var s1 := AfterScan(s, buf, p);
      match RexStep(t, buf, s1)
      case RexFail => s1.(rex := s1.rex.(bytes := s1.rex.bytes[0 := buf[p.pos]]))
      case SkipVex(s2) => s2
      case TryVex(s2, a) => LeftVex(buf, s2)
  }

  /** Where the escape loop stops. */
  function EscapesEnd(t: Tables, buf: seq<byte>, s: Insn): (r: Insn)
    ensures Escapes(t, buf, s) == if !IsEscape(r.attr) then Ok(r)
                                  else if r.pos >= |buf| then Fail(ENODATA) else Fail(OVERRUN)
    ensures r.got == s.got && r.length == s.length
    decreases |buf| - s.pos
  {
    if !IsEscape(s.attr) || s.pos >= |buf| || s.opcode.nbytes >= 4 then s
    else
      var op := buf[s.pos];
      EscapesEnd(t, buf, WithOpcode(s, op, EscapeAttr(t, op, PrefixId(t, s), s.attr)))
  }

  /** A rejected VEX, EVEX or XOP opcode: the attribute is cleared, an operand size that was set stays. */
  function LeftVexOpcode(t: Tables, s: Insn, op: byte): Insn {
    if XopByte(t, s) then s.(attr := NO_ATTR)
    else
      var a := AvxAttr(t, op, VexM(s), VexP(s));
      s.(attr := NO_ATTR, opnd := if a.scalable && !VexW(s) && VexP(s) == 1 then 2 else s.opnd)
  }

  function LeftOpcode(t: Tables, buf: seq<byte>, s: Insn): Insn {
    if s.pos >= |buf| then s
    else
      var op, s1 := buf[s.pos], FirstByte(buf, s);
      if IsAvxOrXop(s1) then LeftVexOpcode(t, s1, op)
      else if s1.rex.nbytes == 2 then Rex2Opcode(t, s1, op)
      else
        var s2 := EscapesEnd(t, buf, s1.(attr := FirstAttr(t, s.x64, op)));
        if IsEscape(s2.attr) then s2 else s2.(attr := NO_ATTR)
  }

  /** A group member that may not carry a VEX prefix: the ModRM byte stays and the attribute is cleared. */
  function LeftModrm(buf: seq<byte>, s: Insn): Insn {
    if s.pos >= |buf| then s
    else s.(modrm := Field([buf[s.pos], 0, 0, 0], 1), pos := s.pos + 1, attr := NO_ATTR)
  }

  function LeftTake(buf: seq<byte>, s: Insn, n: nat): Insn
    requires 1 <= n <= 4
  {
    var r := Take1(buf, s, n);
    if r.Ok? then r.insn else s
  }

  /** The first part of a two-part immediate may have been read. */
  function LeftImmediate(buf: seq<byte>, s: Insn): Insn {
    if s.attr.moffset then (if s.addr == 8 then LeftTake(buf, s, 4) else s)
    else
      var r := FirstImmediate(buf, s);
      if r.Ok? then r.insn
      else if s.attr.imm == 4 || (s.attr.imm == 7 && s.opnd == 8) || (s.attr.imm == 5 && s.opnd == 4) then
        LeftTake(buf, s, 4)
      else if s.attr.imm == 5 && s.opnd == 2 then LeftTake(buf, s, 2)
      else s
  }

  /** What stage `k` leaves in the structure when it fails. */
  function Left(k: nat, t: Tables, buf: seq<byte>, s: Insn): Insn
    requires k <= IMMEDIATE
  {
    match k
    case 0 => LeftPrefixes(t, buf, s)
    case 1 => LeftOpcode(t, buf, s)
    case 2 => LeftModrm(buf, s)
    case 3 => s
    case 4 => s
    case _ => LeftImmediate(buf, s)
  }

  // ---------------------------------------------------------------- calls on one structure

  datatype Called = Called(insn: Insn, err: Option<Error>)

  /** A getter on the structure, failures included. */
  function Call(k: nat, t: Tables, buf: seq<byte>, s: Insn): Called
    requires k <= IMMEDIATE
  {
    if k in s.got then Called(s, None)
    else
      var c := if k == 0 then Called(s, None) else Call(k - 1, t, buf, s);
      if c.err.Some? then c
      else
        match Stage(k, t, buf, c.insn)
        case Fail(e) => Called(Left(k, t, buf, c.insn), Some(e))
        case Ok(s1) => Called(s1.(got := s1.got + {k}), None)
  }

  /** Calls and their answers, one after the other, whatever they answer. */
  function Answers(ks: seq<nat>, t: Tables, buf: seq<byte>, s: Insn): (r: seq<Option<Error>>)
    requires forall i | 0 <= i < |ks| :: ks[i] <= IMMEDIATE
    ensures |r| == |ks|
  {
    if ks == [] then []
    else
      var c := Call(ks[0], t, buf, s);
      [c.err] + Answers(ks[1..], t, buf, c.insn)
  }

  /** As long as nothing fails a call is the getter of the model, and then it fails where that fails. */
  lemma {:induction false} CallIsGet(k: nat, t: Tables, buf: seq<byte>, s: Insn)
    requires k <= IMMEDIATE
    ensures var r, c := Get(k, t, buf, s), Call(k, t, buf, s);
            if r.Ok? then c == Called(r.insn, None) else c.err == Some(r.error)
    decreases k
  {
    hide Stage, Left;
    if k > 0 && k !in s.got {
      CallIsGet(k - 1, t, buf, s);
    }
  }

  // ---------------------------------------------------------------- running out of data is final

  /** The structure left by a failing prefix stage stands before what it could not read. */
  lemma PrefixesStuck(t: Tables, buf: seq<byte>, s: Insn)
    requires GetPrefixes(t, buf, s).Fail?
    ensures var r := LeftPrefixes(t, buf, s);
            r.got == s.got && r.length == s.length && GetPrefixes(t, buf, r) == Fail(ENODATA)
  {
    hide ScanEnd, ScanLegacy, WithLast, EmulateSize;
    var p := ScanEnd(t, buf, s.x64, StartScan(s, buf));
    var r := LeftPrefixes(t, buf, s);
    NearTheEnd(buf, r.pos);
    var q := StartScan(r, buf);
    if p.pos >= |buf| || r.pos >= |buf| {
      assert ScanLegacy(t, buf, r.x64, q) == None by {
        StopsAt(t, buf, r.x64, q);
      }
    } else {
      StopsAt(t, buf, r.x64, q);
      assert ScanLegacy(t, buf, r.x64, q) == Some(q);
    }
  }

  /** An emulate prefix needs five bytes. */
  lemma NearTheEnd(buf: seq<byte>, pos: nat)
    ensures pos + 4 >= |buf| ==> EmulateSize(buf, pos) == 0
  {
  }

  lemma StopsAt(t: Tables, buf: seq<byte>, x64: bool, p: Scan)
    requires p.kept <= 4 && (p.pos < |buf| ==> !IsLegacyPrefix(t.primary(buf[p.pos])))
    ensures ScanLegacy(t, buf, x64, p) == if p.pos >= |buf| then None else Some(p)
  {
  }

  lemma OpcodeStuck(t: Tables, buf: seq<byte>, s: Insn)
    requires GetOpcode(t, buf, s).Fail?
    ensures var r := LeftOpcode(t, buf, s);
            && r.got == s.got && r.length == s.length
            && (GetOpcode(t, buf, s) == Fail(ENODATA) ==> GetOpcode(t, buf, r) == Fail(ENODATA))
  {
    hide Escapes, EscapesEnd, AvxAttr, XopAttr, PrefixId, EscapeAttr;
  }

  lemma ImmediateStuck(buf: seq<byte>, s: Insn)
    requires GetImmediate(buf, s).Fail?
    ensures var r := LeftImmediate(buf, s);
            r.got == s.got && r.length == s.length && GetImmediate(buf, r) == Fail(ENODATA)
  {
    hide Widened;
  }

  lemma StageStuck(k: nat, t: Tables, buf: seq<byte>, s: Insn)
    requires k <= IMMEDIATE && Stage(k, t, buf, s).Fail?
    ensures var r := Left(k, t, buf, s);
            && r.got == s.got && r.length == s.length
            && (Stage(k, t, buf, s) == Fail(ENODATA) ==> Stage(k, t, buf, r) == Fail(ENODATA))
  {
    hide GetPrefixes, GetOpcode, GetImmediate, LeftPrefixes, LeftOpcode, LeftImmediate, GroupAttr, PrefixId;
    match k {
      case 0 => PrefixesStuck(t, buf, s);
      case 1 => OpcodeStuck(t, buf, s);
      case 2 =>
      case 3 =>
      case 4 =>
      case _ => ImmediateStuck(buf, s);
    }
  }

  /** Stages before `k` are done and stage `k` runs out of data. */
  predicate Stuck(k: nat, t: Tables, buf: seq<byte>, s: Insn) {
    k <= IMMEDIATE && Partial(k, s) && Stage(k, t, buf, s) == Fail(ENODATA)
  }

  lemma {:induction false} StuckCall(k: nat, m: nat, t: Tables, buf: seq<byte>, s: Insn)
    requires Stuck(k, t, buf, s) && m <= IMMEDIATE
    ensures var c := Call(m, t, buf, s);
            if m in s.got then c == Called(s, None)
            else c.err == Some(ENODATA) && Stuck(k, t, buf, c.insn) && c.insn.got == s.got
    decreases m
  {
    hide Stage, Left;
    if m > k {
      StuckCall(k, m - 1, t, buf, s);
    } else if m == k {
      if k > 0 {
        assert k - 1 in s.got;
      }
      StageStuck(k, t, buf, s);
    }
  }

  /** A call that fails does so in one stage; what it leaves is what that stage leaves. */
  lemma {:induction false} FailsInStage(m: nat, t: Tables, buf: seq<byte>, s: Insn, j: nat) returns (k: nat, s1: Insn)
    requires m <= IMMEDIATE && Partial(j, s) && Call(m, t, buf, s).err.Some?
    ensures k <= m && Partial(k, s1) && Partial(k, Call(m, t, buf, s).insn)
    ensures Stage(k, t, buf, s1) == Fail(Call(m, t, buf, s).err.value)
    ensures Call(m, t, buf, s).insn == Left(k, t, buf, s1)
    ensures Get(k, t, buf, s).Fail? && (k > 0 ==> Get(k - 1, t, buf, s).Ok?)
    decreases m
  {
    hide Stage, Left;
    CallIsGet(m, t, buf, s);
    if m > 0 && Call(m - 1, t, buf, s).err.Some? {
      k, s1 := FailsInStage(m - 1, t, buf, s, j);
    } else {
      k, s1 := m, if m == 0 then s else Call(m - 1, t, buf, s).insn;
      if m > 0 {
        CallIsGet(m - 1, t, buf, s);
        GetCompletes(m - 1, t, buf, s, j);
      }
      StageStuck(m, t, buf, s1);
    }
  }

  lemma {:induction false} StuckAnswers(k: nat, ks: seq<nat>, t: Tables, buf: seq<byte>, s: Insn)
    requires Stuck(k, t, buf, s) && forall i | 0 <= i < |ks| :: ks[i] <= IMMEDIATE
    ensures forall i | 0 <= i < |ks| :: Answers(ks, t, buf, s)[i] == if ks[i] in s.got then None else Some(ENODATA)
    decreases |ks|
  {
    hide Stuck, Call;
    if ks != [] {
      StuckCall(k, ks[0], t, buf, s);
      StuckAnswers(k, ks[1..], t, buf, Call(ks[0], t, buf, s).insn);
    }
  }

  /** Once a getter ran out of data, every later call, in any order and number, answers the same: success where
      the field was got before, no data everywhere else. */
  lemma NoDataIsFinal(m: nat, ks: seq<nat>, t: Tables, buf: seq<byte>, s: Insn, j: nat)
    requires m <= IMMEDIATE && Partial(j, s) && Call(m, t, buf, s).err == Some(ENODATA)
    requires forall i | 0 <= i < |ks| :: ks[i] <= IMMEDIATE
    ensures var s1 := Call(m, t, buf, s).insn;
            forall i | 0 <= i < |ks| :: Answers(ks, t, buf, s1)[i] == if ks[i] in s1.got then None else Some(ENODATA)
  {
    hide Call, Answers, Stage, Left;
    var k, s1 := FailsInStage(m, t, buf, s, j);
    StageStuck(k, t, buf, s1);
    StuckAnswers(k, ks, t, buf, Call(m, t, buf, s).insn);
  }

  function Answer(r: Outcome): Option<Error> {
    if r.Ok? then None else Some(r.error)
  }

  /** A getter answers the same before and after a successful call of another one. */
  lemma AnswerAfterGet(k: nat, m: nat, t: Tables, buf: seq<byte>, s: Insn, j: nat)
    requires k <= IMMEDIATE && m <= IMMEDIATE && Partial(j, s) && Get(k, t, buf, s).Ok?
    ensures Answer(Get(m, t, buf, Get(k, t, buf, s).insn)) == Answer(Get(m, t, buf, s))
  {
    hide Stage;
    GetCompletes(k, t, buf, s, j);
    if k <= m {
      GetAfterGet(k, m, t, buf, s, j);
    } else {
      GetAfterGet(m, k, t, buf, s, j);
    }
  }

  lemma AnswerWhenStuck(k: nat, m: nat, t: Tables, buf: seq<byte>, s: Insn, j: nat)
    requires k <= IMMEDIATE && m <= IMMEDIATE && Partial(j, s)
    requires Get(k, t, buf, s).Fail? && (k > 0 ==> Get(k - 1, t, buf, s).Ok?)
    ensures Answer(Get(m, t, buf, s)) == if m < k then None else Answer(Get(k, t, buf, s))
  {
    hide Get;
    if m < k {
      GetAfterGet(m, k - 1, t, buf, s, j);
    } else {
      GetAfterGet(k, m, t, buf, s, j);
    }
  }

  /** Unless the instruction is rejected, every getter call answers what it would answer as the first one, in any
      order and number of calls, failed ones included. */
  lemma {:induction false} AnswersIndependent(ks: seq<nat>, t: Tables, buf: seq<byte>, s: Insn, j: nat)
    requires (forall i | 0 <= i < |ks| :: ks[i] <= IMMEDIATE) && Partial(j, s)
    requires Answer(Get(IMMEDIATE, t, buf, s)) in {None, Some(ENODATA)}
    ensures forall i | 0 <= i < |ks| :: Answers(ks, t, buf, s)[i] == Answer(Get(ks[i], t, buf, s))
    decreases |ks|
  {
    hide Get, Call, Stage, Left;
    if ks != [] {
      var n := ks[0];
      var c := Call(n, t, buf, s);
      CallIsGet(n, t, buf, s);
      if c.err == None {
        GetCompletes(n, t, buf, s, j);
        AnswerAfterGet(n, IMMEDIATE, t, buf, s, j);
        AnswersIndependent(ks[1..], t, buf, c.insn, if n < j then j else n + 1);
        forall i | 1 <= i < |ks|
          ensures Answers(ks, t, buf, s)[i] == Answer(Get(ks[i], t, buf, s))
        {
          assert Answers(ks, t, buf, s)[i] == Answers(ks[1..], t, buf, c.insn)[i - 1];
          assert ks[1..][i - 1] == ks[i];
          AnswerAfterGet(n, ks[i], t, buf, s, j);
        }
      } else {
        GetAfterGet(n, IMMEDIATE, t, buf, s, j);
        StaysStuck(ks, t, buf, s, j);
      }
    }
  }

  lemma StaysStuck(ks: seq<nat>, t: Tables, buf: seq<byte>, s: Insn, j: nat)
    requires (forall i | 0 <= i < |ks| :: ks[i] <= IMMEDIATE) && Partial(j, s) && ks != []
    requires Get(IMMEDIATE, t, buf, s) == Fail(ENODATA) && Call(ks[0], t, buf, s).err.Some?
    ensures forall i | 0 <= i < |ks| :: Answers(ks, t, buf, s)[i] == Answer(Get(ks[i], t, buf, s))
  {
    hide Get, Call, Stage, Left;
    var c := Call(ks[0], t, buf, s);
    CallIsGet(ks[0], t, buf, s);
    GetAfterGet(ks[0], IMMEDIATE, t, buf, s, j);
    var k, s0 := FailsInStage(ks[0], t, buf, s, j);
    NoDataIsFinal(ks[0], ks[1..], t, buf, s, j);
    forall i | 1 <= i < |ks|
      ensures Answers(ks, t, buf, s)[i] == Answer(Get(ks[i], t, buf, s))
    {
      assert Answers(ks, t, buf, s)[i] == Answers(ks[1..], t, buf, c.insn)[i - 1];
      assert ks[1..][i - 1] == ks[i];
      AnswerWhenStuck(k, ks[i], t, buf, s, j);
      GetAfterGet(k, ks[0], t, buf, s, j);
    }
  }

  // ---------------------------------------------------------------- a rejected instruction is not

  /** Where the SIB byte and displacement that the ModRM byte asks for end; beyond the buffer when the SIB byte
      is not there. */
  function AddressEnd(buf: seq<byte>, s: Insn): nat {
    var r := GetSib(buf, s);
    if r.Ok? then r.insn.pos + DispSize(r.insn) else |buf| + 1
  }

  lemma SibOf(buf: seq<byte>, s: Insn, got: set<nat>)
    requires s.pos <= |buf|
    ensures var r, r' := GetSib(buf, s), GetSib(buf, s.(got := got));
            && (r.Fail? ==> r == r' == Fail(ENODATA))
            && (r.Ok? ==> r' == Ok(r.insn.(got := got)) && r.insn.pos <= |buf| && DispSize(r'.insn) == DispSize(r.insn))
            && (r.Ok? ==> r.insn.attr == s.attr && r.insn.length == s.length)
  {
  }

  lemma DisplacementOf(buf: seq<byte>, s: Insn)
    requires s.pos <= |buf|
    ensures var r := GetDisplacement(buf, s);
            && (s.pos + DispSize(s) > |buf| ==> r == Fail(ENODATA))
            && (s.pos + DispSize(s) <= |buf| ==>
                  r.Ok? && r.insn == s.(disp := r.insn.disp, pos := s.pos + DispSize(s)))
  {
  }

  lemma NothingToTake(t: Tables, buf: seq<byte>, s: Insn)
    requires s.attr == NO_ATTR
    ensures GetModrm(t, buf, s) == Ok(s) && GetImmediate(buf, s) == Ok(s)
  {
  }

  /** Without attributes only the SIB byte and the displacement are read. */
  lemma RestOfNothing(t: Tables, buf: seq<byte>, s: Insn)
    requires Partial(MODRM, s) && s.attr == NO_ATTR && s.pos <= |buf|
    ensures var c := Call(IMMEDIATE, t, buf, s);
            && c.err == (if AddressEnd(buf, s) <= |buf| then None else Some(ENODATA))
            && (c.err == None ==> c.insn.attr == NO_ATTR && c.insn.pos == AddressEnd(buf, s))
  {
    hide GetSib, GetDisplacement, DispSize, GetPrefixes, GetOpcode, GetModrm, GetImmediate, Left;
    assert Call(OPCODE, t, buf, s) == Called(s, None);
    NothingToTake(t, buf, s);
    var s2 := s.(got := s.got + {MODRM});
    assert Call(MODRM, t, buf, s) == Called(s2, None);
    SibOf(buf, s, s2.got);
    var r := GetSib(buf, s2);
    if r.Ok? {
      var s3 := r.insn.(got := r.insn.got + {SIB});
      SibOf(buf, s, s3.got);
      assert Call(SIB, t, buf, s) == Called(s3, None);
      DisplacementOf(buf, s3);
      var d := GetDisplacement(buf, s3);
      if d.Ok? {
        var s4 := d.insn.(got := d.insn.got + {DISPLACEMENT});
        assert Call(DISPLACEMENT, t, buf, s) == Called(s4, None);
        NothingToTake(t, buf, s4);
      }
    } else {
      assert Call(SIB, t, buf, s).err == Some(ENODATA);
      assert Call(DISPLACEMENT, t, buf, s).err == Some(ENODATA);
    }
  }

  /** Only the opcode and the ModRM stage reject an instruction. */
  lemma RejectsWhere(k: nat, t: Tables, buf: seq<byte>, s: Insn)
    requires k <= IMMEDIATE && Stage(k, t, buf, s) == Fail(EINVAL)
    ensures k == OPCODE || k == MODRM
    ensures var r := Left(k, t, buf, s); s.pos < r.pos <= |buf| && r.attr == NO_ATTR
  {
    hide GetOpcode, LeftOpcode, LeftPrefixes, LeftImmediate, GroupAttr, PrefixId, Escapes;
    match k {
      case 0 => InsnCut.OnlyNoData(t, buf, s);
      case 1 => RejectedOpcode(t, buf, s);
      case 2 =>
      case 3 =>
      case 4 =>
      case _ => ImmediateNoData(buf, s);
    }
  }

  lemma ImmediateNoData(buf: seq<byte>, s: Insn)
    ensures GetImmediate(buf, s).Ok? || GetImmediate(buf, s) == Fail(ENODATA)
  {
    hide Widened;
  }

  /** A rejected opcode stays consumed: the next call takes the byte behind it for the opcode, under the same
      prefixes. */
  lemma RejectedOpcode(t: Tables, buf: seq<byte>, s: Insn)
    requires GetOpcode(t, buf, s) == Fail(EINVAL)
    ensures var r := LeftOpcode(t, buf, s);
            && s.pos < r.pos <= |buf| && r.attr == NO_ATTR
            && GetOpcode(t, buf, r) == GetOpcode(t, buf, s.(pos := r.pos, opcode := r.opcode, opnd := r.opnd))
  {
    hide EscapesEnd, Escapes, AvxAttr, XopAttr, PrefixId, EscapeAttr, GetOpcode;
    OpcodeLooks(t, buf, s);
    EscapesMove(t, buf, FirstByte(buf, s).(attr := FirstAttr(t, s.x64, buf[s.pos])));
    var r := LeftOpcode(t, buf, s);
    OpcodeForgets(t, buf, s.(pos := r.pos, opcode := r.opcode, opnd := r.opnd), NO_ATTR);
  }

  lemma OpcodeLooks(t: Tables, buf: seq<byte>, s: Insn)
    requires GetOpcode(t, buf, s) == Fail(EINVAL)
    ensures s.pos < |buf|
    ensures var s1 := FirstByte(buf, s);
            if IsAvxOrXop(s1) then VexOpcode(t, s1, buf[s.pos]).Fail?
            else s1.rex.nbytes != 2 && Escapes(t, buf, s1.(attr := FirstAttr(t, s.x64, buf[s.pos]))).Ok?
  {
    hide EscapesEnd, Escapes, AvxAttr, XopAttr, PrefixId, EscapeAttr, FirstAttr;
    if !IsAvxOrXop(FirstByte(buf, s)) {
      var r := EscapesEnd(t, buf, FirstByte(buf, s).(attr := FirstAttr(t, s.x64, buf[s.pos])));
    }
  }

  /** The opcode stage does not look at the attribute it finds. */
  lemma OpcodeForgets(t: Tables, buf: seq<byte>, s: Insn, a: Attr)
    ensures GetOpcode(t, buf, s.(attr := a)) == GetOpcode(t, buf, s)
  {
    hide Escapes, AvxAttr, XopAttr, EscapeAttr, FirstAttr;
    if s.pos < |buf| {
      var s', s1 := FirstByte(buf, s.(attr := a)), FirstByte(buf, s);
      assert s'.(attr := FirstAttr(t, s.x64, buf[s.pos])) == s1.(attr := FirstAttr(t, s.x64, buf[s.pos]));
    }
  }

  lemma {:induction false} EscapesMove(t: Tables, buf: seq<byte>, s: Insn)
    requires s.pos <= |buf|
    ensures var r := EscapesEnd(t, buf, s);
            s.pos <= r.pos <= |buf| && r == s.(pos := r.pos, opcode := r.opcode, attr := r.attr)
    decreases |buf| - s.pos
  {
    hide EscapeAttr, PrefixId;
    if IsEscape(s.attr) && s.pos < |buf| && s.opcode.nbytes < 4 {
      var op := buf[s.pos];
      EscapesMove(t, buf, WithOpcode(s, op, EscapeAttr(t, op, PrefixId(t, s), s.attr)));
    }
  }

  /** An instruction rejected at its ModRM byte is accepted by the next call if and only if the bytes of its
      memory operand are there; it then has no attributes and ends with that operand. */
  lemma RejectedThenAccepted(m: nat, t: Tables, buf: seq<byte>, s: Insn, j: nat)
    requires m <= IMMEDIATE && Partial(j, s) && Call(m, t, buf, s).err == Some(EINVAL)
    requires OPCODE in Call(m, t, buf, s).insn.got
    ensures var s1 := Call(m, t, buf, s).insn;
            var c := Call(IMMEDIATE, t, buf, s1);
            && c.err == (if AddressEnd(buf, s1) <= |buf| then None else Some(ENODATA))
            && (c.err == None ==> c.insn.attr == NO_ATTR && c.insn.pos == AddressEnd(buf, s1))
  {
    hide Call, Stage, Left, AddressEnd;
    var k, s0 := FailsInStage(m, t, buf, s, j);
    RejectsWhere(k, t, buf, s0);
    RestOfNothing(t, buf, Call(m, t, buf, s).insn);
  }
}

/** The main results about the decoder, over whole decodes and over any order of getter calls. */
module InsnTheorems {
  import opened InsnTables
  import opened InsnDecoder
  import opened InsnProofs
  import opened InsnCut

  // ---------------------------------------------------------------- getters on demand

  /** Exactly the first `k` stages were done, and the length is still open. */
  predicate Partial(k: nat, s: Insn) {
    s.got == Upto(k) && s.length == 0
  }

  lemma StageKeeps(k: nat, t: Tables, buf: seq<byte>, s: Insn)
    requires k <= IMMEDIATE
    ensures var r := Stage(k, t, buf, s); r.Ok? ==> r.insn.got == s.got && r.insn.length == s.length
  {
    hide GetPrefixes, GetOpcode, GetDisplacement, GetImmediate, GroupAttr, PrefixId;
    match k {
      case 0 => PrefixesKeep(t, buf, s);
      case 1 => OpcodeKeeps(t, buf, s);
      case 2 =>
      case 3 =>
      case 4 => DisplacementKeeps(buf, s);
      case _ => ImmediateKeeps(buf, s);
    }
  }

  lemma DisplacementKeeps(buf: seq<byte>, s: Insn)
    ensures var r := GetDisplacement(buf, s); r.Ok? ==> r.insn.got == s.got && r.insn.length == s.length
  {
  }

  lemma ImmediateKeeps(buf: seq<byte>, s: Insn)
    ensures var r := GetImmediate(buf, s); r.Ok? ==> r.insn.got == s.got && r.insn.length == s.length
  {
    hide Widened;
  }

  lemma OpcodeKeeps(t: Tables, buf: seq<byte>, s: Insn)
    ensures var r := GetOpcode(t, buf, s); r.Ok? ==> r.insn.got == s.got && r.insn.length == s.length
  {
    hide Escapes, EscapeAttr, PrefixId, FirstAttr, AvxAttr, XopAttr;
    if s.pos < |buf| {
      EscapesKeep(t, buf, FirstByte(buf, s).(attr := FirstAttr(t, s.x64, buf[s.pos])));
    }
  }

  lemma {:induction false} EscapesKeep(t: Tables, buf: seq<byte>, s: Insn)
    ensures var r := Escapes(t, buf, s); r.Ok? ==> r.insn.got == s.got && r.insn.length == s.length
    decreases |buf| - s.pos
  {
    if IsEscape(s.attr) && s.pos < |buf| && s.opcode.nbytes < 4 {
      var op := buf[s.pos];
      EscapesKeep(t, buf, WithOpcode(s, op, EscapeAttr(t, op, PrefixId(t, s), s.attr)));
    }
  }

  lemma {:induction false} GetCompletes(k: nat, t: Tables, buf: seq<byte>, s: Insn, j: nat)
    requires k <= IMMEDIATE && Partial(j, s)
    ensures var r := Get(k, t, buf, s); r.Ok? ==> Partial(if k < j then j else k + 1, r.insn)
    decreases k
  {
    hide Stage;
    if k >= j {
      if k > 0 {
        GetCompletes(k - 1, t, buf, s, j);
      }
      var r := if k == 0 then Ok(s) else Get(k - 1, t, buf, s);
      if r.Ok? {
        StageKeeps(k, t, buf, r.insn);
        assert Upto(k + 1) == Upto(k) + {k};
      }
    }
  }

  /** A later getter gives the same whether or not an earlier one was called first, failures included. */
  lemma {:induction false} GetAfterGet(k: nat, m: nat, t: Tables, buf: seq<byte>, s: Insn, j: nat)
    requires k <= m <= IMMEDIATE && Partial(j, s)
    ensures var r := Get(k, t, buf, s);
            Get(m, t, buf, s) == if r.Ok? then Get(m, t, buf, r.insn) else r
    decreases m
  {
    hide Stage;
    GetCompletes(k, t, buf, s, j);
    if k < m && m >= j {
      GetAfterGet(k, m - 1, t, buf, s, j);
    }
  }

  /** A sequence of getter calls, stopping at the first failure. */
  function Calls(ks: seq<nat>, t: Tables, buf: seq<byte>, s: Insn): Outcome
    requires forall i | 0 <= i < |ks| :: ks[i] <= IMMEDIATE
    decreases |ks|
  {
    if ks == [] then Ok(s)
    else
      match Get(ks[0], t, buf, s)
      case Fail(e) => Fail(e)
      case Ok(s1) => Calls(ks[1..], t, buf, s1)
  }

  /** Getters in any order and number, then the length: the same as asking for the length at once. */
  lemma {:induction false} AnyOrder(ks: seq<nat>, t: Tables, buf: seq<byte>, s: Insn, j: nat)
    requires (forall i | 0 <= i < |ks| :: ks[i] <= IMMEDIATE) && Partial(j, s)
    ensures var r := Calls(ks, t, buf, s);
            GetLength(t, buf, s) == if r.Ok? then GetLength(t, buf, r.insn) else r
    decreases |ks|
  {
    hide Get;
    if ks != [] {
      var k := ks[0];
      GetAfterGet(k, IMMEDIATE, t, buf, s, j);
      GetCompletes(k, t, buf, s, j);
      var r := Get(k, t, buf, s);
      if r.Ok? {
        AnyOrder(ks[1..], t, buf, r.insn, if k < j then j else k + 1);
      }
    }
  }

  /** The getters called in any order on a fresh structure lead to the result of insn_decode. */
  lemma AnyOrderDecodes(ks: seq<nat>, t: Tables, buf: seq<byte>, x64: bool)
    requires forall i | 0 <= i < |ks| :: ks[i] <= IMMEDIATE
    ensures var r := Calls(ks, t, Window(buf), Init(x64));
            Decode(t, buf, x64) == if r.Ok? then GetLength(t, Window(buf), r.insn) else r
  {
    hide Get, Calls, Window;
    var w, s := Window(buf), Init(x64);
    AnyOrder(ks, t, w, s, 0);
    GetCompletes(IMMEDIATE, t, w, s, 0);
  }

  // ---------------------------------------------------------------- cutting and extending

  lemma {:induction false} GetAgree(k: nat, t: Tables, buf: seq<byte>, s: Insn, n: nat)
    requires k <= IMMEDIATE && n <= |buf| && PREFIXES in s.got
    ensures Agree(Get(k, t, buf[..n], s), Get(k, t, buf, s), s.pos, n)
    decreases k
  {
    hide Stage;
    if k !in s.got {
      GetAgree(k - 1, t, buf, s, n);
      var long, short := Get(k - 1, t, buf, s), Get(k - 1, t, buf[..n], s);
      if long.Ok? {
        StageAgree(k, t, buf, long.insn, n);
      }
    }
  }

  lemma FirstGet(t: Tables, buf: seq<byte>, x64: bool)
    ensures var r := Get(PREFIXES, t, buf, Init(x64));
            var p := GetPrefixes(t, buf, Init(x64));
            r == if p.Ok? then Ok(p.insn.(got := p.insn.got + {PREFIXES})) else p
  {
    hide GetPrefixes;
  }

  lemma WindowCut(buf: seq<byte>, n: nat)
    requires n <= |buf|
    ensures var m := if n > MAX_INSN_SIZE then MAX_INSN_SIZE else n;
            m <= |Window(buf)| && Window(buf[..n]) == Window(buf)[..m]
  {
  }

  /** A VEX or XOP byte read as an opcode takes the byte behind it along. */
  lemma TakesTwo(t: Tables, buf: seq<byte>, s: Insn)
    requires PrefixBytesContinue(t) && LooksFurther(t, buf, s) && s.got == {PREFIXES} && Get(MODRM, t, buf, s).Ok?
    ensures Get(MODRM, t, buf, s).insn.pos >= s.pos + 2
  {
    hide Escapes, EscapeAttr, GroupAttr, PrefixId, AvxAttr, XopAttr, GetPrefixes;
    var b := buf[s.pos];
    var s1 := FirstByte(buf, s).(attr := FirstAttr(t, s.x64, b));
    assert s1.attr == t.primary(b);
    EscapesAdvance(t, buf, s1);
    assert Get(PREFIXES, t, buf, s) == Ok(s);
    assert Get(OPCODE, t, buf, s).Ok?;
    var s2 := Escapes(t, buf, s1).insn;
    assert GetOpcode(t, buf, s) == Ok(s2);
    assert Get(OPCODE, t, buf, s) == Ok(s2.(got := s2.got + {OPCODE}));
    if !IsEscape(s1.attr) {
      assert s2 == s1 by {
        EscapesNone(t, buf, s1);
      }
    }
  }

  lemma EscapesNone(t: Tables, buf: seq<byte>, s: Insn)
    requires !IsEscape(s.attr)
    ensures Escapes(t, buf, s) == Ok(s)
  {
  }

  lemma {:induction false} GetMonotone(k: nat, m: nat, t: Tables, buf: seq<byte>, s: Insn)
    requires k <= m <= IMMEDIATE && s.got == {PREFIXES} && Get(m, t, buf, s).Ok?
    ensures var r := Get(k, t, buf, s); r.Ok? && s.pos <= r.insn.pos <= Get(m, t, buf, s).insn.pos
    decreases m
  {
    hide Stage;
    if m > 0 {
      assert Get(m - 1, t, buf, s).Ok?;
      var r := Get(m - 1, t, buf, s).insn;
      StageAgree(m, t, buf, r, 0);
      GetMonotone(if k < m then k else m - 1, m - 1, t, buf, s);
    }
  }

  lemma OneStep(t: Tables, buf: seq<byte>, s: Insn)
    requires s.got == {PREFIXES} && Get(OPCODE, t, buf, s).Ok?
    ensures Get(OPCODE, t, buf, s).insn.pos > s.pos
  {
    hide GetOpcode;
    assert Get(PREFIXES, t, buf, s) == Ok(s);
    OpcodeAhead(t, buf, s);
  }

  /** Where the stages behind the prefixes end up. */
  lemma ReadsBehindPrefixes(t: Tables, buf: seq<byte>, s: Insn)
    requires s.got == {PREFIXES} && Get(IMMEDIATE, t, buf, s).Ok?
    ensures var e := Get(IMMEDIATE, t, buf, s).insn.pos;
            e > s.pos && (PrefixBytesContinue(t) && LooksFurther(t, buf, s) ==> e > s.pos + 1)
  {
    hide Get, LooksFurther, PrefixBytesContinue;
    GetMonotone(OPCODE, IMMEDIATE, t, buf, s);
    GetMonotone(MODRM, IMMEDIATE, t, buf, s);
    OneStep(t, buf, s);
    if PrefixBytesContinue(t) && LooksFurther(t, buf, s) {
      TakesTwo(t, buf, s);
    }
  }

  lemma SameLookahead(t: Tables, buf: seq<byte>, s: Insn, s': Insn)
    requires s' == s.(got := s'.got)
    ensures LooksFurther(t, buf, s') == LooksFurther(t, buf, s)
  {
  }

  /** The structure after the prefix stage of a decode. */
  function Prefixed(t: Tables, w: seq<byte>, x64: bool): Insn {
    var r := GetPrefixes(t, w, Init(x64));
    if r.Ok? then r.insn else Init(x64)
  }

  /** Cutting the window behind what a decode consumed, in each of the two cases. */
  lemma WindowDecodeCut(t: Tables, w: seq<byte>, x64: bool, m: nat)
    requires m <= |w|
    requires var r := Get(IMMEDIATE, t, w, Init(x64)); r.Ok? && r.insn.pos <= m
    ensures var p := Prefixed(t, w, x64);
            && p.pos + 1 <= Get(IMMEDIATE, t, w, Init(x64)).insn.pos
            && (LooksFurther(t, w, p) ==> p.pos + 1 < |w|)
            && Get(IMMEDIATE, t, w[..m], Init(x64)) ==
               if LooksFurther(t, w, p) && m == p.pos + 1 then Fail(ENODATA) else Get(IMMEDIATE, t, w, Init(x64))
    ensures PrefixBytesContinue(t) && LooksFurther(t, w, Prefixed(t, w, x64)) ==>
              Get(IMMEDIATE, t, w, Init(x64)).insn.pos > Prefixed(t, w, x64).pos + 1
  {
    hide Get, LooksFurther, PrefixBytesContinue, GetPrefixes;
    var s := Init(x64);
    GetAfterGet(PREFIXES, IMMEDIATE, t, w, s, 0);
    FirstGet(t, w, x64);
    PrefixesKeep(t, w, s);
    var p := GetPrefixes(t, w, s).insn;
    var a := p.(got := {PREFIXES});
    assert Get(PREFIXES, t, w, s) == Ok(a);
    ReadsBehindPrefixes(t, w, a);
    SameLookahead(t, w, p, a);
    FirstGet(t, w[..m], x64);
    GetAfterGet(PREFIXES, IMMEDIATE, t, w[..m], s, 0);
    if LooksFurther(t, w, p) {
      LookedAt(t, w, s);
    }
    if LooksFurther(t, w, p) && m == p.pos + 1 {
      PrefixesCutShort(t, w, s);
    } else {
      PrefixesCut(t, w, s, m);
      GetAgree(IMMEDIATE, t, w, a, m);
    }
  }

  /** Cutting the buffer behind a decoded instruction changes the result in exactly one case: the prefix stage
      looked one byte further than the whole instruction goes and the cut takes that byte away. Then the decode
      runs out of data. */
  lemma DecodeCutExactly(t: Tables, buf: seq<byte>, x64: bool, n: nat)
    requires n <= |buf|
    requires var r := Decode(t, buf, x64); r.Ok? && r.insn.length <= n
    ensures var p := Prefixed(t, Window(buf), x64);
            Decode(t, buf[..n], x64) ==
            if LooksFurther(t, Window(buf), p) && n == p.pos + 1 then Fail(ENODATA) else Decode(t, buf, x64)
  {
    hide Get, PrefixBytesContinue, Window, Complete, PrefixBytes, EmulateSize, Body, Sum, LosesBytes, Prefixed,
      LooksFurther;
    DecodeAccounts(t, buf, x64);
    WindowCut(buf, n);
    var w := Window(buf);
    var m: nat := if n > MAX_INSN_SIZE then MAX_INSN_SIZE else n;
    WindowDecodeCut(t, w, x64, m);
  }

  /** For tables in which a VEX or XOP byte read as an opcode is followed by a byte of its own, cutting
      the buffer at any point behind the instruction leaves the whole result unchanged. */
  lemma DecodeCut(t: Tables, buf: seq<byte>, x64: bool, n: nat)
    requires PrefixBytesContinue(t) && n <= |buf|
    requires var r := Decode(t, buf, x64); r.Ok? && r.insn.length <= n
    ensures Decode(t, buf[..n], x64) == Decode(t, buf, x64)
  {
    hide Get, PrefixBytesContinue, Window, Complete, PrefixBytes, EmulateSize, Body, Sum, LosesBytes, Prefixed,
      LooksFurther;
    DecodeAccounts(t, buf, x64);
    DecodeCutExactly(t, buf, x64, n);
    WindowDecodeCut(t, Window(buf), x64, |Window(buf)|);
  }

  lemma WindowDecodeExtend(t: Tables, w: seq<byte>, x64: bool, m: nat)
    requires m <= |w| && Get(IMMEDIATE, t, w[..m], Init(x64)).Ok? && EmulateSize(w[..m], 0) == EmulateSize(w, 0)
    ensures Get(IMMEDIATE, t, w, Init(x64)) == Get(IMMEDIATE, t, w[..m], Init(x64))
  {
    hide Get, GetPrefixes, EmulateSize;
    var s := Init(x64);
    GetAfterGet(PREFIXES, IMMEDIATE, t, w[..m], s, 0);
    GetAfterGet(PREFIXES, IMMEDIATE, t, w, s, 0);
    FirstGet(t, w[..m], x64);
    FirstGet(t, w, x64);
    PrefixesExtend(t, w, s, m);
    GetAgree(IMMEDIATE, t, w, Get(PREFIXES, t, w, s).insn, m);
  }

  /** Bytes added behind a decoded instruction change the result if and only if they complete an emulate
      prefix that the shorter buffer did not hold. */
  lemma DecodeExtend(t: Tables, buf: seq<byte>, x64: bool, n: nat)
    requires n <= |buf| && Decode(t, buf[..n], x64).Ok?
    ensures Decode(t, buf, x64) == Decode(t, buf[..n], x64) <==>
            EmulateSize(Window(buf), 0) == EmulateSize(Window(buf[..n]), 0)
  {
    hide Get, Window, Complete, PrefixBytes, EmulateSize, Body, Sum, LosesBytes;
    WindowCut(buf, n);
    var w := Window(buf);
    var m: nat := if n > MAX_INSN_SIZE then MAX_INSN_SIZE else n;
    DecodeAccounts(t, buf, x64);
    DecodeAccounts(t, buf[..n], x64);
    if EmulateSize(w, 0) == EmulateSize(w[..m], 0) {
      WindowDecodeExtend(t, w, x64, m);
    }
  }

  // ---------------------------------------------------------------- the opcode array

  lemma EscapesStayShort(t: Tables, buf: seq<byte>, s: Insn, op: byte)
    requires ShortEscapes(t) && s.opcode.nbytes == 1 && s.attr == FirstAttr(t, s.x64, op)
    ensures var r := Escapes(t, buf, s);
            (r.Ok? ==> r.insn.opcode.nbytes <= 3) && (r.Fail? ==> r.error == ENODATA)
  {
    hide EscapeAttr, PrefixId;
    var id := PrefixId(t, s);
    if IsEscape(s.attr) && s.pos < |buf| {
      assert s.attr == t.primary(op);
      var op2 := buf[s.pos];
      var s2 := WithOpcode(s, op2, EscapeAttr(t, op2, id, s.attr));
      assert Escapes(t, buf, s) == Escapes(t, buf, s2);
      SameId(t, s, s2);
      if IsEscape(s2.attr) && s2.pos < |buf| {
        var op3 := buf[s2.pos];
        var s3 := WithOpcode(s2, op3, EscapeAttr(t, op3, id, s2.attr));
        assert Escapes(t, buf, s2) == Escapes(t, buf, s3);
        assert !IsEscape(s3.attr);
      }
    }
  }

  lemma SameId(t: Tables, s: Insn, r: Insn)
    requires r.vex == s.vex && r.prefixes == s.prefixes
    ensures PrefixId(t, r) == PrefixId(t, s)
  {
  }

  lemma StageInBounds(k: nat, t: Tables, buf: seq<byte>, s: Insn)
    requires ShortEscapes(t) && k <= IMMEDIATE
    ensures Stage(k, t, buf, s) != Fail(OVERRUN)
  {
    hide Escapes, EscapeAttr, GroupAttr, PrefixId, AvxAttr, XopAttr, FirstAttr, ScanLegacy, RexStep, Widened,
      ShortEscapes;
    if k == OPCODE && s.pos < |buf| {
      EscapesStayShort(t, buf, FirstByte(buf, s).(attr := FirstAttr(t, s.x64, buf[s.pos])), buf[s.pos]);
    }
  }

  lemma {:induction false} GetInBounds(k: nat, t: Tables, buf: seq<byte>, s: Insn)
    requires ShortEscapes(t) && k <= IMMEDIATE
    ensures Get(k, t, buf, s) != Fail(OVERRUN)
  {
    hide Stage, ShortEscapes;
    if k !in s.got {
      if k > 0 {
        GetInBounds(k - 1, t, buf, s);
      }
      var r := if k == 0 then Ok(s) else Get(k - 1, t, buf, s);
      if r.Ok? {
        StageInBounds(k, t, buf, r.insn);
      }
    }
  }

  /** With at most two escapes in a row no decode writes past the opcode bytes. */
  lemma DecodeInBounds(t: Tables, buf: seq<byte>, x64: bool)
    requires ShortEscapes(t)
    ensures Decode(t, buf, x64) != Fail(OVERRUN)
  {
    hide Get, ShortEscapes;
    GetInBounds(IMMEDIATE, t, Window(buf), Init(x64));
  }
}

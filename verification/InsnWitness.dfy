/** Concrete instructions at which the decoder does what its exact conditions say it can do. */
module InsnWitness {
  import opened InsnTables
  import opened InsnDecoder
  import opened InsnProofs
  import opened InsnTheorems
  import opened InsnOperands
  import opened InsnAccounts
  import opened InsnRetry

  /** 0f escapes to a plain second byte, c8 has an eight-byte immediate and a second one, the rest is plain. */
  function FewOpcodes(b: byte): Attr {
    if b == 0x0f then NO_ATTR.(esc := 1)
    else if b == 0xc8 then NO_ATTR.(imm := 4, secondImm := true)
    else NO_ATTR
  }

  function FewTables(): Tables {
    Tables(FewOpcodes, (e, i) => None, (g, i) => None, (m, p) => None, m => None)
  }

  /** An attribute of an opcode byte with nothing but immediates behind it. */
  predicate Plain(a: Attr) {
    a.pfx == 0 && a.esc == 0 && a.grp == 0 && !a.modrm && !MustVex(a) && !a.invalid64 && !a.force64
  }

  /** No prefix behind the emulate prefix: the prefix stage stops there. */
  lemma NoPrefixes(t: Tables, w: seq<byte>, x64: bool)
    requires EmulateSize(w, 0) < |w| && t.primary(w[EmulateSize(w, 0)]).pfx == 0
    ensures var e := EmulateSize(w, 0); GetPrefixes(t, w, Init(x64)) == Ok(Init(x64).(emulate := e, pos := e))
  {
    hide EmulateSize;
    var p := StartScan(Init(x64), w);
    assert ScanLegacy(t, w, x64, p) == Some(p);
    assert WithLast(p) == [0, 0, 0, 0];
  }

  /** The structure when a plain opcode at `e` has been read. */
  function AfterPlain(t: Tables, w: seq<byte>, x64: bool, e: nat): Insn
    requires e < |w|
  {
    Init(x64).(emulate := e, pos := e + 1, opcode := Field([w[e], 0, 0, 0], 1), attr := t.primary(w[e]))
  }

  lemma PlainStages(t: Tables, w: seq<byte>, x64: bool, e: nat, got: set<nat>)
    requires e < |w| && Plain(t.primary(w[e]))
    ensures var s := Init(x64).(emulate := e, pos := e, got := got);
            GetOpcode(t, w, s) == Ok(AfterPlain(t, w, x64, e).(got := got))
    ensures var s := AfterPlain(t, w, x64, e).(got := got);
            GetModrm(t, w, s) == Ok(s) && GetSib(w, s) == Ok(s) && GetDisplacement(w, s) == Ok(s)
  {
  }

  /** A plain opcode takes the decode straight to its immediates. */
  lemma PlainOpcode(t: Tables, w: seq<byte>, x64: bool)
    requires EmulateSize(w, 0) < |w| && Plain(t.primary(w[EmulateSize(w, 0)]))
    ensures Get(DISPLACEMENT, t, w, Init(x64)) == Ok(AfterPlain(t, w, x64, EmulateSize(w, 0)).(got := {0, 1, 2, 3, 4}))
  {
    hide EmulateSize, GetPrefixes, GetOpcode, GetModrm, GetSib, GetDisplacement, AfterPlain, Plain;
    var e := EmulateSize(w, 0);
    HasNoPrefix(t.primary(w[e]));
    NoPrefixes(t, w, x64);
    var s := Init(x64);
    var a := AfterPlain(t, w, x64, e);
    assert Get(PREFIXES, t, w, s) == Ok(s.(emulate := e, pos := e, got := {0}));
    PlainStages(t, w, x64, e, {0});
    assert Get(OPCODE, t, w, s) == Ok(a.(got := {0, 1}));
    PlainStages(t, w, x64, e, {0, 1});
    assert Get(MODRM, t, w, s) == Ok(a.(got := {0, 1, 2}));
    PlainStages(t, w, x64, e, {0, 1, 2});
    assert Get(SIB, t, w, s) == Ok(a.(got := {0, 1, 2, 3}));
    PlainStages(t, w, x64, e, {0, 1, 2, 3});
  }

  lemma HasNoPrefix(a: Attr)
    requires Plain(a)
    ensures a.pfx == 0
  {
  }

  // ---------------------------------------------------------------- immediates that get lost

  const LOSING: seq<byte> := [0xc8, 1, 2, 3, 4, 5, 6, 7, 8, 9]

  /** Ten bytes whose fields add up to six. */
  lemma BytesLost()
    ensures var r := Decode(FewTables(), LOSING, true);
            r.Ok? && r.insn.length == 10 && LosesBytes(r.insn) && Sum(r.insn) != r.insn.length
  {
    hide Decode, Get, Accounted, Sum;
    var t, w := FewTables(), LOSING;
    assert EmulateSize(w, 0) == 0 && Window(w) == w;
    PlainOpcode(t, w, true);
    DecodeEndsWithImmediate(t, w, true);
    DecodeAccounts(t, w, true);
    DecodeKeepsAttr(t, w, true);
  }

  /** The last stage leaves attribute and operand size alone. */
  lemma DecodeKeepsAttr(t: Tables, buf: seq<byte>, x64: bool)
    requires Decode(t, buf, x64).Ok?
    ensures var p := Get(DISPLACEMENT, t, Window(buf), Init(x64));
            var r := Decode(t, buf, x64);
            p.Ok? && r.insn.attr == p.insn.attr && r.insn.opnd == p.insn.opnd && r.insn.emulate == p.insn.emulate
  {
    hide GetImmediate, Window, Complete;
    var w, s := Window(buf), Init(x64);
    GetCompletes(IMMEDIATE, t, w, s, 0);
    var p := Get(DISPLACEMENT, t, w, s);
    if p.Ok? {
      ImmediateKeepsSizes(w, p.insn);
    }
  }

  lemma ImmediateKeepsSizes(w: seq<byte>, s: Insn)
    ensures var r := GetImmediate(w, s); r.Ok? ==> Kept(s, r)
  {
    hide FirstImmediate, Widened, Kept;
    TakesKeep(w, s, 2, 4);
    TakesKeep(w, s, 4, 4);
    FirstKeeps(w, s);
    KeptSelf(s);
    var r := FirstImmediate(w, s);
    if r.Ok? {
      SecondKeeps(w, s, r.insn);
    }
  }

  /** Attribute, operand size and emulate prefix are as before. */
  predicate Kept(s: Insn, r: Outcome) {
    r.Ok? ==> r.insn.attr == s.attr && r.insn.opnd == s.opnd && r.insn.emulate == s.emulate
  }

  lemma KeptSelf(s: Insn)
    ensures Kept(s, Ok(s))
  {
  }

  lemma TakesKeep(w: seq<byte>, s: Insn, n1: nat, n2: nat)
    requires 1 <= n1 <= 4 && 1 <= n2 <= 4
    ensures Kept(s, Take1(w, s, n1)) && Kept(s, TakeBoth(w, s, n1, n2, true)) && Kept(s, TakeBoth(w, s, n1, n2, false))
  {
    hide Widened;
  }

  lemma SecondKeeps(w: seq<byte>, s: Insn, s1: Insn)
    requires Kept(s, Ok(s1))
    ensures Kept(s, Take2(w, s1, 1, true))
  {
    hide Widened;
  }

  lemma FirstKeeps(w: seq<byte>, s: Insn)
    ensures Kept(s, FirstImmediate(w, s))
  {
    hide Take1, TakeBoth;
    TakesKeep(w, s, 1, 4);
    TakesKeep(w, s, 2, 2);
    TakesKeep(w, s, 4, 2);
    TakesKeep(w, s, 4, 4);
  }

  // ---------------------------------------------------------------- emulate prefixes

  /** ud2, "xen", and a one-byte instruction. */
  const EMULATED: seq<byte> := [0x0f, 0x0b, 0x78, 0x65, 0x6e, 0x90]

  lemma EmulatedDecode()
    ensures var r := Decode(FewTables(), EMULATED, true);
            r.Ok? && r.insn.length == 6 && r.insn.emulate == 5 && !LosesBytes(r.insn)
  {
    hide Decode, Get, Accounted, Sum;
    var t, w := FewTables(), EMULATED;
    assert w[0..5] == XEN_PREFIX;
    assert EmulateSize(w, 0) == 5 && Window(w) == w;
    PlainOpcode(t, w, true);
    DecodeEndsWithImmediate(t, w, true);
    DecodeKeepsAttr(t, w, true);
  }

  /** The first two bytes alone are an instruction too. */
  lemma ShortDecode()
    ensures var r := Decode(FewTables(), EMULATED[..2], true); r.Ok? && r.insn.emulate == 0
  {
    hide Decode, Get, Accounted, Sum, GetOpcode, GetPrefixes;
    var t, w := FewTables(), EMULATED[..2];
    assert w == [0x0f, 0x0b] && EmulateSize(w, 0) == 0 && Window(w) == w;
    var p := EscapedGet(t, w);
    DecodeEndsWithImmediate(t, w, true);
    DecodeKeepsAttr(t, w, true);
  }

  lemma EscapedGet(t: Tables, w: seq<byte>) returns (p: Insn)
    requires t == FewTables() && w == [0x0f, 0x0b]
    ensures Get(DISPLACEMENT, t, w, Init(true)) == Ok(p) && p.attr == NO_ATTR && p.emulate == 0 && p.opnd == 4
  {
    hide GetPrefixes, GetOpcode;
    var s := Init(true);
    assert EmulateSize(w, 0) == 0;
    NoPrefixes(t, w, true);
    assert Get(PREFIXES, t, w, s) == Ok(s.(got := {0}));
    var o := EscapedOpcode(t, w, s.(got := {0}));
    assert Get(OPCODE, t, w, s) == Ok(o.(got := {0, 1}));
    assert Get(MODRM, t, w, s) == Ok(o.(got := {0, 1, 2}));
    assert Get(SIB, t, w, s) == Ok(o.(got := {0, 1, 2, 3}));
    p := o.(got := {0, 1, 2, 3, 4});
  }

  lemma EscapedOpcode(t: Tables, w: seq<byte>, s: Insn) returns (o: Insn)
    requires t == FewTables() && w == [0x0f, 0x0b] && s == Init(true).(got := {0})
    ensures GetOpcode(t, w, s) == Ok(o)
    ensures o.attr == NO_ATTR && o.emulate == 0 && o.opnd == 4 && o.modrm == BLANK && o.got == {0} && o.x64
  {
    var s1 := FirstByte(w, s).(attr := FirstAttr(t, true, 0x0f));
    var s2 := WithOpcode(s1, 0x0b, NO_ATTR);
    assert EscapeAttr(t, 0x0b, PrefixId(t, s1), s1.attr) == NO_ATTR;
    assert Escapes(t, w, s2) == Ok(s2);
    assert Escapes(t, w, s1) == Ok(s2);
    o := s2;
  }

  /** Four bytes added behind ud2 change how it decodes. */
  lemma AddedBytesMatter()
    ensures Decode(FewTables(), EMULATED[..2], true).Ok?
    ensures Decode(FewTables(), EMULATED, true) != Decode(FewTables(), EMULATED[..2], true)
  {
    hide Decode;
    ShortDecode();
    EmulatedDecode();
  }

  /** Behind an emulate prefix the opcode lies at byte 5, and its helper says 0. */
  lemma OffsetsOff()
    ensures var r := Decode(FewTables(), EMULATED, true);
            r.Ok? && Offsets(r.insn)[2] != r.insn.emulate + Offsets(r.insn)[2]
  {
    hide Decode, Offsets, Parts;
    EmulatedDecode();
    OffsetsSkipEmulatePrefix(FewTables(), EMULATED, true, 2);
  }

  // ---------------------------------------------------------------- a rejected instruction called again

  /** c5 is a VEX prefix; 71 behind it belongs to a group without members. */
  function GroupTables(): Tables {
    Tables(b => if b == 0xc5 then NO_ATTR.(pfx := 13) else NO_ATTR, (e, i) => None, (g, i) => None,
           (m, p) => Some(b => NO_ATTR.(grp := 1, modrm := true)), m => None)
  }

  const REJECTED: seq<byte> := [0xc5, 0xf8, 0x71, 0xc0]

  function AfterVex(): Insn {
    Init(true).(pos := 2, vex := Field([0xc5, 0xf8, 0x78, 0], 2))
  }

  /** A VEX byte straight away. */
  lemma VexFirst(t: Tables, w: seq<byte>)
    requires 0 < |w| < 5 && t.primary(w[0]).pfx == 13
    ensures GetPrefixes(t, w, Init(true)) == VexStep(w, Init(true), t.primary(w[0]))
  {
    hide VexStep, EmulateSize;
    var s := Init(true);
    NearTheEnd(w, 0);
    var p := StartScan(s, w);
    assert ScanLegacy(t, w, true, p) == Some(p);
    assert WithLast(p) == [0, 0, 0, 0];
    assert AfterScan(s, w, p) == s;
  }

  lemma RejectedPrefixes()
    ensures GetPrefixes(GroupTables(), REJECTED, Init(true)) == Ok(AfterVex())
  {
    hide GetPrefixes;
    VexFirst(GroupTables(), REJECTED);
  }

  lemma RejectedStages(s: Insn)
    requires s == AfterVex().(got := {0})
    ensures var r := GetOpcode(GroupTables(), REJECTED, s);
            && r.Ok? && r.insn.got == {0} && r.insn.pos == 3 && r.insn.sib == BLANK
            && forall got :: GetModrm(GroupTables(), REJECTED, r.insn.(got := got)) == Fail(EINVAL)
  {
  }

  /** The getters reject the four bytes and, called again on the same structure, accept them. */
  lemma RejectedOnce()
    ensures Answers([IMMEDIATE, IMMEDIATE], GroupTables(), REJECTED, Init(true)) == [Some(EINVAL), None]
  {
    hide GetPrefixes, GetOpcode, GetModrm, AddressEnd;
    var t, s := GroupTables(), Init(true);
    RejectedPrefixes();
    var s0 := AfterVex().(got := {0});
    assert Call(PREFIXES, t, REJECTED, s) == Called(s0, None);
    RejectedStages(s0);
    var o := GetOpcode(t, REJECTED, s0).insn;
    var s1 := o.(got := {0, 1});
    assert Call(OPCODE, t, REJECTED, s) == Called(s1, None);
    var s2 := LeftModrm(REJECTED, s1);
    assert Call(MODRM, t, REJECTED, s) == Called(s2, Some(EINVAL));
    assert Call(SIB, t, REJECTED, s) == Called(s2, Some(EINVAL));
    assert Call(DISPLACEMENT, t, REJECTED, s) == Called(s2, Some(EINVAL));
    assert Call(IMMEDIATE, t, REJECTED, s) == Called(s2, Some(EINVAL));
    NoOperand(REJECTED, s2);
    RejectedThenAccepted(IMMEDIATE, t, REJECTED, s, 0);
    TwoAnswers(t, REJECTED, s);
  }

  lemma NoOperand(buf: seq<byte>, s: Insn)
    requires s.modrm == Field([0xc0, 0, 0, 0], 1)
    ensures AddressEnd(buf, s) == s.pos
  {
  }

  lemma TwoAnswers(t: Tables, buf: seq<byte>, s: Insn)
    ensures var c := Call(IMMEDIATE, t, buf, s);
            Answers([IMMEDIATE, IMMEDIATE], t, buf, s) == [c.err, Call(IMMEDIATE, t, buf, c.insn).err]
  {
    hide Call;
    var c := Call(IMMEDIATE, t, buf, s);
    assert Answers([IMMEDIATE], t, buf, c.insn) == [Call(IMMEDIATE, t, buf, c.insn).err];
    assert [IMMEDIATE, IMMEDIATE][1..] == [IMMEDIATE];
  }
}

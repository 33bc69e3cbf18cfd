/** Conditions a maintainer of the opcode tables can check once, and what then holds of every decode; the
    offset helpers of include/arch/x86/decoder/insn.h; the sizes a whole decode works with.
*/
module InsnAccounts {
  import opened InsnTables
  import opened InsnDecoder
  import opened InsnProofs
  import opened InsnTheorems
  import opened InsnOperands

  // ---------------------------------------------------------------- tables under which sizes add up

  /** The attributes an opcode can get, groups not yet resolved. */
  ghost predicate OpcodeAttr(t: Tables, a: Attr) {
    || (exists op: byte, x64 :: a == FirstAttr(t, x64, op))
    || (exists op: byte :: a == t.primary(op))
    || (exists op: byte, id: nat, esc: Attr :: a == EscapeAttr(t, op, id, esc))
    || (exists op: byte, m: nat, p: nat :: a == AvxAttr(t, op, m, p))
    || (exists op: byte, m: nat :: a == XopAttr(t, op, m))
  }

  /** The attributes an instruction can end up with. */
  ghost predicate FinalAttr(t: Tables, a: Attr) {
    || OpcodeAttr(t, a)
    || exists g: Attr, b: byte, id: nat :: OpcodeAttr(t, g) && IsGroup(g) && a == GroupAttr(t, b, id, g)
  }

  /** No second immediate next to a first one that may take both fields: kinds 4, 5 and 7. */
  predicate OneField(a: Attr) {
    a.moffset || !a.secondImm || !(a.imm == 4 || a.imm == 5 || a.imm == 7)
  }

  /** No attribute the tables can produce, groups included, joins a second immediate with such a kind. */
  ghost predicate TablesAddUp(t: Tables) {
    forall a: Attr | FinalAttr(t, a) :: OneField(a)
  }

  lemma {:induction false} EscapesAttr(t: Tables, buf: seq<byte>, s: Insn)
    requires OpcodeAttr(t, s.attr)
    ensures Escapes(t, buf, s).Ok? ==> OpcodeAttr(t, Escapes(t, buf, s).insn.attr)
    decreases |buf| - s.pos
  {
    hide OpcodeAttr;
    if IsEscape(s.attr) && s.pos < |buf| && s.opcode.nbytes < 4 {
      var op := buf[s.pos];
      FromEscape(t, op, PrefixId(t, s), s.attr);
      EscapesAttr(t, buf, WithOpcode(s, op, EscapeAttr(t, op, PrefixId(t, s), s.attr)));
    }
  }

  lemma FromEscape(t: Tables, op: byte, id: nat, esc: Attr)
    ensures OpcodeAttr(t, EscapeAttr(t, op, id, esc))
  {
  }

  lemma FromFirst(t: Tables, x64: bool, op: byte)
    ensures OpcodeAttr(t, FirstAttr(t, x64, op)) && OpcodeAttr(t, t.primary(op))
  {
  }

  lemma FromVex(t: Tables, op: byte, m: nat, p: nat)
    ensures OpcodeAttr(t, AvxAttr(t, op, m, p)) && OpcodeAttr(t, XopAttr(t, op, m))
  {
  }

  lemma OpcodeStageAttr(t: Tables, buf: seq<byte>, s: Insn)
    ensures GetOpcode(t, buf, s).Ok? ==> OpcodeAttr(t, GetOpcode(t, buf, s).insn.attr)
  {
    hide OpcodeAttr, Escapes, EscapeAttr, PrefixId, FirstAttr, AvxAttr, XopAttr;
    if s.pos < |buf| {
      var op := buf[s.pos];
      var s1 := FirstByte(buf, s);
      FromFirst(t, s.x64, op);
      FromEscape(t, op, PrefixId(t, s1), t.primary(0x0f));
      FromVex(t, op, VexM(s1), VexP(s1));
      FromVex(t, op, if s1.vex.nbytes < 3 then 0 else s1.vex.bytes[1] % 32, 0);
      EscapesAttr(t, buf, s1.(attr := FirstAttr(t, s.x64, op)));
    }
  }

  lemma ModrmStageAttr(t: Tables, buf: seq<byte>, s: Insn)
    requires OpcodeAttr(t, s.attr)
    ensures GetModrm(t, buf, s).Ok? ==> FinalAttr(t, GetModrm(t, buf, s).insn.attr)
  {
    hide OpcodeAttr, GroupAttr, PrefixId;
  }

  lemma LaterStageAttr(k: nat, t: Tables, buf: seq<byte>, s: Insn)
    requires SIB <= k <= IMMEDIATE
    ensures Stage(k, t, buf, s).Ok? ==> Stage(k, t, buf, s).insn.attr == s.attr
  {
    hide GetImmediate, DispSize, Widened;
    ImmediateStageAttr(buf, s);
  }

  lemma ImmediateStageAttr(buf: seq<byte>, s: Insn)
    ensures GetImmediate(buf, s).Ok? ==> GetImmediate(buf, s).insn.attr == s.attr
  {
    hide Widened;
  }

  lemma {:induction false} GetAttr(k: nat, t: Tables, buf: seq<byte>, s: Insn)
    requires OPCODE <= k <= IMMEDIATE && s.got == {}
    ensures Get(k, t, buf, s).Ok? ==> FinalAttr(t, Get(k, t, buf, s).insn.attr)
    ensures k == OPCODE && Get(k, t, buf, s).Ok? ==> OpcodeAttr(t, Get(k, t, buf, s).insn.attr)
    decreases k
  {
    hide Stage, OpcodeAttr;
    var r := Get(k - 1, t, buf, s);
    if r.Ok? {
      if k == OPCODE {
        OpcodeStage(t, buf, r.insn);
      } else {
        GetAttr(k - 1, t, buf, s);
        if k == MODRM {
          ModrmStage(t, buf, r.insn);
        } else {
          LaterStageAttr(k, t, buf, r.insn);
        }
      }
    }
  }

  lemma OpcodeStage(t: Tables, buf: seq<byte>, s: Insn)
    ensures Stage(OPCODE, t, buf, s).Ok? ==> OpcodeAttr(t, Stage(OPCODE, t, buf, s).insn.attr)
  {
    hide GetOpcode, OpcodeAttr;
    OpcodeStageAttr(t, buf, s);
  }

  lemma ModrmStage(t: Tables, buf: seq<byte>, s: Insn)
    requires OpcodeAttr(t, s.attr)
    ensures Stage(MODRM, t, buf, s).Ok? ==> FinalAttr(t, Stage(MODRM, t, buf, s).insn.attr)
  {
    hide GetModrm, FinalAttr, OpcodeAttr;
    ModrmStageAttr(t, buf, s);
  }

  /** With such tables every successful decode adds up: field sizes to the length, fields to the bytes. */
  lemma EveryDecodeAddsUp(t: Tables, buf: seq<byte>, x64: bool)
    requires TablesAddUp(t)
    ensures var r := Decode(t, buf, x64);
            r.Ok? ==>
              && Sum(r.insn) == r.insn.length
              && var start := r.insn.emulate + r.insn.prefixes.nbytes;
                 start <= r.insn.length <= |Window(buf)| && Body(r.insn) == Window(buf)[start..r.insn.length]
  {
    hide Get, FinalAttr, PrefixBytes, EmulateSize, Body, Sum, Window, Complete;
    DecodeAccounts(t, buf, x64);
    GetAttr(IMMEDIATE, t, Window(buf), Init(x64));
    var r := Decode(t, buf, x64);
    if r.Ok? {
      assert OneField(r.insn.attr);
    }
  }

  // ---------------------------------------------------------------- sizes over a whole decode

  lemma {:induction false} GetSizes(k: nat, t: Tables, buf: seq<byte>, x64: bool)
    requires k <= DISPLACEMENT
    ensures Get(k, t, buf, Init(x64)).Ok? ==> SizesOk(Get(k, t, buf, Init(x64)).insn)
    decreases k
  {
    hide Stage;
    if k > 0 {
      GetSizes(k - 1, t, buf, x64);
      var r := Get(k - 1, t, buf, Init(x64));
      if r.Ok? {
        StageSizes(k, t, buf, r.insn);
      }
    } else {
      StageSizes(0, t, buf, Init(x64));
    }
  }

  /** The structure in which a decode comes to its immediates: its sizes are known ones, and the decode
      succeeds exactly when the immediate bytes called for are there, which then end the instruction. */
  lemma DecodeEndsWithImmediate(t: Tables, buf: seq<byte>, x64: bool)
    ensures var p := Get(DISPLACEMENT, t, Window(buf), Init(x64));
            var r := Decode(t, buf, x64);
            && (p.Fail? ==> r == p)
            && (p.Ok? ==>
                  && SizesOk(p.insn)
                  && (r.Ok? <==> !NoSuchPointer(p.insn) && (ImmediateBytes(p.insn) == 0
                                                            || p.insn.pos + ImmediateBytes(p.insn) <= |Window(buf)|))
                  && (r.Ok? ==> r.insn.length == p.insn.pos + ImmediateBytes(p.insn)))
  {
    hide Get, Body, Sum, PrefixBytes, EmulateSize, LosesBytes, ImmediateBytes, NoSuchPointer, Window, SizesOk;
    var w := Window(buf);
    var s := Init(x64);
    GetSizes(DISPLACEMENT, t, w, x64);
    GetCompletes(DISPLACEMENT, t, w, s, 0);
    GetCompletes(IMMEDIATE, t, w, s, 0);
    DecodeAccounts(t, buf, x64);
    LastGet(t, w, s);
    var p := Get(DISPLACEMENT, t, w, s);
    if p.Ok? {
      ImmediateConsumes(w, p.insn);
    }
  }

  lemma LastGet(t: Tables, w: seq<byte>, s: Insn)
    requires s.got == {}
    ensures var p := Get(DISPLACEMENT, t, w, s);
            var r := Get(IMMEDIATE, t, w, s);
            && (p.Fail? ==> r == p)
            && (p.Ok? ==> r.Ok? == GetImmediate(w, p.insn).Ok?)
            && (p.Ok? && r.Ok? ==> r.insn.pos == GetImmediate(w, p.insn).insn.pos)
  {
    hide GetImmediate;
  }

  // ---------------------------------------------------------------- offsets

  /** The seven offset helpers, in the order of the fields. */
  function Offsets(s: Insn): (r: seq<nat>)
    ensures |r| == 7
  {
    var rex := s.prefixes.nbytes;
    var vex := rex + s.rex.nbytes;
    var opcode := vex + s.vex.nbytes;
    var modrm := opcode + s.opcode.nbytes;
    var sib := modrm + s.modrm.nbytes;
    var disp := sib + s.sib.nbytes;
    [rex, vex, opcode, modrm, sib, disp, disp + s.disp.nbytes]
  }

  /** The fields the helpers are for; the last takes both immediates together. */
  function Parts(s: Insn): (r: seq<seq<byte>>)
    ensures |r| == 7
  {
    [Raw(s.rex), Raw(s.vex), Raw(s.opcode), Raw(s.modrm), Raw(s.sib), Raw(s.disp), Raw(s.imm1) + Raw(s.imm2)]
  }

  /** Every field lies in the buffer at its helper's offset plus the size of the emulate prefix, so all seven
      helpers are right if and only if there is no emulate prefix. */
  lemma OffsetsSkipEmulatePrefix(t: Tables, buf: seq<byte>, x64: bool, k: nat)
    requires k < 7 && Decode(t, buf, x64).Ok? && !LosesBytes(Decode(t, buf, x64).insn)
    ensures var s := Decode(t, buf, x64).insn;
            var from := s.emulate + Offsets(s)[k];
            && from + |Parts(s)[k]| <= s.length <= |Window(buf)|
            && Window(buf)[from..from + |Parts(s)[k]|] == Parts(s)[k]
            && (Offsets(s)[k] == from <==> s.emulate == 0)
  {
    hide Decode, Window, PrefixBytes, EmulateSize, LosesBytes, Sum, Body, Offsets, Parts;
    DecodeAccounts(t, buf, x64);
    var s := Decode(t, buf, x64).insn;
    PartAt(s, k);
    var start := s.emulate + s.prefixes.nbytes;
    var w := Window(buf);
    var o, n := Offsets(s)[k] - s.prefixes.nbytes, |Parts(s)[k]|;
    SliceOfSlice(w, start, s.length, o, n);
  }

  lemma SliceOfSlice(w: seq<byte>, a: nat, b: nat, o: nat, n: nat)
    requires a <= b <= |w| && o + n <= b - a
    ensures w[a..b][o..o + n] == w[a + o..a + o + n]
  {
    var x, y := w[a..b][o..o + n], w[a + o..a + o + n];
    assert |x| == |y| == n;
    assert forall i | 0 <= i < n :: x[i] == y[i];
  }

  lemma Middle(pre: seq<byte>, x: seq<byte>, post: seq<byte>)
    ensures (pre + x + post)[|pre|..|pre| + |x|] == x && |pre| + |x| <= |pre + x + post|
  {
  }

  /** What comes before and after each part. */
  lemma BodySplits(s: Insn)
    ensures var a, b, c, d := Raw(s.rex), Raw(s.vex), Raw(s.opcode), Raw(s.modrm);
            var e, f, g := Raw(s.sib), Raw(s.disp), Raw(s.imm1) + Raw(s.imm2);
            && Body(s) == [] + a + (b + c + d + e + f + g) && Body(s) == a + b + (c + d + e + f + g)
            && Body(s) == a + b + c + (d + e + f + g) && Body(s) == a + b + c + d + (e + f + g)
            && Body(s) == a + b + c + d + e + (f + g) && Body(s) == a + b + c + d + e + f + g
            && Body(s) == a + b + c + d + e + f + g + []
  {
    hide Raw;
  }

  lemma PartAt(s: Insn, k: nat)
    requires k < 7 && SmallFields(s)
    ensures Offsets(s)[k] >= s.prefixes.nbytes
    ensures var o := Offsets(s)[k] - s.prefixes.nbytes;
            o + |Parts(s)[k]| <= |Body(s)| && Body(s)[o..o + |Parts(s)[k]|] == Parts(s)[k]
  {
    hide Raw, Body;
    RawSizes(s);
    BodySplits(s);
    var a, b, c, d := Raw(s.rex), Raw(s.vex), Raw(s.opcode), Raw(s.modrm);
    var e, f, g := Raw(s.sib), Raw(s.disp), Raw(s.imm1) + Raw(s.imm2);
    match k
    case 0 => Middle([], a, b + c + d + e + f + g);
    case 1 => Middle(a, b, c + d + e + f + g);
    case 2 => Middle(a + b, c, d + e + f + g);
    case 3 => Middle(a + b + c, d, e + f + g);
    case 4 => Middle(a + b + c + d, e, f + g);
    case 5 => Middle(a + b + c + d + e, f, g);
    case _ => Middle(a + b + c + d + e + f, g, []);
  }

  lemma RawSizes(s: Insn)
    requires SmallFields(s)
    ensures |Raw(s.rex)| == s.rex.nbytes && |Raw(s.vex)| == s.vex.nbytes && |Raw(s.opcode)| == s.opcode.nbytes
    ensures |Raw(s.modrm)| == s.modrm.nbytes && |Raw(s.sib)| == s.sib.nbytes && |Raw(s.disp)| == s.disp.nbytes
  {
  }
}

/** The decoder against an encoder: memory operands written by the ModRM and SIB rules of section 2.1 of volume
    2A of the Intel SDM are read back, immediates have the width their kind names, displacement values are
    sign-expanded, and the size prefixes switch the sizes.
*/
module InsnOperands {
  import opened Arithmetic
  import opened InsnTables
  import opened InsnDecoder
  import opened InsnProofs

  // ---------------------------------------------------------------- operands

  type Reg3 = r: byte | r < 8

  datatype Disp = D0 | D8(d: byte) | Full(q: seq<byte>)

  /** What a ModRM operand can say. Register 4 as a base needs a SIB byte; a full displacement has the
      width of the addressing mode: four bytes, or two in 16-bit addressing. */
  datatype Operand =
    | Register(r: Reg3)
    | Based(base: Reg3, disp: Disp)
    | Indexed(scale: byte, index: Reg3, base: Reg3, disp: Disp)
    | IndexedOnly(scale: byte, index: Reg3, q: seq<byte>)
    | Absolute(q: seq<byte>)

  predicate DispOk(d: Disp, width: nat) {
    d.Full? ==> |d.q| == width
  }

  /** The operands that 32- and 64-bit addressing can express. */
  predicate Wide(op: Operand) {
    match op
    case Register(_) => true
    case Based(base, disp) => base != 4 && (disp.D0? ==> base != 5) && DispOk(disp, 4)
    case Indexed(scale, _, base, disp) => scale < 4 && (disp.D0? ==> base != 5) && DispOk(disp, 4)
    case IndexedOnly(scale, _, q) => scale < 4 && |q| == 4
    case Absolute(q) => |q| == 4
  }

  /** The operands of 16-bit addressing, where the base names one of eight fixed register pairs. */
  predicate Narrow(op: Operand) {
    match op
    case Register(_) => true
    case Based(base, disp) => (disp.D0? ==> base != 6) && DispOk(disp, 2)
    case Indexed(_, _, _, _) => false
    case IndexedOnly(_, _, _) => false
    case Absolute(q) => |q| == 2
  }

  function DispBytes(d: Disp): seq<byte> {
    match d
    case D0 => []
    case D8(b) => [b]
    case Full(q) => q
  }

  function DispMod(d: Disp): (m: byte)
    ensures m < 3
  {
    match d
    case D0 => 0
    case D8(_) => 1
    case Full(_) => 2
  }

  function Pack(top: byte, mid: Reg3, low: Reg3): byte
    requires top < 4
  {
    top * 64 + mid * 8 + low
  }

  function ModrmOf(op: Operand, reg: Reg3, wide: bool): byte {
    match op
    case Register(r) => Pack(3, reg, r)
    case Based(base, disp) => Pack(DispMod(disp), reg, base)
    case Indexed(_, _, _, disp) => Pack(DispMod(disp), reg, 4)
    case IndexedOnly(_, _, _) => Pack(0, reg, 4)
    case Absolute(_) => Pack(0, reg, if wide then 5 else 6)
  }

  function SibOf(op: Operand): seq<byte> {
    match op
    case Indexed(scale, index, base, _) => if scale < 4 then [Pack(scale, index, base)] else []
    case IndexedOnly(scale, index, _) => if scale < 4 then [Pack(scale, index, 5)] else []
    case _ => []
  }

  function TailOf(op: Operand): seq<byte> {
    match op
    case Register(_) => []
    case Based(_, disp) => DispBytes(disp)
    case Indexed(_, _, _, disp) => DispBytes(disp)
    case IndexedOnly(_, _, q) => q
    case Absolute(q) => q
  }

  function Encode(op: Operand, reg: Reg3, wide: bool): seq<byte> {
    [ModrmOf(op, reg, wide)] + SibOf(op) + TailOf(op)
  }

  lemma Unpack(top: byte, mid: Reg3, low: Reg3)
    requires top < 4
    ensures Mod(Pack(top, mid, low)) == top && Reg(Pack(top, mid, low)) == mid && Rm(Pack(top, mid, low)) == low
  {
    var b: int := top as int * 64 + mid as int * 8 + low as int;
    Digits(b, top, mid as int * 8 + low as int, 64);
    Digits(b, top as int * 8 + mid as int, low, 8);
    Digits(top as int * 8 + mid as int, top, mid, 8);
  }

  lemma Digits(x: nat, q: nat, r: nat, d: nat)
    requires d > 0 && r < d && x == q * d + r
    ensures x / d == q && x % d == r
  {
    QuotientUnique(x, q, r, d);
  }

  /** What the decoder should conclude from the two bytes. */
  lemma Sizes(op: Operand, reg: Reg3, s: Insn)
    requires if s.addr == 2 then Narrow(op) else Wide(op)
    requires s.modrm == Field([ModrmOf(op, reg, s.addr != 2), 0, 0, 0], 1)
    ensures var b := s.modrm.bytes[0]; SibOf(op) != [] <==> !(s.addr == 2 || Mod(b) == 3 || Rm(b) != 4)
    ensures s.sib.bytes[0] == (if SibOf(op) == [] then 0 else SibOf(op)[0]) ==> DispSize(s) == |TailOf(op)|
  {
    hide Pack, Mod, Rm, Reg;
    match op
    case Register(r) => Unpack(3, reg, r);
    case Based(base, disp) => Unpack(DispMod(disp), reg, base);
    case Indexed(scale, index, base, disp) =>
      Unpack(DispMod(disp), reg, 4);
      Unpack(scale, index, base);
      LowBits(Pack(scale, index, base));
    case IndexedOnly(scale, index, q) => Unpack(0, reg, 4); Unpack(scale, index, 5); LowBits(Pack(scale, index, 5));
    case Absolute(q) => Unpack(0, reg, if s.addr != 2 then 5 else 6);
  }

  lemma LowBits(b: byte)
    ensures Rm(b) == b % 8
  {
  }

  /** The three stages behind the opcode, one after the other. */
  function ReadOperand(t: Tables, buf: seq<byte>, s: Insn): Outcome {
    match GetModrm(t, buf, s)
    case Fail(e) => Fail(e)
    case Ok(s1) =>
      match GetSib(buf, s1)
      case Fail(e) => Fail(e)
      case Ok(s2) => GetDisplacement(buf, s2)
  }

  /** Where the three parts of an encoded operand lie. */
  lemma Layout(buf: seq<byte>, pos: nat, modrm: byte, sib: seq<byte>, tail: seq<byte>)
    requires var e := [modrm] + sib + tail; pos + |e| <= |buf| && buf[pos..pos + |e|] == e
    ensures var p := pos + 1 + |sib|; buf[pos] == modrm && buf[pos + 1..p] == sib && buf[p..p + |tail|] == tail
  {
    var e := [modrm] + sib + tail;
    assert forall i | pos <= i < pos + |e| :: buf[i] == e[i - pos];
  }

  /** The attribute once the ModRM byte is known: a group member's for a group. */
  function AttrWith(t: Tables, s: Insn, modrm: byte): Attr {
    if IsGroup(s.attr) then GroupAttr(t, modrm, PrefixId(t, s), s.attr) else s.attr
  }

  /** A VEX or XOP encoding that the group member does not accept. */
  predicate Refused(t: Tables, s: Insn, modrm: byte) {
    IsGroup(s.attr) && IsAvxOrXop(s) && !AttrWith(t, s, modrm).vexOk
  }

  lemma ReadModrm(t: Tables, buf: seq<byte>, s: Insn)
    requires s.attr.modrm && s.pos < |buf|
    ensures var b := buf[s.pos];
            GetModrm(t, buf, s) ==
              if Refused(t, s, b) then Fail(EINVAL)
              else Ok(Force64(s.(modrm := Field([b, 0, 0, 0], 1), pos := s.pos + 1, attr := AttrWith(t, s, b))))
  {
    hide GroupAttr;
  }

  /** The SIB and displacement stages once the ModRM byte is there. */
  lemma ReadRest(buf: seq<byte>, s: Insn, op: Operand, reg: Reg3)
    requires Clean(SIB, s) && s.modrm == Field([ModrmOf(op, reg, s.addr != 2), 0, 0, 0], 1)
    requires if s.addr == 2 then Narrow(op) else Wide(op)
    requires var p := s.pos + |SibOf(op)|;
             p + |TailOf(op)| <= |buf| && buf[s.pos..p] == SibOf(op) && buf[p..p + |TailOf(op)|] == TailOf(op)
    ensures GetSib(buf, s).Ok? && GetDisplacement(buf, GetSib(buf, s).insn).Ok?
    ensures var r := GetDisplacement(buf, GetSib(buf, s).insn).insn;
            && r.pos == s.pos + |SibOf(op)| + |TailOf(op)| && r.modrm == s.modrm
            && Raw(r.sib) == SibOf(op) && Raw(r.disp) == TailOf(op)
  {
    hide ModrmOf, DispSize, Wide, Narrow, Mod, Rm, Widened, SibOf, TailOf;
    Sizes(op, reg, s);
    OneSib(op);
    assert SibOf(op) != [] ==> buf[s.pos] == buf[s.pos..s.pos + |SibOf(op)|][0];
    var s2 := GetSib(buf, s).insn;
    Sizes(op, reg, s2);
    if TailOf(op) != [] {
      WidenedRaw(buf, s2.pos, |TailOf(op)|, true);
    }
  }

  /** Reading back an encoded operand, whatever follows it, consumes exactly its bytes and finds its parts,
      for plain opcodes and for the members of a group; only a refused encoding fails. */
  lemma OperandRoundTrip(t: Tables, buf: seq<byte>, s: Insn, op: Operand, reg: Reg3)
    requires s.attr.modrm && Clean(MODRM, s)
    requires if s.addr == 2 then Narrow(op) else Wide(op)
    requires var e := Encode(op, reg, s.addr != 2); s.pos + |e| <= |buf| && buf[s.pos..s.pos + |e|] == e
    ensures var r := ReadOperand(t, buf, s);
            && (r.Fail? <==> Refused(t, s, ModrmOf(op, reg, s.addr != 2)))
            && (r.Ok? ==>
                  && r.insn.pos == s.pos + |Encode(op, reg, s.addr != 2)|
                  && Raw(r.insn.modrm) == [ModrmOf(op, reg, s.addr != 2)]
                  && Raw(r.insn.sib) == SibOf(op) && Raw(r.insn.disp) == TailOf(op))
  {
    hide Refused, AttrWith, GetModrm, GetSib, GetDisplacement, ModrmOf, SibOf, TailOf, Wide, Narrow;
    Layout(buf, s.pos, ModrmOf(op, reg, s.addr != 2), SibOf(op), TailOf(op));
    ReadModrm(t, buf, s);
    if GetModrm(t, buf, s).Ok? {
      ReadRest(buf, GetModrm(t, buf, s).insn, op, reg);
    }
  }

  lemma OneSib(op: Operand)
    ensures |SibOf(op)| <= 1
  {
  }

  // ---------------------------------------------------------------- immediates

  /** Operand sizes are 2, 4 or 8; address sizes 4 or 8 in 64-bit mode and 2 or 4 otherwise. */
  predicate SizesOk(s: Insn) {
    s.opnd in {2, 4, 8} && s.addr in (if s.x64 then {4, 8} else {2, 4})
  }

  lemma {:induction false} ScanSizes(t: Tables, buf: seq<byte>, x64: bool, p: Scan)
    requires p.kept <= 4 && p.opnd in {2, 4} && p.addr in (if x64 then {4, 8} else {2, 4})
    ensures var r := ScanLegacy(t, buf, x64, p);
            r.Some? ==> r.value.opnd in {2, 4} && r.value.addr in (if x64 then {4, 8} else {2, 4})
    decreases |buf| - p.pos
  {
    if p.pos < |buf| {
      var b := buf[p.pos];
      if b in p.bytes[..p.kept] {
        ScanSizes(t, buf, x64, Advance(p, b));
      } else if p.kept < 4 {
        ScanSizes(t, buf, x64, Advance(Keep(x64, p, b, t.primary(b)), b));
      }
    }
  }

  lemma {:induction false} EscapeSizes(t: Tables, buf: seq<byte>, s: Insn)
    requires SizesOk(s)
    ensures Escapes(t, buf, s).Ok? ==> SizesOk(Escapes(t, buf, s).insn)
    decreases |buf| - s.pos
  {
    if IsEscape(s.attr) && s.pos < |buf| && s.opcode.nbytes < 4 {
      var op := buf[s.pos];
      EscapeSizes(t, buf, WithOpcode(s, op, EscapeAttr(t, op, PrefixId(t, s), s.attr)));
    }
  }

  lemma PrefixSizes(t: Tables, buf: seq<byte>, s: Insn)
    requires SizesOk(s) && s.opnd != 8
    ensures GetPrefixes(t, buf, s).Ok? ==> SizesOk(GetPrefixes(t, buf, s).insn)
  {
    hide ScanLegacy, WithLast, EmulateSize;
    ScanSizes(t, buf, s.x64, StartScan(s, buf));
  }

  lemma OpcodeSizes(t: Tables, buf: seq<byte>, s: Insn)
    requires SizesOk(s)
    ensures GetOpcode(t, buf, s).Ok? ==> SizesOk(GetOpcode(t, buf, s).insn)
  {
    hide Escapes, EscapeAttr, PrefixId, AvxAttr, XopAttr, FirstAttr;
    if s.pos < |buf| {
      EscapeSizes(t, buf, FirstByte(buf, s).(attr := FirstAttr(t, s.x64, buf[s.pos])));
    }
  }

  lemma ModrmSizes(t: Tables, buf: seq<byte>, s: Insn)
    requires SizesOk(s)
    ensures GetModrm(t, buf, s).Ok? ==> SizesOk(GetModrm(t, buf, s).insn)
  {
    hide GroupAttr, PrefixId;
  }

  lemma OperandSizes(buf: seq<byte>, s: Insn)
    requires SizesOk(s)
    ensures GetSib(buf, s).Ok? ==> SizesOk(GetSib(buf, s).insn)
    ensures GetDisplacement(buf, s).Ok? ==> SizesOk(GetDisplacement(buf, s).insn)
  {
    hide Widened, DispSize;
  }

  /** From insn_init on, every stage keeps the sizes among the ones the immediate stage expects. */
  lemma StageSizes(k: nat, t: Tables, buf: seq<byte>, s: Insn)
    requires k < IMMEDIATE && SizesOk(s) && (k == PREFIXES ==> s.opnd != 8)
    ensures Stage(k, t, buf, s).Ok? ==> SizesOk(Stage(k, t, buf, s).insn)
  {
    hide GetPrefixes, GetOpcode, GetModrm, GetSib, GetDisplacement, GetImmediate, SizesOk;
    match k {
      case 0 => PrefixSizes(t, buf, s);
      case 1 => OpcodeSizes(t, buf, s);
      case 2 => ModrmSizes(t, buf, s);
      case _ => OperandSizes(buf, s);
    }
  }

  /** The bytes an immediate of kind `imm` takes. */
  function Width(imm: bv3, opnd: nat): nat {
    if imm == 1 then 1
    else if imm == 2 then 2
    else if imm == 3 then 4
    else if imm == 4 then 8
    else if imm == 5 then opnd + 2
    else if imm == 6 then (if opnd < 4 then opnd else 4)
    else opnd
  }

  function ImmediateBytes(s: Insn): nat {
    if s.attr.moffset then s.addr
    else if s.attr.imm == 0 then 0
    else Width(s.attr.imm, s.opnd) + (if s.attr.secondImm then 1 else 0)
  }

  /** A far pointer with a 64-bit offset does not exist. */
  predicate NoSuchPointer(s: Insn) {
    !s.attr.moffset && s.attr.imm == 5 && s.opnd == 8
  }

  /** The immediate stage succeeds exactly when the bytes are there, and consumes exactly them: a memory
      offset has the address size, a pointer the operand size and a selector, and so on. */
  lemma ImmediateConsumes(buf: seq<byte>, s: Insn)
    requires SizesOk(s)
    ensures var r := GetImmediate(buf, s);
            && (r.Ok? <==> !NoSuchPointer(s) && (ImmediateBytes(s) == 0 || s.pos + ImmediateBytes(s) <= |buf|))
            && (r.Ok? ==> r.insn.pos == s.pos + ImmediateBytes(s))
  {
    hide Widened;
    if !s.attr.moffset && s.attr.imm != 0 {
      FirstConsumes(buf, s);
    }
  }

  lemma FirstConsumes(buf: seq<byte>, s: Insn)
    requires SizesOk(s) && s.attr.imm != 0
    ensures var r := FirstImmediate(buf, s);
            && (r.Ok? <==> !(s.attr.imm == 5 && s.opnd == 8) && s.pos + Width(s.attr.imm, s.opnd) <= |buf|)
            && (r.Ok? ==> r.insn.pos == s.pos + Width(s.attr.imm, s.opnd) && r.insn.attr == s.attr)
  {
    hide Widened;
    assert s.attr.imm in {1, 2, 3, 4, 5, 6, 7};
  }

  // ---------------------------------------------------------------- values

  function Unsigned(b: seq<byte>): nat {
    if b == [] then 0 else b[0] as nat + 256 * Unsigned(b[1..])
  }

  function Power256(n: nat): nat {
    if n == 0 then 1 else 256 * Power256(n - 1)
  }

  /** The two's-complement value of little-endian bytes. */
  function Signed(b: seq<byte>): int {
    if b != [] && TopBit(b[|b| - 1]) then Unsigned(b) - Power256(|b|) else Unsigned(b)
  }

  lemma {:induction false} Appended(b: seq<byte>, x: byte)
    ensures Unsigned(b + [x]) == Unsigned(b) + Power256(|b|) * x as nat
  {
    if b == [] {
      assert b + [x] == [x];
      assert Unsigned([x]) == x as nat + 256 * Unsigned([x][1..]);
    } else {
      assert (b + [x])[1..] == b[1..] + [x];
      Appended(b[1..], x);
      assert 256 * (Power256(|b| - 1) * x as nat) == Power256(|b|) * x as nat;
    }
  }

  /** Adding a byte of the sign keeps the signed value. */
  lemma SignByte(b: seq<byte>)
    requires b != []
    ensures Signed(b + [if TopBit(b[|b| - 1]) then 0xff else 0]) == Signed(b)
  {
    var x: byte := if TopBit(b[|b| - 1]) then 0xff else 0;
    Appended(b, x);
    assert (b + [x])[|b|] == x;
    assert Power256(|b| + 1) == 256 * Power256(|b|);
  }

  lemma {:induction false} SignBytes(b: seq<byte>, n: nat)
    requires b != []
    ensures var fill: byte := if TopBit(b[|b| - 1]) then 0xff else 0; Signed(b + seq(n, _ => fill)) == Signed(b)
    decreases n
  {
    var fill: byte := if TopBit(b[|b| - 1]) then 0xff else 0;
    if n == 0 {
      assert b + seq(n, _ => fill) == b;
    } else {
      SignByte(b);
      SignBytes(b + [fill], n - 1);
      assert b + seq(n, _ => fill) == b + [fill] + seq(n - 1, _ => fill);
    }
  }

  /** Displacements and signed immediates are sign-expanded: the four stored bytes have the value of the
      bytes in the instruction. */
  lemma SignExpanded(buf: seq<byte>, pos: nat, n: nat)
    requires 1 <= n <= 4 && pos + n <= |buf|
    ensures Signed(Widened(buf, pos, n, true)) == Signed(buf[pos..pos + n])
  {
    SignBytes(buf[pos..pos + n], 4 - n);
  }

  // ---------------------------------------------------------------- size prefixes

  /** One byte is the operand-size prefix and one other the address-size prefix. */
  ghost predicate SizePrefixes(t: Tables, opndByte: byte, addrByte: byte) {
    forall b: byte ::
      (IsOperandSize(t.primary(b)) <==> b == opndByte) && (IsAddressSize(t.primary(b)) <==> b == addrByte)
  }

  /** The sizes that the prefixes kept so far call for. */
  ghost predicate Switched(x64: bool, p: Scan, opndByte: byte, addrByte: byte) {
    && p.kept <= 4
    && p.opnd == (if opndByte in p.bytes[..p.kept] then 2 else 4)
    && p.addr == (if addrByte in p.bytes[..p.kept] then (if x64 then 4 else 2) else if x64 then 8 else 4)
  }

  lemma {:induction false} ScanSwitches(t: Tables, buf: seq<byte>, x64: bool, p: Scan, opndByte: byte, addrByte: byte)
    requires SizePrefixes(t, opndByte, addrByte) && Switched(x64, p, opndByte, addrByte)
    ensures var r := ScanLegacy(t, buf, x64, p); r.Some? ==> Switched(x64, r.value, opndByte, addrByte)
    decreases |buf| - p.pos
  {
    if p.pos < |buf| {
      var b := buf[p.pos];
      if b in p.bytes[..p.kept] {
        ScanSwitches(t, buf, x64, Advance(p, b), opndByte, addrByte);
      } else if p.kept < 4 {
        var q := Advance(Keep(x64, p, b, t.primary(b)), b);
        assert q.bytes[..q.kept] == p.bytes[..p.kept] + [b];
        ScanSwitches(t, buf, x64, q, opndByte, addrByte);
      }
    }
  }

  /** After the legacy prefixes the operand size is 2 exactly when the operand-size prefix was among them,
      repeated or not, and the address size is halved exactly when the address-size prefix was. */
  lemma PrefixesSwitchSizes(t: Tables, buf: seq<byte>, x64: bool, opndByte: byte, addrByte: byte)
    requires SizePrefixes(t, opndByte, addrByte)
    ensures var start := EmulateSize(buf, 0);
            var r := ScanLegacy(t, buf, x64, StartScan(Init(x64), buf));
            r.Some? ==>
              && start <= r.value.pos <= |buf|
              && r.value.opnd == (if opndByte in buf[start..r.value.pos] then 2 else 4)
              && r.value.addr == (if addrByte in buf[start..r.value.pos] then (if x64 then 4 else 2)
                                  else if x64 then 8 else 4)
  {
    var p := StartScan(Init(x64), buf);
    hide EmulateSize, ScanLegacy;
    StartScanOk(buf, Init(x64));
    ScanKeeps(t, buf, x64, p.pos, p);
    ScanSwitches(t, buf, x64, p, opndByte, addrByte);
  }
}

/** The x86 instruction decoder of src/arch/x86/decoder/insn.c as a parser over a byte buffer. A decode
    that fails stops; what it leaves behind in the structure is in InsnRetry.
*/
module InsnDecoder {
  import opened InsnTables

  const MAX_INSN_SIZE: nat := 15

  /** OVERRUN is a write past the four opcode bytes, which the code does not guard against. */
  datatype Error = ENODATA | EINVAL | OVERRUN

  type Quad = s: seq<byte> | |s| == 4 witness [0, 0, 0, 0]

  datatype Field = Field(bytes: Quad, nbytes: nat)

  const BLANK: Field := Field([0, 0, 0, 0], 0)

  datatype Insn = Insn(
    x64: bool, pos: nat, emulate: nat,
    prefixes: Field, rex: Field, vex: Field, opcode: Field, modrm: Field, sib: Field, disp: Field,
    imm1: Field, imm2: Field,
    attr: Attr, opnd: nat, addr: nat, length: nat, got: set<nat>)

  datatype Outcome = Ok(insn: Insn) | Fail(error: Error)

  function Init(x64: bool): Insn {
    Insn(x64, 0, 0, BLANK, BLANK, BLANK, BLANK, BLANK, BLANK, BLANK, BLANK, BLANK,
         NO_ATTR, 4, if x64 then 8 else 4, 0, {})
  }

  // ---------------------------------------------------------------- prefixes

  const XEN_PREFIX: seq<byte> := [0x0f, 0x0b, 0x78, 0x65, 0x6e]
  const KVM_PREFIX: seq<byte> := [0x0f, 0x0b, 0x6b, 0x76, 0x6d]

  predicate StartsWith(buf: seq<byte>, pos: nat, prefix: seq<byte>) {
    pos + |prefix| <= |buf| && buf[pos..pos + |prefix|] == prefix
  }

  function EmulateSize(buf: seq<byte>, pos: nat): nat {
    if StartsWith(buf, pos, XEN_PREFIX) || StartsWith(buf, pos, KVM_PREFIX) then 5 else 0
  }

  /** The legacy prefix scan: distinct prefixes kept so far, the last one, and the sizes they switch. */
  datatype Scan = Scan(pos: nat, count: nat, bytes: Quad, kept: nat, last: byte, opnd: nat, addr: nat)

  function Other(x: nat, a: nat, b: nat): nat {
    if x == a then b else a
  }

  function Keep(x64: bool, p: Scan, b: byte, a: Attr): Scan
    requires p.kept < 4
  {
    p.(bytes := p.bytes[p.kept := b], kept := p.kept + 1,
       addr := if !IsAddressSize(a) then p.addr else if x64 then Other(p.addr, 8, 4) else Other(p.addr, 4, 2),
       opnd := if IsOperandSize(a) && !IsAddressSize(a) then Other(p.opnd, 4, 2) else p.opnd)
  }

  function Advance(p: Scan, b: byte): Scan {
    p.(pos := p.pos + 1, count := p.count + 1, last := b)
  }

  function ScanLegacy(t: Tables, buf: seq<byte>, x64: bool, p: Scan): Option<Scan>
    requires p.kept <= 4
    decreases |buf| - p.pos
  {
    if p.pos >= |buf| then None
    else
      var b := buf[p.pos];
      var a := t.primary(b);
      if !IsLegacyPrefix(a) then Some(p)
      else if b in p.bytes[..p.kept] then ScanLegacy(t, buf, x64, Advance(p, b))
      else if p.kept == 4 then Some(p)
      else ScanLegacy(t, buf, x64, Advance(Keep(x64, p, b, a), b))
  }

  function Swapped(bytes: Quad, kept: nat, from: byte, to: byte): Quad {
    seq(4, i requires 0 <= i < 4 => if i < kept && bytes[i] == from then to else bytes[i])
  }

  /** The last prefix ends up in byte 3. */
  function WithLast(p: Scan): Quad {
    if p.last == 0 || p.last == p.bytes[3] then p.bytes
    else
      var q := if p.bytes[3] != 0 then Swapped(p.bytes, p.kept, p.last, p.bytes[3]) else p.bytes;
      q[3 := p.last]
  }

  datatype AfterRex = RexFail | SkipVex(insn: Insn) | TryVex(insn: Insn, attr: Attr)

  /** The attribute is not looked up again after a REX byte. */
  function RexStep(t: Tables, buf: seq<byte>, s: Insn): AfterRex {
    if s.pos >= |buf| then RexFail
    else
      var b := buf[s.pos];
      var a := t.primary(b);
      if s.x64 && IsRex(a) then
        TryVex(s.(rex := Field([b, 0, 0, 0], 1), pos := s.pos + 1, opnd := if RexW(b) then 8 else s.opnd), a)
      else if s.x64 && IsRex2(a) then
        if s.pos + 1 >= |buf| then RexFail
        else
          var c := buf[s.pos + 1];
          SkipVex(s.(rex := Field([b, c, 0, 0], 2), pos := s.pos + 2, opnd := if RexW(c) then 8 else s.opnd))
      else TryVex(s, a)
  }

  /** Is this VEX or XOP byte really an ordinary opcode? */
  predicate OpcodeAfterAll(x64: bool, a: Attr, second: byte) {
    || (IsXop(a) && Reg(second) == 0)
    || (!x64 && Mod(second) != 3)
  }

  function VexStep(buf: seq<byte>, s: Insn, a: Attr): Outcome {
    if s.pos >= |buf| then Fail(ENODATA)
    else if !IsVex(a) && !IsXop(a) then Ok(s)
    else if s.pos + 1 >= |buf| then Fail(ENODATA)
    else
      var b, b1 := buf[s.pos], buf[s.pos + 1];
      if OpcodeAfterAll(s.x64, a, b1) then Ok(s)
      else if IsEvex(a) then
        if s.pos + 3 >= |buf| then Fail(ENODATA)
        else
          var b2, b3 := buf[s.pos + 2], buf[s.pos + 3];
          Ok(s.(vex := Field([b, b1, b2, b3], 4), pos := s.pos + 4, opnd := if s.x64 && TopBit(b3) then 8 else s.opnd))
      else if IsVex3(a) || IsXop(a) then
        if s.pos + 2 >= |buf| then Fail(ENODATA)
        else
          var b2 := buf[s.pos + 2];
          Ok(s.(vex := Field([b, b1, b2, 0], 3), pos := s.pos + 3, opnd := if s.x64 && TopBit(b2) then 8 else s.opnd))
      else Ok(s.(vex := Field([b, b1, b1 % 128, 0], 2), pos := s.pos + 2))
  }

  function StartScan(s: Insn, buf: seq<byte>): Scan {
    Scan(s.pos + EmulateSize(buf, s.pos), s.prefixes.nbytes, s.prefixes.bytes, 0, 0, s.opnd, s.addr)
  }

  /** The size of the emulate prefix, recorded only where there is one. */
  function Emulate(s: Insn, buf: seq<byte>): nat {
    if EmulateSize(buf, s.pos) == 0 then s.emulate else EmulateSize(buf, s.pos)
  }

  function AfterScan(s: Insn, buf: seq<byte>, p: Scan): Insn {
    s.(emulate := Emulate(s, buf), pos := p.pos, prefixes := Field(WithLast(p), p.count),
       opnd := p.opnd, addr := p.addr)
  }

  function GetPrefixes(t: Tables, buf: seq<byte>, s: Insn): Outcome {
    match ScanLegacy(t, buf, s.x64, StartScan(s, buf))
    case None => Fail(ENODATA)
    case Some(p) =>
      match RexStep(t, buf, AfterScan(s, buf, p))
      case RexFail => Fail(ENODATA)
      case SkipVex(s1) => Ok(s1)
      case TryVex(s1, a) => VexStep(buf, s1, a)
  }

  // ---------------------------------------------------------------- opcode

  predicate IsAvxOrXop(s: Insn) {
    s.vex.bytes != [0, 0, 0, 0]
  }

  predicate XopByte(t: Tables, s: Insn) {
    IsXop(t.primary(s.vex.bytes[0]))
  }

  function VexM(s: Insn): nat {
    if s.vex.nbytes == 2 then 1 else if s.vex.nbytes == 3 then s.vex.bytes[1] % 32 else s.vex.bytes[1] % 8
  }

  function VexP(s: Insn): (p: nat)
    ensures p <= 3
  {
    if s.vex.nbytes == 2 then s.vex.bytes[1] % 4 else s.vex.bytes[2] % 4
  }

  predicate VexW(s: Insn) {
    s.vex.nbytes >= 3 && TopBit(s.vex.bytes[2])
  }

  function PrefixId(t: Tables, s: Insn): (id: nat)
    ensures id <= 3
  {
    if IsAvxOrXop(s) then (if XopByte(t, s) then s.vex.bytes[2] % 4 else VexP(s))
    else if s.prefixes.bytes[3] != 0 then LastPrefixId(t.primary(s.prefixes.bytes[3]))
    else 0
  }

  function VexOpcode(t: Tables, s: Insn, op: byte): Outcome {
    if XopByte(t, s) then
      var a := XopAttr(t, op, if s.vex.nbytes < 3 then 0 else s.vex.bytes[1] % 32);
      if a.vexOk then Ok(s.(attr := a)) else Fail(EINVAL)
    else
      var a := AvxAttr(t, op, VexM(s), VexP(s));
      if (a.evexOnly && s.vex.nbytes != 4) || (!a.vexOk && !IsGroup(a)) then Fail(EINVAL)
      else Ok(s.(attr := a, opnd := if a.scalable && !VexW(s) && VexP(s) == 1 then 2 else s.opnd))
  }

  function Rex2Opcode(t: Tables, s: Insn, op: byte): Insn {
    s.(attr := if TopBit(s.rex.bytes[1]) then EscapeAttr(t, op, PrefixId(t, s), t.primary(0x0f)) else t.primary(op))
  }

  function Escapes(t: Tables, buf: seq<byte>, s: Insn): Outcome
    decreases |buf| - s.pos
  {
    if !IsEscape(s.attr) then Ok(s)
    else if s.pos >= |buf| then Fail(ENODATA)
    else if s.opcode.nbytes >= 4 then Fail(OVERRUN)
    else
      var op := buf[s.pos];
      Escapes(t, buf, s.(pos := s.pos + 1, opcode := Field(s.opcode.bytes[s.opcode.nbytes := op], s.opcode.nbytes + 1),
                         attr := EscapeAttr(t, op, PrefixId(t, s), s.attr)))
  }

  function FirstAttr(t: Tables, x64: bool, op: byte): Attr {
    var a := t.primary(op);
    if x64 && a.invalid64 then NO_ATTR.(invalid64 := true) else a
  }

  function FirstByte(buf: seq<byte>, s: Insn): Insn
    requires s.pos < |buf|
  {
    s.(opcode := Field(s.opcode.bytes[0 := buf[s.pos]], 1), pos := s.pos + 1)
  }

  function GetOpcode(t: Tables, buf: seq<byte>, s: Insn): Outcome {
    if s.pos >= |buf| then Fail(ENODATA)
    else
      var op := buf[s.pos];
      var s1 := FirstByte(buf, s);
      if IsAvxOrXop(s1) then VexOpcode(t, s1, op)
      else if s1.rex.nbytes == 2 then Ok(Rex2Opcode(t, s1, op))
      else
        match Escapes(t, buf, s1.(attr := FirstAttr(t, s.x64, op)))
        case Fail(e) => Fail(e)
        case Ok(s2) => if MustVex(s2.attr) then Fail(EINVAL) else Ok(s2)
  }

  // ---------------------------------------------------------------- ModRM, SIB, displacement

  function Force64(s: Insn): Insn {
    s.(opnd := if s.x64 && s.attr.force64 then 8 else s.opnd)
  }

  function GetModrm(t: Tables, buf: seq<byte>, s: Insn): Outcome {
    if !s.attr.modrm then Ok(Force64(s))
    else if s.pos >= |buf| then Fail(ENODATA)
    else
      var b := buf[s.pos];
      var s1 := s.(modrm := Field([b, 0, 0, 0], 1), pos := s.pos + 1);
      if !IsGroup(s1.attr) then Ok(Force64(s1))
      else
        var a := GroupAttr(t, b, PrefixId(t, s1), s1.attr);
        if IsAvxOrXop(s1) && !a.vexOk then Fail(EINVAL) else Ok(Force64(s1.(attr := a)))
  }

  function GetSib(buf: seq<byte>, s: Insn): Outcome {
    var b := s.modrm.bytes[0];
    if s.modrm.nbytes == 0 || s.addr == 2 || Mod(b) == 3 || Rm(b) != 4 then Ok(s)
    else if s.pos >= |buf| then Fail(ENODATA)
    else Ok(s.(sib := Field([buf[s.pos], 0, 0, 0], 1), pos := s.pos + 1))
  }

  /** The `n` bytes at `pos`, sign-extended or zero-extended to four. */
  function Widened(buf: seq<byte>, pos: nat, n: nat, signed: bool): Quad
    requires 1 <= n <= 4 && pos + n <= |buf|
  {
    var fill: byte := if signed && TopBit(buf[pos + n - 1]) then 0xff else 0;
    buf[pos..pos + n] + seq(4 - n, _ => fill)
  }

  function DispSize(s: Insn): (n: nat)
    ensures n in {0, 1, 2, 4}
  {
    var mod, rm, base := Mod(s.modrm.bytes[0]), Rm(s.modrm.bytes[0]), s.sib.bytes[0] % 8;
    if s.modrm.nbytes == 0 || mod == 3 then 0
    else if mod == 1 then 1
    else if s.addr == 2 then (if (mod == 0 && rm == 6) || mod == 2 then 2 else 0)
    else if (mod == 0 && rm == 5) || mod == 2 || (mod == 0 && base == 5) then 4
    else 0
  }

  function GetDisplacement(buf: seq<byte>, s: Insn): Outcome {
    var n := DispSize(s);
    if n == 0 then Ok(s)
    else if s.pos + n > |buf| then Fail(ENODATA)
    else Ok(s.(disp := Field(Widened(buf, s.pos, n, true), n), pos := s.pos + n))
  }

  // ---------------------------------------------------------------- immediates

  /** Sets the first immediate (also the first half of a memory offset). */
  function Take1(buf: seq<byte>, s: Insn, n: nat): Outcome
    requires 1 <= n <= 4
  {
    if s.pos + n > |buf| then Fail(ENODATA)
    else Ok(s.(imm1 := Field(Widened(buf, s.pos, n, true), n), pos := s.pos + n))
  }

  function Take2(buf: seq<byte>, s: Insn, n: nat, signed: bool): Outcome
    requires 1 <= n <= 4
  {
    if s.pos + n > |buf| then Fail(ENODATA)
    else Ok(s.(imm2 := Field(Widened(buf, s.pos, n, signed), n), pos := s.pos + n))
  }

  function TakeBoth(buf: seq<byte>, s: Insn, n1: nat, n2: nat, signed: bool): Outcome
    requires 1 <= n1 <= 4 && 1 <= n2 <= 4
  {
    match Take1(buf, s, n1)
    case Fail(e) => Fail(e)
    case Ok(s1) => Take2(buf, s1, n2, signed)
  }

  function GetMoffset(buf: seq<byte>, s: Insn): Outcome {
    match s.addr
    case 2 => Take1(buf, s, 2)
    case 4 => Take1(buf, s, 4)
    case 8 => TakeBoth(buf, s, 4, 4, true)
    case _ => Fail(ENODATA)
  }

  function FirstImmediate(buf: seq<byte>, s: Insn): Outcome {
    var imm := s.attr.imm;
    if imm == 1 then Take1(buf, s, 1)
    else if imm == 2 then Take1(buf, s, 2)
    else if imm == 3 then Take1(buf, s, 4)
    else if imm == 4 then TakeBoth(buf, s, 4, 4, true)
    else if imm == 5 then
      match s.opnd
      case 2 => TakeBoth(buf, s, 2, 2, false)
      case 4 => TakeBoth(buf, s, 4, 2, false)
      case _ => Fail(ENODATA)
    else if imm == 6 then
      match s.opnd
      case 2 => Take1(buf, s, 2)
      case 4 => Take1(buf, s, 4)
      case 8 => Take1(buf, s, 4)
      case _ => Fail(ENODATA)
    else
      match s.opnd
      case 2 => Take1(buf, s, 2)
      case 4 => Take1(buf, s, 4)
      case 8 => TakeBoth(buf, s, 4, 4, true)
      case _ => Fail(ENODATA)
  }

  function GetImmediate(buf: seq<byte>, s: Insn): Outcome {
    if s.attr.moffset then GetMoffset(buf, s)
    else if s.attr.imm == 0 then Ok(s)
    else
      match FirstImmediate(buf, s)
      case Fail(e) => Fail(e)
      case Ok(s1) => if s1.attr.secondImm then Take2(buf, s1, 1, true) else Ok(s1)
  }

  // ---------------------------------------------------------------- stages on demand

  const PREFIXES: nat := 0
  const OPCODE: nat := 1
  const MODRM: nat := 2
  const SIB: nat := 3
  const DISPLACEMENT: nat := 4
  const IMMEDIATE: nat := 5

  /** The work of one stage once the stages before it are done. */
  function Stage(k: nat, t: Tables, buf: seq<byte>, s: Insn): Outcome
    requires k <= IMMEDIATE
  {
    match k
    case 0 => GetPrefixes(t, buf, s)
    case 1 => GetOpcode(t, buf, s)
    case 2 => GetModrm(t, buf, s)
    case 3 => GetSib(buf, s)
    case 4 => GetDisplacement(buf, s)
    case _ => GetImmediate(buf, s)
  }

  /** A getter: nothing if its field was got, otherwise the getter before it and then its own stage. */
  function Get(k: nat, t: Tables, buf: seq<byte>, s: Insn): Outcome
    requires k <= IMMEDIATE
  {
    if k in s.got then Ok(s)
    else
      match (if k == 0 then Ok(s) else Get(k - 1, t, buf, s))
      case Fail(e) => Fail(e)
      case Ok(s1) =>
        match Stage(k, t, buf, s1)
        case Fail(e) => Fail(e)
        case Ok(s2) => Ok(s2.(got := s2.got + {k}))
  }

  function GetLength(t: Tables, buf: seq<byte>, s: Insn): Outcome {
    if s.length != 0 then Ok(s)
    else
      match Get(IMMEDIATE, t, buf, s)
      case Fail(e) => Fail(e)
      case Ok(s1) => Ok(s1.(length := s1.pos % 256))
  }

  /** insn_init's view of a buffer. */
  function Window(buf: seq<byte>): (w: seq<byte>)
    ensures |w| <= MAX_INSN_SIZE
  {
    if |buf| > MAX_INSN_SIZE then buf[..MAX_INSN_SIZE] else buf
  }

  predicate Complete(s: Insn) {
    {OPCODE, MODRM, SIB, DISPLACEMENT, IMMEDIATE} <= s.got
  }

  /** insn_decode. */
  function Decode(t: Tables, buf: seq<byte>, x64: bool): Outcome {
    match GetLength(t, Window(buf), Init(x64))
    case Fail(e) => Fail(e)
    case Ok(s) => if Complete(s) then Ok(s) else Fail(EINVAL)
  }
}

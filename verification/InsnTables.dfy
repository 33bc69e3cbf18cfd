/** Opcode attributes (include/arch/x86/decoder/inat.h) and the table lookups of src/arch/x86/decoder/inat.c.
    The tables themselves are generated from an opcode map that is not part of this model: they are a
    parameter. An attribute word is held as its bit fields.
*/
module InsnTables {

  type byte = b: int | 0 <= b < 256

  datatype Option<T> = None | Some(value: T)

  datatype Attr = Attr(
    pfx: bv5, esc: bv2, grp: bv5, imm: bv3,
    modrm: bool, force64: bool, secondImm: bool, moffset: bool, variant: bool,
    vexOk: bool, vexOnly: bool, evexOnly: bool, scalable: bool, invalid64: bool)

  const NO_ATTR: Attr :=
    Attr(0, 0, 0, 0, false, false, false, false, false, false, false, false, false, false)

  type Table = byte -> Attr

  /** Primary, escape (by escape id and prefix id), group (by group id and prefix id; entry by ModRM.reg),
      AVX (by map and prefix id) and XOP tables. */
  datatype Tables = Tables(
    primary: Table,
    escape: (bv2, nat) -> Option<Table>,
    group: (bv5, nat) -> Option<Table>,
    avx: (nat, nat) -> Option<Table>,
    xop: nat -> Option<Table>)

  predicate IsLegacyPrefix(a: Attr) { 0 < a.pfx <= 11 }
  predicate IsOperandSize(a: Attr) { a.pfx == 1 }
  predicate IsAddressSize(a: Attr) { a.pfx == 11 }
  predicate IsRex(a: Attr) { a.pfx == 12 }
  predicate IsRex2(a: Attr) { a.pfx == 16 }
  predicate IsVex(a: Attr) { a.pfx == 13 || a.pfx == 14 || a.pfx == 15 }
  predicate IsVex3(a: Attr) { a.pfx == 14 }
  predicate IsEvex(a: Attr) { a.pfx == 15 }
  predicate IsXop(a: Attr) { a.pfx == 17 }
  predicate IsEscape(a: Attr) { a.esc != 0 }
  predicate IsGroup(a: Attr) { a.grp != 0 }
  predicate MustVex(a: Attr) { a.vexOnly || a.evexOnly }

  function LastPrefixId(a: Attr): nat {
    if a.pfx > 3 then 0 else a.pfx as nat
  }

  /** Bitwise or of two attribute words. */
  function Or(a: Attr, b: Attr): Attr {
    Attr(a.pfx | b.pfx, a.esc | b.esc, a.grp | b.grp, a.imm | b.imm,
         a.modrm || b.modrm, a.force64 || b.force64, a.secondImm || b.secondImm, a.moffset || b.moffset,
         a.variant || b.variant, a.vexOk || b.vexOk, a.vexOnly || b.vexOnly, a.evexOnly || b.evexOnly,
         a.scalable || b.scalable, a.invalid64 || b.invalid64)
  }

  function EscapeAttr(t: Tables, op: byte, id: nat, esc: Attr): Attr {
    match t.escape(esc.esc, 0)
    case None => NO_ATTR
    case Some(table) =>
      if table(op).variant && id != 0 then
        match t.escape(esc.esc, id)
        case None => NO_ATTR
        case Some(other) => other(op)
      else table(op)
  }

  function GroupAttr(t: Tables, modrm: byte, id: nat, grp: Attr): Attr {
    var common := grp.(grp := 0);
    match t.group(grp.grp, 0)
    case None => common
    case Some(table) =>
      if table(Reg(modrm)).variant && id != 0 then
        match t.group(grp.grp, id)
        case None => common
        case Some(other) => Or(other(Reg(modrm)), common)
      else Or(table(Reg(modrm)), common)
  }

  function AvxAttr(t: Tables, op: byte, m: nat, p: nat): Attr {
    if m > 0x1f || p > 3 then NO_ATTR
    else
      match t.avx(m, 0)
      case None => NO_ATTR
      case Some(table) =>
        if !IsGroup(table(op)) && p != 0 then
          match t.avx(m, p)
          case None => NO_ATTR
          case Some(other) => other(op)
        else table(op)
  }

  function XopAttr(t: Tables, op: byte, m: nat): Attr {
    if m < 8 || m > 0x1f then NO_ATTR
    else
      match t.xop(m - 8)
      case None => NO_ATTR
      case Some(table) => table(op)
  }

  // ---------------------------------------------------------------- byte fields

  function Mod(b: byte): byte { b / 64 }
  function Reg(b: byte): byte { b / 8 % 8 }
  function Rm(b: byte): byte { b % 8 }
  predicate RexW(b: byte) { b / 8 % 2 == 1 }
  predicate TopBit(b: byte) { b >= 0x80 }

  // ---------------------------------------------------------------- well-formed tables

  /** At most two escapes in a row. */
  ghost predicate ShortEscapes(t: Tables) {
    forall op1: byte, op2: byte, op3: byte, id: nat | id <= 3 ::
      var a1 := t.primary(op1);
      var a2 := EscapeAttr(t, op2, id, a1);
      IsEscape(a1) && IsEscape(a2) ==> !IsEscape(EscapeAttr(t, op3, id, a2))
  }

  /** A VEX or XOP byte that turns out to be an ordinary opcode is followed by a byte of its own. */
  ghost predicate PrefixBytesContinue(t: Tables) {
    forall b: byte :: var a := t.primary(b);
                && (IsVex(a) || IsXop(a) ==> a.modrm || IsEscape(a))
                && (IsXop(a) ==> !a.invalid64)
  }
}

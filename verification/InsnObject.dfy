/** The decoder as the structure the source fills in place, with its loops over prefixes and escapes. */
module InsnObject {
  import opened InsnTables
  import opened InsnDecoder
  import opened InsnRetry

  /** __insn_get_emulate_prefix's comparison loop. */
  method MatchesPrefix(buf: seq<byte>, pos: nat, prefix: seq<byte>) returns (ok: bool)
    ensures ok == StartsWith(buf, pos, prefix)
  {
    var i: nat := 0;
    while i < |prefix|
      invariant i <= |prefix| && (i > 0 ==> pos + i <= |buf|)
      invariant i > 0 ==> buf[pos..pos + i] == prefix[..i]
    {
      if pos + i + 1 > |buf| {
        return false;
      }
      if buf[pos + i] != prefix[i] {
        assert pos + |prefix| <= |buf| ==> buf[pos..pos + |prefix|][i] == buf[pos + i];
        return false;
      }
      assert buf[pos..pos + i + 1] == buf[pos..pos + i] + [buf[pos + i]];
      i := i + 1;
    }
    assert prefix[..|prefix|] == prefix;
    ok := pos + |prefix| <= |buf|;
    assert |prefix| == 0 && ok ==> buf[pos..pos] == prefix;
  }

  /** Is the byte among the first `kept`? */
  method Contains(bytes: Quad, kept: nat, b: byte) returns (found: bool)
    requires kept <= 4
    ensures found == (b in bytes[..kept])
  {
    var i: nat := 0;
    while i < kept
      invariant i <= kept && b !in bytes[..i]
    {
      if bytes[i] == b {
        return true;
      }
      i := i + 1;
    }
    return false;
  }

  /** The legacy prefix loop. */
  method ScanPrefixes(t: Tables, buf: seq<byte>, x64: bool, start: Scan) returns (p: Scan)
    requires start.kept <= 4
    ensures p == ScanEnd(t, buf, x64, start)
  {
    p := start;
    while p.pos < |buf| && IsLegacyPrefix(t.primary(buf[p.pos]))
      invariant p.kept <= 4
      invariant ScanEnd(t, buf, x64, p) == ScanEnd(t, buf, x64, start)
      decreases |buf| - p.pos
    {
      var b := buf[p.pos];
      var found := Contains(p.bytes, p.kept, b);
      if !found {
        if p.kept == 4 {
          return;
        }
        p := Keep(x64, p, b, t.primary(b));
      }
      p := Advance(p, b);
    }
  }

  /** Moves the last prefix into byte 3, and what was there into the last prefix's place. */
  method PlaceLast(p: Scan) returns (q: Quad)
    requires p.kept <= 4
    ensures q == WithLast(p)
  {
    q := p.bytes;
    if p.last != 0 && p.last != q[3] {
      var b := q[3];
      if b != 0 {
        var i: nat := 0;
        while i < p.kept
          invariant i <= p.kept
          invariant forall j | 0 <= j < 4 :: q[j] == if j < i && p.bytes[j] == p.last then b else p.bytes[j]
        {
          if q[i] == p.last {
            q := q[i := b];
          }
          i := i + 1;
        }
        assert q == Swapped(p.bytes, p.kept, p.last, b);
      }
      q := q[3 := p.last];
    }
  }

  class Decoder {
    const t: Tables
    const buf: seq<byte>
    var s: Insn

    /** insn_init. */
    constructor (t: Tables, bytes: seq<byte>, x64: bool)
      ensures this.t == t && buf == Window(bytes) && s == Init(x64)
    {
      this.t := t;
      buf := Window(bytes);
      s := Init(x64);
    }

    method ReadPrefixes() returns (err: Option<Error>)
      modifies this
      ensures var r := GetPrefixes(t, buf, old(s)); (s, err) == After(r, LeftPrefixes(t, buf, old(s)))
    {
      hide ScanEnd, ScanLegacy, WithLast, RexStep, VexStep, LeftVex;
      ghost var start := s;
      var xen := MatchesPrefix(buf, s.pos, XEN_PREFIX);
      var kvm := false;
      if !xen {
        kvm := MatchesPrefix(buf, s.pos, KVM_PREFIX);
      }
      if xen || kvm {
        s := s.(emulate := 5, pos := s.pos + 5);
      }
      var p := ScanPrefixes(t, buf, s.x64, Scan(s.pos, s.prefixes.nbytes, s.prefixes.bytes, 0, 0, s.opnd, s.addr));
      assert p == ScanEnd(t, buf, start.x64, StartScan(start, buf));
      s := s.(pos := p.pos, prefixes := Field(p.bytes, p.count), opnd := p.opnd, addr := p.addr);
      if p.pos >= |buf| {
        return Some(ENODATA);
      }
      var last := PlaceLast(p);
      s := s.(prefixes := Field(last, p.count));
      match RexStep(t, buf, s)
      case RexFail =>
        s := s.(rex := s.rex.(bytes := s.rex.bytes[0 := buf[p.pos]]));
        return Some(ENODATA);
      case SkipVex(s1) =>
        s := s1;
        return None;
      case TryVex(s1, a) =>
        var r := VexStep(buf, s1, a);
        if r.Fail? {
          s := LeftVex(buf, s1);
          return Some(r.error);
        }
        s := r.insn;
        return None;
    }

    method ReadOpcode() returns (err: Option<Error>)
      modifies this
      ensures var r := GetOpcode(t, buf, old(s)); (s, err) == After(r, LeftOpcode(t, buf, old(s)))
    {
      hide Rex2Opcode, EscapeAttr, PrefixId, Escapes, AvxAttr, XopAttr;
      if s.pos >= |buf| {
        return Some(ENODATA);
      }
      var op := buf[s.pos];
      s := FirstByte(buf, s);
      if IsAvxOrXop(s) {
        err := ReadVexOpcode(op);
        return;
      }
      if s.rex.nbytes == 2 {
        s := Rex2Opcode(t, s, op);
        return None;
      }
      s := s.(attr := FirstAttr(t, s.x64, op));
      ghost var first := s;
      while IsEscape(s.attr)
        invariant EscapesEnd(t, buf, s) == EscapesEnd(t, buf, first)
        decreases |buf| - s.pos
      {
        if s.pos >= |buf| {
          return Some(ENODATA);
        }
        if s.opcode.nbytes >= 4 {
          return Some(OVERRUN);
        }
        op := buf[s.pos];
        s := s.(pos := s.pos + 1, opcode := Field(s.opcode.bytes[s.opcode.nbytes := op], s.opcode.nbytes + 1),
                attr := EscapeAttr(t, op, PrefixId(t, s), s.attr));
      }
      if MustVex(s.attr) {
        s := s.(attr := NO_ATTR);
        return Some(EINVAL);
      }
      return None;
    }

    /** The opcode behind a VEX, EVEX or XOP prefix. */
    method ReadVexOpcode(op: byte) returns (err: Option<Error>)
      modifies this
      ensures (s, err) == After(VexOpcode(t, old(s), op), LeftVexOpcode(t, old(s), op))
    {
      hide AvxAttr, XopAttr;
      if XopByte(t, s) {
        s := s.(attr := XopAttr(t, op, if s.vex.nbytes < 3 then 0 else s.vex.bytes[1] % 32));
        if !s.attr.vexOk {
          s := s.(attr := NO_ATTR);
          return Some(EINVAL);
        }
        return None;
      }
      s := s.(attr := AvxAttr(t, op, VexM(s), VexP(s)));
      if s.attr.scalable && !VexW(s) && VexP(s) == 1 {
        s := s.(opnd := 2);
      }
      if (s.attr.evexOnly && s.vex.nbytes != 4) || (!s.attr.vexOk && !IsGroup(s.attr)) {
        s := s.(attr := NO_ATTR);
        return Some(EINVAL);
      }
      return None;
    }

    /** A getter: the stages that are missing, in order. */
    method Demand(k: nat) returns (err: Option<Error>)
      requires k <= IMMEDIATE
      modifies this
      ensures Called(s, err) == Call(k, t, buf, old(s))
      decreases k
    {
      hide GetPrefixes, GetOpcode, GetModrm, GetSib, GetDisplacement, GetImmediate, LeftPrefixes, LeftOpcode;
      hide LeftModrm, LeftImmediate;
      if k in s.got {
        return None;
      }
      if k > 0 {
        err := Demand(k - 1);
        if err != None {
          return;
        }
      }
      if k == PREFIXES {
        err := ReadPrefixes();
      } else if k == OPCODE {
        err := ReadOpcode();
      } else {
        var r := Stage(k, t, buf, s);
        s, err := if r.Ok? then r.insn else Left(k, t, buf, s), Answer(r);
      }
      if err == None {
        s := s.(got := s.got + {k});
      }
    }
  }

  /** Structure and answer after a stage, given what it leaves when it fails. */
  function After(r: Outcome, left: Insn): (Insn, Option<Error>) {
    (if r.Ok? then r.insn else left, Answer(r))
  }

  /** insn_decode. */
  method DecodeInsn(t: Tables, bytes: seq<byte>, x64: bool) returns (r: Outcome)
    ensures r == Decode(t, bytes, x64)
  {
    hide Get, Call;
    var d := new Decoder(t, bytes, x64);
    CallIsGet(IMMEDIATE, t, d.buf, d.s);
    var err := d.Demand(IMMEDIATE);
    if err != None {
      return Fail(err.value);
    }
    d.s := d.s.(length := d.s.pos % 256);
    if Complete(d.s) {
      return Ok(d.s);
    }
    return Fail(EINVAL);
  }
}

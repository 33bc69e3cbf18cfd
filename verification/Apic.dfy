/** The virtual local APIC of src/arch/x86/vmx/apic.c: the software register file, the virtual-APIC page
    it is mirrored into, in-service/request/trigger bitmaps (bit N is vector N), and the timer.
    Registers are numbers below 2^32; masks are written with division and remainder.
*/
module Apic {

  const VECTORS: nat := 256
  const WORDS: nat := 8
  const U64_MOD: nat := 0x1_0000_0000_0000_0000

  const ID: nat := 0x020
  const VERSION: nat := 0x030
  const TPR: nat := 0x080
  const APR: nat := 0x090
  const PPR: nat := 0x0a0
  const EOI: nat := 0x0b0
  const RRD: nat := 0x0c0
  const LDR: nat := 0x0d0
  const DFR: nat := 0x0e0
  const SVR: nat := 0x0f0
  const ISR: nat := 0x100
  const TMR: nat := 0x180
  const IRR: nat := 0x200
  const ESR: nat := 0x280
  const LVT_CMCI: nat := 0x2f0
  const ICR_LOW: nat := 0x300
  const ICR_HIGH: nat := 0x310
  const LVT_TIMER: nat := 0x320
  const LVT_THERMAL: nat := 0x330
  const LVT_PMC: nat := 0x340
  const LVT_LINT0: nat := 0x350
  const LVT_LINT1: nat := 0x360
  const LVT_ERROR: nat := 0x370
  const TIMER_ICR: nat := 0x380
  const TIMER_CCR: nat := 0x390
  const TIMER_DCR: nat := 0x3e0

  const VERSION_VALUE: nat := 0x0005_0014
  const MASKED: nat := 0x1_0000
  const DIV1: nat := 0x0b

  datatype Errno = OK | EINVAL

  type Bits = s: seq<bool> | |s| == 256 witness seq(256, _ => false)

  datatype State = State(
    id: nat, version: nat, tpr: nat, ppr: nat, svr: nat, ldr: nat, dfr: nat, esr: nat, esrPending: nat,
    irr: Bits, isr: Bits, tmr: Bits, icrLow: nat, icrHigh: nat,
    lvtTimer: nat, lvtThermal: nat, lvtPmc: nat, lvtLint0: nat, lvtLint1: nat, lvtError: nat,
    timerIcr: nat, timerDcr: nat, timerMode: nat, timerStart: nat, enabled: bool, page: map<nat, nat>)

  // ---------------------------------------------------------------- bitmaps and the page

  function NoBits(): Bits {
    seq(VECTORS, _ => false)
  }

  function Pack(s: seq<bool>): nat {
    if s == [] then 0 else (if s[0] then 1 else 0) + 2 * Pack(s[1..])
  }

  /** Word `w` of a bitmap. */
  function Word(b: Bits, w: nat): nat
    requires w < WORDS
  {
    Pack(b[w * 32..w * 32 + 32])
  }

  /** relm_vapic_sync_reg. */
  function Sync(a: State, offset: nat, value: nat): State {
    a.(page := a.page[offset := value])
  }

  /** relm_vapic_read_reg; the page starts out zeroed. */
  function PageWord(a: State, offset: nat): nat {
    if offset in a.page then a.page[offset] else 0
  }

  /** The highest vector below `n` in the bitmap, or -1. */
  function HighestBelow(b: Bits, n: nat): (v: int)
    requires n <= VECTORS
    ensures -1 <= v < n
    ensures v >= 0 ==> b[v]
    ensures forall k | v < k < n :: !b[k]
  {
    if n == 0 then -1 else if b[n - 1] then n - 1 else HighestBelow(b, n - 1)
  }

  function Highest(b: Bits): (v: int)
    ensures -1 <= v < VECTORS
    ensures v >= 0 ==> b[v]
    ensures forall k | v < k < VECTORS :: !b[k]
  {
    HighestBelow(b, VECTORS)
  }

  // ---------------------------------------------------------------- priority

  function Class(x: nat): nat {
    x / 16 % 16 * 16
  }

  /** The priority that TPR and the vector in service demand. */
  function Priority(a: State): nat {
    var v := Highest(a.isr);
    if v > 0 && Class(v) > Class(a.tpr) then Class(v) else Class(a.tpr)
  }

  function PprUpdate(a: State): State {
    Sync(a.(ppr := Priority(a)), PPR, Priority(a))
  }

  /** relm_apic_eoi. */
  function Eoi(a: State): State {
    var v := Highest(a.isr);
    if v < 0 then a
    else
      var a1 := a.(isr := a.isr[v := false]);
      var a2 := Sync(a1, ISR + v / 32 * 16, Word(a1.isr, v / 32));
      var a3 := if a2.tmr[v] then
                  var b := a2.(tmr := a2.tmr[v := false]);
                  Sync(b, TMR + v / 32 * 16, Word(b.tmr, v / 32))
                else a2;
      PprUpdate(a3)
  }

  /** relm_apic_inject_interrupt. */
  function Inject(a: State, vector: nat, level: bool): State
    requires vector < VECTORS
  {
    var a1 := a.(irr := a.irr[vector := true], tmr := a.tmr[vector := level]);
    Sync(Sync(a1, IRR + vector / 32 * 16, Word(a1.irr, vector / 32)), TMR + vector / 32 * 16, Word(a1.tmr, vector / 32))
  }

  /** relm_apic_set_error: errors become visible when ESR is written. */
  function SetError(a: State, bits: nat): State {
    var e := bits % 256;
    if e == 0 then a
    else
      var a1 := a.(esrPending := OrByte(a.esrPending, e));
      var vector := a.lvtError % 256;
      if a1.enabled && a1.lvtError / MASKED % 2 == 0 && vector >= 16 then Inject(a1, vector, false) else a1
  }

  /** Bitwise or of the low bytes. */
  function OrByte(x: nat, y: nat): nat {
    OrBits(x, y, 8)
  }

  function OrBits(x: nat, y: nat, n: nat): nat {
    if n == 0 then 0 else (if x % 2 == 1 || y % 2 == 1 then 1 else 0) + 2 * OrBits(x / 2, y / 2, n - 1)
  }

  // ---------------------------------------------------------------- timer

  /** The divide value of a DCR encoding. */
  function Divisor(dcr: nat): nat {
    match dcr % 16
    case 0 => 2
    case 1 => 4
    case 2 => 8
    case 3 => 16
    case 8 => 32
    case 9 => 64
    case 10 => 128
    case _ => 1
  }

  /** relm_apic_get_timer_ccr at time `now`. */
  function Ccr(a: State, now: nat): nat {
    if a.timerIcr == 0 || a.timerStart == 0 then 0
    else
      var ticks := (now - a.timerStart) % U64_MOD / (10 * Divisor(a.timerDcr));
      if a.timerMode == 1 then a.timerIcr - ticks % a.timerIcr
      else if ticks >= a.timerIcr then 0 else a.timerIcr - ticks
  }

  // ---------------------------------------------------------------- register access

  function TopByte(x: nat): nat {
    x / 0x100_0000 % 256 * 0x100_0000
  }

  function WithoutPending(x: nat): nat {
    x - x / 0x1000 % 2 * 0x1000
  }

  /** relm_apic_init around an allocated, zeroed page. */
  function Init(apicId: nat): State {
    var r := State(apicId % 256 * 0x100_0000, VERSION_VALUE, 0, 0, 0xff, 0, 0xffff_ffff, 0, 0,
                   NoBits(), NoBits(), NoBits(), 0, 0, MASKED, MASKED, MASKED, MASKED, MASKED, MASKED,
                   0, DIV1, 0, 0, false, map[]);
    r.(page := map[ID := r.id, VERSION := r.version, TPR := 0, PPR := 0, LDR := 0, DFR := r.dfr, SVR := r.svr, ESR := 0,
                   ICR_HIGH := 0, LVT_TIMER := MASKED, LVT_THERMAL := MASKED, LVT_PMC := MASKED, LVT_LINT0 := MASKED,
                   LVT_LINT1 := MASKED, LVT_ERROR := MASKED, TIMER_ICR := 0, TIMER_DCR := DIV1])
  }

  /** relm_apic_write, except for ICR_LOW, which concerns all vCPUs. */
  function Write(a: State, offset: nat, value: nat, now: nat): (State, Errno) {
    if offset % 4 != 0 then (a, OK)
    else if offset == ID then (Sync(a.(id := TopByte(value)), ID, TopByte(value)), OK)
    else if offset == VERSION then (a, OK)
    else if offset == TPR then (PprUpdate(Sync(a.(tpr := value % 256), TPR, value % 256)), OK)
    else if offset == EOI then (Sync(Eoi(a), EOI, 0), OK)
    else if offset == LDR then (Sync(a.(ldr := TopByte(value)), LDR, TopByte(value)), OK)
    else if offset == DFR then
      var v := value / 0x1000_0000 * 0x1000_0000 + 0x0fff_ffff;
      (Sync(a.(dfr := v), DFR, v), OK)
    else if offset == SVR then (Sync(a.(svr := value, enabled := value / 256 % 2 == 1), SVR, value), OK)
    else if IsBitmap(offset) && offset % 16 == 0 then (a, OK)
    else if offset == ESR then (Sync(a.(esr := a.esrPending % 256, esrPending := 0), ESR, a.esrPending % 256), OK)
    else if offset == LVT_CMCI then (a, OK)
    else if offset == ICR_HIGH then (Sync(a.(icrHigh := value), ICR_HIGH, value), OK)
    else if offset == ICR_LOW then (WriteIcr(a, value), OK)
    else if offset == LVT_TIMER then
      (Sync(a.(lvtTimer := value, timerMode := value / 0x2_0000 % 4), LVT_TIMER, value), OK)
    else if offset == LVT_THERMAL then (Sync(a.(lvtThermal := value), LVT_THERMAL, value), OK)
    else if offset == LVT_PMC then (Sync(a.(lvtPmc := value), LVT_PMC, value), OK)
    else if offset == LVT_LINT0 then (Sync(a.(lvtLint0 := value), LVT_LINT0, value), OK)
    else if offset == LVT_LINT1 then (Sync(a.(lvtLint1 := value), LVT_LINT1, value), OK)
    else if offset == LVT_ERROR then (Sync(a.(lvtError := value), LVT_ERROR, value), OK)
    else if offset == TIMER_ICR then
      (Sync(a.(timerIcr := value, timerStart := if value != 0 then now else 0), TIMER_ICR, value), OK)
    else if offset == TIMER_CCR then (a, OK)
    else if offset == TIMER_DCR then
      var v := value % 4 + value / 8 % 2 * 8;
      (Sync(a.(timerDcr := v), TIMER_DCR, v), OK)
    else (a, EINVAL)
  }

  /** What an ICR_LOW write does to the sender itself before the interrupt is sent. */
  function WriteIcr(a: State, value: nat): State {
    Sync(a.(icrLow := value), ICR_LOW, WithoutPending(value))
  }

  predicate IsBitmap(offset: nat) {
    ISR <= offset < ESR
  }

  /** relm_apic_read: the new state, the value and the answer. */
  function Read(a: State, offset: nat, now: nat): (State, nat, Errno) {
    if offset % 4 != 0 then (a, 0, OK)
    else if offset == ID then (a, a.id, OK)
    else if offset == VERSION then (a, a.version, OK)
    else if offset == TPR then (a.(tpr := PageWord(a, TPR)), PageWord(a, TPR), OK)
    else if offset == APR || offset == PPR then (PprUpdate(a), Priority(a), OK)
    else if offset == EOI || offset == RRD then (a, 0, OK)
    else if offset == LDR then (a, a.ldr, OK)
    else if offset == DFR then (a, a.dfr, OK)
    else if offset == SVR then (a, a.svr, OK)
    else if offset == ESR then (a, a.esr, OK)
    else if offset == LVT_CMCI then (a, MASKED, OK)
    else if offset == ICR_LOW then (a, WithoutPending(a.icrLow), OK)
    else if offset == ICR_HIGH then (a, a.icrHigh, OK)
    else if offset == LVT_TIMER then (a, a.lvtTimer, OK)
    else if offset == LVT_THERMAL then (a, a.lvtThermal, OK)
    else if offset == LVT_PMC then (a, a.lvtPmc, OK)
    else if offset == LVT_LINT0 then (a, a.lvtLint0, OK)
    else if offset == LVT_LINT1 then (a, a.lvtLint1, OK)
    else if offset == LVT_ERROR then (a, a.lvtError, OK)
    else if offset == TIMER_ICR then (a, a.timerIcr, OK)
    else if offset == TIMER_DCR then (a, a.timerDcr, OK)
    else if offset == TIMER_CCR then (Sync(a, TIMER_CCR, Ccr(a, now)), Ccr(a, now), OK)
    else if ISR <= offset <= ISR + 0x70 then (a, Word(a.isr, (offset - ISR) / 16), OK)
    else if TMR <= offset <= TMR + 0x70 then (a, Word(a.tmr, (offset - TMR) / 16), OK)
    else if IRR <= offset <= IRR + 0x70 then (a, Word(a.irr, (offset - IRR) / 16), OK)
    else (a, 0, EINVAL)
  }
}

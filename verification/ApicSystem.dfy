/** All virtual APICs of a machine: interprocessor interrupts (src/arch/x86/vmx/apic.c:483-704) and runs of
    register accesses, injections and error reports over any number of vCPUs.
*/
module ApicSystem {
  import opened Apic
  import opened ApicProofs

  /** An entry of the vCPU array; entries may be empty. */
  datatype Slot = Empty | Present(apic: State)

  const FIXED: nat := 0

  function DeliveryMode(low: nat): nat { low / 0x100 % 8 }
  function VectorOf(low: nat): nat { low % 256 }
  predicate LevelOf(low: nat) { low / 0x8000 % 2 == 1 }
  function Shorthand(low: nat): nat { low / 0x4_0000 % 4 }
  predicate LogicalMode(low: nat) { low / 0x800 % 2 == 1 }
  function HighByte(x: nat): nat { x / 0x100_0000 % 256 }

  /** Is the bitwise and of the low `n` bits nonzero? */
  predicate CommonBit(x: nat, y: nat, n: nat) {
    n > 0 && ((x % 2 == 1 && y % 2 == 1) || CommonBit(x / 2, y / 2, n - 1))
  }

  /** Shorthand first; without one the destination byte, as an APIC ID or as a mask against LDR. */
  predicate Matches(a: State, isSender: bool, low: nat, high: nat) {
    match Shorthand(low)
    case 1 => isSender
    case 2 => true
    case 3 => !isSender
    case _ =>
      if LogicalMode(low) then CommonBit(HighByte(a.ldr), HighByte(high), 8)
      else HighByte(a.id) == HighByte(high)
  }

  predicate Targeted(vcpus: seq<Slot>, sender: nat, low: nat, high: nat, j: nat)
    requires j < |vcpus|
  {
    vcpus[j].Present? && Matches(vcpus[j].apic, j == sender, low, high)
  }

  /** The targets among the first `n` slots, in slot order and at most `room` of them. */
  function Targets(vcpus: seq<Slot>, sender: nat, low: nat, high: nat, room: nat, n: nat): (r: seq<nat>)
    requires n <= |vcpus|
    ensures |r| <= room && (forall i | 0 <= i < |r| :: r[i] < n && vcpus[r[i]].Present?)
    ensures forall i, j | 0 <= i < j < |r| :: r[i] < r[j]
  {
    if n == 0 then []
    else
      var r := Targets(vcpus, sender, low, high, room, n - 1);
      if |r| < room && Targeted(vcpus, sender, low, high, n - 1) then r + [n - 1] else r
  }

  /** How many of the first `n` slots match. */
  function Matching(vcpus: seq<Slot>, sender: nat, low: nat, high: nat, n: nat): (c: nat)
    requires n <= |vcpus|
    ensures c <= n
  {
    if n == 0 then 0
    else Matching(vcpus, sender, low, high, n - 1) + (if Targeted(vcpus, sender, low, high, n - 1) then 1 else 0)
  }

  /** relm_apic_ipi_deliver: the other delivery modes are only logged. */
  function Deliver(a: State, low: nat): State {
    if DeliveryMode(low) == FIXED then Inject(a, VectorOf(low), LevelOf(low)) else a
  }

  function DeliverAll(vcpus: seq<Slot>, targets: seq<nat>, low: nat): (r: seq<Slot>)
    requires forall t <- targets :: t < |vcpus| && vcpus[t].Present?
    ensures |r| == |vcpus| && forall j | 0 <= j < |r| :: r[j].Present? == vcpus[j].Present?
    decreases |targets|
  {
    if targets == [] then vcpus
    else
      var n := |targets| - 1;
      var r := DeliverAll(vcpus, targets[..n], low);
      assert targets[n] in targets;
      r[targets[n] := Present(Deliver(r[targets[n]].apic, low))]
  }

  /** relm_apic_handle_icr_write. */
  function IcrWrite(vcpus: seq<Slot>, sender: nat, value: nat, room: nat): (r: seq<Slot>)
    requires sender < |vcpus| && vcpus[sender].Present?
    ensures |r| == |vcpus| && forall j | 0 <= j < |r| :: r[j].Present? == vcpus[j].Present?
  {
    var a := WriteIcr(vcpus[sender].apic, value);
    var vs := vcpus[sender := Present(a)];
    var ts := Targets(vs, sender, value, a.icrHigh, room, |vs|);
    assert forall t <- ts :: t < |vs| && vs[t].Present?;
    DeliverAll(vs, ts, value)
  }

  // ---------------------------------------------------------------- fan-out

  lemma {:induction false} TargetsExactly(vcpus: seq<Slot>, sender: nat, low: nat, high: nat, room: nat, n: nat, j: nat)
    requires j < n <= |vcpus|
    ensures j in Targets(vcpus, sender, low, high, room, n) <==>
            Targeted(vcpus, sender, low, high, j) && Matching(vcpus, sender, low, high, j) < room
    decreases n
  {
    TargetsCount(vcpus, sender, low, high, room, n - 1);
    if j < n - 1 {
      TargetsExactly(vcpus, sender, low, high, room, n - 1, j);
    } else {
      assert j !in Targets(vcpus, sender, low, high, room, n - 1);
    }
  }

  lemma {:induction false} TargetsCount(vcpus: seq<Slot>, sender: nat, low: nat, high: nat, room: nat, n: nat)
    requires n <= |vcpus|
    ensures var m := Matching(vcpus, sender, low, high, n);
            |Targets(vcpus, sender, low, high, room, n)| == if m < room then m else room
  {
    if n > 0 {
      TargetsCount(vcpus, sender, low, high, room, n - 1);
    }
  }

  /** Each distinct target is delivered to once; no other slot changes. */
  lemma {:induction false} DeliverPointwise(vcpus: seq<Slot>, targets: seq<nat>, low: nat, j: nat)
    requires forall t <- targets :: t < |vcpus| && vcpus[t].Present?
    requires forall i, k | 0 <= i < k < |targets| :: targets[i] < targets[k]
    requires j < |vcpus|
    ensures DeliverAll(vcpus, targets, low)[j] ==
            if j in targets then Present(Deliver(vcpus[j].apic, low)) else vcpus[j]
    decreases |targets|
  {
    hide Deliver;
    if targets != [] {
      var n := |targets| - 1;
      DeliverPointwise(vcpus, targets[..n], low, j);
      assert j in targets <==> j == targets[n] || j in targets[..n];
    }
  }

  lemma {:induction false} SameMatching(vs: seq<Slot>, ws: seq<Slot>, sender: nat, low: nat, high: nat, n: nat)
    requires n <= |vs| == |ws|
    requires forall j: nat | j < |vs| :: Targeted(vs, sender, low, high, j) == Targeted(ws, sender, low, high, j)
    ensures Matching(vs, sender, low, high, n) == Matching(ws, sender, low, high, n)
  {
    hide Targeted;
    if n > 0 {
      SameMatching(vs, ws, sender, low, high, n - 1);
    }
  }

  /** Who receives the interrupt of an ICR write, judged on the state before it. */
  ghost predicate Receives(vcpus: seq<Slot>, sender: nat, value: nat, room: nat, j: nat)
    requires sender < |vcpus| && vcpus[sender].Present? && j < |vcpus|
  {
    var high := vcpus[sender].apic.icrHigh;
    && DeliveryMode(value) == FIXED && Targeted(vcpus, sender, value, high, j)
    && Matching(vcpus, sender, value, high, j) < room
  }

  /** Apart from the sender's own ICR, an ICR write injects into exactly the receiving vCPUs. */
  lemma FanOutSlot(vcpus: seq<Slot>, sender: nat, value: nat, room: nat, j: nat)
    requires sender < |vcpus| && vcpus[sender].Present? && j < |vcpus|
    ensures var before := if j == sender then Present(WriteIcr(vcpus[j].apic, value)) else vcpus[j];
            IcrWrite(vcpus, sender, value, room)[j] ==
            if Receives(vcpus, sender, value, room, j) then
              Present(Inject(before.apic, VectorOf(value), LevelOf(value)))
            else before
  {
    hide Inject;
    var a := WriteIcr(vcpus[sender].apic, value);
    var vs := vcpus[sender := Present(a)];
    var high := a.icrHigh;
    forall k: nat | k < |vs|
      ensures Targeted(vs, sender, value, high, k) == Targeted(vcpus, sender, value, high, k)
    {
    }
    hide Targeted;
    SameMatching(vs, vcpus, sender, value, high, j);
    TargetsExactly(vs, sender, value, high, room, |vs|, j);
    DeliverPointwise(vs, Targets(vs, sender, value, high, room, |vs|), value, j);
  }

  /** A FIXED-mode ICR write adds the vector to the IRR of exactly the receivers, sets or clears only that
      vector's TMR bit there, and leaves every other vCPU alone. With room for all slots the receivers
      are exactly the vCPUs that match the shorthand or the destination. */
  lemma FanOut(vcpus: seq<Slot>, sender: nat, value: nat, room: nat, j: nat)
    requires sender < |vcpus| && vcpus[sender].Present? && j < |vcpus| && vcpus[j].Present?
    ensures var a := vcpus[j].apic;
            var v := VectorOf(value);
            var r := IcrWrite(vcpus, sender, value, room);
            && r[j].Present?
            && r[j].apic == a.(irr := r[j].apic.irr, tmr := r[j].apic.tmr, page := r[j].apic.page,
                               icrLow := if j == sender then value else a.icrLow)
            && (Receives(vcpus, sender, value, room, j) ==>
                  r[j].apic.irr == a.irr[v := true] && r[j].apic.tmr == a.tmr[v := LevelOf(value)])
            && (!Receives(vcpus, sender, value, room, j) ==> r[j].apic.irr == a.irr && r[j].apic.tmr == a.tmr)
            && (!Receives(vcpus, sender, value, room, j) && j != sender ==> r[j] == vcpus[j])
    ensures room >= |vcpus| ==>
              (Receives(vcpus, sender, value, room, j) <==>
               DeliveryMode(value) == FIXED && Targeted(vcpus, sender, value, vcpus[sender].apic.icrHigh, j))
  {
    hide Matching, Targeted, DeliveryMode, IcrWrite, Word, Receives;
    FanOutSlot(vcpus, sender, value, room, j);
    if room >= |vcpus| {
      RoomForAll(vcpus, sender, value, room, j);
    }
  }

  lemma RoomForAll(vcpus: seq<Slot>, sender: nat, value: nat, room: nat, j: nat)
    requires sender < |vcpus| && vcpus[sender].Present? && j < |vcpus| <= room
    ensures Receives(vcpus, sender, value, room, j) <==>
            DeliveryMode(value) == FIXED && Targeted(vcpus, sender, value, vcpus[sender].apic.icrHigh, j)
  {
  }

  // ---------------------------------------------------------------- runs

  datatype Op =
    | WriteReg(cpu: nat, offset: nat, value: nat, now: nat)
    | ReadReg(cpu: nat, offset: nat, now: nat)
    | InjectIrq(cpu: nat, vector: nat, level: bool)
    | ReportError(cpu: nat, bits: nat)

  predicate OpOk(vcpus: seq<Slot>, op: Op) {
    op.cpu < |vcpus| && vcpus[op.cpu].Present? && (op.InjectIrq? ==> op.vector < VECTORS)
  }

  function Step(vcpus: seq<Slot>, op: Op, room: nat): (r: seq<Slot>)
    requires OpOk(vcpus, op)
    ensures |r| == |vcpus|
  {
    var a := vcpus[op.cpu].apic;
    match op
    case WriteReg(cpu, offset, value, now) =>
      if offset == ICR_LOW then IcrWrite(vcpus, cpu, value, room)
      else vcpus[cpu := Present(Write(a, offset, value, now).0)]
    case ReadReg(cpu, offset, now) => vcpus[cpu := Present(Read(a, offset, now).0)]
    case InjectIrq(cpu, vector, level) => vcpus[cpu := Present(Inject(a, vector, level))]
    case ReportError(cpu, bits) => vcpus[cpu := Present(SetError(a, bits))]
  }

  /** A run; operations on absent vCPUs do not happen. */
  function Run(vcpus: seq<Slot>, ops: seq<Op>, room: nat): (r: seq<Slot>)
    ensures |r| == |vcpus|
    decreases |ops|
  {
    if ops == [] then vcpus
    else if OpOk(vcpus, ops[0]) then Run(Step(vcpus, ops[0], room), ops[1..], room)
    else Run(vcpus, ops[1..], room)
  }

  ghost predicate AllMirrored(vcpus: seq<Slot>) {
    forall j: nat | j < |vcpus| :: vcpus[j].Present? ==> Mirrored(vcpus[j].apic)
  }

  lemma IcrKeeps(vcpus: seq<Slot>, sender: nat, value: nat, room: nat)
    requires sender < |vcpus| && vcpus[sender].Present? && AllMirrored(vcpus)
    ensures AllMirrored(IcrWrite(vcpus, sender, value, room))
  {
    hide Mirrored, Inject, IcrWrite, Receives;
    var r := IcrWrite(vcpus, sender, value, room);
    forall j: nat | j < |vcpus| && r[j].Present?
      ensures Mirrored(r[j].apic)
    {
      FanOutSlot(vcpus, sender, value, room, j);
      var before := if j == sender then WriteIcr(vcpus[j].apic, value) else vcpus[j].apic;
      WriteIcrKeeps(vcpus[sender].apic, value);
      InjectKeeps(before, VectorOf(value), LevelOf(value));
    }
  }

  lemma WriteIcrKeeps(a: State, value: nat)
    requires Mirrored(a)
    ensures Mirrored(WriteIcr(a, value))
  {
    hide Mirrored, WriteIcr;
    WriteKeeps(a, ICR_LOW, value, 0);
    assert Write(a, ICR_LOW, value, 0).0 == WriteIcr(a, value);
  }

  lemma StepKeeps(vcpus: seq<Slot>, op: Op, room: nat)
    requires OpOk(vcpus, op) && AllMirrored(vcpus)
    ensures AllMirrored(Step(vcpus, op, room))
  {
    hide Mirrored, IcrWrite, Write, Read, Inject, SetError;
    var a := vcpus[op.cpu].apic;
    match op
    case WriteReg(cpu, offset, value, now) =>
      IcrKeeps(vcpus, cpu, value, room);
      WriteKeeps(a, offset, value, now);
    case ReadReg(cpu, offset, now) => ReadKeeps(a, offset, now);
    case InjectIrq(cpu, vector, level) => InjectKeeps(a, vector, level);
    case ReportError(cpu, bits) => SetErrorKeeps(a, bits);
  }

  lemma {:induction false} RunKeeps(vcpus: seq<Slot>, ops: seq<Op>, room: nat)
    requires AllMirrored(vcpus)
    ensures AllMirrored(Run(vcpus, ops, room))
    decreases |ops|
  {
    hide AllMirrored, Step;
    if ops != [] {
      if OpOk(vcpus, ops[0]) {
        StepKeeps(vcpus, ops[0], room);
        RunKeeps(Step(vcpus, ops[0], room), ops[1..], room);
      } else {
        RunKeeps(vcpus, ops[1..], room);
      }
    }
  }

  /** A machine whose vCPUs were just initialised. */
  ghost predicate Fresh(vcpus: seq<Slot>) {
    forall j: nat | j < |vcpus| :: vcpus[j].Present? ==> exists id: nat :: vcpus[j].apic == Init(id)
  }

  /** Initialised vCPUs are mirrored. */
  lemma FreshMirrored(vcpus: seq<Slot>)
    requires Fresh(vcpus)
    ensures AllMirrored(vcpus)
  {
    hide Mirrored, Init;
    forall k: nat | k < |vcpus| && vcpus[k].Present?
      ensures Mirrored(vcpus[k].apic)
    {
      var id: nat :| vcpus[k].apic == Init(id);
      InitMirrored(id);
    }
  }

  /** After any run from a machine in which page and registers agree, whatever is in service, requested or
      pending there, the page word at every architectural register of every vCPU is what a read of it
      returns, PPR is the demanded priority, and DCR holds one of its eight encodings. */
  lemma PageIsAlwaysCurrent(vcpus: seq<Slot>, ops: seq<Op>, room: nat, j: nat, offset: nat, now: nat)
    requires AllMirrored(vcpus) && j < |vcpus| && Run(vcpus, ops, room)[j].Present? && Architectural(offset)
    ensures var a := Run(vcpus, ops, room)[j].apic;
            && PageWord(a, offset) == Read(a, offset, now).1 && Read(a, offset, now).2 == OK
            && a.ppr == Priority(a) && PageWord(a, PPR) == Priority(a)
            && a.timerDcr in {0, 1, 2, 3, 8, 9, 10, 11}
  {
    hide BitmapsMirrored, Architectural, Read, PageWord, Priority, Run, Step;
    RunKeeps(vcpus, ops, room);
    var a := Run(vcpus, ops, room)[j].apic;
    assert Mirrored(a);
    ReadIsPage(a, offset, now);
  }
}

/** The virtio-mmio register machine of src/virtio/virtio.c:128-417: one access is one step. The device
    callbacks are a parameter; they may answer anything but do not touch ring addresses or ready flags.
*/
module Virtio {

  const MAGIC_VALUE: nat := 0x000
  const VERSION: nat := 0x004
  const DEVICE_ID: nat := 0x008
  const VENDOR_ID: nat := 0x00c
  const DEVICE_FEATURES: nat := 0x010
  const DEVICE_FEATURES_SEL: nat := 0x014
  const DRIVER_FEATURES: nat := 0x020
  const DRIVER_FEATURES_SEL: nat := 0x024
  const QUEUE_SEL: nat := 0x030
  const QUEUE_NUM_MAX: nat := 0x034
  const QUEUE_NUM: nat := 0x038
  const QUEUE_READY: nat := 0x044
  const QUEUE_NOTIFY: nat := 0x050
  const INTERRUPT_STATUS: nat := 0x060
  const INTERRUPT_ACK: nat := 0x064
  const STATUS: nat := 0x070
  const DESC_LOW: nat := 0x080
  const DESC_HIGH: nat := 0x084
  const DRIVER_LOW: nat := 0x090
  const DRIVER_HIGH: nat := 0x094
  const DEVICE_LOW: nat := 0x0a0
  const DEVICE_HIGH: nat := 0x0a4
  const CONFIG: nat := 0x100

  const MAGIC: nat := 0x7472_6976
  const MODERN: nat := 2
  const VENDOR: nat := 0x5245_4c4d
  const U32_MOD: nat := 0x1_0000_0000

  type Word = n: nat | n < 0x1_0000_0000
  type Short = n: nat | n < 0x1_0000

  datatype Queue = Queue(size: nat, desc: nat, avail: nat, used: nat, lastAvail: nat, ready: bool)

  datatype Device = Device(
    deviceId: nat, status: bv8, isr: bv8, guestFeatures: nat, queues: seq<Queue>,
    deviceSel: nat, driverSel: nat, queueSel: nat)

  /** What the device callbacks answer. */
  datatype Backend = Backend(
    features: nat -> Word, config: nat -> Word, numMax: nat -> Short, notify: (Device, nat) -> int)

  /** The device after an access, the value read (the written value stays), and whether to raise the IRQ. */
  datatype Effect = Effect(dev: Device, value: Word, irq: bool)

  datatype Access = Access(offset: nat, write: bool, value: Word)

  predicate HasDriverOk(status: bv8) { status & 4 != 0 }
  predicate Complete(q: Queue) { q.desc != 0 && q.avail != 0 && q.used != 0 }

  function LowByte(value: Word): bv8 { (value % 256) as bv8 }

  /** A write of zero or of a value with FAILED takes every queue down. */
  predicate TakesDown(value: Word) {
    value == 0 || LowByte(value) & 0x80 != 0
  }

  function Cleared(q: Queue): Queue {
    q.(ready := false, desc := 0, avail := 0, used := 0, lastAvail := 0)
  }

  function Map(qs: seq<Queue>, f: Queue -> Queue): (r: seq<Queue>)
    ensures |r| == |qs| && forall i | 0 <= i < |qs| :: r[i] == f(qs[i])
  {
    seq(|qs|, i requires 0 <= i < |qs| => f(qs[i]))
  }

  function QueuesAfterStatus(qs: seq<Queue>, value: Word): (r: seq<Queue>)
    ensures |r| == |qs|
  {
    if TakesDown(value) then Map(qs, q => Cleared(q))
    else if HasDriverOk(LowByte(value)) then Map(qs, (q: Queue) => q.(ready := Complete(q)))
    else qs
  }

  function SetLow(gpa: nat, value: Word): nat { gpa / U32_MOD * U32_MOD + value }
  function SetHigh(gpa: nat, value: Word): nat { gpa % U32_MOD + value * U32_MOD }

  predicate IsAddress(offset: nat) {
    offset in {DESC_LOW, DESC_HIGH, DRIVER_LOW, DRIVER_HIGH, DEVICE_LOW, DEVICE_HIGH}
  }

  function SetAddress(q: Queue, offset: nat, value: Word): Queue {
    if offset == DESC_LOW then q.(desc := SetLow(q.desc, value))
    else if offset == DESC_HIGH then q.(desc := SetHigh(q.desc, value))
    else if offset == DRIVER_LOW then q.(avail := SetLow(q.avail, value))
    else if offset == DRIVER_HIGH then q.(avail := SetHigh(q.avail, value))
    else if offset == DEVICE_LOW then q.(used := SetLow(q.used, value))
    else if offset == DEVICE_HIGH then q.(used := SetHigh(q.used, value))
    else q
  }

  function AskReady(d: Device, q: Queue, value: Word): Queue {
    if value == 0 then q.(ready := false)
    else if !Complete(q) then q
    else q.(ready := HasDriverOk(d.status))
  }

  function WriteReg(b: Backend, d: Device, offset: nat, value: Word): (Device, bool) {
    if offset == DEVICE_FEATURES_SEL then (d.(deviceSel := value), false)
    else if offset == DRIVER_FEATURES then (if d.driverSel == 0 then d.(guestFeatures := value) else d, false)
    else if offset == DRIVER_FEATURES_SEL then (d.(driverSel := value), false)
    else if offset == QUEUE_SEL then (d.(queueSel := value), false)
    else if offset == STATUS then (d.(status := LowByte(value), queues := QueuesAfterStatus(d.queues, value)), false)
    else if offset == INTERRUPT_ACK then (d.(isr := d.isr & !LowByte(value)), false)
    else if offset == QUEUE_NOTIFY then
      if b.notify(d, value) > 0 then (d.(isr := d.isr | 1), true) else (d, false)
    else if d.queueSel >= |d.queues| then (d, false)
    else
      var q := d.queues[d.queueSel];
      var q' := if offset == QUEUE_NUM then (if value == b.numMax(d.queueSel) then q.(size := value) else q)
                else if offset == QUEUE_READY then AskReady(d, q, value)
                else SetAddress(q, offset, value);
      (d.(queues := d.queues[d.queueSel := q']), false)
  }

  /** Registers that are write-only leave the caller's value as it was. */
  function ReadReg(b: Backend, d: Device, offset: nat, value: Word): Word {
    if offset >= CONFIG then b.config(offset - CONFIG)
    else if offset == MAGIC_VALUE then MAGIC
    else if offset == VERSION then MODERN
    else if offset == DEVICE_ID then d.deviceId % U32_MOD
    else if offset == VENDOR_ID then VENDOR
    else if offset == DEVICE_FEATURES then b.features(d.deviceSel)
    else if offset == QUEUE_NUM_MAX then b.numMax(d.queueSel)
    else if offset == QUEUE_READY then (if d.queueSel < |d.queues| && d.queues[d.queueSel].ready then 1 else 0)
    else if offset == INTERRUPT_STATUS then d.isr as nat
    else if offset == STATUS then d.status as nat
    else if offset in {DEVICE_FEATURES_SEL, DRIVER_FEATURES, DRIVER_FEATURES_SEL, QUEUE_SEL, QUEUE_NUM, INTERRUPT_ACK}
            || IsAddress(offset) then value
    else 0
  }

  /** relm_virtio_mmio_register_access_locked. */
  function Step(b: Backend, d: Device, a: Access): Effect {
    if !a.write then Effect(d, ReadReg(b, d, a.offset, a.value), false)
    else if a.offset >= CONFIG then Effect(d, a.value, false)
    else
      var (d', irq) := WriteReg(b, d, a.offset, a.value);
      Effect(d', a.value, irq)
  }

  function Run(b: Backend, d: Device, steps: seq<Access>): Device
    decreases |steps|
  {
    if steps == [] then d
    else Step(b, Run(b, d, steps[..|steps| - 1]), steps[|steps| - 1]).dev
  }

  // ---------------------------------------------------------------- what makes a queue ready

  predicate ReadyAt(d: Device, q: nat) {
    q < |d.queues| && d.queues[q].ready
  }

  /** The state a queue may become ready in. */
  predicate Entitled(d: Device, q: nat) {
    q < |d.queues| && HasDriverOk(d.status) && Complete(d.queues[q])
  }

  predicate IsTakeDown(a: Access) {
    a.write && a.offset == STATUS && TakesDown(a.value)
  }

  lemma StatusReady(b: Backend, d: Device, a: Access, q: nat)
    requires a.write && a.offset == STATUS
    ensures var d' := Step(b, d, a).dev;
            && |d'.queues| == |d.queues|
            && (ReadyAt(d', q) && !ReadyAt(d, q) ==> Entitled(d', q))
            && (ReadyAt(d', q) ==> !IsTakeDown(a))
  {
    hide TakesDown, HasDriverOk;
  }

  lemma QueueReady(b: Backend, d: Device, a: Access, q: nat)
    requires a.write && (IsAddress(a.offset) || a.offset == QUEUE_READY || a.offset == QUEUE_NUM)
    ensures var d' := Step(b, d, a).dev;
            |d'.queues| == |d.queues| && (ReadyAt(d', q) && !ReadyAt(d, q) ==> Entitled(d', q))
  {
    hide TakesDown, HasDriverOk, SetLow, SetHigh;
  }

  /** A queue that a step makes ready is entitled to it afterwards; a take-down leaves no queue ready. */
  lemma StepReady(b: Backend, d: Device, a: Access, q: nat)
    ensures var d' := Step(b, d, a).dev;
            && |d'.queues| == |d.queues|
            && (ReadyAt(d', q) && !ReadyAt(d, q) ==> Entitled(d', q))
            && (ReadyAt(d', q) ==> !IsTakeDown(a))
  {
    hide Step, Entitled, TakesDown;
    if a.write && a.offset == STATUS {
      StatusReady(b, d, a, q);
    } else if a.write && (IsAddress(a.offset) || a.offset == QUEUE_READY || a.offset == QUEUE_NUM) {
      QueueReady(b, d, a, q);
    } else {
      OtherAccess(b, d, a);
    }
  }

  /** In every run from a device with no ready queue: a queue that is ready at the end was, after some
      step `k`, entitled to be (DRIVER_OK set, all three ring addresses nonzero), has been ready ever
      since, and no reset or FAILED status write came after that step. */
  lemma {:induction false} ReadyIsEarned(b: Backend, d: Device, steps: seq<Access>, q: nat) returns (k: nat)
    requires forall i | 0 <= i < |d.queues| :: !d.queues[i].ready
    requires ReadyAt(Run(b, d, steps), q)
    ensures 0 < k <= |steps| && Entitled(Run(b, d, steps[..k]), q)
    ensures forall i | k <= i <= |steps| :: ReadyAt(Run(b, d, steps[..i]), q)
    ensures forall i | k <= i < |steps| :: !IsTakeDown(steps[i])
    decreases |steps|
  {
    hide Step, Entitled, IsTakeDown;
    var n := |steps| - 1;
    assert steps[..|steps|] == steps;
    if steps != [] {
      var before := Run(b, d, steps[..n]);
      StepReady(b, before, steps[n], q);
      if ReadyAt(before, q) {
        k := ReadyIsEarned(b, d, steps[..n], q);
        assert forall i | 0 <= i <= n :: steps[..n][..i] == steps[..i];
      } else {
        k := |steps|;
      }
    }
  }

  // ---------------------------------------------------------------- the stronger promise

  /** Ready queues are entitled right now. */
  ghost predicate AllEntitled(d: Device) {
    forall q: nat | ReadyAt(d, q) :: Entitled(d, q)
  }

  /** The accesses that leave a ready queue without DRIVER_OK or without one of its rings. */
  ghost predicate Strands(d: Device, a: Access) {
    a.write &&
    ((a.offset == STATUS && !TakesDown(a.value) && !HasDriverOk(LowByte(a.value)) && exists q: nat :: ReadyAt(d, q))
     || (IsAddress(a.offset) && ReadyAt(d, d.queueSel)
         && !Complete(SetAddress(d.queues[d.queueSel], a.offset, a.value))))
  }

  lemma StatusWriteEntitled(b: Backend, d: Device, a: Access)
    requires AllEntitled(d) && a.write && a.offset == STATUS
    ensures AllEntitled(Step(b, d, a).dev) <==> !Strands(d, a)
  {
    hide TakesDown;
    var d' := Step(b, d, a).dev;
    if Strands(d, a) {
      var q: nat :| ReadyAt(d, q);
      assert ReadyAt(d', q) && !Entitled(d', q);
    } else {
      forall q: nat | ReadyAt(d', q)
        ensures Entitled(d', q)
      {
        assert !TakesDown(a.value) && !HasDriverOk(LowByte(a.value)) ==> d'.queues == d.queues && ReadyAt(d, q);
      }
    }
  }

  lemma QueueWriteEntitled(b: Backend, d: Device, a: Access)
    requires AllEntitled(d) && a.write && (IsAddress(a.offset) || a.offset == QUEUE_READY || a.offset == QUEUE_NUM)
    ensures AllEntitled(Step(b, d, a).dev) <==> !Strands(d, a)
  {
    hide TakesDown, SetLow, SetHigh, HasDriverOk;
    var d' := Step(b, d, a).dev;
    var s := d.queueSel;
    assert forall q: nat | q != s :: ReadyAt(d', q) == ReadyAt(d, q) && Entitled(d', q) == Entitled(d, q);
    if ReadyAt(d, s) {
      assert Entitled(d, s);
    }
    assert ReadyAt(d', s) && !Entitled(d', s) <==> Strands(d, a);
  }

  /** From a device whose ready queues are all entitled, an access breaks that exactly when it strands one. */
  lemma EntitledUnlessStranded(b: Backend, d: Device, a: Access)
    requires AllEntitled(d)
    ensures AllEntitled(Step(b, d, a).dev) <==> !Strands(d, a)
  {
    hide TakesDown, SetLow, SetHigh, SetAddress, HasDriverOk, QueuesAfterStatus;
    if a.write && a.offset == STATUS {
      StatusWriteEntitled(b, d, a);
    } else if a.write && (IsAddress(a.offset) || a.offset == QUEUE_READY || a.offset == QUEUE_NUM) {
      QueueWriteEntitled(b, d, a);
    } else {
      OtherAccess(b, d, a);
      var d' := Step(b, d, a).dev;
      assert forall q: nat :: ReadyAt(d', q) == ReadyAt(d, q) && Entitled(d', q) == Entitled(d, q);
    }
  }

  lemma OtherAccess(b: Backend, d: Device, a: Access)
    requires !a.write || (a.offset !in {STATUS, QUEUE_READY, QUEUE_NUM} && !IsAddress(a.offset))
    ensures Step(b, d, a).dev.queues == d.queues && Step(b, d, a).dev.status == d.status
  {
    hide SetAddress, AskReady, QueuesAfterStatus, IsAddress;
    if d.queueSel < |d.queues| && !IsAddress(a.offset) {
      NoAddress(d.queues[d.queueSel], a.offset, a.value);
      assert d.queues[d.queueSel := d.queues[d.queueSel]] == d.queues;
    }
  }

  lemma NoAddress(q: Queue, offset: nat, value: Word)
    requires !IsAddress(offset)
    ensures SetAddress(q, offset, value) == q
  {
  }

  // ---------------------------------------------------------------- ring addresses and interrupts

  /** The two halves of an address may be written in either order, whatever was there before. */
  lemma AddressHalves(gpa: nat, low: Word, high: Word)
    ensures SetHigh(SetLow(gpa, low), high) == high * U32_MOD + low == SetLow(SetHigh(gpa, high), low)
  {
  }

  /** The device after a register write. */
  function Put(b: Backend, d: Device, offset: nat, value: Word): Device {
    Step(b, d, Access(offset, true, value)).dev
  }

  lemma PutAddress(b: Backend, d: Device, offset: nat, value: Word)
    requires d.queueSel < |d.queues| && IsAddress(offset)
    ensures var q := SetAddress(d.queues[d.queueSel], offset, value);
            Put(b, d, offset, value) == d.(queues := d.queues[d.queueSel := q])
  {
    hide SetAddress, AskReady, QueuesAfterStatus;
  }

  /** Both halves of one ring address, through the registers of the selected queue. */
  function PutPair(b: Backend, d: Device, low: nat, high: nat, gpa: nat): Device
    requires gpa < U32_MOD * U32_MOD
  {
    Put(b, Put(b, d, low, gpa % U32_MOD), high, gpa / U32_MOD)
  }

  lemma PairIs(b: Backend, d: Device, low: nat, high: nat, gpa: nat)
    requires d.queueSel < |d.queues| && gpa < U32_MOD * U32_MOD
    requires (low, high) in {(DESC_LOW, DESC_HIGH), (DRIVER_LOW, DRIVER_HIGH), (DEVICE_LOW, DEVICE_HIGH)}
    ensures var q := d.queues[d.queueSel];
            PutPair(b, d, low, high, gpa) == d.(queues := d.queues[d.queueSel :=
              if low == DESC_LOW then q.(desc := gpa)
              else if low == DRIVER_LOW then q.(avail := gpa)
              else q.(used := gpa)])
  {
    hide Put, SetLow, SetHigh;
    var q := d.queues[d.queueSel];
    PutAddress(b, d, low, gpa % U32_MOD);
    PutAddress(b, Put(b, d, low, gpa % U32_MOD), high, gpa / U32_MOD);
    AddressHalves(q.desc, gpa % U32_MOD, gpa / U32_MOD);
    AddressHalves(q.avail, gpa % U32_MOD, gpa / U32_MOD);
    AddressHalves(q.used, gpa % U32_MOD, gpa / U32_MOD);
  }

  /** What a driver does to one queue: select it and write its three ring addresses. */
  function Configure(b: Backend, d: Device, q: Word, desc: nat, avail: nat, used: nat): Device
    requires desc < U32_MOD * U32_MOD && avail < U32_MOD * U32_MOD && used < U32_MOD * U32_MOD
  {
    var d1 := PutPair(b, Put(b, d, QUEUE_SEL, q), DESC_LOW, DESC_HIGH, desc);
    var d2 := PutPair(b, d1, DRIVER_LOW, DRIVER_HIGH, avail);
    PutPair(b, d2, DEVICE_LOW, DEVICE_HIGH, used)
  }

  /** Bringing a queue up as section 3.1.1 of VIRTIO 1.1 prescribes: the three addresses arrive in its three
      rings, no other queue changes, and after DRIVER_OK it reads as ready exactly when none is zero. */
  lemma BringUp(b: Backend, d: Device, q: Word, desc: nat, avail: nat, used: nat)
    requires q < |d.queues| && desc < U32_MOD * U32_MOD && avail < U32_MOD * U32_MOD && used < U32_MOD * U32_MOD
    ensures var d1 := Configure(b, d, q, desc, avail, used);
            d1 == d.(queueSel := q, queues := d.queues[q := d.queues[q].(desc := desc, avail := avail, used := used)])
    ensures var d2 := Put(b, Configure(b, d, q, desc, avail, used), STATUS, 0x0f);
            ReadReg(b, d2, QUEUE_READY, 0) == if desc != 0 && avail != 0 && used != 0 then 1 else 0
  {
    var d0 := Put(b, d, QUEUE_SEL, q);
    assert d0 == d.(queueSel := q);
    ConfigureIs(b, d0, desc, avail, used);
    assert HasDriverOk(LowByte(0x0f)) && !TakesDown(0x0f);
  }

  lemma ConfigureIs(b: Backend, d: Device, desc: nat, avail: nat, used: nat)
    requires d.queueSel < |d.queues|
    requires desc < U32_MOD * U32_MOD && avail < U32_MOD * U32_MOD && used < U32_MOD * U32_MOD
    ensures var d1 := PutPair(b, d, DESC_LOW, DESC_HIGH, desc);
            var d2 := PutPair(b, d1, DRIVER_LOW, DRIVER_HIGH, avail);
            PutPair(b, d2, DEVICE_LOW, DEVICE_HIGH, used)
            == d.(queues := d.queues[d.queueSel := d.queues[d.queueSel].(desc := desc, avail := avail, used := used)])
  {
    hide PutPair;
    PairIs(b, d, DESC_LOW, DESC_HIGH, desc);
    var d1 := PutPair(b, d, DESC_LOW, DESC_HIGH, desc);
    PairIs(b, d1, DRIVER_LOW, DRIVER_HIGH, avail);
    PairIs(b, PutPair(b, d1, DRIVER_LOW, DRIVER_HIGH, avail), DEVICE_LOW, DEVICE_HIGH, used);
  }

  /** An access raises the interrupt exactly when it is a notification of which the device processed something;
      the interrupt is then pending. */
  lemma NotificationRaises(b: Backend, d: Device, a: Access)
    ensures Step(b, d, a).irq <==> a.write && a.offset == QUEUE_NOTIFY && b.notify(d, a.value) > 0
    ensures Step(b, d, a).irq ==> Step(b, d, a).dev.isr & 1 == 1
  {
    hide QueuesAfterStatus, SetAddress, TakesDown, LowByte, AskReady;
    BitSet(d.isr);
  }

  lemma BitSet(isr: bv8)
    ensures (isr | 1) & 1 == 1
  {
  }

  /** A pending interrupt stays until a write to INTERRUPT_ACK names bit 0. */
  lemma InterruptHolds(b: Backend, d: Device, a: Access)
    requires d.isr & 1 == 1
    ensures Step(b, d, a).dev.isr & 1 == 1 <==> !(a.write && a.offset == INTERRUPT_ACK && LowByte(a.value) & 1 == 1)
  {
    hide LowByte, Step;
    AckBit(d.isr, LowByte(a.value));
    IsrAfter(b, d, a);
  }

  /** The interrupt status after an access. */
  lemma IsrAfter(b: Backend, d: Device, a: Access)
    ensures var isr := Step(b, d, a).dev.isr;
            if a.write && a.offset == INTERRUPT_ACK then isr == d.isr & !LowByte(a.value)
            else isr == d.isr || isr == d.isr | 1
  {
    hide QueuesAfterStatus, SetAddress, TakesDown, LowByte, AskReady;
  }

  lemma AckBit(isr: bv8, ack: bv8)
    requires isr & 1 == 1
    ensures (isr & !ack) & 1 == 1 <==> ack & 1 != 1
    ensures (isr | 1) & 1 == 1
  {
  }

  // ---------------------------------------------------------------- ready without having been asked for

  /** The access writes a nonzero QueueReady for queue `q`. */
  predicate Asks(d: Device, a: Access, q: nat) {
    a.write && a.offset == QUEUE_READY && d.queueSel == q && a.value != 0
  }

  /** The access is a STATUS write that sets DRIVER_OK, takes nothing down and finds queue `q` complete. */
  predicate Grants(d: Device, a: Access, q: nat) {
    && a.write && a.offset == STATUS && !TakesDown(a.value) && HasDriverOk(LowByte(a.value))
    && q < |d.queues| && Complete(d.queues[q])
  }

  lemma StatusGrants(b: Backend, d: Device, a: Access, q: nat)
    requires a.write && a.offset == STATUS && !ReadyAt(d, q)
    ensures ReadyAt(Step(b, d, a).dev, q) <==> Grants(d, a, q)
  {
    hide TakesDown, HasDriverOk;
  }

  lemma QueueAsks(b: Backend, d: Device, a: Access, q: nat)
    requires a.write && (IsAddress(a.offset) || a.offset == QUEUE_READY || a.offset == QUEUE_NUM) && !ReadyAt(d, q)
    ensures ReadyAt(Step(b, d, a).dev, q) ==> Asks(d, a, q)
  {
    hide TakesDown, HasDriverOk, SetLow, SetHigh;
  }

  /** For every access: a queue becomes ready without a QueueReady write if and only if the access grants it. */
  lemma ReadyWithoutAsking(b: Backend, d: Device, a: Access, q: nat)
    requires !ReadyAt(d, q)
    ensures ReadyAt(Step(b, d, a).dev, q) && !Asks(d, a, q) <==> Grants(d, a, q)
  {
    hide Step, TakesDown, HasDriverOk, Complete;
    if a.write && a.offset == STATUS {
      StatusGrants(b, d, a, q);
    } else if a.write && (IsAddress(a.offset) || a.offset == QUEUE_READY || a.offset == QUEUE_NUM) {
      QueueAsks(b, d, a, q);
    } else {
      OtherAccess(b, d, a);
    }
  }

  /** In every run from a device with no ready queue, a ready queue became so at one step, by a QueueReady
      write or by a grant, exactly one of the two, and no take-down came later. */
  lemma {:induction false} ReadyHow(b: Backend, d: Device, steps: seq<Access>, q: nat) returns (k: nat)
    requires forall i | 0 <= i < |d.queues| :: !d.queues[i].ready
    requires ReadyAt(Run(b, d, steps), q)
    ensures k < |steps| && (forall i | k <= i < |steps| :: !IsTakeDown(steps[i]))
    ensures var before := Run(b, d, steps[..k]);
            !ReadyAt(before, q) && (Asks(before, steps[k], q) <==> !Grants(before, steps[k], q))
    ensures forall i | k < i <= |steps| :: ReadyAt(Run(b, d, steps[..i]), q)
    decreases |steps|
  {
    hide Step, IsTakeDown, Asks, Grants;
    var n := |steps| - 1;
    assert steps[..|steps|] == steps;
    if steps != [] {
      var before := Run(b, d, steps[..n]);
      StepReady(b, before, steps[n], q);
      if ReadyAt(before, q) {
        k := ReadyHow(b, d, steps[..n], q);
        assert forall i | 0 <= i <= n :: steps[..n][..i] == steps[..i];
      } else {
        k := n;
        ReadyWithoutAsking(b, before, steps[n], q);
        AsksAndGrants(before, steps[n], q);
      }
    }
  }

  lemma AsksAndGrants(d: Device, a: Access, q: nat)
    ensures !(Asks(d, a, q) && Grants(d, a, q))
  {
  }

  /** So a ready queue had QueueReady written since the last take-down, unless some STATUS write granted it. */
  lemma AskedUnlessGranted(b: Backend, d: Device, steps: seq<Access>, q: nat) returns (k: nat)
    requires forall i | 0 <= i < |d.queues| :: !d.queues[i].ready
    requires ReadyAt(Run(b, d, steps), q)
    requires forall i | 0 <= i < |steps| :: !Grants(Run(b, d, steps[..i]), steps[i], q)
    ensures k < |steps| && Asks(Run(b, d, steps[..k]), steps[k], q)
    ensures forall i | k <= i < |steps| :: !IsTakeDown(steps[i])
  {
    hide Run, IsTakeDown, Asks, Grants;
    k := ReadyHow(b, d, steps, q);
  }

  const RESET: Device := Device(2, 0, 0, 0, [Queue(0, 0, 0, 0, 0, false)], 0, 0, 0)

  /** From reset: select queue 0, write its six address registers, set DRIVER_OK. */
  const NEVER_ASKED: seq<Access> :=
    [Access(QUEUE_SEL, true, 0), Access(DESC_LOW, true, 0x1000), Access(DESC_HIGH, true, 0),
     Access(DRIVER_LOW, true, 0x2000), Access(DRIVER_HIGH, true, 0), Access(DEVICE_LOW, true, 0x3000),
     Access(DEVICE_HIGH, true, 0), Access(STATUS, true, 0x0f)]

  lemma RunStep(b: Backend, d: Device, steps: seq<Access>, k: nat)
    requires k < |steps|
    ensures Run(b, d, steps[..k + 1]) == Step(b, Run(b, d, steps[..k]), steps[k]).dev
  {
    hide Step;
    assert steps[..k + 1][..k] == steps[..k];
  }

  /** The run is the configuration of queue 0 followed by DRIVER_OK. */
  lemma NeverAskedRun(b: Backend)
    ensures Run(b, RESET, NEVER_ASKED) == Put(b, Configure(b, RESET, 0, 0x1000, 0x2000, 0x3000), STATUS, 0x0f)
  {
    hide Step;
    var s := NEVER_ASKED;
    assert Run(b, RESET, s[..0]) == RESET;
    RunStep(b, RESET, s, 0);
    RunStep(b, RESET, s, 1);
    RunStep(b, RESET, s, 2);
    RunStep(b, RESET, s, 3);
    RunStep(b, RESET, s, 4);
    RunStep(b, RESET, s, 5);
    RunStep(b, RESET, s, 6);
    RunStep(b, RESET, s, 7);
    assert s[..8] == s;
  }

  /** A run from reset without any QueueReady write, at whose end queue 0 is ready. */
  lemma ReadyNeverAsked(b: Backend)
    ensures (forall i | 0 <= i < |NEVER_ASKED| :: NEVER_ASKED[i].offset != QUEUE_READY)
    ensures ReadyAt(Run(b, RESET, NEVER_ASKED), 0)
  {
    hide Step, Run;
    NeverAskedRun(b);
    BringUp(b, RESET, 0, 0x1000, 0x2000, 0x3000);
    SelectorStays(b, Configure(b, RESET, 0, 0x1000, 0x2000, 0x3000), 0x0f);
    ReadsReady(b, Run(b, RESET, NEVER_ASKED));
  }

  lemma RunOneMore(b: Backend, d: Device, steps: seq<Access>, a: Access)
    ensures Run(b, d, steps + [a]) == Step(b, Run(b, d, steps), a).dev
  {
    hide Step;
    var all := steps + [a];
    assert all[..|all| - 1] == steps;
  }

  /** The same run, and then STATUS without DRIVER_OK or a ring address set to 0: the queue stays ready. */
  lemma ReadyButStranded(b: Backend)
    ensures var d := Run(b, RESET, NEVER_ASKED + [Access(STATUS, true, 3)]); ReadyAt(d, 0) && !HasDriverOk(d.status)
    ensures var d := Run(b, RESET, NEVER_ASKED + [Access(DESC_LOW, true, 0)]);
            ReadyAt(d, 0) && !Complete(d.queues[0])
  {
    hide Run, TakesDown;
    ReadyNeverAsked(b);
    NeverAskedEnds(b);
    RunOneMore(b, RESET, NEVER_ASKED, Access(STATUS, true, 3));
    RunOneMore(b, RESET, NEVER_ASKED, Access(DESC_LOW, true, 0));
    StatusThree();
  }

  lemma StatusThree()
    ensures !TakesDown(3) && !HasDriverOk(LowByte(3))
  {
  }

  lemma NeverAskedEnds(b: Backend)
    ensures var d := Run(b, RESET, NEVER_ASKED); d.queueSel == 0 && |d.queues| == 1 && d.queues[0].desc == 0x1000
  {
    hide Step;
    NeverAskedRun(b);
    BringUp(b, RESET, 0, 0x1000, 0x2000, 0x3000);
    StatusKeeps(b, Configure(b, RESET, 0, 0x1000, 0x2000, 0x3000));
  }

  lemma StatusKeeps(b: Backend, d: Device)
    requires |d.queues| == 1
    ensures var d' := Put(b, d, STATUS, 0x0f);
            |d'.queues| == 1 && d'.queues[0].desc == d.queues[0].desc && d'.queueSel == d.queueSel
  {
    assert HasDriverOk(LowByte(0x0f)) && !TakesDown(0x0f);
  }

  lemma SelectorStays(b: Backend, d: Device, value: Word)
    ensures Put(b, d, STATUS, value).queueSel == d.queueSel
  {
  }

  lemma ReadsReady(b: Backend, d: Device)
    requires ReadReg(b, d, QUEUE_READY, 0) == 1 && d.queueSel == 0
    ensures ReadyAt(d, 0)
  {
  }

  /** STATUS reads 0 although the write took nothing down if and only if the written value is a nonzero
      multiple of 256; then only the status byte changed. */
  lemma NotAReset(b: Backend, d: Device, value: Word)
    ensures var d' := Step(b, d, Access(STATUS, true, value)).dev;
            && (ReadReg(b, d', STATUS, 0) == 0 && !TakesDown(value) <==> value % 256 == 0 && value != 0)
            && (value % 256 == 0 && value != 0 ==> d' == d.(status := 0))
  {
    hide LowByte;
    LowByteZero(value);
    ByteZero(LowByte(value));
    NoFlags();
  }

  lemma LowByteZero(value: Word)
    ensures LowByte(value) == 0 <==> value % 256 == 0
  {
  }

  lemma ByteZero(x: bv8)
    ensures x as nat == 0 <==> x == 0
  {
  }

  lemma NoFlags()
    ensures (0 as bv8) & 0x80 == 0 && (0 as bv8) & 4 == 0
  {
  }
}

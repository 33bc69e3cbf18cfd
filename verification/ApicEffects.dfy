/** What register writes do across a machine: which registers of which vCPU they show through, whom an
    interprocessor interrupt reaches, and how errors accumulate and latch.
*/
module ApicEffects {
  import opened Apic
  import opened ApicProofs
  import opened ApicSystem

  // ---------------------------------------------------------------- where a write shows

  /** The registers of vCPU `j` through which a write by vCPU `cpu` may show. */
  ghost predicate ShowsIn(vcpus: seq<Slot>, cpu: nat, offset: nat, value: nat, room: nat, j: nat, other: nat)
    requires cpu < |vcpus| && vcpus[cpu].Present? && j < |vcpus|
  {
    var v := Highest(vcpus[cpu].apic.isr);
    var w := VectorOf(value) / 32 * 16;
    || (j == cpu && other == offset)
    || (j == cpu && offset == TPR && other == PPR)
    || (j == cpu && offset == EOI && v >= 0 && other in {PPR, ISR + v / 32 * 16, TMR + v / 32 * 16})
    || (offset == ICR_LOW && Receives(vcpus, cpu, value, room, j) && other in {IRR + w, TMR + w})
  }

  lemma IcrElsewhere(vcpus: seq<Slot>, cpu: nat, value: nat, room: nat, j: nat, other: nat, later: nat)
    requires cpu < |vcpus| && vcpus[cpu].Present? && j < |vcpus| && vcpus[j].Present?
    requires AllMirrored(vcpus) && Architectural(other) && !ShowsIn(vcpus, cpu, ICR_LOW, value, room, j, other)
    ensures var r := IcrWrite(vcpus, cpu, value, room);
            r[j].Present? && Read(r[j].apic, other, later).1 == Read(vcpus[j].apic, other, later).1
  {
    hide Mirrored, Read, Architectural, IcrWrite, Inject, Receives, Write, Highest;
    var a := vcpus[j].apic;
    assert Mirrored(a);
    FanOutSlot(vcpus, cpu, value, room, j);
    var b := if j == cpu then WriteIcr(a, value) else a;
    if j == cpu {
      IcrIsWrite(a, value);
      PlainElsewhere(a, ICR_LOW, value, 0, other, later);
    }
    WriteIcrKeeps(a, value);
    if Receives(vcpus, cpu, value, room, j) {
      InjectElsewhere(b, VectorOf(value), LevelOf(value), other, later);
    }
  }

  lemma IcrIsWrite(a: State, value: nat)
    ensures Write(a, ICR_LOW, value, 0).0 == WriteIcr(a, value)
  {
    hide WriteIcr, Eoi, PprUpdate;
  }

  /** A register write changes what a register of any vCPU reads only where the architecture says: the
      register itself, PPR after TPR, the retired vector's words and PPR after EOI, and the IRR and TMR
      words of the receivers after an ICR_LOW write. */
  lemma WriteElsewhere(vcpus: seq<Slot>, cpu: nat, offset: nat, value: nat, now: nat, room: nat, j: nat, other: nat,
      later: nat)
    requires cpu < |vcpus| && vcpus[cpu].Present? && j < |vcpus| && vcpus[j].Present?
    requires AllMirrored(vcpus) && Architectural(other) && !ShowsIn(vcpus, cpu, offset, value, room, j, other)
    ensures var r := Step(vcpus, WriteReg(cpu, offset, value, now), room);
            r[j].Present? && Read(r[j].apic, other, later).1 == Read(vcpus[j].apic, other, later).1
  {
    hide Mirrored, Read, Architectural, IcrWrite, Write, Receives, Highest;
    if offset == ICR_LOW {
      IcrElsewhere(vcpus, cpu, value, room, j, other, later);
    } else if j == cpu {
      assert Mirrored(vcpus[j].apic);
      if offset == EOI {
        EoiElsewhere(vcpus[j].apic, value, now, other, later);
      } else {
        PlainElsewhere(vcpus[j].apic, offset, value, now, other, later);
      }
    }
  }

  // ---------------------------------------------------------------- whom an interrupt reaches

  /** How many of the first `n` slots hold a vCPU. */
  function Population(vcpus: seq<Slot>, n: nat): nat
    requires n <= |vcpus|
  {
    if n == 0 then 0 else Population(vcpus, n - 1) + (if vcpus[n - 1].Present? then 1 else 0)
  }

  /** With a shorthand the destination is ignored: one target for SELF (1), all vCPUs for ALL (2), one less
      for ALL BUT SELF (3), whatever the rest of ICR_LOW says. */
  lemma {:induction false} ShorthandCounts(vcpus: seq<Slot>, sender: nat, low: nat, high: nat, n: nat)
    requires n <= |vcpus| && sender < |vcpus| && vcpus[sender].Present?
    ensures Shorthand(low) == 1 ==> Matching(vcpus, sender, low, high, n) == if sender < n then 1 else 0
    ensures Shorthand(low) == 2 ==> Matching(vcpus, sender, low, high, n) == Population(vcpus, n)
    ensures Shorthand(low) == 3 ==>
              Matching(vcpus, sender, low, high, n) == Population(vcpus, n) - (if sender < n then 1 else 0)
  {
    hide Shorthand;
    if n > 0 {
      ShorthandCounts(vcpus, sender, low, high, n - 1);
    }
  }

  /** Bit `k` of a number. */
  predicate HasBit(x: nat, k: nat)
    decreases k
  {
    if k == 0 then x % 2 == 1 else HasBit(x / 2, k - 1)
  }

  lemma {:induction false} CommonBitAt(x: nat, y: nat, n: nat) returns (k: nat)
    requires CommonBit(x, y, n)
    ensures k < n && HasBit(x, k) && HasBit(y, k)
    decreases n
  {
    if x % 2 == 1 && y % 2 == 1 {
      k := 0;
    } else {
      var m := CommonBitAt(x / 2, y / 2, n - 1);
      k := m + 1;
    }
  }

  lemma {:induction false} CommonBitFrom(x: nat, y: nat, n: nat, k: nat)
    requires k < n && HasBit(x, k) && HasBit(y, k)
    ensures CommonBit(x, y, n)
    decreases n
  {
    if k > 0 {
      CommonBitFrom(x / 2, y / 2, n - 1, k - 1);
    }
  }

  /** What a guest does to send an interrupt: the destination into ICR_HIGH, then the command into ICR_LOW. */
  function Send(vcpus: seq<Slot>, sender: nat, dest: nat, command: nat, room: nat): (r: seq<Slot>)
    requires sender < |vcpus| && vcpus[sender].Present?
    ensures |r| == |vcpus|
  {
    var vs := Step(vcpus, WriteReg(sender, ICR_HIGH, dest * 0x100_0000, 0), room);
    Step(vs, WriteReg(sender, ICR_LOW, command, 0), room)
  }

  /** The IRR of vCPU `j` after the two writes. */
  lemma SendDelivers(vcpus: seq<Slot>, sender: nat, dest: nat, command: nat, room: nat, j: nat)
    requires sender < |vcpus| <= room && vcpus[sender].Present? && j < |vcpus| && vcpus[j].Present? && dest < 256
    requires DeliveryMode(command) == FIXED
    ensures var r := Send(vcpus, sender, dest, command, room);
            var a := vcpus[j].apic;
            && r[j].Present?
            && var hit := Matches(a, j == sender, command, dest * 0x100_0000);
               r[j].apic.irr == if hit then a.irr[VectorOf(command) := true] else a.irr
  {
    hide Matches, DeliveryMode, IcrWrite, VectorOf, Matching, HighByte, Shorthand, LogicalMode;
    var vs := Step(vcpus, WriteReg(sender, ICR_HIGH, dest * 0x100_0000, 0), room);
    HighStored(vcpus[sender].apic, dest * 0x100_0000);
    assert vs == vcpus[sender := Present(Write(vcpus[sender].apic, ICR_HIGH, dest * 0x100_0000, 0).0)];
    FanOut(vs, sender, command, room, j);
    SameMatch(vcpus[j].apic, vs[j].apic, j == sender, command, dest * 0x100_0000);
  }

  lemma HighStored(a: State, value: nat)
    ensures var b := Write(a, ICR_HIGH, value, 0).0; b == a.(icrHigh := value, page := b.page)
  {
    hide Eoi, PprUpdate;
  }

  lemma SameMatch(a: State, b: State, isSender: bool, low: nat, high: nat)
    requires a.id == b.id && a.ldr == b.ldr
    ensures Matches(a, isSender, low, high) == Matches(b, isSender, low, high)
  {
  }

  /** A physical FIXED interrupt to `dest` adds its vector to the IRR of exactly the vCPUs whose ID register
      reads `dest` in its top byte. */
  lemma PhysicalIpi(vcpus: seq<Slot>, sender: nat, dest: nat, command: nat, room: nat, j: nat, now: nat)
    requires sender < |vcpus| <= room && vcpus[sender].Present? && j < |vcpus| && vcpus[j].Present? && dest < 256
    requires DeliveryMode(command) == FIXED && Shorthand(command) == 0 && !LogicalMode(command)
    ensures var irr, irr' := vcpus[j].apic.irr, Send(vcpus, sender, dest, command, room)[j].apic.irr;
            irr' == if HighByte(Read(vcpus[j].apic, ID, now).1) == dest then irr[VectorOf(command) := true] else irr
  {
    hide Send, CommonBit, VectorOf, DeliveryMode;
    SendDelivers(vcpus, sender, dest, command, room, j);
    TopOf(dest);
  }

  lemma TopOf(dest: nat)
    requires dest < 256
    ensures HighByte(dest * 0x100_0000) == dest
  {
  }

  /** A logical FIXED interrupt: a bit that LDR and the destination share puts the vector into IRR, */
  lemma LogicalIpi(vcpus: seq<Slot>, sender: nat, dest: nat, command: nat, room: nat, j: nat, k: nat)
    requires sender < |vcpus| <= room && vcpus[sender].Present? && j < |vcpus| && vcpus[j].Present? && dest < 256
    requires DeliveryMode(command) == FIXED && Shorthand(command) == 0 && LogicalMode(command)
    requires k < 8 && HasBit(HighByte(vcpus[j].apic.ldr), k) && HasBit(dest, k)
    ensures Send(vcpus, sender, dest, command, room)[j].apic.irr == vcpus[j].apic.irr[VectorOf(command) := true]
  {
    hide Send, CommonBit, HasBit, VectorOf, DeliveryMode;
    SendDelivers(vcpus, sender, dest, command, room, j);
    TopOf(dest);
    CommonBitFrom(HighByte(vcpus[j].apic.ldr), dest, 8, k);
  }

  /** and a vCPU whose LDR shares no bit with it is left alone. */
  lemma LogicalMiss(vcpus: seq<Slot>, sender: nat, dest: nat, command: nat, room: nat, j: nat)
    requires sender < |vcpus| <= room && vcpus[sender].Present? && j < |vcpus| && vcpus[j].Present? && dest < 256
    requires DeliveryMode(command) == FIXED && Shorthand(command) == 0 && LogicalMode(command)
    requires forall k: nat | k < 8 :: !(HasBit(HighByte(vcpus[j].apic.ldr), k) && HasBit(dest, k))
    ensures Send(vcpus, sender, dest, command, room)[j].apic.irr == vcpus[j].apic.irr
  {
    hide Send, CommonBit, HasBit, VectorOf, DeliveryMode;
    SendDelivers(vcpus, sender, dest, command, room, j);
    TopOf(dest);
    if CommonBit(HighByte(vcpus[j].apic.ldr), dest, 8) {
      var k := CommonBitAt(HighByte(vcpus[j].apic.ldr), dest, 8);
    }
  }

  // ---------------------------------------------------------------- errors

  lemma {:induction false} OrBitsAre(x: nat, y: nat, n: nat, k: nat)
    requires k < n
    ensures HasBit(OrBits(x, y, n), k) <==> HasBit(x, k) || HasBit(y, k)
    decreases n
  {
    var r := OrBits(x, y, n);
    assert r / 2 == OrBits(x / 2, y / 2, n - 1);
    if k > 0 {
      OrBitsAre(x / 2, y / 2, n - 1, k - 1);
    }
  }

  lemma {:induction false} OrBitsSmall(x: nat, y: nat, n: nat)
    ensures OrBits(x, y, n) < Doubled(n)
  {
    if n > 0 {
      OrBitsSmall(x / 2, y / 2, n - 1);
    }
  }

  function Doubled(n: nat): nat {
    if n == 0 then 1 else 2 * Doubled(n - 1)
  }

  lemma InjectPending(a: State, vector: nat, level: bool)
    requires vector < VECTORS
    ensures Inject(a, vector, level).esrPending == a.esrPending
  {
  }

  lemma {:induction false} NoErrors(k: nat)
    ensures !HasBit(0, k)
  {
    if k > 0 {
      NoErrors(k - 1);
    }
  }

  /** Does this operation report error `k` to vCPU `j`? */
  predicate Reports(op: Op, j: nat, k: nat) {
    op.ReportError? && op.cpu == j && HasBit(op.bits % 256, k)
  }

  predicate Latches(op: Op, j: nat) {
    op.WriteReg? && op.cpu == j && op.offset == ESR
  }

  lemma WritePending(a: State, offset: nat, value: nat, now: nat)
    ensures Write(a, offset, value, now).0.esrPending == if offset == ESR then 0 else a.esrPending
  {
    hide Priority, Word;
  }

  lemma ReadPending(a: State, offset: nat, now: nat)
    ensures Read(a, offset, now).0.esrPending == a.esrPending
  {
    hide Priority, Word, Ccr, PageWord;
  }

  lemma ErrorPending(a: State, bits: nat, k: nat)
    requires k < 8 && a.esrPending < 256
    ensures var b := SetError(a, bits);
            b.esrPending < 256 && (HasBit(b.esrPending, k) <==> HasBit(a.esrPending, k) || HasBit(bits % 256, k))
  {
    hide HasBit, Inject, OrBits;
    InjectPending(a.(esrPending := OrByte(a.esrPending, bits % 256)), a.lvtError % 256, false);
    OrBitsAre(a.esrPending, bits % 256, 8, k);
    OrBitsSmall(a.esrPending, bits % 256, 8);
    assert Doubled(8) == 256;
    NoErrors(k);
  }

  /** The pending errors of vCPU `j` after one operation. */
  lemma StepPending(vcpus: seq<Slot>, op: Op, room: nat, j: nat, k: nat)
    requires OpOk(vcpus, op) && j < |vcpus| && vcpus[j].Present? && k < 8 && vcpus[j].apic.esrPending < 256
    requires !Latches(op, j)
    ensures var r := Step(vcpus, op, room);
            && r[j].Present? && r[j].apic.esrPending < 256
            && (HasBit(r[j].apic.esrPending, k) <==> HasBit(vcpus[j].apic.esrPending, k) || Reports(op, j, k))
  {
    hide HasBit, IcrWrite, Write, Read, Inject, SetError, Receives;
    var a := vcpus[j].apic;
    match op
    case WriteReg(cpu, offset, value, now) =>
      WritePending(a, offset, value, now);
      FanOutIf(vcpus, cpu, value, room, j);
    case ReadReg(cpu, offset, now) => ReadPending(a, offset, now);
    case InjectIrq(cpu, vector, level) => InjectPending(a, vector, level);
    case ReportError(cpu, bits) => ErrorPending(a, bits, k);
  }

  lemma FanOutIf(vcpus: seq<Slot>, cpu: nat, value: nat, room: nat, j: nat)
    requires cpu < |vcpus| && vcpus[cpu].Present? && j < |vcpus| && vcpus[j].Present?
    ensures var r := IcrWrite(vcpus, cpu, value, room);
            r[j].Present? && r[j].apic.esrPending == vcpus[j].apic.esrPending
  {
    hide IcrWrite, Receives, Targeted, Matching;
    FanOut(vcpus, cpu, value, room, j);
  }

  /** Over any run that does not write ESR, exactly the errors pending at the start or reported since are
      pending at the end. */
  lemma {:induction false} RunPending(vcpus: seq<Slot>, ops: seq<Op>, room: nat, j: nat, k: nat)
    requires j < |vcpus| && vcpus[j].Present? && k < 8 && vcpus[j].apic.esrPending < 256
    requires forall i | 0 <= i < |ops| :: !Latches(ops[i], j)
    ensures var r := Run(vcpus, ops, room);
            && r[j].Present? && r[j].apic.esrPending < 256
            && (HasBit(r[j].apic.esrPending, k) <==>
                HasBit(vcpus[j].apic.esrPending, k) || exists i | 0 <= i < |ops| :: Reports(ops[i], j, k))
    decreases |ops|
  {
    hide HasBit, Step, Reports, Latches;
    if ops != [] {
      assert forall i | 0 < i < |ops| :: ops[i] == ops[1..][i - 1];
      if OpOk(vcpus, ops[0]) {
        StepPending(vcpus, ops[0], room, j, k);
        RunPending(Step(vcpus, ops[0], room), ops[1..], room, j, k);
      } else {
        NoReport(vcpus, ops[0], j, k);
        RunPending(vcpus, ops[1..], room, j, k);
      }
    }
  }

  /** An operation that does not happen was not one on this vCPU. */
  lemma NoReport(vcpus: seq<Slot>, op: Op, j: nat, k: nat)
    requires !OpOk(vcpus, op) && j < |vcpus| && vcpus[j].Present?
    ensures !Reports(op, j, k)
  {
    hide HasBit;
  }

  /** After init, and after every ESR write, nothing is pending. relm_apic_init itself does not assign the pending
      errors: they are 0 because the vCPU is allocated zeroed and initialised once, and Init says so. */
  lemma NothingPending(a: State, id: nat, value: nat, now: nat)
    ensures Init(id).esrPending == 0 && Write(a, ESR, value, now).0.esrPending == 0
  {
    hide Write;
    WritePending(a, ESR, value, now);
  }

  /** With nothing pending, as after init or an ESR write: a run without an ESR write and then one. ESR reads
      exactly the errors reported in the run, and none is pending any more. */
  lemma ErrorsLatch(vcpus: seq<Slot>, ops: seq<Op>, room: nat, j: nat, value: nat, now: nat, k: nat)
    requires j < |vcpus| && vcpus[j].Present? && vcpus[j].apic.esrPending == 0 && k < 8
    requires forall i | 0 <= i < |ops| :: !Latches(ops[i], j)
    ensures var r := Run(vcpus, ops, room);
            && r[j].Present?
            && var b := Write(r[j].apic, ESR, value, now).0;
               && (HasBit(Read(b, ESR, now).1, k) <==> exists i | 0 <= i < |ops| :: Reports(ops[i], j, k))
               && b.esrPending == 0
  {
    hide HasBit, Run, Reports, Latches, Eoi, PprUpdate;
    RunPending(vcpus, ops, room, j, k);
    NoErrors(k);
  }
}

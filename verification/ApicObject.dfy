/** The virtual APIC as the object the source updates in place, with its scan, resolve and deliver loops. */
module ApicObject {
  import opened Apic
  import opened ApicSystem

  lemma {:induction false} PackZero(s: seq<bool>)
    ensures Pack(s) == 0 <==> forall i | 0 <= i < |s| :: !s[i]
    decreases |s|
  {
    if s != [] {
      PackZero(s[1..]);
      assert forall i | 1 <= i < |s| :: s[i] == s[1..][i - 1];
    }
  }

  lemma WordZero(b: Bits, w: nat)
    requires w < WORDS
    ensures Word(b, w) == 0 <==> forall k | w * 32 <= k < w * 32 + 32 :: !b[k]
  {
    var s := b[w * 32..w * 32 + 32];
    PackZero(s);
    assert forall k | w * 32 <= k < w * 32 + 32 :: b[k] == s[k - w * 32];
  }

  /** The scan shared by relm_apic_ppr_update and relm_apic_eoi: the first nonzero word from the top, and in
      it the highest bit. */
  method FindHighest(b: Bits) returns (v: int)
    ensures v == Highest(b)
  {
    hide Word;
    v := -1;
    var word: nat := WORDS;
    while word > 0 && v < 0
      invariant word <= WORDS
      invariant v < 0 ==> v == -1 && forall k | word * 32 <= k < VECTORS :: !b[k]
      invariant v >= 0 ==> v == Highest(b)
      decreases word, -v
    {
      word := word - 1;
      WordZero(b, word);
      if Word(b, word) != 0 {
        var bit: nat := 31;
        while !b[word * 32 + bit]
          invariant bit < 32
          invariant forall k | word * 32 + bit < k < VECTORS :: !b[k]
          invariant exists k | word * 32 <= k <= word * 32 + bit :: b[k]
          decreases bit
        {
          bit := bit - 1;
        }
        v := word * 32 + bit;
      }
    }
  }

  class VirtApic {
    var s: State

    constructor (apicId: nat)
      ensures s == Init(apicId)
    {
      s := Init(apicId);
    }

    method UpdatePpr()
      modifies this
      ensures s == PprUpdate(old(s))
    {
      var v := FindHighest(s.isr);
      var ppr := Class(s.tpr);
      if v > 0 && Class(v) > ppr {
        ppr := Class(v);
      }
      s := s.(ppr := ppr);
      s := Sync(s, PPR, ppr);
    }

    method EndOfInterrupt()
      modifies this
      ensures s == Eoi(old(s))
    {
      hide Word, Priority;
      var v := FindHighest(s.isr);
      if v < 0 {
        return;
      }
      var word := v / 32;
      s := s.(isr := s.isr[v := false]);
      s := Sync(s, ISR + word * 16, Word(s.isr, word));
      if s.tmr[v] {
        s := s.(tmr := s.tmr[v := false]);
        s := Sync(s, TMR + word * 16, Word(s.tmr, word));
      }
      UpdatePpr();
    }

    method InjectInterrupt(vector: nat, level: bool)
      requires vector < VECTORS
      modifies this
      ensures s == Inject(old(s), vector, level)
    {
      hide Word;
      var word := vector / 32;
      s := s.(irr := s.irr[vector := true]);
      s := s.(tmr := s.tmr[vector := level]);
      s := Sync(s, IRR + word * 16, Word(s.irr, word));
      s := Sync(s, TMR + word * 16, Word(s.tmr, word));
    }
  }

  function View(a: VirtApic?): Slot
    reads a
  {
    if a == null then Empty else Present(a.s)
  }

  function Views(vcpus: seq<VirtApic?>): (r: seq<Slot>)
    reads vcpus
    ensures |r| == |vcpus|
  {
    seq(|vcpus|, i reads vcpus requires 0 <= i < |vcpus| => View(vcpus[i]))
  }

  /** No vCPU sits in two slots. */
  ghost predicate Apart(vcpus: seq<VirtApic?>) {
    forall i, j | 0 <= i < j < |vcpus| :: vcpus[i] == null || vcpus[i] != vcpus[j]
  }

  /** relm_apic_ipi_resolve_targets. */
  method ResolveTargets(vcpus: seq<VirtApic?>, sender: nat, low: nat, high: nat, room: nat) returns (targets: seq<nat>)
    ensures targets == Targets(Views(vcpus), sender, low, high, room, |vcpus|)
  {
    hide Matches;
    targets := [];
    var i: nat := 0;
    ghost var vs := Views(vcpus);
    while i < |vcpus| && |targets| < room
      invariant i <= |vcpus|
      invariant targets == Targets(vs, sender, low, high, room, i)
    {
      var candidate := vcpus[i];
      if candidate != null && Matches(candidate.s, i == sender, low, high) {
        targets := targets + [i];
      }
      i := i + 1;
    }
    FullStays(vs, sender, low, high, room, i, |vcpus|);
  }

  lemma {:induction false} FullStays(vs: seq<Slot>, sender: nat, low: nat, high: nat, room: nat, i: nat, n: nat)
    requires i <= n <= |vs| && (i == n || |Targets(vs, sender, low, high, room, i)| >= room)
    ensures Targets(vs, sender, low, high, room, n) == Targets(vs, sender, low, high, room, i)
    decreases n
  {
    if i < n {
      FullStays(vs, sender, low, high, room, i, n - 1);
    }
  }

  /** relm_apic_ipi_deliver to the vCPU in slot `t`. */
  method DeliverTo(vcpus: seq<VirtApic?>, t: nat, low: nat)
    requires t < |vcpus| && vcpus[t] != null && Apart(vcpus)
    modifies vcpus[t]
    ensures Views(vcpus) == old(Views(vcpus))[t := Present(Deliver(old(vcpus[t].s), low))]
  {
    hide Inject;
    if DeliveryMode(low) == FIXED {
      vcpus[t].InjectInterrupt(VectorOf(low), LevelOf(low));
    }
  }

  method StoreIcr(vcpus: seq<VirtApic?>, sender: nat, value: nat)
    requires sender < |vcpus| && vcpus[sender] != null && Apart(vcpus)
    modifies vcpus[sender]
    ensures Views(vcpus) == old(Views(vcpus))[sender := Present(WriteIcr(old(vcpus[sender].s), value))]
  {
    var a := vcpus[sender];
    a.s := a.s.(icrLow := value);
    a.s := Sync(a.s, ICR_LOW, WithoutPending(value));
  }

  method DeliverToAll(vcpus: seq<VirtApic?>, targets: seq<nat>, low: nat)
    requires Apart(vcpus) && forall t <- targets :: t < |vcpus| && Views(vcpus)[t].Present?
    modifies vcpus
    ensures Views(vcpus) == DeliverAll(old(Views(vcpus)), targets, low)
  {
    hide Deliver;
    ghost var vs := Views(vcpus);
    var i: nat := 0;
    while i < |targets|
      invariant i <= |targets|
      invariant forall t <- targets :: t < |vs| && vs[t].Present?
      invariant forall t <- targets[..i] :: t in targets
      invariant Views(vcpus) == DeliverAll(vs, targets[..i], low)
    {
      assert targets[..i + 1][..i] == targets[..i];
      assert forall t <- targets[..i + 1] :: t in targets;
      assert targets[i] in targets;
      assert Views(vcpus)[targets[i]] == View(vcpus[targets[i]]);
      DeliverTo(vcpus, targets[i], low);
      i := i + 1;
    }
    assert targets[..i] == targets;
  }

  /** relm_apic_handle_icr_write: stores ICR, resolves the targets and delivers to each. */
  method HandleIcrWrite(vcpus: seq<VirtApic?>, sender: nat, value: nat, room: nat)
    requires sender < |vcpus| && vcpus[sender] != null && Apart(vcpus)
    modifies vcpus
    ensures Views(vcpus) == IcrWrite(old(Views(vcpus)), sender, value, room)
  {
    hide Targets, DeliverAll;
    StoreIcr(vcpus, sender, value);
    assert Views(vcpus)[sender] == View(vcpus[sender]);
    var targets := ResolveTargets(vcpus, sender, value, vcpus[sender].s.icrHigh, room);
    DeliverToAll(vcpus, targets, value);
  }
}

/** Runs from the empty CR3 cache at whose end its invariant is gone. */
module Cr3Witness {
  import opened Cr3Policy
  import opened Cr3Cache

  lemma {:induction false} RunJoins(s: State, a: seq<Call>, b: seq<Call>)
    ensures Run(s, a + b) == Run(Run(s, a), b)
    decreases |a|
  {
    hide Record;
    if a == [] {
      assert a + b == b;
    } else if s.count <= |s.cand| {
      assert (a + b)[1..] == a[1..] + b;
      RunJoins(Record(s, a[0].cr3, a[0].now), a[1..], b);
    }
  }

  lemma RunOne(s: State, c: Call)
    requires s.count <= |s.cand|
    ensures Run(s, [c]) == Record(s, c.cr3, c.now)
  {
    hide Record;
    assert Run(s, [c]) == Run(Record(s, c.cr3, c.now), [c][1..]);
  }

  // ---------------------------------------------------------------- CR3 0 into a full table

  /** The first `n` processes seen once each. */
  function Filled(n: nat): State {
    var cand := seq(CACHE_SIZE, (i: nat) => if i < n then Entry(i + 1, 1, 0, false) else Entry(0, 0, 0, false));
    State(cand, n, 0, n, seq(MAX_TARGETS, _ => 0), 0, [])
  }

  /** Processes n, n + 1, ... up to the last. */
  function Arrivals(n: nat): seq<Call>
    decreases CACHE_SIZE - n
  {
    if n >= CACHE_SIZE then [] else [Call(n + 1, 0)] + Arrivals(n + 1)
  }

  lemma FilledOk(n: nat)
    requires n <= CACHE_SIZE
    ensures Inv(Filled(n))
  {
    var s := Filled(n);
    assert s.slots[..0] == [];
    assert forall v: nat :: !PromotedValue(s.cand, v);
  }

  lemma OneArrives(n: nat)
    requires n < CACHE_SIZE
    ensures Record(Filled(n), n + 1, 0) == Filled(n + 1)
  {
    var s := Filled(n);
    assert s.cand[n].cr3 == 0;
    assert SlotOf(s.cand, n + 1, 0) == CACHE_SIZE && SlotOf(s.cand, 0, 0) == n;
    assert s.cand[n := Entry(n + 1, 1, 0, false)] == Filled(n + 1).cand;
  }

  lemma {:induction false} AllArrive(n: nat)
    requires n <= CACHE_SIZE
    ensures Run(Filled(n), Arrivals(n)) == Filled(CACHE_SIZE)
    decreases CACHE_SIZE - n
  {
    hide Record, Filled;
    if n < CACHE_SIZE {
      FilledOk(n);
      InvCount(Filled(n));
      OneArrives(n);
      AllArrive(n + 1);
      assert Arrivals(n)[1..] == Arrivals(n + 1);
    }
  }

  /** Sixteen processes, then CR3 0: the occupied prefix has a hole. */
  lemma ZeroBreaksThePrefix()
    ensures var s := Run(Init([]), Arrivals(0));
            Inv(s) && s.count == CACHE_SIZE && !Inv(Run(Init([]), Arrivals(0) + [Call(0, 0)]))
  {
    hide Record, Promotes, ResetLost, Inv, Run;
    assert Init([]).cand == Filled(0).cand;
    AllArrive(0);
    FilledOk(CACHE_SIZE);
    RunJoins(Init([]), Arrivals(0), [Call(0, 0)]);
    RunOne(Filled(CACHE_SIZE), Call(0, 0));
    RecordKeeps(Filled(CACHE_SIZE), 0, 0);
  }

  // ---------------------------------------------------------------- a lost reset

  function Times(n: nat, v: nat): seq<Call> {
    if n == 0 then [] else [Call(v, 0)] + Times(n - 1, v)
  }

  function Two(a: Entry, b: Entry): (cand: seq<Entry>)
    ensures |cand| == CACHE_SIZE && cand[0] == a && cand[1] == b
    ensures forall i | 2 <= i < CACHE_SIZE :: cand[i] == Entry(0, 0, 0, false)
  {
    [a, b] + seq(CACHE_SIZE - 2, _ => Entry(0, 0, 0, false))
  }

  const NONE: Entry := Entry(0, 0, 0, false)

  /** Process 1 seen `h` times and not promoted. */
  function Rising(h: nat): State {
    State(Two(Entry(1, h, 0, false), NONE), 1, 0, h, [0, 0, 0, 0], 0, WRITES)
  }

  /** Process 1 promoted, process 2 seen `h` times, and a VMCS that refuses two writes. */
  function Refusing(h: nat): State {
    State(Two(Entry(1, THRESHOLD, 0, true), Entry(2, h, 0, false)), 2, 1, THRESHOLD + h, [1, 0, 0, 0], 1,
          [false, false])
  }

  lemma Rises(h: nat)
    requires 1 <= h < THRESHOLD - 1
    ensures Record(Rising(h), 1, 0) == Rising(h + 1)
  {
    var s := Rising(h);
    assert SlotOf(s.cand, 1, 0) == 0;
    assert s.cand[0 := Entry(1, h + 1, 0, false)] == Rising(h + 1).cand;
  }

  lemma RisesAgain(h: nat)
    requires 1 <= h < THRESHOLD - 1
    ensures Record(Refusing(h), 2, 0) == Refusing(h + 1)
  {
    var s := Refusing(h);
    assert SlotOf(s.cand, 2, 0) == 1;
    assert s.cand[1 := Entry(2, h + 1, 0, false)] == Refusing(h + 1).cand;
  }

  lemma {:induction false} RisesOn(h: nat)
    requires 1 <= h <= THRESHOLD - 1
    ensures Run(Rising(h), Times(THRESHOLD - 1 - h, 1)) == Rising(THRESHOLD - 1)
    ensures Run(Refusing(h), Times(THRESHOLD - 1 - h, 2)) == Refusing(THRESHOLD - 1)
    decreases THRESHOLD - h
  {
    hide Record;
    if h < THRESHOLD - 1 {
      Rises(h);
      RisesAgain(h);
      RisesOn(h + 1);
      assert Times(THRESHOLD - 1 - h, 1)[1..] == Times(THRESHOLD - 2 - h, 1);
      assert Times(THRESHOLD - 1 - h, 2)[1..] == Times(THRESHOLD - 2 - h, 2);
    }
  }

  lemma First()
    ensures Record(Init(WRITES), 1, 0) == Rising(1)
  {
    var s := Init(WRITES);
    assert SlotOf(s.cand, 1, 0) == CACHE_SIZE && SlotOf(s.cand, 0, 0) == 0;
    assert s.cand[0 := Entry(1, 1, 0, false)] == Rising(1).cand;
  }

  /** Process 1 reaches the threshold and both VMWRITEs succeed. */
  function Installed(): State {
    State(Two(Entry(1, THRESHOLD, 0, true), NONE), 1, 1, THRESHOLD, [1, 0, 0, 0], 1, [false, false])
  }

  lemma OneTarget(cand: seq<Entry>)
    requires |cand| == CACHE_SIZE && cand[0].cr3 == 1 && cand[0].hits != 0
    ensures Targets(cand, 1) == [1]
  {
    PolicyIsTopFour(cand, 1);
    assert EligibleSet(cand, 1, {}) == {0};
  }

  lemma Installs()
    ensures Record(Rising(THRESHOLD - 1), 1, 0) == Installed()
  {
    hide Targets;
    var s := Rising(THRESHOLD - 1);
    assert SlotOf(s.cand, 1, 0) == 0;
    var s2 := s.(cand := Two(Entry(1, THRESHOLD, 0, false), NONE), total := THRESHOLD);
    assert s.cand[0 := Entry(1, THRESHOLD, 0, false)] == s2.cand;
    assert Record(s, 1, 0) == Apply(s2);
    OneTarget(s2.cand);
    assert Changed(s2, [1]);
    var slots, rest := [1, 0, 0, 0], [true, false, false];
    assert s2.slots[0 := 1] == slots && Rest(s2.writes) == rest;
    assert WriteSlots(slots, rest, [1], 1) == (slots, rest, true);
    assert WriteSlots(s2.slots, s2.writes, [1], 0) == (slots, rest, true);
    assert Promoted(Demoted(s2.cand), [1]) == Installed().cand;
  }

  lemma Second()
    ensures Record(Installed(), 2, 0) == Refusing(1)
  {
    var s := Installed();
    assert SlotOf(s.cand, 2, 0) == CACHE_SIZE && SlotOf(s.cand, 0, 0) == 1;
    assert s.cand[1 := Entry(2, 1, 0, false)] == Refusing(1).cand;
  }

  lemma RefusingOk(h: nat)
    requires h != 0
    ensures Inv(Refusing(h)) && |Targets(Refusing(h).cand, 2)| > 1
  {
    var s := Refusing(h);
    assert s.slots[..1] == [1];
    assert s.cand[0].promoted && s.cand[0].cr3 == 1;
    assert TargetsOk(s);
    TwoEligible(s.cand);
  }

  lemma TwoEligible(cand: seq<Entry>)
    requires |cand| == CACHE_SIZE && cand[0].cr3 != 0 && cand[0].hits != 0 && cand[1].cr3 != 0 && cand[1].hits != 0
    ensures |Targets(cand, 2)| > 1
  {
    hide Selected;
    PolicyIsTopFour(cand, 2);
    assert EligibleSet(cand, 2, {}) == {0, 1};
  }

  const WRITES: seq<bool> := [true, true, false, false]
  const LOSING_RUN: seq<Call> := Times(THRESHOLD, 1) + Times(THRESHOLD - 1, 2)

  lemma {:induction false} OneMoreTime(n: nat, v: nat)
    ensures Times(n + 1, v) == Times(n, v) + [Call(v, 0)]
  {
    if n > 0 {
      OneMoreTime(n - 1, v);
    }
  }

  lemma Promotion()
    ensures Run(Init(WRITES), Times(THRESHOLD, 1)) == Installed()
  {
    hide Record, Run, Times;
    var once := [Call(1, 0)];
    OneMoreTime(THRESHOLD - 1, 1);
    FromFirst(THRESHOLD - 2, 1);
    RunJoins(Init(WRITES), once, Times(THRESHOLD - 2, 1));
    RunJoins(Init(WRITES), Times(THRESHOLD - 1, 1), once);
    RunOne(Init(WRITES), Call(1, 0));
    First();
    RisesOn(1);
    RunOne(Rising(THRESHOLD - 1), Call(1, 0));
    Installs();
  }

  lemma FromFirst(n: nat, v: nat)
    ensures Times(n + 1, v) == [Call(v, 0)] + Times(n, v)
  {
  }

  lemma LosingRun()
    ensures Run(Init(WRITES), LOSING_RUN) == Refusing(THRESHOLD - 1)
  {
    hide Record, Run, Times;
    Promotion();
    RunJoins(Init(WRITES), Times(THRESHOLD, 1), Times(THRESHOLD - 1, 2));
    FromFirst(THRESHOLD - 2, 2);
    RunJoins(Installed(), [Call(2, 0)], Times(THRESHOLD - 2, 2));
    RunOne(Installed(), Call(2, 0));
    Second();
    RisesOn(1);
  }

  lemma Loses()
    ensures var s := Refusing(THRESHOLD - 1); Promotes(s, 2, 0) && ResetLost(AfterHit(s, 2, 0))
  {
    hide Targets;
    var s := Refusing(THRESHOLD - 1);
    assert SlotOf(s.cand, 2, 0) == 1;
    var s2 := AfterHit(s, 2, 0);
    assert s2.cand[0].cr3 == 1 && s2.cand[1] == Entry(2, THRESHOLD, 0, false);
    TwoEligible(s2.cand);
    var vs := Targets(s2.cand, 2);
    assert WriteSlots(s2.slots, s2.writes, vs, 0) == (s2.slots, [false], false);
  }

  /** Ten times process 1, whose promotion succeeds, then ten times process 2: a refused VMWRITE followed by a refused
      reset leaves the VMCS a target that is no longer promoted. */
  lemma ResetLostExample()
    ensures Inv(Run(Init(WRITES), LOSING_RUN)) && !Inv(Run(Init(WRITES), LOSING_RUN + [Call(2, 0)]))
  {
    hide Targets, Inv, Run, Record, Promotes, ResetLost;
    LosingRun();
    var s := Refusing(THRESHOLD - 1);
    RefusingOk(THRESHOLD - 1);
    Loses();
    RunJoins(Init(WRITES), LOSING_RUN, [Call(2, 0)]);
    RunOne(s, Call(2, 0));
    RecordKeeps(s, 2, 0);
  }
}

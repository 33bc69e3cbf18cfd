/** The CR3-target cache of src/arch/x86/vmx/vmx.c:2300-2510 as a state machine: candidates, the VMCS
    target slots, and an oracle for VMWRITE (true: the write succeeds; past its end writes succeed).
*/
module Cr3Cache {
  import opened Cr3Policy

  const U64_MAX: nat := 0xffff_ffff_ffff_ffff

  datatype State = State(cand: seq<Entry>, count: nat, promotedCount: nat, total: nat,
                         slots: seq<nat>, targets: nat, writes: seq<bool>)

  function Init(writes: seq<bool>): State {
    State(seq(CACHE_SIZE, _ => Entry(0, 0, 0, false)), 0, 0, 0, seq(MAX_TARGETS, _ => 0), 0, writes)
  }

  // ---------------------------------------------------------------- apply

  function Values(cand: seq<Entry>, sel: seq<nat>): seq<nat>
    requires forall i | 0 <= i < |sel| :: sel[i] < |cand|
  {
    seq(|sel|, i requires 0 <= i < |sel| => cand[sel[i]].cr3)
  }

  /** The CR3 values the policy chooses. */
  function Targets(cand: seq<Entry>, n: nat): (vs: seq<nat>)
    requires n <= |cand|
    ensures |vs| <= MAX_TARGETS
  {
    PolicyIsTopFour(cand, n);
    Values(cand, Selected(cand, n))
  }

  predicate PromotedValue(cand: seq<Entry>, v: nat) {
    exists j | 0 <= j < |cand| :: cand[j].promoted && cand[j].cr3 == v
  }

  predicate Changed(s: State, vs: seq<nat>) {
    |vs| != s.promotedCount || exists i | 0 <= i < |vs| :: !PromotedValue(s.cand, vs[i])
  }

  function Demoted(cand: seq<Entry>): (r: seq<Entry>)
    ensures |r| == |cand|
  {
    seq(|cand|, i requires 0 <= i < |cand| => cand[i].(promoted := false))
  }

  function Promoted(cand: seq<Entry>, vs: seq<nat>): (r: seq<Entry>)
    ensures |r| == |cand|
  {
    seq(|cand|, i requires 0 <= i < |cand| =>
      if cand[i].cr3 != 0 && cand[i].cr3 in vs then cand[i].(promoted := true) else cand[i])
  }

  function NextWrite(writes: seq<bool>): bool {
    writes == [] || writes[0]
  }

  function Rest(writes: seq<bool>): seq<bool> {
    if writes == [] then [] else writes[1..]
  }

  /** Writes vs[i..] to the VMCS slots; stops at the first failing VMWRITE. */
  function WriteSlots(slots: seq<nat>, writes: seq<bool>, vs: seq<nat>, i: nat): (seq<nat>, seq<bool>, bool)
    decreases |vs| - i
  {
    if i >= |vs| || i >= |slots| then (slots, writes, true)
    else if !NextWrite(writes) then (slots, Rest(writes), false)
    else WriteSlots(slots[i := vs[i]], Rest(writes), vs, i + 1)
  }

  /** The error exit: CR3_TARGET_COUNT is to be reset to 0; that VMWRITE may fail as well. */
  function Reset(s: State): State {
    s.(targets := if NextWrite(s.writes) then 0 else s.targets, writes := Rest(s.writes), promotedCount := 0)
  }

  function Apply(s: State): State
    requires s.count <= |s.cand|
  {
    var vs := Targets(s.cand, s.count);
    if !Changed(s, vs) then s
    else
      var (slots, writes, ok) := WriteSlots(s.slots, s.writes, vs, 0);
      var s1 := s.(cand := Demoted(s.cand), slots := slots, writes := writes);
      if !ok then Reset(s1)
      else if !NextWrite(s1.writes) then Reset(s1.(writes := Rest(s1.writes)))
      else
        s1.(cand := Promoted(s1.cand, vs), promotedCount := |vs|, targets := |vs|, writes := Rest(s1.writes))
  }

  // ---------------------------------------------------------------- record

  /** The first slot from `i` on that holds `v`, or the number of slots. */
  function SlotOf(cand: seq<Entry>, v: nat, i: nat): (k: nat)
    requires i <= |cand|
    ensures i <= k <= |cand|
    ensures k < |cand| ==> cand[k].cr3 == v
    ensures forall j | i <= j < k :: cand[j].cr3 != v
    decreases |cand| - i
  {
    if i == |cand| || cand[i].cr3 == v then i else SlotOf(cand, v, i + 1)
  }

  /** The scan for an eviction candidate: least used, not promoted. */
  function Victim(cand: seq<Entry>, i: nat, best: nat, hits: nat): nat
    decreases |cand| - i
  {
    if i >= |cand| then best
    else if cand[i].cr3 != 0 && !cand[i].promoted && cand[i].hits < hits then Victim(cand, i + 1, i, cand[i].hits)
    else Victim(cand, i + 1, best, hits)
  }

  function Evictee(cand: seq<Entry>): nat {
    Victim(cand, 0, |cand|, U64_MAX)
  }

  function Bump(x: nat): nat {
    if x >= U64_MAX then 0 else x + 1
  }

  function Hit(s: State, k: nat, now: nat): State
    requires k < |s.cand|
  {
    s.(cand := s.cand[k := s.cand[k].(hits := Bump(s.cand[k].hits), seen := now)])
  }

  /** relm_cr3_cache_record at time `now`. */
  function Record(s: State, cr3: nat, now: nat): State
    requires s.count <= |s.cand|
  {
    var s1 := s.(total := Bump(s.total));
    var k, e, v := SlotOf(s.cand, cr3, 0), SlotOf(s.cand, 0, 0), Evictee(s.cand);
    var fresh_ := Entry(cr3, 1, now, false);
    if k < |s.cand| then
      var s2 := Hit(s1, k, now);
      if s2.cand[k].hits >= THRESHOLD && !s2.cand[k].promoted then Apply(s2) else s2
    else if e < |s.cand| then s1.(cand := s.cand[e := fresh_], count := s.count + 1)
    else if v < |s.cand| then s1.(cand := s.cand[v := fresh_])
    else s1
  }

  // ---------------------------------------------------------------- the invariant

  /** Occupied slots form a prefix with distinct values, used at least once and at most `total` times. */
  ghost predicate CandOk(cand: seq<Entry>, count: nat, total: nat) {
    && |cand| == CACHE_SIZE && count <= CACHE_SIZE
    && (forall i | 0 <= i < CACHE_SIZE :: cand[i].cr3 != 0 <==> i < count)
    && (forall i, j | 0 <= i < j < count :: cand[i].cr3 != cand[j].cr3)
    && (forall i | 0 <= i < count :: 1 <= cand[i].hits <= total)
    && (forall i | count <= i < CACHE_SIZE :: !cand[i].promoted)
  }

  /** The promoted entries are exactly the VMCS targets, which are distinct. */
  ghost predicate TargetsOk(s: State) {
    && |s.slots| == MAX_TARGETS && s.promotedCount == s.targets <= MAX_TARGETS
    && (forall i, j | 0 <= i < j < s.targets :: s.slots[i] != s.slots[j])
    && (forall v: nat :: PromotedValue(s.cand, v) <==> v in s.slots[..s.targets])
  }

  ghost predicate Inv(s: State) {
    CandOk(s.cand, s.count, s.total) && TargetsOk(s)
  }

  /** No VMWRITE fails right after another one that failed. */
  ghost predicate NoTwoFailures(writes: seq<bool>) {
    forall k | 0 <= k < |writes| - 1 :: writes[k] || writes[k + 1]
  }

  lemma TargetsAre(cand: seq<Entry>, count: nat, total: nat)
    requires CandOk(cand, count, total)
    ensures var vs := Targets(cand, count);
            && (forall i, j | 0 <= i < j < |vs| :: vs[i] != vs[j])
            && (forall i | 0 <= i < |vs| :: exists k | 0 <= k < count :: cand[k].cr3 == vs[i])
  {
    PolicyIsTopFour(cand, count);
    var sel := Selected(cand, count);
    var vs := Targets(cand, count);
    forall i | 0 <= i < |vs|
      ensures sel[i] < count && vs[i] == cand[sel[i]].cr3
    {
      assert Eligible(cand, count, {}, sel[i]);
    }
    forall i, j | 0 <= i < j < |vs|
      ensures vs[i] != vs[j]
    {
      assert sel[i] != sel[j];
    }
  }

  // ---------------------------------------------------------------- apply keeps the invariant

  lemma {:induction false} WriteSlotsAll(slots: seq<nat>, writes: seq<bool>, vs: seq<nat>, i: nat)
    requires |vs| <= |slots| && i <= |vs| && slots[..i] == vs[..i]
    ensures var (slots', writes', ok) := WriteSlots(slots, writes, vs, i);
            |slots'| == |slots| && (ok ==> slots'[..|vs|] == vs)
    decreases |vs| - i
  {
    if i < |vs| && NextWrite(writes) {
      assert slots[i := vs[i]][..i + 1] == vs[..i + 1];
      WriteSlotsAll(slots[i := vs[i]], Rest(writes), vs, i + 1);
    }
  }

  lemma {:induction false} WriteSlotsOracle(slots: seq<nat>, writes: seq<bool>, vs: seq<nat>, i: nat)
    requires NoTwoFailures(writes)
    ensures var (slots', writes', ok) := WriteSlots(slots, writes, vs, i);
            NoTwoFailures(writes') && (!ok ==> NextWrite(writes'))
    decreases |vs| - i
  {
    RestOracle(writes);
    if i < |vs| && i < |slots| && NextWrite(writes) {
      WriteSlotsOracle(slots[i := vs[i]], Rest(writes), vs, i + 1);
    }
  }

  lemma RestOracle(writes: seq<bool>)
    requires NoTwoFailures(writes)
    ensures NoTwoFailures(Rest(writes)) && (!NextWrite(writes) ==> NextWrite(Rest(writes)))
  {
    if writes != [] {
      var rest := writes[1..];
      forall k | 0 <= k < |rest| - 1
        ensures rest[k] || rest[k + 1]
      {
        assert writes[k + 1] || writes[k + 2];
      }
      assert |writes| > 1 ==> writes[0] || writes[0 + 1];
    }
  }

  /** A VMWRITE fails during apply, the reset of the count fails too, and the VMCS still had targets. */
  predicate ResetLost(s: State)
    requires s.count <= |s.cand|
  {
    var vs := Targets(s.cand, s.count);
    Changed(s, vs) && s.targets != 0 &&
    var (slots, writes, ok) := WriteSlots(s.slots, s.writes, vs, 0);
    !NextWrite(writes) && (!ok || !NextWrite(Rest(writes)))
  }

  lemma DemotedNone(cand: seq<Entry>)
    ensures forall v: nat :: !PromotedValue(Demoted(cand), v)
  {
  }

  lemma PromotedExactly(cand: seq<Entry>, vs: seq<nat>)
    requires forall i | 0 <= i < |vs| :: vs[i] != 0 && exists k | 0 <= k < |cand| :: cand[k].cr3 == vs[i]
    ensures forall v: nat :: PromotedValue(Promoted(Demoted(cand), vs), v) <==> v in vs
  {
    var after := Promoted(Demoted(cand), vs);
    forall v: nat | v in vs
      ensures PromotedValue(after, v)
    {
      var i :| 0 <= i < |vs| && vs[i] == v;
      var k :| 0 <= k < |cand| && cand[k].cr3 == v;
      assert after[k].promoted && after[k].cr3 == v;
    }
  }

  lemma CandOkFlags(cand: seq<Entry>, count: nat, total: nat, after: seq<Entry>)
    requires CandOk(cand, count, total) && |after| == |cand|
    requires forall i | 0 <= i < |cand| :: after[i] == cand[i].(promoted := after[i].promoted)
    requires forall i | 0 <= i < |cand| :: after[i].promoted ==> cand[i].cr3 != 0
    ensures CandOk(after, count, total)
  {
  }

  /** apply keeps "promoted set = VMCS target set" in every case but one: the failing write that is
      followed by a failing reset. */
  lemma ApplyKeeps(s: State)
    requires Inv(s)
    ensures Inv(Apply(s)) <==> !ResetLost(s)
    ensures Apply(s).count == s.count && Apply(s).total == s.total
  {
    hide Targets, Changed, WriteSlots, PromotedValue, NextWrite, Rest;
    var vs := Targets(s.cand, s.count);
    if Changed(s, vs) {
      var (slots, writes, ok) := WriteSlots(s.slots, s.writes, vs, 0);
      WriteSlotsAll(s.slots, s.writes, vs, 0);
      DemotedNone(s.cand);
      CandOkFlags(s.cand, s.count, s.total, Demoted(s.cand));
      if ok && NextWrite(writes) {
        TargetsAre(s.cand, s.count, s.total);
        PromotedExactly(s.cand, vs);
        CandOkFlags(s.cand, s.count, s.total, Promoted(Demoted(s.cand), vs));
        assert Apply(s).slots[..|vs|] == vs;
      }
    }
  }

  lemma ApplyOracle(s: State)
    requires s.count <= |s.cand| && NoTwoFailures(s.writes)
    ensures NoTwoFailures(Apply(s).writes) && !ResetLost(s)
  {
    hide Targets, Changed, NextWrite, Rest, NoTwoFailures;
    var vs := Targets(s.cand, s.count);
    var (slots, writes, ok) := WriteSlots(s.slots, s.writes, vs, 0);
    WriteSlotsOracle(s.slots, s.writes, vs, 0);
    RestOracle(writes);
    RestOracle(Rest(writes));
  }

  // ---------------------------------------------------------------- record keeps the invariant

  ghost predicate IsVictim(cand: seq<Entry>, hi: nat, v: nat, hits: nat) {
    && v <= |cand| && (v < |cand| ==> cand[v].cr3 != 0 && !cand[v].promoted && cand[v].hits == hits)
    && (v == |cand| ==> hits == U64_MAX)
    && forall j | 0 <= j < hi && j < |cand| && cand[j].cr3 != 0 && !cand[j].promoted :: hits <= cand[j].hits
  }

  lemma {:induction false} VictimIs(cand: seq<Entry>, i: nat, best: nat, hits: nat)
    requires i <= |cand| && IsVictim(cand, i, best, hits)
    ensures var v := Victim(cand, i, best, hits);
            IsVictim(cand, |cand|, v, if v < |cand| then cand[v].hits else U64_MAX)
    decreases |cand| - i
  {
    if i < |cand| {
      if cand[i].cr3 != 0 && !cand[i].promoted && cand[i].hits < hits {
        VictimIs(cand, i + 1, i, cand[i].hits);
      } else {
        VictimIs(cand, i + 1, best, hits);
      }
    }
  }

  /** Five distinct values do not fit into four slots, so of the first five entries one is not promoted. */
  lemma SomeNotPromoted(s: State)
    requires Inv(s) && s.count >= 5
    ensures exists i | 0 <= i < 5 :: !s.cand[i].promoted
  {
    var c := s.cand;
    var i := Outside(c[0].cr3, c[1].cr3, c[2].cr3, c[3].cr3, c[4].cr3, s.slots);
    assert c[i].cr3 !in s.slots[..s.targets];
    assert c[i].promoted ==> PromotedValue(c, c[i].cr3);
  }

  lemma Outside(a: nat, b: nat, c: nat, d: nat, e: nat, slots: seq<nat>) returns (i: nat)
    requires |slots| == MAX_TARGETS
    requires a != b && a != c && a != d && a != e && b != c && b != d && b != e && c != d && c != e && d != e
    ensures i < 5 && [a, b, c, d, e][i] !in slots
  {
    var five := {a, b, c, d, e};
    var four := {slots[0], slots[1], slots[2], slots[3]};
    if five <= four {
      SubsetCard(five, four);
    }
    var v :| v in five && v !in four;
    i := if v == a then 0 else if v == b then 1 else if v == c then 2 else if v == d then 3 else 4;
  }

  lemma {:induction false} SubsetCard(a: set<nat>, b: set<nat>)
    requires a <= b
    ensures |a| <= |b|
    decreases a
  {
    if a != {} {
      var x :| x in a;
      SubsetCard(a - {x}, b - {x});
    }
  }

  /** In a full table there always is an eviction candidate, it is never a promoted entry, and it is
      the least used of those that are not promoted. */
  lemma EvictionSafe(s: State)
    requires Inv(s) && s.count == CACHE_SIZE && s.total < U64_MAX
    ensures var v := Evictee(s.cand);
            && v < CACHE_SIZE && !s.cand[v].promoted
            && forall j | 0 <= j < CACHE_SIZE && !s.cand[j].promoted :: s.cand[v].hits <= s.cand[j].hits
  {
    SomeNotPromoted(s);
    VictimIs(s.cand, 0, |s.cand|, U64_MAX);
    var i :| 0 <= i < 5 && !s.cand[i].promoted;
  }

  /** The state in which record decides about promotion. */
  function AfterHit(s: State, cr3: nat, now: nat): State
    requires SlotOf(s.cand, cr3, 0) < |s.cand|
  {
    Hit(s.(total := Bump(s.total)), SlotOf(s.cand, cr3, 0), now)
  }

  predicate Promotes(s: State, cr3: nat, now: nat) {
    var k := SlotOf(s.cand, cr3, 0);
    k < |s.cand| && AfterHit(s, cr3, now).cand[k].hits >= THRESHOLD && !s.cand[k].promoted
  }

  lemma HitKeeps(s: State, cr3: nat, now: nat)
    requires Inv(s) && s.total < U64_MAX && SlotOf(s.cand, cr3, 0) < CACHE_SIZE
    ensures Inv(AfterHit(s, cr3, now))
  {
    var k := SlotOf(s.cand, cr3, 0);
    var t := AfterHit(s, cr3, now);
    forall v: nat
      ensures PromotedValue(t.cand, v) <==> PromotedValue(s.cand, v)
    {
      assert forall j | 0 <= j < CACHE_SIZE ::
            t.cand[j].cr3 == s.cand[j].cr3 && t.cand[j].promoted == s.cand[j].promoted;
    }
  }

  /** Writing a new entry over a slot that is not promoted leaves the promoted values alone. */
  lemma ReplaceKeepsPromoted(cand: seq<Entry>, i: nat, e: Entry)
    requires i < |cand| && !cand[i].promoted && !e.promoted
    ensures forall v: nat :: PromotedValue(cand[i := e], v) <==> PromotedValue(cand, v)
  {
    var after := cand[i := e];
    forall v: nat
      ensures PromotedValue(after, v) <==> PromotedValue(cand, v)
    {
      assert forall j | 0 <= j < |cand| && j != i :: after[j] == cand[j];
    }
  }

  /** One record call, for every CR3 value: the invariant survives exactly when the call neither
      records 0 into a full table nor loses the reset of the VMCS count. */
  lemma RecordKeeps(s: State, cr3: nat, now: nat)
    requires Inv(s) && s.total < U64_MAX
    ensures Inv(Record(s, cr3, now)) <==>
              !(cr3 == 0 && s.count == CACHE_SIZE) && !(Promotes(s, cr3, now) && ResetLost(AfterHit(s, cr3, now)))
    ensures Record(s, cr3, now).total == s.total + 1
  {
    var k, e := SlotOf(s.cand, cr3, 0), SlotOf(s.cand, 0, 0);
    if k < CACHE_SIZE {
      HitKeeps(s, cr3, now);
      if Promotes(s, cr3, now) {
        ApplyKeeps(AfterHit(s, cr3, now));
      }
    } else if e < CACHE_SIZE {
      InsertKeeps(s, cr3, now);
    } else {
      EvictKeeps(s, cr3, now);
    }
  }

  lemma InsertKeeps(s: State, cr3: nat, now: nat)
    requires Inv(s) && s.total < U64_MAX && SlotOf(s.cand, cr3, 0) == CACHE_SIZE && SlotOf(s.cand, 0, 0) < CACHE_SIZE
    ensures cr3 != 0 && s.count < CACHE_SIZE && Inv(Record(s, cr3, now))
  {
    var e := SlotOf(s.cand, 0, 0);
    assert s.count <= e;
    assert s.cand[s.count].cr3 == 0;
    ReplaceKeepsPromoted(s.cand, e, Entry(cr3, 1, now, false));
  }

  lemma EvictKeeps(s: State, cr3: nat, now: nat)
    requires Inv(s) && s.total < U64_MAX && SlotOf(s.cand, cr3, 0) == CACHE_SIZE && SlotOf(s.cand, 0, 0) == CACHE_SIZE
    ensures s.count == CACHE_SIZE && (Inv(Record(s, cr3, now)) <==> cr3 != 0)
  {
    assert s.cand[CACHE_SIZE - 1].cr3 != 0;
    EvictionSafe(s);
    var v := Evictee(s.cand);
    ReplaceKeepsPromoted(s.cand, v, Entry(cr3, 1, now, false));
    assert Record(s, cr3, now).cand[v].cr3 == cr3;
  }

  // ---------------------------------------------------------------- runs

  datatype Call = Call(cr3: nat, now: nat)

  /** The state after the calls, or the first state whose count no longer fits the table. */
  function Run(s: State, calls: seq<Call>): State
    decreases |calls|
  {
    if calls == [] || s.count > |s.cand| then s else Run(Record(s, calls[0].cr3, calls[0].now), calls[1..])
  }

  lemma RecordOracle(s: State, cr3: nat, now: nat)
    requires s.count <= |s.cand| && NoTwoFailures(s.writes)
    ensures NoTwoFailures(Record(s, cr3, now).writes)
    ensures Promotes(s, cr3, now) ==> !ResetLost(AfterHit(s, cr3, now))
  {
    if Promotes(s, cr3, now) {
      ApplyOracle(AfterHit(s, cr3, now));
    }
  }

  /** In every run of record calls with nonzero CR3s and no two VMWRITE failures in a row, all
      reachable states satisfy the invariant. */
  lemma {:induction false} RunKeeps(s: State, calls: seq<Call>)
    requires Inv(s) && NoTwoFailures(s.writes) && s.total + |calls| <= U64_MAX
    requires forall i | 0 <= i < |calls| :: calls[i].cr3 != 0
    ensures Inv(Run(s, calls))
    decreases |calls|
  {
    hide Inv, NoTwoFailures, Record, Promotes;
    InvCount(s);
    if calls != [] {
      RecordKeeps(s, calls[0].cr3, calls[0].now);
      RecordOracle(s, calls[0].cr3, calls[0].now);
      RunKeeps(Record(s, calls[0].cr3, calls[0].now), calls[1..]);
    }
  }

  lemma InvCount(s: State)
    requires Inv(s)
    ensures s.count <= |s.cand|
  {
  }

  lemma InitInv(writes: seq<bool>)
    ensures Inv(Init(writes))
  {
    var s := Init(writes);
    assert s.slots[..0] == [];
    assert forall v: nat :: !PromotedValue(s.cand, v);
  }

  /** The same for every run from the empty cache. */
  lemma RunsFromInit(writes: seq<bool>, calls: seq<Call>)
    requires NoTwoFailures(writes) && |calls| <= U64_MAX && forall i | 0 <= i < |calls| :: calls[i].cr3 != 0
    ensures Inv(Run(Init(writes), calls))
  {
    hide Inv, NoTwoFailures, Run;
    InitInv(writes);
    RunKeeps(Init(writes), calls);
  }
}

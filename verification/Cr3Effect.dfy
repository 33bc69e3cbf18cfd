/** What apply and record achieve, beyond the invariant they keep: the policy's choice ends up in the VMCS,
    and hit counts count.
*/
module Cr3Effect {
  import opened Cr3Policy
  import opened Cr3Cache

  // ---------------------------------------------------------------- apply installs the policy's choice

  function ValuesOf(s: seq<nat>): set<nat> {
    set v | v in s
  }

  lemma {:induction false} DistinctCard(s: seq<nat>)
    requires forall i, j | 0 <= i < j < |s| :: s[i] != s[j]
    ensures |ValuesOf(s)| == |s|
    decreases |s|
  {
    if s != [] {
      var n := |s| - 1;
      DistinctCard(s[..n]);
      assert ValuesOf(s) == ValuesOf(s[..n]) + {s[n]};
    }
  }

  /** Of two distinct lists of one length, one inside the other, both hold the same values. */
  lemma SameValues(a: seq<nat>, b: seq<nat>)
    requires |a| == |b|
    requires forall i, j | 0 <= i < j < |a| :: a[i] != a[j]
    requires forall i, j | 0 <= i < j < |b| :: b[i] != b[j]
    requires forall i | 0 <= i < |a| :: a[i] in b
    ensures forall v: nat :: v in a <==> v in b
  {
    DistinctCard(a);
    DistinctCard(b);
    assert ValuesOf(a) <= ValuesOf(b);
    SubsetEqual(ValuesOf(a), ValuesOf(b));
    assert forall v: nat :: (v in a <==> v in ValuesOf(a)) && (v in b <==> v in ValuesOf(b));
  }

  lemma {:induction false} SubsetEqual(a: set<nat>, b: set<nat>)
    requires a <= b && |a| == |b|
    ensures a == b
    decreases |a|
  {
    if a != {} {
      var x :| x in a;
      SubsetEqual(a - {x}, b - {x});
      assert a == (a - {x}) + {x} && b == (b - {x}) + {x};
    }
  }

  ghost predicate AllSucceed(writes: seq<bool>) {
    forall k | 0 <= k < |writes| :: writes[k]
  }

  lemma {:induction false} WritesSucceed(slots: seq<nat>, writes: seq<bool>, vs: seq<nat>, i: nat)
    requires AllSucceed(writes)
    ensures var (slots', writes', ok) := WriteSlots(slots, writes, vs, i); ok && AllSucceed(writes')
    decreases |vs| - i
  {
    if i < |vs| && i < |slots| {
      WritesSucceed(slots[i := vs[i]], Rest(writes), vs, i + 1);
    }
  }

  /** When no VMWRITE fails, the VMCS targets after apply, and hence the promoted entries, are exactly the
      values the policy chose. */
  lemma ApplyInstalls(s: State)
    requires Inv(s) && AllSucceed(s.writes)
    ensures var vs := Targets(s.cand, s.count);
            var t := Apply(s);
            && Inv(t) && t.targets == t.promotedCount == |vs| <= |t.slots|
            && forall v: nat :: (v in t.slots[..t.targets] <==> v in vs) && (PromotedValue(t.cand, v) <==> v in vs)
  {
    hide Targets, WriteSlots, PromotedValue, CandOk;
    InvCount(s);
    var vs := Targets(s.cand, s.count);
    var (slots, writes, ok) := WriteSlots(s.slots, s.writes, vs, 0);
    WritesSucceed(s.slots, s.writes, vs, 0);
    WriteSlotsAll(s.slots, s.writes, vs, 0);
    ApplyKeeps(s);
    TargetsAre(s.cand, s.count, s.total);
    if Changed(s, vs) {
      assert Apply(s).slots[..|vs|] == vs;
    } else {
      SameValues(vs, s.slots[..s.targets]);
    }
  }

  // ---------------------------------------------------------------- counting

  function HitsOf(cand: seq<Entry>, v: nat): nat {
    var k := SlotOf(cand, v, 0);
    if k < |cand| then cand[k].hits else 0
  }

  lemma {:induction false} SameSlots(a: seq<Entry>, b: seq<Entry>, v: nat, i: nat)
    requires |a| == |b| && i <= |a| && forall j | 0 <= j < |a| :: a[j].cr3 == b[j].cr3
    ensures SlotOf(a, v, i) == SlotOf(b, v, i)
    decreases |a| - i
  {
    if i < |a| {
      SameSlots(a, b, v, i + 1);
    }
  }

  lemma ApplyKeepsCounts(s: State, v: nat)
    requires s.count <= |s.cand|
    ensures HitsOf(Apply(s).cand, v) == HitsOf(s.cand, v)
  {
    hide Targets, Changed, WriteSlots;
    var t := Apply(s);
    assert |t.cand| == |s.cand|;
    assert forall j | 0 <= j < |s.cand| :: t.cand[j].cr3 == s.cand[j].cr3 && t.cand[j].hits == s.cand[j].hits;
    SameSlots(t.cand, s.cand, v, 0);
  }

  lemma HitCounts(s: State, cr3: nat, now: nat, v: nat)
    requires Inv(s) && s.total < U64_MAX && cr3 != 0 && SlotOf(s.cand, cr3, 0) < |s.cand|
    ensures HitsOf(AfterHit(s, cr3, now).cand, v) == HitsOf(s.cand, v) + (if v == cr3 then 1 else 0)
  {
    var k := SlotOf(s.cand, cr3, 0);
    var t := AfterHit(s, cr3, now);
    assert forall j | 0 <= j < |s.cand| :: t.cand[j].cr3 == s.cand[j].cr3;
    SameSlots(t.cand, s.cand, v, 0);
  }

  /** Writing a new value into a slot moves only the first occurrences of the two values concerned. */
  lemma {:induction false} PutSlots(cand: seq<Entry>, k: nat, e: Entry, v: nat, i: nat)
    requires k < |cand| && i <= |cand| && v != cand[k].cr3 && v != e.cr3
    ensures SlotOf(cand[k := e], v, i) == SlotOf(cand, v, i)
    decreases |cand| - i
  {
    if i < |cand| {
      PutSlots(cand, k, e, v, i + 1);
    }
  }

  lemma PutCounts(cand: seq<Entry>, count: nat, total: nat, k: nat, e: Entry, v: nat)
    requires CandOk(cand, count, total) && k < |cand| && v != 0 && SlotOf(cand, e.cr3, 0) == |cand|
    ensures HitsOf(cand[k := e], v) == if v == e.cr3 then e.hits else if v == cand[k].cr3 then 0 else HitsOf(cand, v)
  {
    var after := cand[k := e];
    if v != e.cr3 && v != cand[k].cr3 {
      PutSlots(cand, k, e, v, 0);
    } else {
      var j := SlotOf(after, v, 0);
      assert v == e.cr3 ==> after[k].cr3 == v;
      assert forall i | 0 <= i < |cand| && i != k :: after[i] == cand[i];
    }
  }

  /** Would this call replace an entry? */
  predicate Evicts(s: State, cr3: nat) {
    SlotOf(s.cand, cr3, 0) == |s.cand| && s.count == CACHE_SIZE
  }

  lemma FirstEmpty(s: State)
    requires Inv(s) && s.count < CACHE_SIZE
    ensures SlotOf(s.cand, 0, 0) == s.count
  {
    assert s.cand[s.count].cr3 == 0;
  }

  lemma NoneEmpty(s: State)
    requires Inv(s) && s.count == CACHE_SIZE
    ensures SlotOf(s.cand, 0, 0) == |s.cand|
  {
  }

  /** One call adds one to the count of its value, zeroes the count of an evicted value, changes no other. */
  lemma RecordCounts(s: State, cr3: nat, now: nat, v: nat)
    requires Inv(s) && s.total < U64_MAX && cr3 != 0 && v != 0
    ensures HitsOf(Record(s, cr3, now).cand, v) ==
            if v == cr3 then HitsOf(s.cand, v) + 1
            else if Evicts(s, cr3) && Evictee(s.cand) < |s.cand| && v == s.cand[Evictee(s.cand)].cr3 then 0
            else HitsOf(s.cand, v)
  {
    hide Apply, Evictee, HitsOf;
    var k := SlotOf(s.cand, cr3, 0);
    if k < |s.cand| {
      HitCounts(s, cr3, now, v);
      ApplyKeepsCounts(AfterHit(s, cr3, now), v);
    } else {
      NotThere(s.cand, cr3);
      if s.count < CACHE_SIZE {
        FirstEmpty(s);
        PutCounts(s.cand, s.count, s.total, s.count, Entry(cr3, 1, now, false), v);
      } else {
        NoneEmpty(s);
        EvictionSafe(s);
        PutCounts(s.cand, s.count, s.total, Evictee(s.cand), Entry(cr3, 1, now, false), v);
      }
    }
  }

  lemma NotThere(cand: seq<Entry>, v: nat)
    requires SlotOf(cand, v, 0) == |cand|
    ensures HitsOf(cand, v) == 0
  {
  }

  function Occurrences(calls: seq<Call>, v: nat): nat {
    if calls == [] then 0 else (if calls[0].cr3 == v then 1 else 0) + Occurrences(calls[1..], v)
  }

  /** Does this call replace the entry of `v`? */
  predicate Displaces(s: State, cr3: nat, v: nat) {
    v != cr3 && Evicts(s, cr3) && Evictee(s.cand) < |s.cand| && s.cand[Evictee(s.cand)].cr3 == v
  }

  /** No call of the run replaces the entry of `v`. */
  predicate Stays(s: State, calls: seq<Call>, v: nat)
    decreases |calls|
  {
    calls == [] || s.count > |s.cand| ||
    (!Displaces(s, calls[0].cr3, v) && Stays(Record(s, calls[0].cr3, calls[0].now), calls[1..], v))
  }

  /** A run of nonzero values within the 64-bit count and without two VMWRITE failures in a row. */
  ghost predicate RunOk(s: State, calls: seq<Call>) {
    && Inv(s) && NoTwoFailures(s.writes) && s.total + |calls| <= U64_MAX
    && forall i | 0 <= i < |calls| :: calls[i].cr3 != 0
  }

  lemma RunOkStep(s: State, calls: seq<Call>)
    requires RunOk(s, calls) && calls != []
    ensures s.count <= |s.cand| && RunOk(Record(s, calls[0].cr3, calls[0].now), calls[1..])
  {
    hide Inv, NoTwoFailures, Record, Promotes;
    InvCount(s);
    RecordKeeps(s, calls[0].cr3, calls[0].now);
    RecordOracle(s, calls[0].cr3, calls[0].now);
  }

  /** While its entry stays, the hit count of a value grows by the number of times it is recorded. */
  lemma {:induction false} HitsCount(s: State, calls: seq<Call>, v: nat)
    requires RunOk(s, calls) && v != 0 && Stays(s, calls, v)
    ensures HitsOf(Run(s, calls).cand, v) == HitsOf(s.cand, v) + Occurrences(calls, v)
    decreases |calls|
  {
    hide Record, HitsOf, Evicts, Evictee, Inv, NoTwoFailures;
    if calls != [] {
      var c := calls[0];
      RunOkStep(s, calls);
      RecordCounts(s, c.cr3, c.now, v);
      HitsCount(Record(s, c.cr3, c.now), calls[1..], v);
    }
  }

  lemma {:induction false} RunSplits(s: State, calls: seq<Call>, k: nat)
    requires RunOk(s, calls) && k <= |calls|
    ensures RunOk(Run(s, calls[..k]), calls[k..]) && Run(s, calls) == Run(Run(s, calls[..k]), calls[k..])
    decreases k
  {
    hide RunOk, Record;
    if k > 0 {
      RunOkStep(s, calls);
      RunSplits(Record(s, calls[0].cr3, calls[0].now), calls[1..], k - 1);
      assert calls[..k][1..] == calls[1..][..k - 1] && calls[1..][k - 1..] == calls[k..];
      assert calls[..k][0] == calls[0];
    } else {
      assert calls[..0] == [] && calls[0..] == calls;
    }
  }

  /** After its entry was last replaced, by call `k`, a value's count is the number of times it was recorded
      since. */
  lemma HitsSinceEviction(s: State, calls: seq<Call>, v: nat, k: nat)
    requires RunOk(s, calls) && v != 0 && k < |calls| && Displaces(Run(s, calls[..k]), calls[k].cr3, v)
    requires Stays(Run(s, calls[..k + 1]), calls[k + 1..], v)
    ensures HitsOf(Run(s, calls).cand, v) == Occurrences(calls[k + 1..], v)
  {
    hide RunOk, Record, HitsOf, Evicts, Evictee, Stays;
    RunSplits(s, calls, k);
    RunSplits(s, calls, k + 1);
    var s1 := Run(s, calls[..k]);
    RunOkStep(s1, calls[k..]);
    OneMore(s, calls, k);
    CountGone(s1, calls[k..], v);
    HitsCount(Run(s, calls[..k + 1]), calls[k + 1..], v);
  }

  lemma OneMore(s: State, calls: seq<Call>, k: nat)
    requires RunOk(s, calls) && k < |calls|
    ensures var s1 := Run(s, calls[..k]);
            s1.count <= |s1.cand| && Run(s, calls[..k + 1]) == Record(s1, calls[k].cr3, calls[k].now)
  {
    hide RunOk, Record;
    var front := calls[..k + 1];
    RunOkPrefix(s, calls, k + 1);
    RunSplits(s, front, k);
    assert front[..k] == calls[..k] && front[k..] == [calls[k]];
    var s1 := Run(s, calls[..k]);
    RunOkStep(s1, [calls[k]]);
    assert Run(s1, [calls[k]]) == Run(Record(s1, calls[k].cr3, calls[k].now), [calls[k]][1..]);
  }

  lemma RunOkPrefix(s: State, calls: seq<Call>, k: nat)
    requires RunOk(s, calls) && k <= |calls|
    ensures RunOk(s, calls[..k])
  {
    hide Inv, NoTwoFailures;
  }

  lemma CountGone(s: State, calls: seq<Call>, v: nat)
    requires RunOk(s, calls) && calls != [] && v != 0 && Displaces(s, calls[0].cr3, v)
    ensures s.count <= |s.cand| && HitsOf(Record(s, calls[0].cr3, calls[0].now).cand, v) == 0
  {
    hide Record, HitsOf, Evicts, Evictee, NoTwoFailures;
    InvCount(s);
    RecordCounts(s, calls[0].cr3, calls[0].now, v);
  }
}

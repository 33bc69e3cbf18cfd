/** struct cr3_shadow_cache with its in-place updates, tied to the state machine of Cr3Cache. */
module Cr3CacheObject {
  import opened Cr3Policy
  import C = Cr3Cache

  class ShadowCache {
    const cand: array<Entry>
    var count: nat
    var promotedCount: nat
    var total: nat
    const slots: array<nat>  // the four CR3-target fields of the VMCS
    var targets: nat         // CR3_TARGET_COUNT
    var writes: seq<bool>    // which VMWRITEs will succeed

    ghost predicate Valid()
      reads this
    {
      cand.Length == CACHE_SIZE && slots.Length == MAX_TARGETS && cand as object != slots
    }

    ghost function State(): C.State
      reads this, cand, slots
    {
      C.State(cand[..], count, promotedCount, total, slots[..], targets, writes)
    }

    constructor (writes: seq<bool>)
      ensures Valid() && fresh(cand) && fresh(slots) && State() == C.Init(writes)
    {
      cand := new Entry[CACHE_SIZE](_ => Entry(0, 0, 0, false));
      slots := new nat[MAX_TARGETS](_ => 0);
      count, promotedCount, total, targets := 0, 0, 0, 0;
      this.writes := writes;
      new;
      assert cand[..] == C.Init(writes).cand && slots[..] == C.Init(writes).slots;
    }

    method VmWrite() returns (ok: bool)
      modifies this`writes
      ensures ok == C.NextWrite(old(writes)) && writes == C.Rest(old(writes))
    {
      ok := C.NextWrite(writes);
      writes := C.Rest(writes);
    }

    /** One pass of the policy: the best candidate not picked yet, CACHE_SIZE if there is none. */
    method BestCandidate(picked: set<nat>) returns (best: nat)
      requires Valid() && count <= CACHE_SIZE
      ensures best == BestFrom(cand[..], count, picked, 0, CACHE_SIZE)
    {
      best := CACHE_SIZE;
      var i: nat := 0;
      while i < count
        invariant i <= count && best <= CACHE_SIZE
        invariant BestFrom(cand[..], count, picked, i, best) == BestFrom(cand[..], count, picked, 0, CACHE_SIZE)
      {
        if Eligible(cand[..], count, picked, i) && (best == CACHE_SIZE || Above(cand[i], cand[best])) {
          best := i;
        }
        i := i + 1;
      }
    }

    /** relm_cr3_cache_policy_frequency: one pass per target over all candidates. */
    method PolicyFrequency() returns (vs: seq<nat>)
      requires Valid() && count <= CACHE_SIZE
      ensures vs == C.Targets(cand[..], count)
    {
      hide BestFrom, Ranking, Select;
      ghost var c := cand[..];
      ghost var all := Selected(c, count);
      vs := [];
      ghost var sel: seq<nat> := [];
      var picked: set<nat> := {};
      var pass: nat, passes: nat := 0, Passes(count);
      while pass < passes
        invariant pass <= passes && all == sel + Select(c, count, picked, passes - pass)
        invariant |vs| == |sel| && forall i | 0 <= i < |vs| :: sel[i] < CACHE_SIZE && vs[i] == c[sel[i]].cr3
      {
        var best := BestCandidate(picked);
        SelectStep(c, count, picked, passes - pass);
        if best == CACHE_SIZE {
          break;
        }
        BestInRange(c, count, picked);
        Snoc(sel, best, Select(c, count, picked + {best}, passes - pass - 1));
        vs, sel := vs + [cand[best].cr3], sel + [best];
        picked := picked + {best};
        pass := pass + 1;
      }
      SelectStep(c, count, picked, passes - pass);
      assert all == sel;
    }

    /** The comparison of the new targets with the promoted entries. */
    method TargetSetChanged(vs: seq<nat>) returns (changed: bool)
      requires Valid()
      ensures changed == C.Changed(State(), vs)
    {
      if |vs| != promotedCount {
        return true;
      }
      for i := 0 to |vs|
        invariant forall k | 0 <= k < i :: C.PromotedValue(cand[..], vs[k])
      {
        var found := false;
        for j := 0 to CACHE_SIZE
          invariant found <==> exists k | 0 <= k < j :: cand[..][k].promoted && cand[..][k].cr3 == vs[i]
        {
          if cand[j].promoted && cand[j].cr3 == vs[i] {
            assert cand[..][j].promoted;
            found := true;
          }
        }
        if !found {
          assert !C.PromotedValue(cand[..], vs[i]);
          return true;
        }
      }
      return false;
    }

    method Demote()
      requires Valid()
      modifies cand
      ensures cand[..] == C.Demoted(old(cand[..]))
    {
      for i := 0 to CACHE_SIZE
        invariant forall k | 0 <= k < i :: cand[k] == old(cand[k]).(promoted := false)
        invariant forall k | i <= k < CACHE_SIZE :: cand[k] == old(cand[k])
      {
        if cand[i].promoted {
          cand[i] := cand[i].(promoted := false);
        }
      }
      assert cand[..] == C.Demoted(old(cand[..]));
    }

    method Promote(vs: seq<nat>)
      requires Valid()
      modifies cand
      ensures cand[..] == C.Promoted(old(cand[..]), vs)
    {
      for i := 0 to CACHE_SIZE
        invariant forall k | 0 <= k < i :: cand[k] == C.Promoted(old(cand[..]), vs)[k]
        invariant forall k | i <= k < CACHE_SIZE :: cand[k] == old(cand[k])
      {
        if cand[i].cr3 != 0 && cand[i].cr3 in vs {
          cand[i] := cand[i].(promoted := true);
        }
      }
      assert cand[..] == C.Promoted(old(cand[..]), vs);
    }

    /** The VMWRITE loop of relm_cr3_cache_apply. */
    method WriteTargets(vs: seq<nat>) returns (ok: bool)
      requires Valid() && |vs| <= MAX_TARGETS
      modifies this`writes, slots
      ensures (slots[..], writes, ok) == C.WriteSlots(old(slots[..]), old(writes), vs, 0)
    {
      var i := 0;
      while i < |vs|
        invariant i <= |vs|
        invariant C.WriteSlots(slots[..], writes, vs, i) == C.WriteSlots(old(slots[..]), old(writes), vs, 0)
      {
        ghost var before := slots[..];
        ok := VmWrite();
        if !ok {
          return;
        }
        slots[i] := vs[i];
        assert slots[..] == before[i := vs[i]];
        i := i + 1;
      }
      return true;
    }

    method ResetTargets()
      modifies this`writes, this`targets, this`promotedCount
      ensures State() == C.Reset(old(State()))
    {
      var ok := VmWrite();
      if ok {
        targets := 0;
      }
      promotedCount := 0;
    }

    /** relm_cr3_cache_apply. */
    method Apply()
      requires Valid() && count <= CACHE_SIZE
      modifies this, cand, slots
      ensures Valid() && State() == C.Apply(old(State()))
    {
      hide C.Targets, C.Changed, C.WriteSlots, C.Demoted, C.Promoted;
      var vs := PolicyFrequency();
      var changed := TargetSetChanged(vs);
      if !changed {
        return;
      }
      Demote();
      var ok := WriteTargets(vs);
      if ok {
        ok := VmWrite();
      }
      if !ok {
        ResetTargets();
        return;
      }
      Promote(vs);
      targets, promotedCount := |vs|, |vs|;
    }

    /** The scan for the slot holding `v`. */
    method Locate(v: nat) returns (k: nat)
      requires Valid()
      ensures k == C.SlotOf(cand[..], v, 0)
    {
      k := 0;
      while k < CACHE_SIZE && cand[k].cr3 != v
        invariant k <= CACHE_SIZE && C.SlotOf(cand[..], v, k) == C.SlotOf(cand[..], v, 0)
      {
        k := k + 1;
      }
    }

    method LeastUsed() returns (v: nat)
      requires Valid()
      ensures v == C.Evictee(cand[..])
    {
      v := CACHE_SIZE;
      var hits := C.U64_MAX;
      var i := 0;
      while i < CACHE_SIZE
        invariant i <= CACHE_SIZE && C.Victim(cand[..], i, v, hits) == C.Evictee(cand[..])
      {
        if cand[i].cr3 != 0 && !cand[i].promoted && cand[i].hits < hits {
          v, hits := i, cand[i].hits;
        }
        i := i + 1;
      }
    }

    method Put(i: nat, e: Entry)
      requires Valid() && i < CACHE_SIZE
      modifies cand
      ensures cand[..] == old(cand[..])[i := e]
    {
      cand[i] := e;
    }

    /** relm_cr3_cache_record. */
    method RecordCr3(cr3: nat, now: nat)
      requires Valid() && count <= CACHE_SIZE
      modifies this, cand, slots
      ensures Valid() && State() == C.Record(old(State()), cr3, now)
    {
      hide C.Apply, C.Victim;
      total := C.Bump(total);
      var k := Locate(cr3);
      if k < CACHE_SIZE {
        Put(k, cand[k].(hits := C.Bump(cand[k].hits), seen := now));
        if cand[k].hits >= THRESHOLD && !cand[k].promoted {
          Apply();
        }
        return;
      }
      var e := Locate(0);
      if e < CACHE_SIZE {
        Put(e, Entry(cr3, 1, now, false));
        count := count + 1;
        return;
      }
      var v := LeastUsed();
      if v < CACHE_SIZE {
        Put(v, Entry(cr3, 1, now, false));
      }
    }
  }

  lemma SelectStep(cand: seq<Entry>, n: nat, picked: set<nat>, passes: nat)
    requires n <= |cand|
    ensures passes == 0 ==> Select(cand, n, picked, passes) == []
    ensures passes > 0 ==>
              var best := BestFrom(cand, n, picked, 0, |cand|);
              Select(cand, n, picked, passes) ==
                if best == |cand| then [] else [best] + Select(cand, n, picked + {best}, passes - 1)
  {
  }

  lemma BestInRange(cand: seq<Entry>, n: nat, picked: set<nat>)
    requires n <= |cand|
    ensures BestFrom(cand, n, picked, 0, |cand|) <= |cand|
  {
    BestFromIs(cand, n, picked, 0, |cand|);
  }

  lemma Snoc(a: seq<nat>, x: nat, b: seq<nat>)
    ensures a + ([x] + b) == a + [x] + b
  {
  }
}

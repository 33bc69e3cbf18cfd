/** The frequency policy of the CR3-target cache (src/arch/x86/vmx/vmx.c:2230-2298): pick up to four
    candidates, best first, by hit count and then by time last seen.
*/
module Cr3Policy {
  import opened Arithmetic

  const CACHE_SIZE: nat := 16
  const MAX_TARGETS: nat := 4
  const THRESHOLD: nat := 10

  datatype Entry = Entry(cr3: nat, hits: nat, seen: nat, promoted: bool)

  predicate Eligible(cand: seq<Entry>, n: nat, picked: set<nat>, i: nat) {
    i < n && i < |cand| && i !in picked && cand[i].cr3 != 0 && cand[i].hits != 0
  }

  /** Is `x` strictly preferred to `y`? */
  predicate Above(x: Entry, y: Entry) {
    x.hits > y.hits || (x.hits == y.hits && x.seen > y.seen)
  }

  /** The inner loop: the best eligible index among those from `i` on and `best`; |cand| means none. */
  function BestFrom(cand: seq<Entry>, n: nat, picked: set<nat>, i: nat, best: nat): nat
    requires n <= |cand| && best <= |cand|
    decreases n - i
  {
    if i >= n then best
    else if Eligible(cand, n, picked, i) && (best == |cand| || Above(cand[i], cand[best])) then
      BestFrom(cand, n, picked, i + 1, i)
    else BestFrom(cand, n, picked, i + 1, best)
  }

  /** The outer loop: the indices still to be picked in `passes` passes. */
  function Select(cand: seq<Entry>, n: nat, picked: set<nat>, passes: nat): seq<nat>
    requires n <= |cand|
    decreases passes
  {
    if passes == 0 then []
    else
      var best := BestFrom(cand, n, picked, 0, |cand|);
      if best == |cand| then [] else [best] + Select(cand, n, picked + {best}, passes - 1)
  }

  function Passes(n: nat): nat {
    if n < MAX_TARGETS then n else MAX_TARGETS
  }

  function Selected(cand: seq<Entry>, n: nat): seq<nat>
    requires n <= |cand|
  {
    Select(cand, n, {}, Passes(n))
  }

  // ---------------------------------------------------------------- what the policy selects

  ghost predicate IsBest(cand: seq<Entry>, n: nat, picked: set<nat>, lo: nat, hi: nat, best: nat)
    requires n <= |cand|
  {
    && (best == |cand| || Eligible(cand, n, picked, best))
    && forall j | lo <= j < hi && Eligible(cand, n, picked, j) :: best < |cand| && !Above(cand[j], cand[best])
  }

  lemma {:induction false} BestFromIs(cand: seq<Entry>, n: nat, picked: set<nat>, i: nat, best: nat)
    requires n <= |cand| && best <= |cand| && i <= n && IsBest(cand, n, picked, 0, i, best)
    ensures IsBest(cand, n, picked, 0, n, BestFrom(cand, n, picked, i, best))
    decreases n - i
  {
    if i < n {
      if Eligible(cand, n, picked, i) && (best == |cand| || Above(cand[i], cand[best])) {
        BestFromIs(cand, n, picked, i + 1, i);
      } else {
        BestFromIs(cand, n, picked, i + 1, best);
      }
    }
  }

  ghost function EligibleSet(cand: seq<Entry>, n: nat, picked: set<nat>): set<nat> {
    set i: nat | i < n && Eligible(cand, n, picked, i)
  }

  function Min(a: nat, b: nat): nat {
    if a < b then a else b
  }

  /** `sel` lists distinct eligible indices in descending order of preference, and no eligible index
      left out is preferred to any of them. */
  ghost predicate Ranking(cand: seq<Entry>, n: nat, picked: set<nat>, sel: seq<nat>) {
    && (forall i | 0 <= i < |sel| :: Eligible(cand, n, picked, sel[i]))
    && (forall i, j | 0 <= i < j < |sel| :: sel[i] != sel[j] && !Above(cand[sel[j]], cand[sel[i]]))
    && (forall i, k: nat | 0 <= i < |sel| && Eligible(cand, n, picked, k) && k !in sel :: !Above(cand[k], cand[sel[i]]))
  }

  lemma {:induction false} SelectRanks(cand: seq<Entry>, n: nat, picked: set<nat>, passes: nat)
    requires n <= |cand|
    ensures Ranking(cand, n, picked, Select(cand, n, picked, passes))
    ensures |Select(cand, n, picked, passes)| == Min(passes, |EligibleSet(cand, n, picked)|)
    decreases passes
  {
    hide Ranking, IsBest, BestFrom;
    if passes == 0 {
      RankingNone(cand, n, picked);
    } else {
      BestFromIs(cand, n, picked, 0, |cand|);
      var best := BestFrom(cand, n, picked, 0, |cand|);
      BestSmall(cand, n, picked, best);
      if best == |cand| {
        RankingNone(cand, n, picked);
        NoneEligible(cand, n, picked);
      } else {
        SelectRanks(cand, n, picked + {best}, passes - 1);
        OneLess(cand, n, picked, best);
        RankingCons(cand, n, picked, best, Select(cand, n, picked + {best}, passes - 1));
      }
    }
  }

  lemma RankingNone(cand: seq<Entry>, n: nat, picked: set<nat>)
    requires n <= |cand|
    ensures Ranking(cand, n, picked, [])
  {
  }

  lemma BestSmall(cand: seq<Entry>, n: nat, picked: set<nat>, best: nat)
    requires n <= |cand| && IsBest(cand, n, picked, 0, n, best)
    ensures best <= |cand|
  {
  }

  lemma NoneEligible(cand: seq<Entry>, n: nat, picked: set<nat>)
    requires n <= |cand| && IsBest(cand, n, picked, 0, n, |cand|)
    ensures EligibleSet(cand, n, picked) == {}
  {
  }

  lemma OneLess(cand: seq<Entry>, n: nat, picked: set<nat>, best: nat)
    requires n <= |cand| && best < |cand| && IsBest(cand, n, picked, 0, n, best)
    ensures |EligibleSet(cand, n, picked + {best})| == |EligibleSet(cand, n, picked)| - 1
  {
    var all := EligibleSet(cand, n, picked);
    assert EligibleSet(cand, n, picked + {best}) == all - {best};
    assert best in all;
  }

  lemma RankingCons(cand: seq<Entry>, n: nat, picked: set<nat>, best: nat, rest: seq<nat>)
    requires n <= |cand| && best < |cand| && IsBest(cand, n, picked, 0, n, best)
    requires Ranking(cand, n, picked + {best}, rest)
    ensures Ranking(cand, n, picked, [best] + rest)
  {
    var sel := [best] + rest;
    forall i, k: nat | 0 <= i < |sel| && Eligible(cand, n, picked, k) && k !in sel
      ensures !Above(cand[k], cand[sel[i]])
    {
      assert k != best by {
        assert sel[0] == best;
      }
      assert k !in rest by {
        assert forall j | 0 <= j < |rest| :: rest[j] == sel[j + 1];
      }
      if i > 0 {
        assert Eligible(cand, n, picked + {best}, k);
        assert sel[i] == rest[i - 1];
      }
    }
    forall i, j | 0 <= i < j < |sel|
      ensures sel[i] != sel[j] && !Above(cand[sel[j]], cand[sel[i]])
    {
      assert Eligible(cand, n, picked + {best}, rest[j - 1]);
    }
  }

  /** The policy returns min(4, number of eligible candidates) distinct slots, best first, and never
      passes over a better one. */
  lemma PolicyIsTopFour(cand: seq<Entry>, n: nat)
    requires n <= |cand|
    ensures Ranking(cand, n, {}, Selected(cand, n))
    ensures |Selected(cand, n)| == Min(MAX_TARGETS, |EligibleSet(cand, n, {})|)
  {
    SelectRanks(cand, n, {}, Passes(n));
    BoundedCard(EligibleSet(cand, n, {}), n);
  }
}

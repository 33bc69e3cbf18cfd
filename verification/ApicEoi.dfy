/** What a sequence of EOIs does, from any in-service contents: src/arch/x86/vmx/apic.c:381-464. */
module ApicEoi {
  import opened Apic

  /** The vectors in service. */
  function InService(b: Bits): set<nat> {
    set v: nat | v < VECTORS && b[v]
  }

  /** The class of the highest vector in service, 0 when there is none. */
  function ServiceClass(b: Bits): nat {
    if Highest(b) < 0 then 0 else Class(Highest(b))
  }

  /** Vector 0 needs no case of its own: the priority is the larger of the two classes. */
  lemma PriorityIsMax(a: State)
    ensures Priority(a) >= Class(a.tpr) && Priority(a) >= ServiceClass(a.isr)
    ensures Priority(a) == Class(a.tpr) || Priority(a) == ServiceClass(a.isr)
  {
  }

  function EoiTimes(a: State, n: nat): State
    decreases n
  {
    if n == 0 then a else EoiTimes(Eoi(a), n - 1)
  }

  /** The vectors that `n` EOIs retire, in order. */
  function Retired(a: State, n: nat): seq<int>
    decreases n
  {
    if n == 0 then [] else [Highest(a.isr)] + Retired(Eoi(a), n - 1)
  }

  ghost predicate Descending(s: seq<int>) {
    forall i, j | 0 <= i < j < |s| :: s[i] > s[j]
  }

  /** One EOI with a vector in service: that vector leaves, only its TMR bit clears, PPR is recomputed. */
  lemma EoiOnce(a: State)
    requires Highest(a.isr) >= 0
    ensures var v := Highest(a.isr);
            var b := Eoi(a);
            && b.isr == a.isr[v := false] && b.tmr == a.tmr[v := false]
            && b == a.(isr := b.isr, tmr := b.tmr, ppr := Priority(b), page := b.page)
  {
    hide Word, Priority, Highest;
    HighestInService(a.isr);
    var v := Highest(a.isr);
    var b := Eoi(a);
    assert a.tmr[v] || a.tmr[v := false] == a.tmr;
    assert b.isr == a.isr[v := false] && b.tmr == a.tmr[v := false];
    forall c: State | c.isr == b.isr && c.tpr == b.tpr
      ensures Priority(c) == Priority(b)
    {
      SamePpr(c, b);
    }
  }

  /** Clearing the highest bit leaves a smaller set with a lower top. */
  lemma TopLeaves(b: Bits)
    requires Highest(b) >= 0
    ensures var c := b[Highest(b) := false];
            && InService(c) == InService(b) - {Highest(b)} && |InService(c)| == |InService(b)| - 1
            && Highest(c) < Highest(b)
  {
    var v: nat := Highest(b);
    var c := b[v := false];
    assert InService(c) == InService(b) - {v};
    assert v in InService(b);
  }

  lemma SamePpr(a: State, b: State)
    requires a.isr == b.isr && a.tpr == b.tpr
    ensures Priority(a) == Priority(b)
  {
  }

  /** Under a fixed TPR an EOI never raises PPR. */
  lemma EoiLowersPpr(a: State)
    requires a.ppr == Priority(a)
    ensures Eoi(a).ppr == Priority(Eoi(a)) && Eoi(a).ppr <= a.ppr && Eoi(a).tpr == a.tpr
  {
    if Highest(a.isr) >= 0 {
      hide Eoi;
      EoiOnce(a);
      TopLeaves(a.isr);
      PriorityIsMax(a);
      PriorityIsMax(Eoi(a));
      ClassGrows(Highest(Eoi(a).isr), Highest(a.isr));
    }
  }

  lemma ClassGrows(v: int, w: int)
    requires v <= w && 0 <= w < VECTORS
    ensures v >= 0 ==> Class(v) <= Class(w)
  {
  }

  /** An EOI with nothing in service changes nothing. */
  lemma SpuriousEoi(a: State)
    requires InService(a.isr) == {}
    ensures Eoi(a) == a && a.isr == NoBits()
  {
    if Highest(a.isr) >= 0 {
      assert Highest(a.isr) in InService(a.isr);
    }
    NobodyInService(a.isr);
  }

  lemma NobodyInService(b: Bits)
    requires InService(b) == {}
    ensures b == NoBits()
  {
    forall v: nat | v < VECTORS
      ensures !b[v]
    {
      assert v !in InService(b);
    }
  }

  lemma SomeInService(a: State)
    requires |InService(a.isr)| > 0
    ensures Highest(a.isr) >= 0
  {
    var v :| v in InService(a.isr);
    assert a.isr[v];
  }

  /** State `b` is state `a` after the vectors `r`, all in service and in decreasing order, were retired. */
  ghost predicate Drained(a: State, r: seq<int>, b: State) {
    && Descending(r)
    && (forall i | 0 <= i < |r| :: 0 <= r[i] <= Highest(a.isr) && a.isr[r[i]])
    && (forall v: nat | v < VECTORS :: b.isr[v] == (a.isr[v] && v !in r))
    && (forall v: nat | v < VECTORS :: b.tmr[v] == (a.tmr[v] && v !in r))
    && b == a.(isr := b.isr, tmr := b.tmr, ppr := b.ppr, page := b.page)
  }

  lemma DrainOneMore(a: State, a': State, r: seq<int>, b: State)
    requires 0 <= Highest(a.isr) && Drained(a', r, b)
    requires a'.isr == a.isr[Highest(a.isr) := false] && a'.tmr == a.tmr[Highest(a.isr) := false]
    requires a' == a.(isr := a'.isr, tmr := a'.tmr, ppr := a'.ppr, page := a'.page)
    ensures Drained(a, [Highest(a.isr)] + r, b)
  {
    TopLeaves(a.isr);
    var top := Highest(a.isr);
    hide InService, Highest;
    HighestInService(a.isr);
    var s := [top] + r;
    assert forall v: nat | v < VECTORS :: v in s <==> v == top || v in r;
  }

  lemma DrainedNone(a: State)
    ensures Drained(a, [], a)
  {
  }

  /** `n` EOIs, `n` at most the number in service, retire `n` vectors in strictly decreasing order, each
      of them in service at the start; everything else stands. */
  lemma {:induction false} EoiRun(a: State, n: nat)
    requires n <= |InService(a.isr)|
    ensures |Retired(a, n)| == n && Drained(a, Retired(a, n), EoiTimes(a, n))
    ensures |InService(EoiTimes(a, n).isr)| == |InService(a.isr)| - n
    decreases n
  {
    hide Eoi, Highest, Drained, InService;
    if n == 0 {
      DrainedNone(a);
    } else {
      SomeInService(a);
      EoiOnce(a);
      TopLeaves(a.isr);
      EoiRun(Eoi(a), n - 1);
      DrainOneMore(a, Eoi(a), Retired(Eoi(a), n - 1), EoiTimes(a, n));
    }
  }

  lemma HighestInService(b: Bits)
    ensures Highest(b) < VECTORS && (Highest(b) >= 0 ==> b[Highest(b)])
  {
  }

  lemma {:induction false} PprFalls(a: State, n: nat)
    requires a.ppr == Priority(a)
    ensures var b := EoiTimes(a, n); b.ppr == Priority(b) && b.ppr <= a.ppr
    decreases n
  {
    hide Eoi, Priority;
    if n > 0 {
      EoiLowersPpr(a);
      PprFalls(Eoi(a), n - 1);
    }
  }

  /** As many EOIs as vectors in service retire exactly those vectors, in strictly decreasing order, clear
      exactly their TMR bits, empty ISR, leave IRR alone and bring PPR down to the TPR class. */
  lemma EoiDrains(a: State)
    requires a.ppr == Priority(a)
    ensures var n := |InService(a.isr)|;
            var r := Retired(a, n);
            var b := EoiTimes(a, n);
            && |r| == n && Descending(r) && (forall v: nat :: v in r <==> v in InService(a.isr))
            && b.isr == NoBits() && b.irr == a.irr
            && (forall v: nat | v < VECTORS :: b.tmr[v] == (a.tmr[v] && v !in InService(a.isr)))
            && b.ppr == Class(a.tpr) && b.ppr <= a.ppr
  {
    hide Eoi, Priority, Highest, Class;
    var n := |InService(a.isr)|;
    var r := Retired(a, n);
    var b := EoiTimes(a, n);
    EoiRun(a, n);
    PprFalls(a, n);
    NobodyInService(b.isr);
    forall v: nat
      ensures v in r <==> v in InService(a.isr)
    {
      if v in InService(a.isr) {
        assert !b.isr[v];
      }
    }
    HighestInService(a.isr);
    IdlePriority(b);
  }

  lemma IdlePriority(a: State)
    requires a.isr == NoBits()
    ensures Priority(a) == Class(a.tpr)
  {
    assert Highest(a.isr) == -1;
  }
}

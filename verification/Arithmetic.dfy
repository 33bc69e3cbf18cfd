/** Division and counting facts shared by several modules. */
module Arithmetic {

  lemma DivShift(a: nat, k: nat, d: nat)
    requires d > 0
    ensures (a + k * d) / d == a / d + k && (a + k * d) % d == a % d
  {
    var q, r := a / d, a % d;
    assert a + k * d == (q + k) * d + r;
    QuotientUnique(a + k * d, q + k, r, d);
  }

  lemma QuotientUnique(x: nat, q: nat, r: nat, d: nat)
    requires d > 0 && x == q * d + r && r < d
    ensures x / d == q && x % d == r
  {
    var p := x / d;
    assert x == p * d + x % d;
    if p > q {
      TimesGrows(q + 1, p, d);
    } else if p < q {
      TimesGrows(p + 1, q, d);
    }
  }

  lemma TimesGrows(a: nat, b: nat, d: nat)
    requires a <= b
    ensures a * d <= b * d
  {
    assert b * d == a * d + (b - a) * d;
  }

  lemma RemainderOfMultiple(x: nat, q: nat, r: nat, unit: nat, m: nat)
    requires unit > 0 && x == q * (m * unit) + r
    ensures r % unit == x % unit
  {
    assert q * (m * unit) == (q * m) * unit;
    DivShift(r, q * m, unit);
  }

  lemma RoomLeft(r: nat, d: nat, unit: nat, m: nat)
    requires unit > 0 && r < m * unit && r % unit + d < unit
    ensures r + d < m * unit
  {
    var a := r / unit;
    assert r == a * unit + r % unit;
    if a >= m {
      TimesGrows(m, a, unit);
    } else {
      TimesGrows(a + 1, m, unit);
      assert (a + 1) * unit == a * unit + unit;
    }
  }

  /** Moving inside a block of `unit` bytes keeps the quotient by any multiple `span` of `unit`. */
  lemma WithinUnit(x: nat, d: nat, unit: nat, m: nat, span: nat)
    requires unit > 0 && span > 0 && span == m * unit && x % unit + d < unit
    ensures (x + d) / span == x / span && (x + d) % span == x % span + d
  {
    var q, r := x / span, x % span;
    assert x == q * span + r;
    RemainderOfMultiple(x, q, r, unit, m);
    RoomLeft(r, d, unit, m);
    QuotientUnique(x + d, q, r + d, span);
  }

  lemma {:induction false} BoundedCard(s: set<nat>, n: nat)
    requires forall x <- s :: x < n
    ensures |s| <= n
    decreases n
  {
    if n == 0 {
      assert s == {};
    } else {
      BoundedCard(s - {n - 1}, n - 1);
      if n - 1 in s {
        assert |s| == |s - {n - 1}| + 1;
      } else {
        assert s - {n - 1} == s;
      }
    }
  }
}

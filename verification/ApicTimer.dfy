/** The time-derived current count of src/arch/x86/vmx/apic.c:721-756 and the DCR write mask at 1203-1208.
    A period is ICR ticks of 10 ns times the divisor.
*/
module ApicTimer {
  import opened Apic
  import opened Arithmetic

  function Period(a: State): nat {
    a.timerIcr * (10 * Divisor(a.timerDcr))
  }

  /** The three-bit divide encoding of section 10.5.4 of the Intel SDM: bits 3, 1 and 0 of DCR. */
  function Encoding(dcr: nat): nat {
    dcr % 4 + dcr / 8 % 2 * 4
  }

  function PowerOfTwo(n: nat): nat {
    if n == 0 then 1 else 2 * PowerOfTwo(n - 1)
  }

  /** After a DCR write of any value the divisor is the one its three-bit encoding names, and reading
      DCR back gives the same encoding. */
  lemma DcrWrite(a: State, value: nat, now: nat)
    ensures var b := Write(a, TIMER_DCR, value, now).0;
            && b.timerDcr in {0, 1, 2, 3, 8, 9, 10, 11} && Encoding(b.timerDcr) == Encoding(value)
            && Divisor(b.timerDcr) == if Encoding(value) == 7 then 1 else PowerOfTwo(Encoding(value) + 1)
  {
    hide Eoi, PprUpdate;
    assert PowerOfTwo(1) == 2 && PowerOfTwo(2) == 4 && PowerOfTwo(3) == 8 && PowerOfTwo(4) == 16;
    assert PowerOfTwo(5) == 32 && PowerOfTwo(6) == 64 && PowerOfTwo(7) == 128;
  }

  ghost predicate Armed(a: State, now: nat) {
    a.timerIcr > 0 && 0 < a.timerStart <= now < U64_MOD
  }

  /** The ticks since the timer was armed: never wrapping on a clock that moves forward. */
  lemma Ticks(a: State, now: nat)
    requires Armed(a, now)
    ensures 10 * Divisor(a.timerDcr) > 0
    ensures (now - a.timerStart) % U64_MOD == now - a.timerStart
  {
  }

  lemma ReachedWhole(x: nat, k: nat, d: nat)
    requires d > 0
    ensures x / d >= k <==> x >= k * d
  {
    assert x == x / d * d + x % d;
    if x / d >= k {
      TimesGrows(k, x / d, d);
    } else {
      TimesGrows(x / d + 1, k, d);
      assert (x / d + 1) * d == x / d * d + d;
    }
  }

  /** One-shot: the count is zero exactly from one period on, and at most ICR before. */
  lemma OneShotExpires(a: State, now: nat)
    requires Armed(a, now) && a.timerMode != 1
    ensures Ccr(a, now) == 0 <==> now - a.timerStart >= Period(a)
    ensures Ccr(a, now) <= a.timerIcr
  {
    Ticks(a, now);
    var d := 10 * Divisor(a.timerDcr);
    ReachedWhole(now - a.timerStart, a.timerIcr, d);
  }

  lemma QuotientGrows(x: nat, y: nat, d: nat)
    requires d > 0 && x <= y
    ensures x / d <= y / d
  {
    assert x == x / d * d + x % d;
    ReachedWhole(y, x / d, d);
  }

  /** One-shot: the count never goes up as time passes. */
  lemma OneShotFalls(a: State, now: nat, later: nat)
    requires Armed(a, now) && now <= later < U64_MOD && a.timerMode != 1
    ensures Ccr(a, later) <= Ccr(a, now)
  {
    Ticks(a, now);
    Ticks(a, later);
    QuotientGrows(now - a.timerStart, later - a.timerStart, 10 * Divisor(a.timerDcr));
  }

  /** Periodic: the count stays between 1 and ICR, and any number of whole periods later it is the same. */
  lemma PeriodicRepeats(a: State, now: nat, k: nat)
    requires Armed(a, now) && a.timerMode == 1 && now + k * Period(a) < U64_MOD
    ensures 1 <= Ccr(a, now) <= a.timerIcr
    ensures Ccr(a, now + k * Period(a)) == Ccr(a, now)
  {
    Ticks(a, now);
    var d := 10 * Divisor(a.timerDcr);
    var later := now + k * Period(a);
    Ticks(a, later);
    assert k * Period(a) == (k * a.timerIcr) * d;
    DivShift(now - a.timerStart, k * a.timerIcr, d);
    DivShift((now - a.timerStart) / d, k, a.timerIcr);
  }

  /** An unarmed timer, and one armed at clock zero, reads as zero. */
  lemma Unarmed(a: State, now: nat)
    requires a.timerStart <= now < U64_MOD && a.timerIcr > 0
    ensures a.timerMode == 1 ==> (Ccr(a, now) == 0 <==> a.timerStart == 0)
    ensures a.timerMode != 1 ==> (Ccr(a, now) == 0 <==> a.timerStart == 0 || now - a.timerStart >= Period(a))
  {
    if a.timerStart > 0 {
      if a.timerMode == 1 {
        assert 0 * Period(a) == 0;
        PeriodicRepeats(a, now, 0);
      } else {
        OneShotExpires(a, now);
      }
    }
  }
}

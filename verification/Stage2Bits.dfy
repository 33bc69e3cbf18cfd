/** The number a 64-bit word stands for, bit by bit, and what the descriptor masks do to it. */
module Stage2Bits {
  import opened Stage2Tables
  import A = Arithmetic

  // ---------------------------------------------------------------- the number a word stands for

  function Low(x: bv64): nat {
    if x & 1 == 1 then 1 else 0
  }

  function Half(x: bv64): bv64 {
    x >> 1
  }

  /** The value of the low `n` bits. */
  function ValueOf(x: bv64, n: nat): nat {
    if n == 0 then 0 else Low(x) + 2 * ValueOf(Half(x), n - 1)
  }

  function Value(x: bv64): nat {
    ValueOf(x, 64)
  }

  /** The `n` lowest bits. */
  function Ones(n: nat): bv64 {
    if n == 0 then 0 else (Ones(n - 1) << 1) | 1
  }

  lemma ShiftLow(x: bv64, m: bv64)
    requires x & 1 == 0 && (x >> 1) & m == 0
    ensures x & ((m << 1) | 1) == 0
  {
  }

  lemma ShiftHigh(x: bv64, a: bv64, b: bv64)
    requires (x >> 1) & (a & !b) == 0
    ensures x & (((a << 1) | 1) & !((b << 1) | 1)) == 0
  {
  }

  lemma LowBit(x: bv64)
    ensures x & 1 == 0 || x & 1 == 1
  {
  }

  /** A value divisible by 2^k has no bits below bit k. */
  lemma {:induction false} NoLowBits(x: bv64, n: nat, k: nat)
    requires k <= n && ValueOf(x, n) % Pow2(k) == 0
    ensures x & Ones(k) == 0
    decreases k
  {
    if k > 0 {
      var y := ValueOf(x >> 1, n - 1);
      HalfDivides(Low(x), y, Pow2(k - 1));
      NoLowBits(x >> 1, n - 1, k - 1);
      LowBit(x);
      ShiftLow(x, Ones(k - 1));
    }
  }

  lemma HalfDivides(b: nat, y: nat, p: nat)
    requires b <= 1 && p > 0 && (b + 2 * y) % (2 * p) == 0
    ensures b == 0 && y % p == 0
  {
    var q := (b + 2 * y) / (2 * p);
    assert b + 2 * y == q * (2 * p) == 2 * (q * p);
    assert b == 0 && y == q * p;
    Multiple(q, p);
  }

  lemma Multiple(q: nat, p: nat)
    requires p > 0
    ensures (q * p) % p == 0
  {
    A.DivShift(0, q, p);
  }

  lemma {:induction false} ZeroValue(x: bv64, n: nat)
    requires ValueOf(x, n) == 0
    ensures x & Ones(n) == 0
    decreases n
  {
    if n > 0 {
      LowBit(x);
      ZeroValue(x >> 1, n - 1);
      ShiftLow(x, Ones(n - 1));
    }
  }

  lemma MaskAll(x: bv64, m: bv64)
    ensures x & m == 0 ==> x & (m & !0) == 0
    ensures x & (0 & !m) == 0
  {
  }

  /** A value below 2^k has no bits from bit k up. */
  lemma {:induction false} NoHighBits(x: bv64, n: nat, k: nat)
    requires k <= n && ValueOf(x, n) < Pow2(k)
    ensures x & (Ones(n) & !Ones(k)) == 0
    decreases n
  {
    if k == 0 {
      ZeroValue(x, n);
      MaskAll(x, Ones(n));
    } else {
      HalfBelow(Low(x), ValueOf(x >> 1, n - 1), Pow2(k - 1));
      NoHighBits(x >> 1, n - 1, k - 1);
      ShiftHigh(x, Ones(n - 1), Ones(k - 1));
    }
  }

  lemma HalfBelow(b: nat, y: nat, p: nat)
    requires b + 2 * y < 2 * p
    ensures y < p
  {
  }

  lemma OnesAre()
    ensures Ones(12) == 0xfff && Ones(21) == 0x1f_ffff && Ones(48) == 0xffff_ffff_ffff
    ensures Ones(63) == 0x7fff_ffff_ffff_ffff && Ones(64) == 0xffff_ffff_ffff_ffff
  {
    assert Ones(4) == 0xf;
    assert Ones(8) == 0xff;
    assert Ones(12) == 0xfff;
    assert Ones(16) == 0xffff;
    assert Ones(20) == 0xf_ffff;
    assert Ones(21) == 0x1f_ffff;
    assert Ones(24) == 0xff_ffff;
    assert Ones(28) == 0xfff_ffff;
    assert Ones(32) == 0xffff_ffff;
    assert Ones(36) == 0xf_ffff_ffff;
    assert Ones(40) == 0xff_ffff_ffff;
    assert Ones(44) == 0xfff_ffff_ffff;
    assert Ones(48) == 0xffff_ffff_ffff;
    assert Ones(52) == 0xf_ffff_ffff_ffff;
    assert Ones(56) == 0xff_ffff_ffff_ffff;
    assert Ones(60) == 0xfff_ffff_ffff_ffff;
    assert Ones(63) == 0x7fff_ffff_ffff_ffff;
  }

  /** A page-aligned value below 2^48 has bits in the address field only. */
  lemma AddressBits(x: bv64)
    requires Value(x) % 0x1000 == 0 && Value(x) < Pow2(48)
    ensures x & 0xffff_0000_0000_0fff == 0
  {
    OnesAre();
    Powers();
    NoLowBits(x, 64, 12);
    NoHighBits(x, 64, 48);
    Join(x);
  }

  lemma Powers()
    ensures Pow2(12) == 0x1000 && Pow2(21) == 0x20_0000
  {
    assert Pow2(4) == 16 && Pow2(8) == 256 && Pow2(12) == 0x1000;
    assert Pow2(16) == 0x1_0000 && Pow2(20) == 0x10_0000;
  }

  lemma Join(x: bv64)
    requires x & 0xfff == 0 && x & (0xffff_ffff_ffff_ffff & !0xffff_ffff_ffff) == 0
    ensures x & 0xffff_0000_0000_0fff == 0
  {
  }

  /** A value aligned to 2 MiB has no bits below bit 21. */
  lemma BlockBits(x: bv64)
    requires Value(x) % 0x20_0000 == 0
    ensures x & 0x1f_ffff == 0
  {
    OnesAre();
    Powers();
    NoLowBits(x, 64, 21);
  }

  lemma ShiftSame(x: bv64, y: bv64, m: bv64)
    requires x & 1 == y & 1 && ((x >> 1) ^ (y >> 1)) & m == 0
    ensures (x ^ y) & ((m << 1) | 1) == 0
  {
  }

  lemma {:induction false} SameBits(x: bv64, y: bv64, n: nat)
    requires ValueOf(x, n) == ValueOf(y, n)
    ensures (x ^ y) & Ones(n) == 0
    decreases n
  {
    if n > 0 {
      LowBit(x);
      LowBit(y);
      SameBits(x >> 1, y >> 1, n - 1);
      ShiftSame(x, y, Ones(n - 1));
    }
  }

  /** Different words have different values. */
  lemma ValueInjective(x: bv64, y: bv64)
    requires Value(x) == Value(y)
    ensures x == y
  {
    OnesAre();
    SameBits(x, y, 64);
    Xor(x, y);
  }

  lemma Xor(x: bv64, y: bv64)
    requires (x ^ y) & 0xffff_ffff_ffff_ffff == 0
    ensures x == y
  {
  }

  // ---------------------------------------------------------------- the word for a number

  function Bit(n: nat): bv64 {
    if n % 2 == 1 then 1 else 0
  }

  function WordFor(n: nat, k: nat): bv64
    decreases k
  {
    if k == 0 then 0 else (WordFor(n / 2, k - 1) << 1) | Bit(n)
  }

  /** A number below 2^64 as a word. */
  function WordOf(n: nat): bv64 {
    WordFor(n, 64)
  }

  lemma ShiftBack(y: bv64, b: bv64)
    requires (b == 0 || b == 1) && y & 0x8000_0000_0000_0000 == 0
    ensures ((y << 1) | b) & 1 == b && ((y << 1) | b) >> 1 == y
  {
  }

  lemma Inside(y: bv64, b: bv64, m: bv64)
    requires y & !m == 0 && (b == 0 || b == 1)
    ensures ((y << 1) | b) & !((m << 1) | 1) == 0
  {
  }

  lemma {:induction false} FewBits(n: nat, k: nat, m: nat)
    requires k <= m
    ensures WordFor(n, k) & !Ones(m) == 0
    decreases m
  {
    if k > 0 {
      FewBits(n / 2, k - 1, m - 1);
      Inside(WordFor(n / 2, k - 1), Bit(n), Ones(m - 1));
    } else {
      ZeroAnd(!Ones(m));
    }
  }

  lemma ZeroAnd(x: bv64)
    ensures 0 & x == 0
  {
  }

  lemma BelowTop(x: bv64)
    requires x & !0x7fff_ffff_ffff_ffff == 0
    ensures x & 0x8000_0000_0000_0000 == 0
  {
  }

  lemma {:induction false} ValueOfWord(n: nat, k: nat)
    requires k <= 64
    ensures ValueOf(WordFor(n, k), k) == n % Pow2(k)
    decreases k
  {
    hide WordFor, Low, Half;
    if k > 0 {
      WordHalves(n, k);
      ValueOfWord(n / 2, k - 1);
      HalfRemainder(n, Pow2(k - 1));
    }
  }

  /** A word taken apart as it was put together. */
  lemma WordHalves(n: nat, k: nat)
    requires 0 < k <= 64
    ensures Half(WordFor(n, k)) == WordFor(n / 2, k - 1) && Low(WordFor(n, k)) == n % 2
  {
    hide Ones;
    var y := WordFor(n / 2, k - 1);
    OnesAre();
    FewBits(n / 2, k - 1, 63);
    BelowTop(y);
    ShiftBack(y, Bit(n));
  }

  lemma HalfRemainder(n: nat, p: nat)
    requires p > 0
    ensures n % (2 * p) == n % 2 + 2 * ((n / 2) % p)
  {
    var q, r := (n / 2) / p, (n / 2) % p;
    assert n / 2 == q * p + r;
    assert n == q * (2 * p) + (n % 2 + 2 * r);
    A.QuotientUnique(n, q, n % 2 + 2 * r, 2 * p);
  }

  /** The word for a number below 2^64 has that value. */
  lemma WordValue(n: nat)
    requires n < U64_MOD
    ensures Value(WordOf(n)) == n
  {
    hide ValueOf, WordFor, Pow2;
    ValueOfWord(n, 64);
    BigPower();
  }

  lemma BigPower()
    ensures Pow2(64) == U64_MOD
  {
    assert Pow2(8) == 256 && Pow2(16) == 0x1_0000;
    assert Pow2(24) == 0x100_0000 && Pow2(32) == 0x1_0000_0000;
    assert Pow2(40) == 0x100_0000_0000 && Pow2(48) == 0x1_0000_0000_0000;
    assert Pow2(56) == 0x100_0000_0000_0000;
  }
}

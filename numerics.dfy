/** The arithmetic the calculator borrows from Kotlin and the JVM: 32-bit
    `Int` multiplication, `Float.pow` with a whole exponent and
    `Math.round(Float)`. `Float` values are modelled as `real`, except in
    `SinglePrecision`. */
module Numerics {

  const IntMin: int := -0x8000_0000
  const IntMax: int := 0x7FFF_FFFF

  /** Kotlin's `Int`. */
  type Int32 = x: int | -0x8000_0000 <= x <= 0x7FFF_FFFF

  /** The result of an `Int` operation whose exact value is `x`: two's
      complement wrap-around modulo 2^32. */
  function Wrap32(x: int): (r: Int32)
    ensures (x - r) % 0x1_0000_0000 == 0
    ensures IntMin <= x <= IntMax ==> r == x
  {
    var m := x % 0x1_0000_0000;
    if m <= IntMax then m else m - 0x1_0000_0000
  }

  /** `x.pow(n.toFloat())` for a whole exponent `n`, computed exactly. */
  function Pow(x: real, n: nat): (r: real)
    ensures x > 0.0 ==> r > 0.0
    ensures x >= 1.0 ==> r >= 1.0
  {
    if n == 0 then 1.0
    else
      var p := Pow(x, n - 1);
      assert x >= 1.0 ==> x * p >= p;
      x * p
  }

  /** A base above one raised to a positive power stays above one. */
  lemma {:induction false} PowAboveOne(x: real, n: nat)
    requires x > 1.0 && n >= 1
    ensures Pow(x, n) > 1.0
  {
    if n > 1 {
      PowAboveOne(x, n - 1);
      var p := Pow(x, n - 1);
      assert x * p - p == (x - 1.0) * p;
      assert (x - 1.0) * p > 0.0;
    }
  }

  /** Bernoulli-style bound: x^n - 1 <= n * (x - 1) * x^n for x >= 1, i.e.
      the growth over n periods never exceeds n times the per-period
      growth applied to the final value. */
  lemma {:induction false} PowGrowthBound(x: real, n: nat)
    requires x >= 1.0
    ensures Pow(x, n) - 1.0 <= n as real * (x - 1.0) * Pow(x, n)
  {
    if n > 0 {
      PowGrowthBound(x, n - 1);
      GrowthStep(x, Pow(x, n - 1), (n - 1) as real);
    }
  }

  /** The inductive step of PowGrowthBound, over plain reals: from
      p - 1 <= m(x - 1)p and p >= 1 follow the bound for q = xp and m + 1. */
  lemma GrowthStep(x: real, p: real, m: real)
    requires x >= 1.0 && p >= 1.0 && m >= 0.0
    requires p - 1.0 <= m * (x - 1.0) * p
    ensures x * p - 1.0 <= (m + 1.0) * (x - 1.0) * (x * p)
  {
    var d := x - 1.0;
    var q := x * p;
    var grown := x * (p - 1.0);
    var bound := m * d * q;
    assert q >= p by { assert q - p == d * p; }
    assert grown <= bound by {
      ScaleMonotone(x, p - 1.0, m * d * p);
      assert x * (m * d * p) == bound;
    }
    assert d <= d * q by { assert d * q - d == d * (q - 1.0); }
    assert q - 1.0 == grown + d;
    assert q - 1.0 <= bound + d * q;
    assert bound + d * q == (m + 1.0) * (x - 1.0) * (x * p);
  }

  /** Bernoulli's inequality: x^n >= 1 + n * (x - 1) for x >= 1, so the
      growth over n periods is at least n times the per-period growth. */
  lemma {:induction false} PowBernoulli(x: real, n: nat)
    requires x >= 1.0
    ensures Pow(x, n) >= 1.0 + n as real * (x - 1.0)
  {
    if n > 0 {
      PowBernoulli(x, n - 1);
      BernoulliStep(x, Pow(x, n - 1), (n - 1) as real);
    }
  }

  /** The inductive step of PowBernoulli, over plain reals: from
      p >= 1 + m(x - 1) follows xp >= 1 + (m + 1)(x - 1). */
  lemma BernoulliStep(x: real, p: real, m: real)
    requires x >= 1.0 && m >= 0.0 && p >= 1.0 + m * (x - 1.0)
    ensures x * p >= 1.0 + (m + 1.0) * (x - 1.0)
  {
    var d := x - 1.0;
    ScaleMonotone(x, 1.0 + m * d, p);
    assert x * (1.0 + m * d) == 1.0 + (m + 1.0) * d + m * d * d;
    ScaleMonotone(m, 0.0, d);
    ScaleMonotone(m * d, 0.0, d);
  }

  /** One raised to any power is one. */
  lemma {:induction false} PowOfOne(n: nat)
    ensures Pow(1.0, n) == 1.0
  {
    if n > 0 {
      PowOfOne(n - 1);
    }
  }

  /** Exponents add: x^(a + b) = x^a * x^b. */
  lemma {:induction false} PowAdd(x: real, a: nat, b: nat)
    ensures Pow(x, a + b) == Pow(x, a) * Pow(x, b)
    decreases b
  {
    if b > 0 {
      PowAdd(x, a, b - 1);
      var p, q := Pow(x, a), Pow(x, b - 1);
      assert x * (p * q) == p * (x * q);
    }
  }

  /** Products of ordered non-negative factors are ordered. */
  lemma ProductMonotone(a: real, b: real, c: real, d: real)
    requires 0.0 <= a <= c && 0.0 <= b <= d
    ensures a * b <= c * d
  {
    ScaleMonotone(a, b, d);
    ScaleMonotone(d, a, c);
    assert a * d == d * a && d * c == c * d;
  }

  /** Scaling by a non-negative factor keeps the order of two reals. */
  lemma ScaleMonotone(k: real, a: real, b: real)
    requires k >= 0.0 && a <= b
    ensures k * a <= k * b
  {
    assert k * b - k * a == k * (b - a);
  }

  /** A product of two non-zero reals is non-zero. */
  lemma ProductNonZero(a: real, b: real)
    requires a != 0.0 && b != 0.0
    ensures a * b != 0.0
  {
    assert (a * b) / b == a;
  }

  /** A non-negative real divided by a positive one is non-negative. */
  lemma QuotientNonNegative(a: real, b: real)
    requires a >= 0.0 && b > 0.0
    ensures a / b >= 0.0
  {
    assert (a / b) * b == a;
  }

  /** The closest integer to `v`, ties toward positive infinity: the value
      `Math.round` would give if `Int` were unbounded. */
  function RoundHalfUp(v: real): (r: int)
    ensures v - 0.5 < r as real <= v + 0.5
  {
    (v + 0.5).Floor
  }

  /** Only one integer lies in the half-open interval (v - 0.5, v + 0.5]. */
  lemma RoundHalfUpUnique(v: real, k: int)
    requires v - 0.5 < k as real <= v + 0.5
    ensures k == RoundHalfUp(v)
  {
  }

  /** `Math.round(Float): Int` as the JVM defines it: the closest `Int`,
      ties toward positive infinity, saturating at the ends of the `Int`
      range (NaN is not modelled, since `real` has no NaN). */
  function JavaRound(v: real): (r: Int32)
    ensures IntMin <= RoundHalfUp(v) <= IntMax ==> v - 0.5 < r as real <= v + 0.5
    ensures RoundHalfUp(v) > IntMax ==> r == IntMax
    ensures RoundHalfUp(v) < IntMin ==> r == IntMin
  {
    var k := RoundHalfUp(v);
    if k > IntMax then IntMax else if k < IntMin then IntMin else k
  }

  /** A whole number of cents. */
  predicate IsWholeCents(v: real) {
    (v * 100.0).Floor as real == v * 100.0
  }
}

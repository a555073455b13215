/** The annuity branch of `monthlyPayment()` with two traits of
    single-precision `Float` that change its answer outright: overflow to
    +Infinity, with the NaN that follows when infinities meet, and the
    absorption of a tiny monthly rate into `1 + mRate`. Other finite values
    are still exact here; their rounding is not modelled, and it too can
    change the answer, most of all through the cancellation in `temp - 1`
    at rates just above the absorbed ones. */
module SinglePrecision {
  import opened Numerics
  import opened Amortisation

  /** The smallest magnitude that IEEE 754 single precision, rounding to
      nearest, turns into infinity: halfway between `Float.MAX_VALUE`,
      (2 - 2^-23) * 2^127, and 2^128. */
  const OverflowThreshold: real := 340282356779733661637539395458142568448.0

  /** Half the gap between 1 and the next `Float`, 2^-24: a sum `1 + m`
      with 0 <= m <= 2^-24 rounds to 1 (the tie at 2^-24 goes to the even
      neighbour, 1). */
  const AbsorptionBound: real := 1.0 / 16777216.0

  /** A `Float` as the payment calculation meets it: finite, +Infinity or
      NaN. Every value it computes is non-negative. */
  datatype Float = Finite(v: real) | Infinity | NaN

  /** No negative finite value. */
  predicate NonNegative(f: Float) {
    f.Finite? ==> f.v >= 0.0
  }

  /** An exact non-negative result stored as a `Float`: +Infinity from the
      overflow threshold on. */
  function ToFloat(x: real): (f: Float)
    requires x >= 0.0
    ensures NonNegative(f) && !f.NaN?
    ensures f.Infinity? <==> x >= OverflowThreshold
  {
    if x < OverflowThreshold then Finite(x) else Infinity
  }

  /** `a * b` on non-negative operands: NaN is absorbing, zero times
      infinity is NaN, any other product with infinity is infinity. */
  function Mul(a: Float, b: Float): (f: Float)
    requires NonNegative(a) && NonNegative(b)
    ensures NonNegative(f)
    ensures a.Infinity? && b.Finite? && b.v > 0.0 ==> f.Infinity?
  {
    match (a, b)
    case (NaN, _) => NaN
    case (_, NaN) => NaN
    case (Infinity, Infinity) => Infinity
    case (Infinity, Finite(y)) => if y == 0.0 then NaN else Infinity
    case (Finite(x), Infinity) => if x == 0.0 then NaN else Infinity
    case (Finite(x), Finite(y)) =>
      ScaleMonotone(x, 0.0, y);
      ToFloat(x * y)
  }

  /** `a / b` on non-negative operands: infinity over infinity and zero
      over zero are NaN, a finite value over infinity is zero, and a
      non-zero value over zero is infinity. */
  function Div(a: Float, b: Float): (f: Float)
    requires NonNegative(a) && NonNegative(b)
    ensures NonNegative(f)
    ensures b.Infinity? ==> !f.Infinity?
  {
    match (a, b)
    case (NaN, _) => NaN
    case (_, NaN) => NaN
    case (Infinity, Infinity) => NaN
    case (Infinity, Finite(_)) => Infinity
    case (Finite(_), Infinity) => Finite(0.0)
    case (Finite(x), Finite(y)) =>
      if y == 0.0 then (if x == 0.0 then NaN else Infinity)
      else
        QuotientNonNegative(x, y);
        ToFloat(x / y)
  }

  /** `a - 1` for a value of at least one. */
  function MinusOne(a: Float): (f: Float)
    requires a.Finite? ==> a.v >= 1.0
    ensures NonNegative(f)
    ensures a.Infinity? ==> f.Infinity?
  {
    if a.Finite? then Finite(a.v - 1.0) else a
  }

  /** `roundToTwoDecimalPlaces`: `Math.round(value * 100)` gives 0 for NaN
      and `Int.MAX_VALUE` for +Infinity, then `toFloat() / 100`. */
  function RoundInFloat(value: Float): (r: real)
    requires NonNegative(value)
  {
    var scaled := Mul(value, Finite(100.0));
    var k: Int32 := match scaled
      case NaN => 0
      case Infinity => IntMax
      case Finite(v) => JavaRound(v);
    k as real / 100.0
  }

  /** `1 + m` in `Float` for a non-negative m: 1 when m is absorbed,
      otherwise kept exact. */
  function OnePlus(m: real): (s: real)
    requires m >= 0.0
    ensures s >= 1.0
    ensures s == 1.0 <==> m <= AbsorptionBound
  {
    if m <= AbsorptionBound then 1.0 else 1.0 + m
  }

  /** `temp = (1 + mRate).pow(n)` with the sum taken in `Float`: one when
      the monthly rate is absorbed, the exact growth factor otherwise. */
  function TempInFloat(t: Terms): (g: real)
    requires ValidTerms(t) && t.years >= 1
    ensures g >= 1.0
    ensures MonthlyRate(t.rate) <= AbsorptionBound ==> g == 1.0
    ensures MonthlyRate(t.rate) > AbsorptionBound ==> g == Growth(t)
  {
    var base := OnePlus(MonthlyRate(t.rate));
    assert base == 1.0 ==> Pow(base, PaymentCount(t.years)) == 1.0 by {
      PowOfOne(PaymentCount(t.years));
    }
    Pow(base, PaymentCount(t.years))
  }

  /** `(1 + mRate).pow(n)`, exactly. */
  function Growth(t: Terms): (g: real)
    requires ValidTerms(t) && t.years >= 1
    ensures g >= 1.0
    ensures t.rate > 0.0 ==> g > 1.0
  {
    var g := Pow(1.0 + MonthlyRate(t.rate), PaymentCount(t.years));
    assert t.rate > 0.0 ==> g > 1.0 by {
      if t.rate > 0.0 {
        PowAboveOne(1.0 + MonthlyRate(t.rate), PaymentCount(t.years));
      }
    }
    g
  }

  /** `amount * mRate`: the first month's interest, exactly. */
  function Interest(t: Terms): (i: real)
    requires ValidTerms(t)
    ensures i >= 0.0
  {
    ScaleMonotone(t.amount, 0.0, MonthlyRate(t.rate));
    t.amount * MonthlyRate(t.rate)
  }

  /** The annuity branch of `monthlyPayment()` in `Float`. */
  function AnnuityBranchInFloat(t: Terms): real
    requires ValidTerms(t) && t.years >= 1 && t.rate > 0.0
  {
    PaymentInFloat(Interest(t), TempInFloat(t))
  }

  /** `amount * mRate * temp` evaluated left to right, divided by
      `temp - 1` and rounded to cents, for the interest `ar` and the
      growth factor `g`, each stored as a `Float`. */
  function PaymentInFloat(ar: real, g: real): real
    requires ar >= 0.0 && g >= 1.0
  {
    var temp := ToFloat(g);
    RoundInFloat(Div(Mul(ToFloat(ar), temp), MinusOne(temp)))
  }

  /** While the monthly rate is not absorbed into `1 + mRate` and neither
      the growth factor nor the numerator reaches the overflow threshold,
      the annuity branch in `Float` is the exact payment rounded as
      written. */
  lemma FloatAgreesWithoutOverflow(t: Terms)
    requires ValidTerms(t) && t.years >= 1 && t.rate > 0.0
    requires MonthlyRate(t.rate) > AbsorptionBound
    requires Growth(t) < OverflowThreshold && Interest(t) * Growth(t) < OverflowThreshold
    ensures AnnuityBranchInFloat(t) == RoundToTwoDecimalPlacesAsWritten(ExactPayment(t))
  {
    assert TempInFloat(t) == Growth(t);
    ScaleMonotone(Interest(t), 1.0, Growth(t));
    ExactPaymentFactored(t);
    NoOverflow(Interest(t), Growth(t), ExactPayment(t));
  }

  /** When `temp` overflows, the numerator and the denominator are both
      infinite, or the numerator is NaN (zero interest times infinity), so
      the quotient is NaN and the payment is 0. */
  lemma GrowthOverflowGivesZero(t: Terms)
    requires ValidTerms(t) && t.years >= 1 && t.rate > 0.0
    ensures TempInFloat(t) >= OverflowThreshold ==> AnnuityBranchInFloat(t) == 0.0
  {
    if TempInFloat(t) >= OverflowThreshold {
      GrowthOverflow(Interest(t), TempInFloat(t));
    }
  }

  /** When only the numerator overflows, the quotient is infinite and
      `Math.round` saturates. */
  lemma NumeratorOverflowSaturates(t: Terms)
    requires ValidTerms(t) && t.years >= 1 && t.rate > 0.0
    ensures TempInFloat(t) < OverflowThreshold <= Interest(t) * TempInFloat(t)
            ==> AnnuityBranchInFloat(t) == IntMax as real / 100.0
  {
    if TempInFloat(t) < OverflowThreshold <= Interest(t) * TempInFloat(t) {
      NumeratorOverflow(Interest(t), TempInFloat(t));
    }
  }

  /** When the monthly rate is absorbed, `temp` is 1 and line 66 divides by
      `temp - 1` = 0: a positive numerator gives +Infinity, which
      `Math.round` saturates, and a zero one gives NaN, which it maps to 0. */
  lemma AbsorbedRateSaturates(t: Terms)
    requires ValidTerms(t) && t.years >= 1 && t.rate > 0.0
    ensures MonthlyRate(t.rate) <= AbsorptionBound
            ==> AnnuityBranchInFloat(t) == if t.amount == 0.0 then 0.0 else IntMax as real / 100.0
  {
    if MonthlyRate(t.rate) <= AbsorptionBound {
      assert Interest(t) == 0.0 <==> t.amount == 0.0 by {
        if t.amount != 0.0 {
          ProductNonZero(t.amount, MonthlyRate(t.rate));
        }
      }
      ZeroDenominator(Interest(t));
    }
  }

  /** The exact payment in terms of the interest and the growth factor. */
  lemma ExactPaymentFactored(t: Terms)
    requires ValidTerms(t) && t.years >= 1 && t.rate > 0.0
    ensures ExactPayment(t) == Interest(t) * (Growth(t) / (Growth(t) - 1.0))
  {
  }

  /** Infinite growth: the payment is infinity over infinity, or NaN over
      infinity, and rounds to 0. */
  lemma GrowthOverflow(ar: real, g: real)
    requires ar >= 0.0 && g >= OverflowThreshold
    ensures PaymentInFloat(ar, g) == 0.0
  {
  }

  /** Finite growth g > 1 and a finite numerator: the quotient is exact,
      equal to the regrouped annuity formula e, and rounded as written. */
  lemma NoOverflow(ar: real, g: real, e: real)
    requires ar >= 0.0 && 1.0 < g < OverflowThreshold && ar <= ar * g < OverflowThreshold
    requires e == ar * (g / (g - 1.0))
    ensures PaymentInFloat(ar, g) == RoundToTwoDecimalPlacesAsWritten(e)
  {
    var q := (ar * g) / (g - 1.0);
    assert q == e by { Regroup(ar, g, g - 1.0); }
    FiniteQuotient(ar, g);
    calc {
      PaymentInFloat(ar, g);
      RoundInFloat(ToFloat(q));
      { LargeValueSaturates(q); }
      RoundToTwoDecimalPlacesAsWritten(q);
    }
  }

  /** With no overflow on the way, the quotient reaches the rounding as a
      finite `Float` holding the exact value. */
  lemma FiniteQuotient(ar: real, g: real)
    requires ar >= 0.0 && 1.0 < g < OverflowThreshold && ar <= ar * g < OverflowThreshold
    ensures (ar * g) / (g - 1.0) >= 0.0
    ensures PaymentInFloat(ar, g) == RoundInFloat(ToFloat((ar * g) / (g - 1.0)))
  {
    QuotientNonNegative(ar * g, g - 1.0);
    assert Mul(ToFloat(ar), ToFloat(g)) == Finite(ar * g);
    assert MinusOne(ToFloat(g)) == Finite(g - 1.0);
  }

  /** (a * b) / c == a * (b / c) for c != 0. */
  lemma Regroup(a: real, b: real, c: real)
    requires c != 0.0
    ensures (a * b) / c == a * (b / c)
  {
    assert (a * (b / c)) * c == a * ((b / c) * c);
  }

  /** `temp` = 1: the numerator is the interest and the denominator 0, so
      the quotient is NaN for no interest and +Infinity otherwise. */
  lemma ZeroDenominator(ar: real)
    requires ar >= 0.0
    ensures PaymentInFloat(ar, 1.0) == if ar == 0.0 then 0.0 else IntMax as real / 100.0
  {
    assert MinusOne(ToFloat(1.0)) == Finite(0.0);
    assert Mul(ToFloat(ar), ToFloat(1.0)) == ToFloat(ar);
    assert Mul(Infinity, Finite(100.0)) == Infinity;
  }

  /** Finite growth g >= 1 and a numerator past the threshold: the quotient
      is infinite and `Math.round` saturates. */
  lemma NumeratorOverflow(ar: real, g: real)
    requires ar >= 0.0 && 1.0 <= g < OverflowThreshold && ar * g >= OverflowThreshold
    ensures PaymentInFloat(ar, g) == IntMax as real / 100.0
  {
    assert Mul(ToFloat(ar), Finite(g)) == Infinity;
    assert Div(Infinity, Finite(g - 1.0)) == Infinity;
    assert Mul(Infinity, Finite(100.0)) == Infinity;
  }

  /** A value whose cent count reaches the overflow threshold comes back
      as `Int.MAX_VALUE / 100` both in `Float` and as written over the
      reals, and a smaller one is rounded the same way by both. */
  lemma LargeValueSaturates(q: real)
    requires q >= 0.0
    ensures RoundInFloat(ToFloat(q)) == RoundToTwoDecimalPlacesAsWritten(q)
  {
    ScaleMonotone(100.0, 0.0, q);
    if q * 100.0 >= OverflowThreshold {
      assert RoundHalfUp(q * 100.0) > IntMax;
    }
  }

  /** A rate of 3.5 over 30 years, which the rate field accepts: the growth
      factor (31/24)^360, about 1.03 * 10^40, exceeds the `Float` range.
      From (31/24)^10 >= 12, squaring five times and one more product give
      (31/24)^360 >= 144^16 * 144^2, about 7.09 * 10^38. */
  lemma GrowthOverflowsAtRate350()
    ensures Growth(Terms(100000.0, 30, 3.5)) >= OverflowThreshold
  {
    var x := 31.0 / 24.0;
    assert Growth(Terms(100000.0, 30, 3.5)) == Pow(x, 360);
    TenthPowerAtRate350();
    OverflowFromTenthPower(x);
  }

  /** Any base whose tenth power reaches 12 overflows at the 360th power:
      squaring five times gives x^320 >= 12^32 and x^40 >= 12^4. */
  lemma OverflowFromTenthPower(x: real)
    requires x > 0.0 && Pow(x, 10) >= 12.0
    ensures Pow(x, 360) >= OverflowThreshold
  {
    Squaring(x, 10, 12.0);
    Squaring(x, 20, 144.0);
    Squaring(x, 40, 20736.0);
    Squaring(x, 80, 429981696.0);
    Squaring(x, 160, 184884258895036416.0);
    PowAdd(x, 320, 40);
    ProductMonotone(34182189187166852111368841966125056.0, 20736.0, Pow(x, 320), Pow(x, 40));
  }

  /** x^k >= c gives x^(2k) >= c^2. */
  lemma Squaring(x: real, k: nat, c: real)
    requires x > 0.0 && c >= 0.0 && Pow(x, k) >= c
    ensures Pow(x, k + k) >= c * c
  {
    PowAdd(x, k, k);
    ProductMonotone(c, c, Pow(x, k), Pow(x, k));
  }

  /** (31/24)^10 is about 12.93. */
  lemma TenthPowerAtRate350()
    ensures Pow(31.0 / 24.0, 10) >= 12.0
  {
    var x := 31.0 / 24.0;
    PowAdd(x, 8, 2);
    PowAdd(x, 4, 4);
    PowAdd(x, 2, 2);
    assert Pow(x, 2) == 961.0 / 576.0;
    assert Pow(x, 4) == 923521.0 / 331776.0;
    assert Pow(x, 8) == Pow(x, 4) * Pow(x, 4);
  }

  /** At rate 3.5 (350% a year) the source reports a monthly payment of 0
      on a loan of 100000, although the payment must at least cover the
      first month's interest of about 29166.67, as the exact model's does. */
  lemma ZeroPaymentAtRate350()
    ensures AnnuityBranchInFloat(Terms(100000.0, 30, 3.5)) == 0.0
    ensures MonthlyPayment(Terms(100000.0, 30, 3.5)) > 29166.0
  {
    GrowthOverflowsAtRate350();
    assert TempInFloat(Terms(100000.0, 30, 3.5)) == Growth(Terms(100000.0, 30, 3.5));
    GrowthOverflowGivesZero(Terms(100000.0, 30, 3.5));
  }

  /** At rate 0.0000001, which the rate field accepts, the monthly rate is
      absorbed and the source reports a monthly payment of
      `Int.MAX_VALUE / 100` on a loan of 100000 over 30 years, although the
      exact model's payment is below 300 (about 277.78). */
  lemma SaturatedPaymentAtTinyRate()
    ensures AnnuityBranchInFloat(Terms(100000.0, 30, 0.0000001)) == IntMax as real / 100.0
    ensures MonthlyPayment(Terms(100000.0, 30, 0.0000001)) < 300.0
  {
    AbsorbedRateSaturates(Terms(100000.0, 30, 0.0000001));
    PaymentBelow300AtTinyRate();
  }

  /** The exact model's payment at rate 0.0000001: at most the interest of
      under a tenth of a cent, plus 100000 / 360, plus half a cent. */
  lemma PaymentBelow300AtTinyRate()
    ensures MonthlyPayment(Terms(100000.0, 30, 0.0000001)) < 300.0
  {
    var t := Terms(100000.0, 30, 0.0000001);
    PaymentAtMostInterestPlusShare(t);
    assert PaymentCount(t.years) as real == 360.0;
    assert t.amount * MonthlyRate(t.rate) < 0.001;
  }

  /** The rounded payment is at most one month's interest plus an n-th of
      the principal, and half a cent. */
  lemma PaymentAtMostInterestPlusShare(t: Terms)
    requires ValidTerms(t) && t.years >= 1
    ensures MonthlyPayment(t)
            <= t.amount * MonthlyRate(t.rate) + t.amount / PaymentCount(t.years) as real + 0.005
  {
  }
}

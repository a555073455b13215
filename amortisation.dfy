/** The calculation of `Mortgage`: the monthly payment of a fixed-rate loan
    (`monthlyPayment`), its rounding to cents (`roundToTwoDecimalPlaces`)
    and the total paid over the term (`totalPayment`), as functions of the
    three stored inputs. */
module Amortisation {
  import opened Numerics

  /** The three inputs a `Mortgage` stores: principal, term in whole years
      and annual rate as a decimal fraction (0.035 is 3.5%). */
  datatype Terms = Terms(amount: real, years: int, rate: real)

  /** What the guarded setters keep true: no input is negative. */
  predicate ValidTerms(t: Terms) {
    t.amount >= 0.0 && t.years >= 0 && t.rate >= 0.0
  }

  /** `rate / 12`: the monthly rate, one twelfth of the annual one. */
  function MonthlyRate(rate: real): (r: real)
    ensures r * 12.0 == rate
    ensures rate > 0.0 ==> r > 0.0
  {
    rate / 12.0
  }

  // ---------------------------------------------------------------------
  // The number of payments

  /** `years * 12` as the source computes it, in 32-bit `Int` arithmetic. */
  function PaymentCountAsWritten(years: Int32): (n: Int32)
    ensures 0 <= years <= IntMax / 12 ==> n == years * 12
  {
    Wrap32(years * 12)
  }

  /** For a term of 2^30 years the payment count wraps around to zero, so
      the payment divides by zero (MortgageCalc.SetterAcceptsWrappingTerm
      shows that the years setter stores that term). */
  lemma PaymentCountWrapsToZero()
    ensures PaymentCountAsWritten(0x4000_0000) == 0
  {
  }

  /** The payment count as intended: twelve monthly payments per year. */
  function PaymentCount(years: nat): (n: nat)
    ensures years >= 1 ==> n >= 12
    ensures years <= IntMax / 12 ==> n == PaymentCountAsWritten(years)
  {
    years * 12
  }

  /** With a zero term there are no payments and the growth factor is one,
      so both branches of the payment formula divide by zero. */
  lemma ZeroTermDividesByZero(rate: real)
    ensures PaymentCount(0) == 0
    ensures Pow(1.0 + MonthlyRate(rate), PaymentCount(0)) - 1.0 == 0.0
  {
  }

  // ---------------------------------------------------------------------
  // Rounding to cents

  /** `Math.round(value * 100).toFloat() / 100` as written: `Math.round`
      saturates at the `Int` range, so values of 21474836.475 and more
      come back as `Int.MAX_VALUE / 100`. That is 21474836.47 over the
      reals; in `Float`, whose neighbouring values are 2 apart at that
      size, it is 21474836.0. */
  function RoundToTwoDecimalPlacesAsWritten(v: real): (r: real)
    ensures IsWholeCents(r)
    ensures IntMin <= RoundHalfUp(v * 100.0) <= IntMax ==> r == RoundToTwoDecimalPlaces(v)
    ensures r <= IntMax as real / 100.0
  {
    JavaRound(v * 100.0) as real / 100.0
  }

  /** A monthly payment of 30 million is reported as 21474836.47 (over the
      reals). */
  lemma RoundAsWrittenSaturates()
    ensures RoundToTwoDecimalPlacesAsWritten(30000000.0) == 21474836.47
  {
    assert RoundHalfUp(3000000000.0) == 3000000000;
  }

  /** Rounding to cents as intended: the nearest whole number of cents,
      ties rounded up, with no upper bound. */
  function RoundToTwoDecimalPlaces(v: real): (r: real)
    ensures IsWholeCents(r)
    ensures v - 0.005 < r <= v + 0.005
    ensures v >= 0.0 ==> r >= 0.0
  {
    var cents := RoundHalfUp(v * 100.0);
    assert (cents as real / 100.0) * 100.0 == cents as real;
    cents as real / 100.0
  }

  /** The two properties of RoundToTwoDecimalPlaces determine it: exactly
      one whole number of cents lies in (v - 0.005, v + 0.005]. In
      particular a value exactly halfway between two cents rounds up. */
  lemma RoundToCentsUnique(v: real, c: real)
    requires IsWholeCents(c) && v - 0.005 < c <= v + 0.005
    ensures c == RoundToTwoDecimalPlaces(v)
  {
    var k := (c * 100.0).Floor;
    RoundHalfUpUnique(v * 100.0, k);
  }

  // ---------------------------------------------------------------------
  // The payment

  /** The annuity formula amount * r * g / (g - 1) with g = (1 + r)^n, for a
      positive monthly rate r and at least one payment; g - 1 is then
      positive, so the quotient is defined. The payment is never less than
      one month's interest on the whole principal, and never more than that
      interest plus an n-th of the principal. */
  function AnnuityPayment(amount: real, r: real, n: nat): (p: real)
    requires r > 0.0 && n >= 1
    ensures amount >= 0.0 ==> p >= amount * r >= 0.0
    ensures amount >= 0.0 ==> p <= amount * r + amount / n as real
  {
    var g := Pow(1.0 + r, n);
    PowBernoulli(1.0 + r, n);
    assert amount >= 0.0 ==> amount * r <= (amount * r) * (g / (g - 1.0)) <= amount * r + amount / n as real by {
      if amount >= 0.0 {
        AnnuityBounds(amount, r, n as real, g);
      }
    }
    (amount * r) * (g / (g - 1.0))
  }

  /** The bounds on the annuity payment, over plain reals: with
      g - 1 >= n * r > 0, the payment (a * r) * (g / (g - 1)) lies between
      one month's interest a * r and that interest plus a / n. */
  lemma AnnuityBounds(a: real, r: real, n: real, g: real)
    requires a >= 0.0 && r > 0.0 && n >= 1.0 && g - 1.0 >= n * r
    ensures 0.0 <= a * r <= (a * r) * (g / (g - 1.0)) <= a * r + a / n
  {
    var d := g - 1.0;
    assert n * r > 0.0;
    assert g / d == 1.0 + 1.0 / d by {
      assert (1.0 + 1.0 / d) * d == d + 1.0;
    }
    assert 1.0 / d > 0.0 by {
      assert (1.0 / d) * d == 1.0;
    }
    ScaleMonotone(a, 0.0, r);
    ScaleMonotone(a * r, 1.0, g / (g - 1.0));
    ShareBound(a, r, n, g);
  }

  /** The bound behind the annuity payment's upper limit, over plain reals:
      with g - 1 >= n * r, (a * r) * (g / (g - 1)) <= a * r + a / n. */
  lemma ShareBound(a: real, r: real, n: real, g: real)
    requires a >= 0.0 && r > 0.0 && n >= 1.0 && g - 1.0 >= n * r
    ensures (a * r) * (g / (g - 1.0)) <= a * r + a / n
  {
    var d := g - 1.0;
    assert n * r > 0.0;
    assert g / d == 1.0 + 1.0 / d by {
      assert (1.0 + 1.0 / d) * d == d + 1.0;
    }
    assert 1.0 / d <= 1.0 / (n * r) by {
      assert (1.0 / d) * d == 1.0;
      assert (1.0 / (n * r)) * (n * r) == 1.0;
      ScaleMonotone(1.0 / (d * (n * r)), n * r, d);
      assert (1.0 / (d * (n * r))) * (n * r) == 1.0 / d;
      assert (1.0 / (d * (n * r))) * d == 1.0 / (n * r);
    }
    ScaleMonotone(a * r, 1.0 / d, 1.0 / (n * r));
    assert (a * r) * (1.0 / (n * r)) == a / n;
    assert (a * r) * (g / d) == a * r + (a * r) * (1.0 / d);
  }

  /** What the annuity formula solves: p * (g - 1) == amount * r * g. */
  lemma AnnuityEquation(amount: real, r: real, n: nat)
    requires r > 0.0 && n >= 1
    ensures Pow(1.0 + r, n) > 1.0
    ensures AnnuityPayment(amount, r, n) * (Pow(1.0 + r, n) - 1.0)
         == amount * r * Pow(1.0 + r, n)
  {
    var g := Pow(1.0 + r, n);
    PowAboveOne(1.0 + r, n);
    assert AnnuityPayment(amount, r, n) == (amount * r) * (g / (g - 1.0));
  }

  /** The level monthly payment before any rounding: the principal split
      evenly when the rate is zero, the annuity formula otherwise. */
  function ExactPayment(t: Terms): (p: real)
    requires ValidTerms(t) && t.years >= 1
    ensures p >= 0.0
    ensures t.rate == 0.0 ==> p * PaymentCount(t.years) as real == t.amount
    ensures t.rate > 0.0 ==> p >= t.amount * MonthlyRate(t.rate)
    ensures p <= t.amount * MonthlyRate(t.rate) + t.amount / PaymentCount(t.years) as real
  {
    var n := PaymentCount(t.years);
    if t.rate == 0.0 then t.amount / n as real
    else AnnuityPayment(t.amount, MonthlyRate(t.rate), n)
  }

  /** `monthlyPayment()`: the zero-rate branch is left unrounded and repays
      the principal in n equal parts; the annuity branch is rounded to the
      nearest cent. */
  function MonthlyPayment(t: Terms): (p: real)
    requires ValidTerms(t) && t.years >= 1
    ensures p >= 0.0
    ensures t.rate == 0.0 ==> p * PaymentCount(t.years) as real == t.amount
    ensures t.rate > 0.0 ==> IsWholeCents(p)
    ensures ExactPayment(t) - 0.005 < p <= ExactPayment(t) + 0.005
    ensures t.rate > 0.0 ==> p > t.amount * MonthlyRate(t.rate) - 0.005
  {
    var n := PaymentCount(t.years);
    if t.rate == 0.0 then t.amount / n as real
    else RoundToTwoDecimalPlaces(AnnuityPayment(t.amount, MonthlyRate(t.rate), n))
  }

  /** `totalPayment()`: n payments of the already rounded monthly payment.
      Without interest this is exactly the principal; with interest it falls
      short of the principal by at most half a cent per payment. */
  function TotalPayment(t: Terms): (total: real)
    requires ValidTerms(t) && t.years >= 1
    ensures t.rate == 0.0 ==> total == t.amount
    ensures t.rate > 0.0 ==> total >= t.amount - 0.005 * PaymentCount(t.years) as real
    ensures total >= 0.0
  {
    RoundedTotalNearPrincipal(t);
    MonthlyPayment(t) * PaymentCount(t.years) as real
  }

  /** The three facts about n payments of the rounded monthly payment:
      the principal exactly without interest, at most half a cent per
      payment short of it with interest, and never negative. */
  lemma RoundedTotalNearPrincipal(t: Terms)
    requires ValidTerms(t) && t.years >= 1
    ensures t.rate == 0.0 ==> MonthlyPayment(t) * PaymentCount(t.years) as real == t.amount
    ensures t.rate > 0.0 ==> MonthlyPayment(t) * PaymentCount(t.years) as real
                             >= t.amount - 0.005 * PaymentCount(t.years) as real
    ensures MonthlyPayment(t) * PaymentCount(t.years) as real >= 0.0
  {
    var n := PaymentCount(t.years) as real;
    var p := MonthlyPayment(t);
    ScaleMonotone(n, 0.0, p);
    assert n * p == p * n;
    if t.rate > 0.0 {
      InterestNonNegative(t);
      RoundedTotalBound(t.amount, ExactPayment(t), p, n);
    }
  }

  /** Over plain reals: n payments of p, each above e - 0.005, fall short
      of a <= e * n by less than 0.005 * n. */
  lemma RoundedTotalBound(a: real, e: real, p: real, n: real)
    requires n >= 0.0 && e * n >= a && e - 0.005 < p
    ensures p * n >= a - 0.005 * n
  {
    ScaleMonotone(n, e - 0.005, p);
    assert n * (e - 0.005) == e * n - 0.005 * n;
  }

  // ---------------------------------------------------------------------
  // The payment repays the loan

  /** The balance still owed after k monthly payments of p at monthly rate
      r: each month interest is added and one payment is taken off. */
  function Balance(principal: real, r: real, p: real, k: nat): real {
    if k == 0 then principal else Balance(principal, r, p, k - 1) * (1.0 + r) - p
  }

  /** The closed form of a balance b after growth g, multiplied through by
      r: b * r == principal * r * g - p * (g - 1). */
  predicate ClosedForm(principal: real, r: real, p: real, b: real, g: real) {
    b * r == principal * r * g - p * (g - 1.0)
  }

  /** The balance after k payments has the closed form with g = (1 + r)^k. */
  lemma {:induction false} BalanceClosedForm(principal: real, r: real, p: real, k: nat)
    ensures ClosedForm(principal, r, p, Balance(principal, r, p, k), Pow(1.0 + r, k))
  {
    if k > 0 {
      BalanceClosedForm(principal, r, p, k - 1);
      BalanceStep(principal, r, p,
                  Balance(principal, r, p, k - 1), Pow(1.0 + r, k - 1),
                  Balance(principal, r, p, k), Pow(1.0 + r, k));
    }
  }

  /** One month of BalanceClosedForm, over plain reals: b and g are the
      balance and growth before the month, b' and g' after it. */
  lemma BalanceStep(principal: real, r: real, p: real, b: real, g: real, b': real, g': real)
    requires ClosedForm(principal, r, p, b, g)
    requires b' == b * (1.0 + r) - p && g' == (1.0 + r) * g
    ensures ClosedForm(principal, r, p, b', g')
  {
    var x := 1.0 + r;
    assert b' * r == x * (b * r) - p * r;
    assert x * (principal * r * g - p * (g - 1.0)) - p * r
        == principal * r * (x * g) - p * (x * g - 1.0);
  }

  /** Without interest every payment reduces the balance by exactly p. */
  lemma {:induction false} BalanceInterestFree(principal: real, p: real, k: nat)
    ensures Balance(principal, 0.0, p, k) == principal - k as real * p
  {
    if k > 0 {
      BalanceInterestFree(principal, p, k - 1);
    }
  }

  /** The unrounded payment is the one and only level payment that leaves
      nothing owing after the last of the n monthly payments. */
  lemma PaymentRepaysLoan(t: Terms, p: real)
    requires ValidTerms(t) && t.years >= 1
    ensures Balance(t.amount, MonthlyRate(t.rate), p, PaymentCount(t.years)) == 0.0
        <==> p == ExactPayment(t)
  {
    var n := PaymentCount(t.years);
    if t.rate == 0.0 {
      BalanceInterestFree(t.amount, p, n);
      QuotientUnique(t.amount, n as real, p);
    } else {
      AnnuityRepaysLoan(t.amount, MonthlyRate(t.rate), n, p);
    }
  }

  /** The annuity branch of PaymentRepaysLoan. */
  lemma AnnuityRepaysLoan(amount: real, r: real, n: nat, p: real)
    requires r > 0.0 && n >= 1
    ensures Balance(amount, r, p, n) == 0.0 <==> p == AnnuityPayment(amount, r, n)
  {
    AnnuityEquation(amount, r, n);
    BalanceClosedForm(amount, r, p, n);
    ZeroBalanceUnique(amount, r, Pow(1.0 + r, n), p, Balance(amount, r, p, n),
                      AnnuityPayment(amount, r, n));
  }

  /** Over plain reals: with b * r == A * r * g - p * (g - 1), r > 0 and
      g > 1, the balance b is zero exactly when p is the q that solves
      q * (g - 1) == A * r * g. */
  lemma ZeroBalanceUnique(amount: real, r: real, g: real, p: real, b: real, q: real)
    requires r > 0.0 && g > 1.0
    requires ClosedForm(amount, r, p, b, g)
    requires q * (g - 1.0) == amount * r * g
    ensures b == 0.0 <==> p == q
  {
    if b != 0.0 {
      ProductNonZero(b, r);
    }
    if p != q {
      assert p * (g - 1.0) - q * (g - 1.0) == (p - q) * (g - 1.0);
      ProductNonZero(p - q, g - 1.0);
    }
  }

  /** Over plain reals: p is a / d exactly when d * p == a, for d != 0. */
  lemma QuotientUnique(a: real, d: real, p: real)
    requires d != 0.0
    ensures a - d * p == 0.0 <==> p == a / d
    ensures a - p * d == 0.0 <==> p == a / d
  {
  }

  /** Interest is never negative: the n unrounded payments add up to at
      least the principal. */
  lemma InterestNonNegative(t: Terms)
    requires ValidTerms(t) && t.years >= 1
    ensures ExactPayment(t) * PaymentCount(t.years) as real >= t.amount
  {
    var n := PaymentCount(t.years);
    if t.rate > 0.0 {
      var r := MonthlyRate(t.rate);
      var g := Pow(1.0 + r, n);
      AnnuityEquation(t.amount, r, n);
      PowGrowthBound(1.0 + r, n);
      InterestBound(t.amount, r, g, n as real, ExactPayment(t));
    }
  }

  /** Over plain reals: if p * (g - 1) == A * r * g and g - 1 <= n * r * g
      with g > 1 and A >= 0, then n * p >= A. */
  lemma InterestBound(amount: real, r: real, g: real, n: real, p: real)
    requires amount >= 0.0 && g > 1.0
    requires p * (g - 1.0) == amount * r * g
    requires g - 1.0 <= n * (1.0 + r - 1.0) * g
    ensures p * n >= amount
  {
    assert n * (1.0 + r - 1.0) * g == n * r * g;
    ScaleMonotone(amount, g - 1.0, n * r * g);
    assert (p * n) * (g - 1.0) == n * (amount * r * g);
    assert (p * n) * (g - 1.0) >= amount * (g - 1.0);
    if p * n < amount {
      ScaleMonotone(g - 1.0, p * n, amount);
      assert false;
    }
  }
}

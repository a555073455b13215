# Mortgage calculator: a Dafny model of the `Mortgage` calculation

The Android app computes the monthly and total payment of a fixed-rate
loan from three inputs: the principal (`amount`), the term in whole years
(`years`) and the annual rate as a decimal fraction (`rate`). All of its
logic is in the `Mortgage` class of `MainActivity.kt`. `MortgageViewModel`
passes input to it, and the rate text field filters keystrokes with a
regular expression. The rest of the file is Compose UI.

The model has five modules, one file each:

- `numerics.dfy` (`Numerics`): the Kotlin and JVM arithmetic the
  calculation uses. `Int` is the subset type `Int32`, and `Wrap32` gives
  its wrap-around. `Float.pow` with a whole exponent is `Pow`.
  `Math.round(Float)` is `JavaRound`: nearest integer, ties upward,
  saturating at the `Int` range. `Float` is `real` everywhere outside
  `SinglePrecision`.
- `amortisation.dfy` (`Amortisation`): `monthlyPayment`,
  `roundToTwoDecimalPlaces` and `totalPayment` as functions of the stored
  inputs (`Terms`). They are checked against an independent reference: the
  balance of a loan that accrues monthly interest and is reduced by one
  payment each month. The unrounded payment is proved to be the only level
  payment that brings this balance to zero after `years * 12` months.
- `mortgage.dfy` (`MortgageCalc`): the `Mortgage` class, with its three
  private fields, its `init` block, its guarded setters and its getters.
  Also `MortgageViewModel`, with `setYears` and `updateMortgage`. The
  functions `WithAmount`, `WithYears`, `WithRate` and `Update` say what
  each setter does to the stored values, and each method is proved to do
  exactly that. A lemma over any sequence of calls shows that no field ever
  becomes negative.
- `single_precision.dfy` (`SinglePrecision`): the annuity branch of
  `monthlyPayment` with two traits of `Float`. The first is overflow: a
  value past the largest `Float` becomes +Infinity, infinity over infinity
  is NaN, and `Math.round` maps NaN to 0 and +Infinity to `Int.MAX_VALUE`.
  The second is absorption: a monthly rate of at most 2^-24 vanishes in
  `1 + mRate`, so `temp` is 1 and line 66 divides by zero. Other `Float`
  rounding is not modelled. With neither trait, the branch is the exact
  payment rounded as written. With overflow it returns 0 or the saturated
  value, and a rate of 3.5 over 30 years is proved to overflow. With
  absorption it returns the saturated value, or 0 for a zero amount.
- `rate_field.dfy` (`RateField`): the `onValueChange` filter of the
  interest-rate field. It accepts an empty text or one that matches
  `^\.?\d*\.?\d*$` in full. Android's regular expressions are ICU's, where
  `\d` is any Unicode decimal digit (general category Nd), not only `0`-`9`. The greedy matcher is proved equal to the
  regular expression's meaning (some split into optional dot, digits,
  optional dot, digits). The accepted texts are then described exactly.

Two details of the source decide what the model states:

- `monthlyPayment` rounds only the annuity branch to cents. The zero-rate
  branch returns `amount / n` unrounded (MainActivity.kt:61-62).
- `Math.round` breaks ties toward positive infinity (MainActivity.kt:71).
  `roundToTwoDecimalPlaces` therefore rounds a value halfway between two
  cents up.

`Math.round` saturates at `Int.MAX_VALUE`, so the largest value the
rounding can return is `Int.MAX_VALUE / 100`. Over the reals that is
21474836.47, the figure used below; stored as a `Float`, whose neighbouring
values are 2 apart at that size, it is 21474836.0.

The annuity formula is written `(amount * r) * (g / (g - 1))`. The source
writes `amount * r * g / (g - 1)`. The two are equal over the reals, and
the first grouping is the one the verifier unfolds reliably.

## Model

| member | source | states |
|---|---|---|
| `Numerics.Wrap32` | app/src/main/java/com/example/mortagecalc/MainActivity.kt:59 | a 32-bit `Int` result is congruent to the exact value modulo 2^32 and equals it when the exact value is in range |
| `Numerics.Pow` | app/src/main/java/com/example/mortagecalc/MainActivity.kt:65 | `(1 + r)^n` is positive for a positive base and at least one for a base of at least one |
| `Numerics.PowAboveOne` | app/src/main/java/com/example/mortagecalc/MainActivity.kt:65-66 | for r > 0 and n >= 1, `(1 + r)^n > 1`, so the denominator `temp - 1` is positive |
| `Numerics.PowGrowthBound` | app/src/main/java/com/example/mortagecalc/MainActivity.kt:65 | x^n - 1 <= n(x - 1)x^n for x >= 1; this is the bound behind non-negative interest |
| `Numerics.PowBernoulli` | app/src/main/java/com/example/mortagecalc/MainActivity.kt:65-66 | Bernoulli's inequality x^n >= 1 + n(x - 1) for x >= 1, which bounds `temp - 1` from below |
| `Numerics.PowAdd` | app/src/main/java/com/example/mortagecalc/MainActivity.kt:65 | x^(a+b) = x^a * x^b, the step behind the overflow bound at rate 3.5 |
| `Numerics.RoundHalfUp` | app/src/main/java/com/example/mortagecalc/MainActivity.kt:71 | the result is the integer in (v - 0.5, v + 0.5]: nearest, with ties upward |
| `Numerics.RoundHalfUpUnique` | app/src/main/java/com/example/mortagecalc/MainActivity.kt:71 | that integer is unique |
| `Numerics.JavaRound` | app/src/main/java/com/example/mortagecalc/MainActivity.kt:71 | `Math.round`: nearest `Int` with ties upward when in range, `Int.MAX_VALUE` or `Int.MIN_VALUE` beyond it |
| `Amortisation.MonthlyRate` | app/src/main/java/com/example/mortagecalc/MainActivity.kt:58 | the monthly rate times 12 is the annual rate, and it is positive when the annual rate is |
| `Amortisation.PaymentCountAsWritten` | app/src/main/java/com/example/mortagecalc/MainActivity.kt:59 | `years * 12` in `Int` arithmetic equals the exact product for years up to `Int.MAX_VALUE / 12` |
| `Amortisation.PaymentCountWrapsToZero` | app/src/main/java/com/example/mortagecalc/MainActivity.kt:59 | for years = 2^30, `years * 12` wraps to 0 |
| `Amortisation.PaymentCount` | app/src/main/java/com/example/mortagecalc/MainActivity.kt:59 | twelve payments per year: at least 12 for a term of at least one year; agrees with the `Int` product where that does not overflow |
| `Amortisation.ZeroTermDividesByZero` | app/src/main/java/com/example/mortagecalc/MainActivity.kt:58-66 | with years = 0 there are no payments and `temp - 1` is 0, so both branches divide by zero |
| `Amortisation.RoundToTwoDecimalPlacesAsWritten` | app/src/main/java/com/example/mortagecalc/MainActivity.kt:70-72 | a whole number of cents, never above 21474836.47; equal to the intended rounding while `Math.round` does not saturate |
| `Amortisation.RoundAsWrittenSaturates` | app/src/main/java/com/example/mortagecalc/MainActivity.kt:70-72 | a value of 30000000 comes back as 21474836.47 |
| `Amortisation.RoundToTwoDecimalPlaces` | app/src/main/java/com/example/mortagecalc/MainActivity.kt:70-72 | the result is a whole number of cents within (v - 0.005, v + 0.005] and is non-negative for non-negative v |
| `Amortisation.RoundToCentsUnique` | app/src/main/java/com/example/mortagecalc/MainActivity.kt:70-72 | that whole number of cents is unique, so a value halfway between two cents rounds up |
| `Amortisation.AnnuityPayment` | app/src/main/java/com/example/mortagecalc/MainActivity.kt:64-66 | the annuity formula is defined for r > 0 and n >= 1 and, for a non-negative amount, is at least one month's interest `amount * r`, so non-negative, and at most that interest plus `amount / n` |
| `Amortisation.AnnuityEquation` | app/src/main/java/com/example/mortagecalc/MainActivity.kt:64-66 | the annuity payment p solves p(g - 1) = amount * r * g with g = (1 + r)^n > 1 |
| `Amortisation.ExactPayment` | app/src/main/java/com/example/mortagecalc/MainActivity.kt:61-66 | the unrounded payment of either branch: non-negative; at rate 0, times n it gives the principal; at a positive rate, at least the first month's interest; in both, at most that interest plus an n-th of the principal |
| `Amortisation.MonthlyPayment` | app/src/main/java/com/example/mortagecalc/MainActivity.kt:57-69 | non-negative; at rate 0 it is unrounded and times n gives the principal exactly; at a positive rate it is a whole number of cents, within half a cent of the exact level payment and so not below the first month's interest less half a cent |
| `Amortisation.TotalPayment` | app/src/main/java/com/example/mortagecalc/MainActivity.kt:79-81 | at rate 0 it equals the principal; at a positive rate it is at least the principal minus half a cent per payment; never negative |
| `Amortisation.RoundedTotalNearPrincipal` | app/src/main/java/com/example/mortagecalc/MainActivity.kt:79-81 | n payments of the rounded monthly payment equal the principal at rate 0, fall short of it by at most half a cent per payment at a positive rate, and are never negative |
| `Amortisation.BalanceClosedForm` | app/src/main/java/com/example/mortagecalc/MainActivity.kt:64-66 | after k payments of p the balance B satisfies B * r = amount * r * g_k - p(g_k - 1) |
| `Amortisation.BalanceInterestFree` | app/src/main/java/com/example/mortagecalc/MainActivity.kt:61-62 | with no interest, k payments of p leave amount - k * p |
| `Amortisation.AnnuityRepaysLoan` | app/src/main/java/com/example/mortagecalc/MainActivity.kt:63-66 | the balance after n payments is zero if and only if the payment is the annuity formula |
| `Amortisation.PaymentRepaysLoan` | app/src/main/java/com/example/mortagecalc/MainActivity.kt:57-66 | for both branches, a level payment clears the loan after `years * 12` months if and only if it is the unrounded monthly payment |
| `Amortisation.InterestNonNegative` | app/src/main/java/com/example/mortagecalc/MainActivity.kt:57-66 | the n unrounded payments add up to at least the principal |
| `MortgageCalc.WithAmount` | app/src/main/java/com/example/mortagecalc/MainActivity.kt:41-43 | a negative amount changes nothing; otherwise the amount is stored; years and rate never change; validity is kept |
| `MortgageCalc.WithYears` | app/src/main/java/com/example/mortagecalc/MainActivity.kt:45-47 | a negative term changes nothing; otherwise the term is stored; amount and rate never change; validity is kept |
| `MortgageCalc.WithRate` | app/src/main/java/com/example/mortagecalc/MainActivity.kt:49-51 | a negative rate changes nothing; otherwise the rate is stored; amount and years never change; validity is kept |
| `MortgageCalc.Update` | app/src/main/java/com/example/mortagecalc/MainActivity.kt:100-104 | each field takes its new value exactly when that value is non-negative, whatever the other two are; validity is kept |
| `MortgageCalc.Initial` | app/src/main/java/com/example/mortagecalc/MainActivity.kt:31-39 | the initialisers followed by the three setters give amount 100000, years 30 and rate 0.035, all valid |
| `MortgageCalc.SetterAcceptsWrappingTerm` | app/src/main/java/com/example/mortagecalc/MainActivity.kt:45-59 | the years setter stores a term of 2^30 years, whose payment count `years * 12` wraps to 0 |
| `MortgageCalc.CallsKeepValid` | app/src/main/java/com/example/mortagecalc/MainActivity.kt:41-51 | from a valid state, any sequence of setter and `updateMortgage` calls leaves every field non-negative |
| `MortgageCalc.EveryReachableStateValid` | app/src/main/java/com/example/mortagecalc/MainActivity.kt:31-51 | from construction, through any sequence of calls, every field stays non-negative |
| `MortgageCalc.RejectedCallsChangeNothing` | app/src/main/java/com/example/mortagecalc/MainActivity.kt:41-51 | a sequence of calls whose every argument is negative leaves the state unchanged |
| `MortgageCalc.Mortgage.constructor` | app/src/main/java/com/example/mortagecalc/MainActivity.kt:31-54 | a new `Mortgage` is valid, and its getters report 100000, 30 and 0.035 |
| `MortgageCalc.Mortgage.SetAmount` | app/src/main/java/com/example/mortagecalc/MainActivity.kt:41-43 | the fields afterwards are `WithAmount` of the fields before; validity is kept |
| `MortgageCalc.Mortgage.SetYears` | app/src/main/java/com/example/mortagecalc/MainActivity.kt:45-47 | the fields afterwards are `WithYears` of the fields before; validity is kept |
| `MortgageCalc.Mortgage.SetRate` | app/src/main/java/com/example/mortagecalc/MainActivity.kt:49-51 | the fields afterwards are `WithRate` of the fields before; validity is kept |
| `MortgageCalc.Mortgage.GetAmount` | app/src/main/java/com/example/mortagecalc/MainActivity.kt:52 | returns the stored amount, which is non-negative in a valid state |
| `MortgageCalc.Mortgage.GetYears` | app/src/main/java/com/example/mortagecalc/MainActivity.kt:53 | returns the stored term, which is non-negative in a valid state |
| `MortgageCalc.Mortgage.GetRate` | app/src/main/java/com/example/mortagecalc/MainActivity.kt:54 | returns the stored rate, which is non-negative in a valid state |
| `MortgageCalc.Mortgage.MonthlyPayment` | app/src/main/java/com/example/mortagecalc/MainActivity.kt:57-69 | reads the fields without changing them; at rate 0, payment times `years * 12` is the amount; at a positive rate, a whole number of cents |
| `MortgageCalc.Mortgage.TotalPayment` | app/src/main/java/com/example/mortagecalc/MainActivity.kt:79-81 | the already rounded monthly payment times `years * 12`; at rate 0 it equals the amount; changes no field |
| `MortgageCalc.MortgageViewModel.constructor` | app/src/main/java/com/example/mortagecalc/MainActivity.kt:89-90 | owns a fresh `Mortgage` holding the defaults |
| `MortgageCalc.MortgageViewModel.SetYears` | app/src/main/java/com/example/mortagecalc/MainActivity.kt:96-98 | the mortgage's fields afterwards are `WithYears` of the fields before |
| `MortgageCalc.MortgageViewModel.UpdateMortgage` | app/src/main/java/com/example/mortagecalc/MainActivity.kt:100-104 | the mortgage's fields afterwards are `Update` of the fields before, so every valid argument is stored; validity is kept |
| `RateField.DigitRunEnd` | app/src/main/java/com/example/mortagecalc/MainActivity.kt:290 | `\d*` stops at the end of the longest run of digits |
| `RateField.DotEnd` | app/src/main/java/com/example/mortagecalc/MainActivity.kt:290 | `\.?` takes a dot exactly when one is there |
| `RateField.MatchesRatePattern` | app/src/main/java/com/example/mortagecalc/MainActivity.kt:290 | when the greedy matcher accepts, its dot, digit, dot and digit runs split the whole text |
| `RateField.AcceptsRateText` | app/src/main/java/com/example/mortagecalc/MainActivity.kt:290 | a new value is accepted if and only if it is empty or matches the regular expression |
| `RateField.ArabicIndicDigitsAccepted` | app/src/main/java/com/example/mortagecalc/MainActivity.kt:290 | `\d` takes non-ASCII decimal digits: the Arabic-Indic text "٣.٥" is accepted |
| `RateField.OnRateValueChange` | app/src/main/java/com/example/mortagecalc/MainActivity.kt:289-292 | the field's text becomes the new value if it is accepted and otherwise stays as it was |
| `RateField.MatcherIsRegex` | app/src/main/java/com/example/mortagecalc/MainActivity.kt:290 | the greedy matcher accepts exactly the texts that split into an optional dot, digits, an optional dot and digits |
| `RateField.AcceptedRateText` | app/src/main/java/com/example/mortagecalc/MainActivity.kt:289-292 | an accepted text has only digits and dots, at most two dots, and a second dot only after a leading one |
| `RateField.RateTextAcceptedIff` | app/src/main/java/com/example/mortagecalc/MainActivity.kt:289-292 | a text is accepted if and only if it has only digits and dots, with at most one dot or with two dots of which the first leads |
| `SinglePrecision.OnePlus` | app/src/main/java/com/example/mortagecalc/MainActivity.kt:65 | `1 + mRate` in `Float` is exactly 1 if and only if the monthly rate is at most 2^-24 |
| `SinglePrecision.TempInFloat` | app/src/main/java/com/example/mortagecalc/MainActivity.kt:65 | `temp` is 1 when the monthly rate is absorbed and the exact growth factor otherwise |
| `SinglePrecision.FloatAgreesWithoutOverflow` | app/src/main/java/com/example/mortagecalc/MainActivity.kt:64-72 | while the monthly rate is not absorbed and neither `temp` nor `amount * mRate * temp` reaches the `Float` overflow threshold, the branch in `Float` equals the exact payment rounded as written |
| `SinglePrecision.GrowthOverflowGivesZero` | app/src/main/java/com/example/mortagecalc/MainActivity.kt:64-72 | when `temp` overflows to +Infinity, the quotient is NaN and the payment is 0 |
| `SinglePrecision.NumeratorOverflowSaturates` | app/src/main/java/com/example/mortagecalc/MainActivity.kt:64-72 | when only `amount * mRate * temp` overflows, the quotient is +Infinity and the payment is `Int.MAX_VALUE / 100` |
| `SinglePrecision.AbsorbedRateSaturates` | app/src/main/java/com/example/mortagecalc/MainActivity.kt:64-72 | when the monthly rate is absorbed, `temp - 1` is 0 and the payment is `Int.MAX_VALUE / 100`, or 0 when the amount is 0 |
| `SinglePrecision.GrowthOverflowsAtRate350` | app/src/main/java/com/example/mortagecalc/MainActivity.kt:65 | at rate 3.5 over 30 years, (1 + 3.5/12)^360 reaches the overflow threshold |
| `SinglePrecision.ZeroPaymentAtRate350` | app/src/main/java/com/example/mortagecalc/MainActivity.kt:64-72 | for 100000 at rate 3.5 over 30 years the branch in `Float` returns 0, while the exact model's payment exceeds 29166 |
| `SinglePrecision.PaymentAtMostInterestPlusShare` | app/src/main/java/com/example/mortagecalc/MainActivity.kt:57-72 | the rounded monthly payment is at most one month's interest plus an n-th of the principal plus half a cent |
| `SinglePrecision.PaymentBelow300AtTinyRate` | app/src/main/java/com/example/mortagecalc/MainActivity.kt:57-72 | for 100000 at rate 0.0000001 over 30 years the exact model's payment is below 300 |
| `SinglePrecision.SaturatedPaymentAtTinyRate` | app/src/main/java/com/example/mortagecalc/MainActivity.kt:64-72 | for 100000 at rate 0.0000001 over 30 years the branch in `Float` returns `Int.MAX_VALUE / 100`, while the exact model's payment is below 300 |

## Findings

| source | as written | input that shows it | evidently intended | confidence | as-written member | corrected member |
|---|---|---|---|---|---|---|
| app/src/main/java/com/example/mortagecalc/MainActivity.kt:59 | `years * 12` is evaluated in 32-bit `Int` and wraps | `setYears(1073741824)` is accepted and gives a payment count of 0, so `monthlyPayment` divides by zero although years >= 1 | twelve payments per year for every term the setter accepts | low, not executed; the input screen only passes 10, 15 or 30 | `Amortisation.PaymentCountWrapsToZero` | `Amortisation.PaymentCount` |
| app/src/main/java/com/example/mortagecalc/MainActivity.kt:71 | `Math.round(value * 100)` returns an `Int` and saturates at `Int.MAX_VALUE` | an unrounded monthly payment of 30000000 (for example an amount of 10^10 at 3.5% over 30 years, about 4.5 * 10^7 a month) comes back as 21474836.47 | rounding to the nearest cent at any size | medium, not executed; the amount field accepts any number | `Amortisation.RoundAsWrittenSaturates` | `Amortisation.RoundToTwoDecimalPlaces` |
| app/src/main/java/com/example/mortagecalc/MainActivity.kt:65-66 | `temp = (1 + mRate).pow(n)` overflows to +Infinity in `Float`, and line 66 then divides +Infinity by +Infinity | an amount of 100000 at rate 3.5 over 30 years, which the rate field accepts: `temp` is about 1.03 * 10^40, the quotient is NaN and the monthly payment is 0.0 | a payment of at least the first month's interest, about 29166.67 | high, not executed; the Done button passes the typed rate to `updateMortgage` unscaled (MainActivity.kt:317-319), so typing 3.5 for 3.5% gives rate 3.5 | `SinglePrecision.ZeroPaymentAtRate350` | `Amortisation.MonthlyPayment` |
| app/src/main/java/com/example/mortagecalc/MainActivity.kt:65-66 | `1 + mRate` is summed in `Float`, where a monthly rate of at most 2^-24 is lost, so `temp` is 1 and line 66 divides by `temp - 1` = 0 | an amount of 100000 at rate 0.0000001 over 30 years, which the rate field accepts: the quotient is +Infinity and the monthly payment is `Int.MAX_VALUE / 100` (21474836.0 as a `Float`); the same happens for every positive rate up to 12 * 2^-24, about 7.15 * 10^-7 | a payment near 100000 / 360, about 277.78 | medium, not executed; such rates are typed only by mistake, but nothing rejects them | `SinglePrecision.SaturatedPaymentAtTinyRate` | `Amortisation.MonthlyPayment` |

## Left out

- `Amortisation.MonthlyPayment`: requires years >= 1. With years = 0 the source's `Float` arithmetic does not fail. At rate 0, `amount / 0` gives +Infinity, or NaN when the amount is 0. At a positive rate, `temp - 1` is 0, so the quotient is +Infinity, or NaN when the amount is 0. `roundToTwoDecimalPlaces` then maps +Infinity to 21474836.47 and NaN to 0.0, so that branch returns a finite value. `real` has no infinity or NaN, so none of this is modelled. `Amortisation.ZeroTermDividesByZero` states the two zero divisors instead.
- `Amortisation.MonthlyPayment`: uses the corrected payment count and the corrected rounding recorded under "## Findings". For years above 178956970, and for annuity payments of 21474836.475 or more, the source's result differs from the model's.
- `Amortisation.MonthlyPayment`: computes over `real`, so it has no `Float` overflow. In the source, once `(1 + mRate).pow(n)` reaches the largest `Float`, `temp` is +Infinity, the quotient is NaN and the payment is 0.0 (rate 3.5 over 30 years). Once only the product `amount * mRate * temp` overflows, the quotient is +Infinity and the payment is the saturated `Int.MAX_VALUE / 100` (rate 3.0 over 30 years with an amount of 100000). `SinglePrecision` models both cases and the third row of "## Findings" records the first. For a monthly rate of at most 2^-24 (annual rates up to 12 * 2^-24, about 7.15 * 10^-7), `1 + mRate` is 1 in `Float`, `temp - 1` is 0 and the source returns `Int.MAX_VALUE / 100`, or 0 for a zero amount. `SinglePrecision.AbsorbedRateSaturates` models this and the fourth row of "## Findings" records it. Just above that bound the sum `1 + mRate` is still rounded, and the cancellation in `temp - 1` changes the payment by a large factor: at first `1 + mRate` is 1 + 2^-23, about twice the true rate, so the payment is about half the exact one. This rounding is not modelled.
- `SinglePrecision.FloatAgreesWithoutOverflow`: its `Float` keeps finite values exact, so its agreement with the exact payment holds in the model but not in the source for every input it admits. The source also rounds `1 + mRate` and cancels digits in `temp - 1`. Just above the absorbed rates this moves the payment far from the exact one: at a monthly rate a little above 2^-24 the sum is 1 + 2^-23, and the payment is about half the exact one. Elsewhere it moves the payment by small amounts.
- `MortgageCalc.Mortgage.SetAmount`: takes a `real`, so it cannot receive +Infinity. In the source an amount typed as `Infinity` or `1e39` parses to +Infinity, which the setter stores because it is not negative. Parsing is not modelled.
- `Amortisation.TotalPayment`: requires years >= 1. With years = 0 the source multiplies the monthly payment by 0. That gives NaN at rate 0, because the monthly payment is +Infinity or NaN there. At a positive rate it gives 0.0. None of this is modelled.
- `Amortisation.TotalPayment`: uses the corrected payment count and the corrected rounding recorded under "## Findings", as `Amortisation.MonthlyPayment` does.
- `MortgageCalc.Mortgage.MonthlyPayment`: requires years >= 1, for the reasons given for `Amortisation.MonthlyPayment`.
- `MortgageCalc.Mortgage.MonthlyPayment`: uses the corrected payment count and the corrected rounding recorded under "## Findings", through `Amortisation.MonthlyPayment`.
- `MortgageCalc.Mortgage.TotalPayment`: requires years >= 1, for the reasons given for `Amortisation.TotalPayment`.
- `MortgageCalc.Mortgage.TotalPayment`: uses the corrected payment count and the corrected rounding recorded under "## Findings", through `Amortisation.TotalPayment`.
- `Numerics.JavaRound`: does not model NaN, which `Math.round` maps to 0, because `real` has no NaN.
- Single-precision `Float` rounding is not modelled. This covers the rounding of `1 + mRate`, of `pow`, of the products, of the difference `temp - 1` and of the quotients, and the exact comparison `rate == 0f` on inexact values. All of it is computed exactly over `real`. Overflow to +Infinity and the NaN that follows, and the absorption of a monthly rate of at most 2^-24 into `1 + mRate`, are modelled for the annuity branch in `SinglePrecision`. They are not modelled for the zero-rate branch or for `totalPayment`.
- `RateField.IsDigit`: follows the decimal digits of Unicode 15.0. A device accepts the digits of its own ICU version, and a desktop JVM, whose `\d` is ASCII only, would accept only `0`-`9`. How `toFloatOrNull` treats the non-ASCII digits the field lets through is not modelled.
- `formattedMonthlyPayment`, `formattedTotalPayment` and the `MONEY` pattern `$#,##0.00` are not modelled. They rely on `java.text.DecimalFormat`, whose rounding mode the source does not set.
- The Done button's parsing with `toFloatOrNull`/`toIntOrNull` and its `?: 0` fallbacks is not modelled. It relies on the standard library's number parsing. The model starts from the parsed values that reach `updateMortgage`.
- The view model's `getMonthlyPayment`, `getTotalPayment`, `getAmount`, `getYears` and `getRate` are not modelled. They only pass values through.
- The Compose UI is not modelled: `CustomAppBar`, the layouts of `InputScreen` and `ResultsScreen`, the radio buttons, `MyApp`, navigation, `MainActivity` and the previews. None of it contains calculation logic.

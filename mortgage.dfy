/** The `Mortgage` object, whose three private fields are changed in place
    by guarded setters, and `MortgageViewModel`, which applies the three
    setters in turn. The pure functions on `Terms` say what each setter
    does; the classes are proved to do exactly that. */
module MortgageCalc {
  import opened Numerics
  import opened Amortisation

  // ---------------------------------------------------------------------
  // The setters as functions on the stored values

  /** `setAmount`: a negative amount is ignored. */
  function WithAmount(t: Terms, newAmount: real): (u: Terms)
    ensures newAmount < 0.0 ==> u == t
    ensures newAmount >= 0.0 ==> u.amount == newAmount
    ensures u.years == t.years && u.rate == t.rate
    ensures ValidTerms(t) ==> ValidTerms(u)
  {
    if newAmount >= 0.0 then t.(amount := newAmount) else t
  }

  /** `setYears`: a negative term is ignored. */
  function WithYears(t: Terms, newYears: Int32): (u: Terms)
    ensures newYears < 0 ==> u == t
    ensures newYears >= 0 ==> u.years == newYears
    ensures u.amount == t.amount && u.rate == t.rate
    ensures ValidTerms(t) ==> ValidTerms(u)
  {
    if newYears >= 0 then t.(years := newYears) else t
  }

  /** `setRate`: a negative rate is ignored. */
  function WithRate(t: Terms, newRate: real): (u: Terms)
    ensures newRate < 0.0 ==> u == t
    ensures newRate >= 0.0 ==> u.rate == newRate
    ensures u.amount == t.amount && u.years == t.years
    ensures ValidTerms(t) ==> ValidTerms(u)
  {
    if newRate >= 0.0 then t.(rate := newRate) else t
  }

  /** `updateMortgage`: the three setters one after another. Each guard
      acts on its own field only, so a rejected value does not stop the
      other two from being stored. */
  function Update(t: Terms, newAmount: real, newYears: Int32, newRate: real): (u: Terms)
    ensures u.amount == (if newAmount >= 0.0 then newAmount else t.amount)
    ensures u.years == (if newYears >= 0 then newYears else t.years)
    ensures u.rate == (if newRate >= 0.0 then newRate else t.rate)
    ensures ValidTerms(t) ==> ValidTerms(u)
  {
    WithRate(WithYears(WithAmount(t, newAmount), newYears), newRate)
  }

  /** The fields before the `init` block runs: Kotlin's initialisers. */
  const Uninitialised: Terms := Terms(0.0, 0, 0.0)

  /** What `init` stores through the setters. */
  const DefaultAmount: real := 100000.0
  const DefaultYears: Int32 := 30
  const DefaultRate: real := 0.035

  /** The `init` block: the initialisers, then the three setters with the
      defaults. Every default is accepted. */
  function Initial(): (t: Terms)
    ensures t == Terms(100000.0, 30, 0.035)
    ensures ValidTerms(t)
  {
    WithRate(WithYears(WithAmount(Uninitialised, DefaultAmount), DefaultYears), DefaultRate)
  }

  /** The years setter stores a term of 2^30 years, whose payment count
      `years * 12` wraps around to zero in `Int` arithmetic. */
  lemma SetterAcceptsWrappingTerm()
    ensures WithYears(Initial(), 0x4000_0000).years == 0x4000_0000
    ensures PaymentCountAsWritten(WithYears(Initial(), 0x4000_0000).years) == 0
  {
    PaymentCountWrapsToZero();
  }

  // ---------------------------------------------------------------------
  // Any sequence of calls keeps the fields non-negative

  /** A call that changes a `Mortgage`, directly or through the view model. */
  datatype Call =
    | SetAmount(newAmount: real)
    | SetYears(newYears: Int32)
    | SetRate(newRate: real)
    | UpdateMortgage(amount: real, years: Int32, rate: real)

  function Apply(t: Terms, c: Call): Terms {
    match c
    case SetAmount(a) => WithAmount(t, a)
    case SetYears(y) => WithYears(t, y)
    case SetRate(r) => WithRate(t, r)
    case UpdateMortgage(a, y, r) => Update(t, a, y, r)
  }

  /** The stored values after the calls `cs`, first to last. */
  function ApplyAll(t: Terms, cs: seq<Call>): Terms
    decreases |cs|
  {
    if cs == [] then t else ApplyAll(Apply(t, cs[0]), cs[1..])
  }

  /** Calls never make a field negative. */
  lemma {:induction false} CallsKeepValid(t: Terms, cs: seq<Call>)
    requires ValidTerms(t)
    ensures ValidTerms(ApplyAll(t, cs))
    decreases |cs|
  {
    if cs != [] {
      var u := Apply(t, cs[0]);
      assert ValidTerms(u);
      CallsKeepValid(u, cs[1..]);
    }
  }

  /** From construction through any sequence of calls, all three fields
      stay non-negative. */
  lemma EveryReachableStateValid(cs: seq<Call>)
    ensures ValidTerms(ApplyAll(Initial(), cs))
  {
    CallsKeepValid(Initial(), cs);
  }

  /** Calls that were all rejected leave the stored values as they were. */
  lemma {:induction false} RejectedCallsChangeNothing(t: Terms, cs: seq<Call>)
    requires forall i :: 0 <= i < |cs| ==> Rejected(cs[i])
    ensures ApplyAll(t, cs) == t
    decreases |cs|
  {
    if cs != [] {
      assert Apply(t, cs[0]) == t;
      RejectedCallsChangeNothing(t, cs[1..]);
    }
  }

  /** A call every one of whose arguments is negative. */
  predicate Rejected(c: Call) {
    match c
    case SetAmount(a) => a < 0.0
    case SetYears(y) => y < 0
    case SetRate(r) => r < 0.0
    case UpdateMortgage(a, y, r) => a < 0.0 && y < 0 && r < 0.0
  }

  // ---------------------------------------------------------------------
  // The classes

  /** `class Mortgage`. */
  class Mortgage {
    var amount: real
    var years: Int32
    var rate: real

    /** The three fields as a value. */
    function Current(): Terms
      reads this
    {
      Terms(amount, years, rate)
    }

    /** The class invariant: no field is negative. */
    ghost predicate Valid()
      reads this
    {
      ValidTerms(Current())
    }

    /** The initialisers and the `init` block. */
    constructor ()
      ensures Valid()
      ensures Current() == Initial()
      ensures GetAmount() == 100000.0 && GetYears() == 30 && GetRate() == 0.035
    {
      amount, years, rate := 0.0, 0, 0.0;
      new;
      SetAmount(DefaultAmount);
      SetYears(DefaultYears);
      SetRate(DefaultRate);
    }

    method SetAmount(newAmount: real)
      modifies this
      ensures Current() == WithAmount(old(Current()), newAmount)
      ensures old(Valid()) ==> Valid()
    {
      if newAmount >= 0.0 {
        amount := newAmount;
      }
    }

    method SetYears(newYears: Int32)
      modifies this
      ensures Current() == WithYears(old(Current()), newYears)
      ensures old(Valid()) ==> Valid()
    {
      if newYears >= 0 {
        years := newYears;
      }
    }

    method SetRate(newRate: real)
      modifies this
      ensures Current() == WithRate(old(Current()), newRate)
      ensures old(Valid()) ==> Valid()
    {
      if newRate >= 0.0 {
        rate := newRate;
      }
    }

    /** `getAmount()`: the stored principal, never negative. */
    function GetAmount(): (a: real)
      reads this
      ensures a == Current().amount
      ensures Valid() ==> a >= 0.0
    {
      amount
    }

    /** `getYears()`: the stored term, never negative. */
    function GetYears(): (y: Int32)
      reads this
      ensures y == Current().years
      ensures Valid() ==> y >= 0
    {
      years
    }

    /** `getRate()`: the stored annual rate, never negative. */
    function GetRate(): (r: real)
      reads this
      ensures r == Current().rate
      ensures Valid() ==> r >= 0.0
    {
      rate
    }

    /** `monthlyPayment()`: reads the fields, changes none. */
    function MonthlyPayment(): (p: real)
      reads this
      requires Valid() && years >= 1
      ensures p == Amortisation.MonthlyPayment(Current())
      ensures rate == 0.0 ==> p * (years * 12) as real == amount
      ensures rate > 0.0 ==> IsWholeCents(p)
    {
      Amortisation.MonthlyPayment(Current())
    }

    /** `totalPayment()`: reads the fields, changes none. */
    function TotalPayment(): (total: real)
      reads this
      requires Valid() && years >= 1
      ensures total == MonthlyPayment() * (years * 12) as real
      ensures rate == 0.0 ==> total == amount
    {
      Amortisation.TotalPayment(Current())
    }
  }

  /** `class MortgageViewModel`: owns one `Mortgage`. */
  class MortgageViewModel {
    const mortgage: Mortgage

    ghost predicate Valid()
      reads this, mortgage
    {
      mortgage.Valid()
    }

    constructor ()
      ensures Valid() && fresh(mortgage)
      ensures mortgage.Current() == Initial()
    {
      mortgage := new Mortgage();
    }

    /** `setYears`: passes the term on to the mortgage. */
    method SetYears(years: Int32)
      modifies mortgage
      ensures mortgage.Current() == WithYears(old(mortgage.Current()), years)
      ensures old(Valid()) ==> Valid()
    {
      mortgage.SetYears(years);
    }

    /** `updateMortgage`: the three guarded setters in turn. */
    method UpdateMortgage(amount: real, years: Int32, rate: real)
      modifies mortgage
      ensures mortgage.Current() == Update(old(mortgage.Current()), amount, years, rate)
      ensures old(Valid()) ==> Valid()
    {
      mortgage.SetAmount(amount);
      mortgage.SetYears(years);
      mortgage.SetRate(rate);
    }
  }
}

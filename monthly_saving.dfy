/** The monthly-saving calculator: the monthly deposit that reaches a goal in a number of months. */
module MonthlySaving {
  import opened Numbers
  import opened Growth
  import EtfSavings

  /**
   * Inputs for which the payment has a value: without interest the number of months is a divisor; with
   * interest it must be whole and the denominator `(1 + r)^months - 1` may not be zero.
   */
  predicate Computable(months: real, ratePercent: real)
  {
    var r := MonthlyRate(ratePercent);
    if r == 0.0 then months != 0.0
    else IsWholeNat(months) && Pow(1.0 + r, ToNat(months)) != 1.0
  }

  /** Without interest the deposits add up to the goal. */
  function RequiredPayment(goal: real, months: real, ratePercent: real): (pmt: real)
    requires Computable(months, ratePercent)
    ensures MonthlyRate(ratePercent) == 0.0 ==> pmt * months == goal
  {
    var r := MonthlyRate(ratePercent);
    if r == 0.0 then goal / months
    else goal * r / (Pow(1.0 + r, ToNat(months)) - 1.0)
  }

  /** With interest, the payment put into the future-value formula `pmt * ((1 + r)^n - 1) / r` gives back the goal. */
  lemma RequiredPaymentInvertsSeries(goal: real, months: real, ratePercent: real)
    requires Computable(months, ratePercent) && MonthlyRate(ratePercent) != 0.0
    ensures RequiredPayment(goal, months, ratePercent) * (Pow(1.0 + MonthlyRate(ratePercent), ToNat(months)) - 1.0) / MonthlyRate(ratePercent) == goal
  {
    var r := MonthlyRate(ratePercent);
    var d := Pow(1.0 + r, ToNat(months)) - 1.0;
    var pmt := RequiredPayment(goal, months, ratePercent);
    assert pmt * d == goal * r;
  }

  /** Depositing the payment at the end of every month reaches the goal exactly, with or without interest. */
  lemma RequiredPaymentReachesGoal(goal: real, months: real, ratePercent: real)
    requires Computable(months, ratePercent) && IsWholeNat(months)
    ensures Accumulate(0.0, 1.0 + MonthlyRate(ratePercent), RequiredPayment(goal, months, ratePercent), ToNat(months)) == goal
  {
    var r := MonthlyRate(ratePercent);
    var k := ToNat(months);
    var pmt := RequiredPayment(goal, months, ratePercent);
    if r == 0.0 {
      assert 1.0 + r == 1.0;
      AccumulateWithoutGrowth(0.0, pmt, k);
      assert pmt * months == goal;
    } else {
      RequiredPaymentInvertsSeries(goal, months, ratePercent);
      assert FutureValue(pmt, r, k) == goal;
      SeriesFromZero(r, pmt, k);
    }
  }

  /** Investing the required payment in the ETF calculator for the same months projects exactly the goal. */
  lemma RequiredPaymentThroughEtf(goal: real, years: real, returnPercent: real)
    requires EtfSavings.Computable(returnPercent, years)
    requires Computable(Months(years), returnPercent)
    ensures EtfSavings.Invest(RequiredPayment(goal, Months(years), returnPercent), returnPercent, years).fv == goal
  {
    RequiredPaymentInvertsSeries(goal, Months(years), returnPercent);
  }
}

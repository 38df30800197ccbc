/** The ETF savings calculator: a fixed monthly investment compounded monthly for a number of years. */
module EtfSavings {
  import opened Numbers
  import opened Growth
  import CompoundInterest

  datatype Accumulation = Accumulation(fv: real, totalInvested: real, totalGain: real)

  /** The monthly rate `r` is a divisor, so it may not be zero; the number of months must be whole. */
  predicate Computable(returnPercent: real, years: real)
  {
    MonthlyRate(returnPercent) != 0.0 && IsWholeNat(Months(years))
  }

  /** The future value of the monthly series, the amount paid in (one investment per month) and the gain. */
  function Invest(monthly: real, returnPercent: real, years: real): (out: Accumulation)
    requires Computable(returnPercent, years)
    ensures out.totalGain + out.totalInvested == out.fv
    ensures out.totalInvested == monthly * Months(years)
  {
    var r := MonthlyRate(returnPercent);
    var months := Months(years);
    var fv := FutureValue(monthly, r, ToNat(months));
    var totalInvested := monthly * months;
    Accumulation(fv, totalInvested, fv - totalInvested)
  }

  /** The future value is the balance after investing `monthly` at the end of each month, starting from nothing. */
  lemma InvestIsSimulation(monthly: real, returnPercent: real, years: real)
    requires Computable(returnPercent, years)
    ensures Invest(monthly, returnPercent, years).fv == Accumulate(0.0, 1.0 + MonthlyRate(returnPercent), monthly, ToNat(Months(years)))
  {
    assert Invest(monthly, returnPercent, years).fv == FutureValue(monthly, MonthlyRate(returnPercent), ToNat(Months(years)));
    SeriesFromZero(MonthlyRate(returnPercent), monthly, ToNat(Months(years)));
  }

  /** With a positive return and an investment that is not negative, the gain is never negative. */
  lemma InvestGainsWithPositiveReturn(monthly: real, returnPercent: real, years: real)
    requires Computable(returnPercent, years)
    requires 0.0 < returnPercent && 0.0 <= monthly
    ensures Invest(monthly, returnPercent, years).totalGain >= 0.0
  {
    InvestIsSimulation(monthly, returnPercent, years);
    AccumulateAtLeastDeposits(0.0, 1.0 + MonthlyRate(returnPercent), monthly, ToNat(Months(years)));
  }

  /**
   * The ETF calculator and the compound-interest calculator with monthly compounding and no principal
   * project the same final value.
   */
  lemma InvestAgreesWithMonthlyCompounding(monthly: real, returnPercent: real, years: real)
    requires Computable(returnPercent, years)
    ensures CompoundInterest.Computable(returnPercent, years, 12)
    ensures CompoundInterest.Compound(0.0, monthly, returnPercent, years, 12).total == Invest(monthly, returnPercent, years).fv
  {
    var r := MonthlyRate(returnPercent);
    var k := ToNat(Months(years));
    assert 12 as real * years == Months(years);
    assert ToNat(12 as real * years) == k;
    assert CompoundInterest.PeriodRate(returnPercent, 12) == r;
    var fv := FutureValue(monthly, r, k);
    assert CompoundInterest.Compound(0.0, monthly, returnPercent, years, 12).total == 0.0 * Pow(1.0 + r, k) + fv;
    ZeroPlus(Pow(1.0 + r, k), fv);
    assert Invest(monthly, returnPercent, years).fv == fv;
  }
}

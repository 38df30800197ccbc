/**
 * The compound-interest calculator: a principal and a regular contribution compounded `frequency`
 * times a year for `years` years.
 */
module CompoundInterest {
  import opened Numbers
  import opened Growth

  datatype Projection = Projection(total: real, totalInvested: real, totalInterest: real)

  /**
   * Inputs for which the formula has a value: the rate per period `r / n` is a divisor, so neither the
   * rate nor the frequency may be zero, and the number of periods `n * t` must be a whole number.
   */
  predicate Computable(ratePercent: real, years: real, frequency: int)
  {
    ratePercent != 0.0 && frequency != 0 && IsWholeNat(frequency as real * years)
  }

  /** The rate per compounding period, `r / n`. */
  function PeriodRate(ratePercent: real, frequency: int): real
    requires frequency != 0
  {
    Fraction(ratePercent) / frequency as real
  }

  /**
   * Future value of the principal plus the future value of a contribution paid every period,
   * the amount paid in (counting twelve contributions a year whatever the frequency), and the interest.
   */
  function Compound(principal: real, contribution: real, ratePercent: real, years: real, frequency: int): (out: Projection)
    requires Computable(ratePercent, years, frequency)
    ensures out.totalInterest + out.totalInvested == out.total
    ensures out.totalInvested == principal + 12.0 * contribution * years
  {
    var periodic := PeriodRate(ratePercent, frequency);
    var periods := ToNat(frequency as real * years);
    var fvPrincipal := principal * Pow(1.0 + periodic, periods);
    var fvSeries := FutureValue(contribution, periodic, periods);
    var total := fvPrincipal + fvSeries;
    var totalInvested := principal + contribution * 12.0 * years;
    Projection(total, totalInvested, total - totalInvested)
  }

  /**
   * The future value is the balance after `n * t` periods in which the balance grows by `r / n`
   * and then receives one contribution.
   */
  lemma CompoundIsSimulation(principal: real, contribution: real, ratePercent: real, years: real, frequency: int)
    requires Computable(ratePercent, years, frequency)
    ensures Compound(principal, contribution, ratePercent, years, frequency).total
         == Accumulate(principal, 1.0 + PeriodRate(ratePercent, frequency), contribution, ToNat(frequency as real * years))
  {
    SeriesFormula(principal, PeriodRate(ratePercent, frequency), contribution, ToNat(frequency as real * years));
  }

  /**
   * With monthly compounding the amount paid in counts exactly the contributions of the simulation, so with a
   * positive rate and amounts that are not negative the interest is never negative.
   */
  lemma MonthlyCompoundingEarnsInterest(principal: real, contribution: real, ratePercent: real, years: real)
    requires Computable(ratePercent, years, 12)
    requires 0.0 < ratePercent && 0.0 <= principal && 0.0 <= contribution
    ensures Compound(principal, contribution, ratePercent, years, 12).totalInvested
         == principal + ToNat(12.0 * years) as real * contribution
    ensures Compound(principal, contribution, ratePercent, years, 12).totalInterest >= 0.0
  {
    var periods := ToNat(12.0 * years);
    assert ToNat(12 as real * years) == periods;
    var out := Compound(principal, contribution, ratePercent, years, 12);
    assert periods as real * contribution == 12.0 * contribution * years;
    assert out.totalInvested == principal + periods as real * contribution;
    CompoundIsSimulation(principal, contribution, ratePercent, years, 12);
    assert 0.0 < PeriodRate(ratePercent, 12);
    AccumulateAtLeastDeposits(principal, 1.0 + PeriodRate(ratePercent, 12), contribution, periods);
    assert out.total >= principal + periods as real * contribution;
  }

  /**
   * With yearly compounding the formula pays in one contribution a year while the amount paid in counts twelve,
   * so the reported interest can be negative: 100 a period at 10% for one year gives a total of 100 against 1200 paid in.
   */
  lemma YearlyCompoundingUnderstatesInterest()
    ensures Compound(0.0, 100.0, 10.0, 1.0, 1) == Projection(100.0, 1200.0, -1100.0)
  {
    assert ToNat(1.0) == 1;
    assert Pow(1.1, 1) == 1.1;
  }
}

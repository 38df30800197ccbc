/** The net-salary calculator: salary after a flat tax rate, per year and per month. */
module NetSalary {
  import opened Numbers

  datatype Net = Net(annual: real, monthly: real)

  /** The net pay plus the tax withheld is the gross pay, and a month is a twelfth of the year. */
  function TakeHome(gross: real, taxPercent: real): (net: Net)
    ensures net.annual + gross * Fraction(taxPercent) == gross
    ensures net.monthly * 12.0 == net.annual
  {
    var netAnnual := gross * (1.0 - Fraction(taxPercent));
    Net(netAnnual, netAnnual / 12.0)
  }

  /** For a tax rate between 0% and 100% the net pay is between nothing and the gross pay. */
  lemma TakeHomeBounded(gross: real, taxPercent: real)
    requires 0.0 <= gross && 0.0 <= taxPercent <= 100.0
    ensures 0.0 <= TakeHome(gross, taxPercent).annual <= gross
    ensures 0.0 <= TakeHome(gross, taxPercent).monthly <= TakeHome(gross, taxPercent).annual
  {
    MulNonneg(gross, 1.0 - Fraction(taxPercent));
    MulNonneg(gross, Fraction(taxPercent));
  }
}

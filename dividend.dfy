/** The dividend calculator: yearly and monthly dividends of an investment at a dividend yield. */
module Dividend {
  import opened Numbers

  datatype Payout = Payout(annual: real, monthly: real)

  function Project(amount: real, yieldPercent: real): (p: Payout)
    ensures p.annual * 100.0 == amount * yieldPercent
    ensures p.monthly * 12.0 == p.annual
  {
    var annual := amount * Fraction(yieldPercent);
    Payout(annual, annual / 12.0)
  }

  /** Dividends are additive in the amount invested: two holdings pay what their sum pays. */
  lemma ProjectIsAdditive(a: real, b: real, yieldPercent: real)
    ensures Project(a + b, yieldPercent).annual == Project(a, yieldPercent).annual + Project(b, yieldPercent).annual
    ensures Project(a + b, yieldPercent).monthly == Project(a, yieldPercent).monthly + Project(b, yieldPercent).monthly
  {
    var y := Fraction(yieldPercent);
    assert (a + b) * y == a * y + b * y;
  }
}

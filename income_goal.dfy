/** The monthly-income-goal calculator: the capital whose yearly return pays a monthly income. */
module IncomeGoal {
  import opened Wrappers
  import opened Numbers

  /**
   * `goal * 12 / rate`; a return rate of zero makes the handler return without a result.
   */
  function RequiredCapital(monthlyGoal: real, returnPercent: real): (capital: Option<real>)
    ensures capital.None? <==> returnPercent == 0.0
    ensures capital.Some? ==> capital.value * Fraction(returnPercent) == monthlyGoal * 12.0
  {
    var rate := Fraction(returnPercent);
    if rate == 0.0 then None else Some((monthlyGoal * 12.0) / rate)
  }

  /** The required capital is the only capital whose yearly return at the given rate is twelve monthly goals. */
  lemma RequiredCapitalIsUnique(monthlyGoal: real, returnPercent: real, capital: real)
    requires returnPercent != 0.0
    ensures capital * Fraction(returnPercent) == monthlyGoal * 12.0 <==> RequiredCapital(monthlyGoal, returnPercent) == Some(capital)
  {
    var rate := Fraction(returnPercent);
    var c := RequiredCapital(monthlyGoal, returnPercent).value;
    if capital * rate == monthlyGoal * 12.0 {
      assert (capital - c) * rate == 0.0;
      assert capital - c == ((capital - c) * rate) / rate;
    }
  }
}

/**
 * The FIRE calculator: the portfolio that sustains yearly expenses at a withdrawal rate, and the years of
 * growth and saving it takes to get there, searched year by year up to a horizon of 100 years.
 */
module Fire {
  import opened Numbers
  import opened Growth

  /** The years shown: a count, or the message that the target is never reached without saving. */
  datatype YearsToFire = Years(count: nat) | Unbounded

  /** The year-by-year search stops after this many years. */
  const Horizon: nat := 100

  /** The target portfolio `expenses / withdrawalRate`: the portfolio whose withdrawal covers the expenses. */
  function FireNumber(expenses: real, withdrawalPercent: real): (target: real)
    requires withdrawalPercent != 0.0
    ensures target * Fraction(withdrawalPercent) == expenses
  {
    expenses / Fraction(withdrawalPercent)
  }

  /** Net worth after `years` years, each growing by the return rate and then adding the year's savings. */
  function NetWorthAfter(currentNetWorth: real, annualSavings: real, returnPercent: real, years: nat): real
  {
    Accumulate(currentNetWorth, 1.0 + Fraction(returnPercent), annualSavings, years)
  }

  /**
   * With positive savings the result is the first year in which net worth reaches the target, or the
   * horizon if no earlier year does; without positive savings it is 0 years when the target is already
   * met and the unbounded message otherwise.
   */
  method Project(expenses: real, currentNetWorth: real, annualSavings: real, returnPercent: real, withdrawalPercent: real)
    returns (fireNumber: real, yearsToFire: YearsToFire)
    requires withdrawalPercent != 0.0
    ensures fireNumber == FireNumber(expenses, withdrawalPercent)
    ensures annualSavings <= 0.0 ==> yearsToFire == if fireNumber <= currentNetWorth then Years(0) else Unbounded
    ensures 0.0 < annualSavings ==>
              && yearsToFire.Years?
              && yearsToFire.count <= Horizon
              && (yearsToFire.count == Horizon
                  || fireNumber <= NetWorthAfter(currentNetWorth, annualSavings, returnPercent, yearsToFire.count))
              && forall j :: 0 <= j < yearsToFire.count ==>
                   NetWorthAfter(currentNetWorth, annualSavings, returnPercent, j) < fireNumber
    ensures fireNumber <= currentNetWorth ==> yearsToFire == Years(0)
  {
    var returnRate := Fraction(returnPercent);
    fireNumber := expenses / Fraction(withdrawalPercent);
    var years: nat := 0;
    var netWorth := currentNetWorth;
    if annualSavings > 0.0 {
      while netWorth < fireNumber && years < Horizon
        invariant years <= Horizon
        invariant netWorth == NetWorthAfter(currentNetWorth, annualSavings, returnPercent, years)
        invariant forall j :: 0 <= j < years ==> NetWorthAfter(currentNetWorth, annualSavings, returnPercent, j) < fireNumber
        decreases Horizon - years
      {
        netWorth := netWorth * (1.0 + returnRate) + annualSavings;
        years := years + 1;
      }
      yearsToFire := Years(years);
    } else if netWorth >= fireNumber {
      yearsToFire := Years(0);
    } else {
      yearsToFire := Unbounded;
    }
  }

  /**
   * With a return that is not negative, a net worth that is not negative and positive savings, a target
   * within a hundred years of savings is reached by the horizon, so a count of 100 is then a real hit.
   */
  lemma TargetWithinSavingsIsReached(fireNumber: real, currentNetWorth: real, annualSavings: real, returnPercent: real)
    requires 0.0 <= returnPercent && 0.0 <= currentNetWorth && 0.0 < annualSavings
    requires fireNumber <= currentNetWorth + Horizon as real * annualSavings
    ensures fireNumber <= NetWorthAfter(currentNetWorth, annualSavings, returnPercent, Horizon)
  {
    AccumulateAtLeastDeposits(currentNetWorth, 1.0 + Fraction(returnPercent), annualSavings, Horizon);
  }

  /** Once reached, the target stays reached when returns and savings are not negative. */
  lemma {:induction false} TargetStaysReached(fireNumber: real, currentNetWorth: real, annualSavings: real, returnPercent: real, k: nat, j: nat)
    requires 0.0 <= returnPercent && 0.0 <= annualSavings && 0.0 <= fireNumber
    requires k <= j && fireNumber <= NetWorthAfter(currentNetWorth, annualSavings, returnPercent, k)
    ensures fireNumber <= NetWorthAfter(currentNetWorth, annualSavings, returnPercent, j)
  {
    if k < j {
      TargetStaysReached(fireNumber, currentNetWorth, annualSavings, returnPercent, k, j - 1);
      var w := NetWorthAfter(currentNetWorth, annualSavings, returnPercent, j - 1);
      MulNonneg(w, Fraction(returnPercent));
      assert w <= w * (1.0 + Fraction(returnPercent));
    }
  }
}

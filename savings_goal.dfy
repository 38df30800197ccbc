/**
 * The savings-goal calculator: how long a fixed monthly deposit takes to reach a goal, shown as whole
 * years plus remaining months and as a total month count.
 *
 * JavaScript's `Math.log` is not part of this model; the handler's logarithm is the parameter `ln`.
 */
module SavingsGoal {
  import opened Wrappers
  import opened Numbers
  import opened Growth

  /** The months to the goal, and the years, remaining months and total months the handler shows. */
  datatype Plan = Plan(months: real, years: int, remainingMonths: int, totalMonths: int)

  /** With interest the logarithm of the monthly growth factor is a divisor, so it may not be zero. */
  predicate Computable(pmt: real, ratePercent: real, ln: real -> real)
  {
    var r := MonthlyRate(ratePercent);
    pmt != 0.0 && r != 0.0 ==> ln(1.0 + r) != 0.0
  }

  /**
   * Years `floor(m / 12)`, remaining months `ceil(m % 12)` and total months `ceil(m)`: the whole years
   * are the last whole year not after the months, the total is the months rounded up, and the remaining
   * months round up the truncated remainder, so they lie from -11 to 12 and are not negative for months
   * that are not negative.
   */
  function Split(months: real): (plan: Plan)
    ensures plan.months == months
    ensures 12.0 * plan.years as real <= months < 12.0 * plan.years as real + 12.0
    ensures months <= plan.totalMonths as real < months + 1.0
    ensures JsRem(months, 12.0) <= plan.remainingMonths as real < JsRem(months, 12.0) + 1.0
    ensures -11 <= plan.remainingMonths <= 12
    ensures 0.0 <= months ==> 0 <= plan.remainingMonths
  {
    Plan(months, Floor(months / 12.0), Ceil(JsRem(months, 12.0)), Ceil(months))
  }

  /**
   * Without a monthly deposit the handler returns without a result. Without interest the deposits
   * alone must add up to the goal; with interest the months solve the future-value formula by logarithms.
   */
  function Solve(goal: real, pmt: real, ratePercent: real, ln: real -> real): (plan: Option<Plan>)
    requires Computable(pmt, ratePercent, ln)
    ensures plan.None? <==> pmt == 0.0
    ensures plan.Some? && MonthlyRate(ratePercent) == 0.0 ==> plan.value.months * pmt == goal
    ensures plan.Some? ==> plan.value == Split(plan.value.months)
  {
    if pmt == 0.0 then None else Some(Split(MonthsToGoal(goal, pmt, ratePercent, ln)))
  }

  /**
   * `goal / pmt` without interest, `ln(goal * r / pmt + 1) / ln(1 + r)` with interest. Without interest
   * the months of deposits add up to the goal; `MonthsToGoalWithInterest` states the interest case.
   */
  function MonthsToGoal(goal: real, pmt: real, ratePercent: real, ln: real -> real): (months: real)
    requires Computable(pmt, ratePercent, ln) && pmt != 0.0
    ensures MonthlyRate(ratePercent) == 0.0 ==> months * pmt == goal
  {
    var r := MonthlyRate(ratePercent);
    if r == 0.0 then goal / pmt else LogSolve(goal, pmt, r, ln)
  }

  /**
   * With interest, the months times the logarithm of the monthly growth factor is the logarithm of the
   * growth the goal needs, `goal * r / pmt + 1`.
   */
  lemma MonthsToGoalWithInterest(goal: real, pmt: real, ratePercent: real, ln: real -> real)
    requires Computable(pmt, ratePercent, ln) && pmt != 0.0 && MonthlyRate(ratePercent) != 0.0
    ensures MonthsToGoal(goal, pmt, ratePercent, ln) * ln(1.0 + MonthlyRate(ratePercent))
            == ln(goal * MonthlyRate(ratePercent) / pmt + 1.0)
  {
    var r := MonthlyRate(ratePercent);
    assert MonthsToGoal(goal, pmt, ratePercent, ln) == LogSolve(goal, pmt, r, ln);
    assert pmt != 0.0 && ln(1.0 + r) != 0.0;
    LogSolveSpec(goal, pmt, r, ln);
  }

  /** The equation `LogSolve` satisfies, stated for a call with given arguments. */
  lemma LogSolveSpec(goal: real, pmt: real, r: real, ln: real -> real)
    requires pmt != 0.0 && ln(1.0 + r) != 0.0
    ensures LogSolve(goal, pmt, r, ln) * ln(1.0 + r) == ln(goal * r / pmt + 1.0)
  {
  }

  /**
   * The months that solve `goal = pmt * ((1 + r)^n - 1) / r` for `n`, by logarithms: `n` times the
   * logarithm of the monthly growth factor is the logarithm of `goal * r / pmt + 1`.
   */
  function LogSolve(goal: real, pmt: real, r: real, ln: real -> real): (months: real)
    requires pmt != 0.0 && ln(1.0 + r) != 0.0
    ensures months * ln(1.0 + r) == ln(goal * r / pmt + 1.0)
  {
    ln(goal * r / pmt + 1.0) / ln(1.0 + r)
  }

  /**
   * For a month count that is not negative the split is consistent with the total: the whole years and
   * the remaining months add up to the rounded-up total, and the remaining months run from 0 to 12,
   * reaching 12 exactly when the months past the last whole year exceed 11.
   */
  lemma SplitAddsUp(months: real)
    requires 0.0 <= months
    ensures 0 <= Split(months).years
    ensures 0 <= Split(months).remainingMonths <= 12
    ensures Split(months).years * 12 + Split(months).remainingMonths == Split(months).totalMonths
    ensures Split(months).remainingMonths == 12 <==> 11.0 < months - 12.0 * Split(months).years as real
  {
    JsRemOfNonnegative(months, 12.0);
    var y := Floor(months / 12.0);
    var f := JsRem(months, 12.0);
    assert months == 12.0 * y as real + f;
    assert 0 <= y by {
      assert 0.0 <= months / 12.0;
    }
    var c := Ceil(f);
    assert Ceil(months) == 12 * y + c by {
      var total := 12 * y + c;
      assert months <= total as real < months + 1.0;
    }
  }

  /** 11.5 months is shown as 0 years and 12 months, not as 1 year and 0 months. */
  lemma SplitCanShowTwelveMonths()
    ensures Split(11.5) == Plan(11.5, 0, 12, 12)
  {
    SplitAddsUp(11.5);
    assert Floor(11.5 / 12.0) == 0;
  }

  /**
   * A month count that is negative (a negative goal saved toward without interest) is split with the
   * truncating `%`: -6 months show as -1 years and -6 months against a total of -6 months, so the years
   * and remaining months no longer add up to the total.
   */
  lemma SolveOfNegativeGoal(ln: real -> real)
    ensures Solve(-6.0, 1.0, 0.0, ln) == Some(Plan(-6.0, -1, -6, -6))
    ensures Split(-6.0).years * 12 + Split(-6.0).remainingMonths != Split(-6.0).totalMonths
  {
    assert MonthsToGoal(-6.0, 1.0, 0.0, ln) == -6.0;
    assert Floor(-6.0 / 12.0) == -1;
    assert Trunc(-6.0 / 12.0) == 0;
    assert JsRem(-6.0, 12.0) == -6.0;
  }

  /**
   * The solve inverts the future-value formula: if depositing `pmt` for `k` months reaches the goal exactly,
   * and (with interest) `ln` obeys the power rule `ln(b^k) = k * ln(b)` at the monthly growth factor,
   * the months come out as `k`.
   */
  lemma SolveInvertsSeries(goal: real, pmt: real, ratePercent: real, ln: real -> real, k: nat)
    requires Computable(pmt, ratePercent, ln) && pmt != 0.0
    requires goal == Accumulate(0.0, 1.0 + MonthlyRate(ratePercent), pmt, k)
    requires MonthlyRate(ratePercent) != 0.0 ==>
               ln(Pow(1.0 + MonthlyRate(ratePercent), k)) == k as real * ln(1.0 + MonthlyRate(ratePercent))
    ensures Solve(goal, pmt, ratePercent, ln) == Some(Split(k as real))
    ensures Split(k as real).totalMonths == k
  {
    MonthsToGoalOfSeries(goal, pmt, ratePercent, ln, k);
  }

  lemma MonthsToGoalOfSeries(goal: real, pmt: real, ratePercent: real, ln: real -> real, k: nat)
    requires Computable(pmt, ratePercent, ln) && pmt != 0.0
    requires goal == Accumulate(0.0, 1.0 + MonthlyRate(ratePercent), pmt, k)
    requires MonthlyRate(ratePercent) != 0.0 ==>
               ln(Pow(1.0 + MonthlyRate(ratePercent), k)) == k as real * ln(1.0 + MonthlyRate(ratePercent))
    ensures MonthsToGoal(goal, pmt, ratePercent, ln) == k as real
  {
    var r := MonthlyRate(ratePercent);
    if r == 0.0 {
      AccumulateWithoutGrowth(0.0, pmt, k);
      var m := goal / pmt;
      assert m * pmt == k as real * pmt;
      CancelFactor(m, k as real, pmt);
    } else {
      LogSolveMonths(goal, pmt, MonthlyRate(ratePercent), ln, k);
    }
  }

  lemma LogSolveMonths(goal: real, pmt: real, r: real, ln: real -> real, k: nat)
    requires pmt != 0.0 && r != 0.0 && ln(1.0 + r) != 0.0
    requires goal == Accumulate(0.0, 1.0 + r, pmt, k)
    requires ln(Pow(1.0 + r, k)) == k as real * ln(1.0 + r)
    ensures LogSolve(goal, pmt, r, ln) == k as real
  {
    var p := Pow(1.0 + r, k);
    AccumulateClosedForm(0.0, r, pmt, k);
    LogArgument(goal, pmt, r, p);
    LogRatio(goal, pmt, r, ln, k);
  }

  lemma LogRatio(goal: real, pmt: real, r: real, ln: real -> real, k: nat)
    requires pmt != 0.0 && ln(1.0 + r) != 0.0
    requires goal * r / pmt + 1.0 == Pow(1.0 + r, k)
    requires ln(Pow(1.0 + r, k)) == k as real * ln(1.0 + r)
    ensures LogSolve(goal, pmt, r, ln) == k as real
  {
    var l := ln(1.0 + r);
    var m := ln(goal * r / pmt + 1.0) / l;
    assert m * l == k as real * l;
    CancelFactor(m, k as real, l);
  }

  /** The argument of the logarithm is the growth factor over the whole period. */
  lemma LogArgument(goal: real, pmt: real, r: real, p: real)
    requires pmt != 0.0 && r * goal == pmt * (p - 1.0)
    ensures goal * r / pmt + 1.0 == p
  {
    var q := goal * r / pmt;
    assert q * pmt == goal * r;
    CancelFactor(q, p - 1.0, pmt);
  }
}

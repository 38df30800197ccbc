/**
 * The side-income calculator: the monthly ad views, sales and sales visitors needed for a monthly income
 * goal. Each estimate is computed and shown only when its own inputs are positive.
 */
module SideIncome {
  import opened Wrappers
  import opened Numbers

  datatype Targets = Targets(adViews: real, sales: real, salesTraffic: real)

  /** The rounded-up counts the handler shows; an estimate that was not computed is not shown. */
  datatype Report = Report(adViews: Option<int>, sales: Option<int>, salesTraffic: Option<int>)

  /** The sales estimate needs both a positive price and a positive conversion rate. */
  predicate SellsProduct(convPercent: real, price: real)
  {
    price > 0.0 && Fraction(convPercent) > 0.0
  }

  /**
   * Ad views earn `rpm` per thousand, so the views times the rpm are a thousand goals; sales times the price
   * are the goal, and visitors times the conversion rate are the sales. An estimate that is not computed stays 0.
   */
  function Plan(goal: real, rpm: real, convPercent: real, price: real): (t: Targets)
    ensures rpm > 0.0 ==> t.adViews * rpm == goal * 1000.0
    ensures rpm <= 0.0 ==> t.adViews == 0.0
    ensures SellsProduct(convPercent, price) ==> t.sales * price == goal && t.salesTraffic * Fraction(convPercent) == t.sales
    ensures !SellsProduct(convPercent, price) ==> t.sales == 0.0 && t.salesTraffic == 0.0
  {
    var convRate := Fraction(convPercent);
    var adViews := if rpm > 0.0 then (goal / rpm) * 1000.0 else 0.0;
    var sales := if price > 0.0 && convRate > 0.0 then goal / price else 0.0;
    var salesTraffic := if price > 0.0 && convRate > 0.0 then sales / convRate else 0.0;
    Targets(adViews, sales, salesTraffic)
  }

  /** Each shown count is the estimate rounded up, and is shown exactly when it was computed. */
  function Shown(goal: real, rpm: real, convPercent: real, price: real): (r: Report)
    ensures r.adViews.Some? <==> rpm > 0.0
    ensures r.sales.Some? <==> SellsProduct(convPercent, price)
    ensures r.salesTraffic.Some? <==> SellsProduct(convPercent, price)
    ensures r.adViews.Some? ==> Plan(goal, rpm, convPercent, price).adViews <= r.adViews.value as real < Plan(goal, rpm, convPercent, price).adViews + 1.0
    ensures r.sales.Some? ==> Plan(goal, rpm, convPercent, price).sales <= r.sales.value as real < Plan(goal, rpm, convPercent, price).sales + 1.0
    ensures r.salesTraffic.Some? ==> Plan(goal, rpm, convPercent, price).salesTraffic <= r.salesTraffic.value as real < Plan(goal, rpm, convPercent, price).salesTraffic + 1.0
  {
    var t := Plan(goal, rpm, convPercent, price);
    var sells := SellsProduct(convPercent, price);
    Report(if rpm > 0.0 then Some(Ceil(t.adViews)) else None,
           if sells then Some(Ceil(t.sales)) else None,
           if sells then Some(Ceil(t.salesTraffic)) else None)
  }

  /** Reaching the shown number of ad views earns at least the goal. */
  lemma ShownAdViewsMeetGoal(goal: real, rpm: real, convPercent: real, price: real)
    requires Shown(goal, rpm, convPercent, price).adViews.Some?
    ensures goal * 1000.0 <= Shown(goal, rpm, convPercent, price).adViews.value as real * rpm
  {
    var t := Plan(goal, rpm, convPercent, price);
    RoundedUpCovers(t.adViews, Shown(goal, rpm, convPercent, price).adViews.value as real, rpm, goal * 1000.0);
  }

  /** Making the shown number of sales earns at least the goal, and the shown visitors convert to at least those sales. */
  lemma ShownSalesMeetGoal(goal: real, rpm: real, convPercent: real, price: real)
    requires Shown(goal, rpm, convPercent, price).sales.Some?
    ensures goal <= Shown(goal, rpm, convPercent, price).sales.value as real * price
    ensures Plan(goal, rpm, convPercent, price).sales
              <= Shown(goal, rpm, convPercent, price).salesTraffic.value as real * Fraction(convPercent)
  {
    var t := Plan(goal, rpm, convPercent, price);
    var r := Shown(goal, rpm, convPercent, price);
    RoundedUpCovers(t.sales, r.sales.value as real, price, goal);
    RoundedUpCovers(t.salesTraffic, r.salesTraffic.value as real, Fraction(convPercent), t.sales);
  }

  /**
   * A goal of 1,000,000 a month at an rpm of 2,000 needs 500,000 views; at a price of 50,000 and a conversion
   * rate of 2% it needs 20 sales from 1,000 visitors.
   */
  lemma ShownExample()
    ensures Shown(1000000.0, 2000.0, 2.0, 50000.0) == Report(Some(500000), Some(20), Some(1000))
  {
    var t := Plan(1000000.0, 2000.0, 2.0, 50000.0);
    assert t == Targets(500000.0, 20.0, 1000.0);
  }

  lemma RoundedUpCovers(x: real, n: real, a: real, target: real)
    requires 0.0 < a && x * a == target && x <= n
    ensures target <= n * a
  {
    MulNonneg(a, n - x);
  }
}

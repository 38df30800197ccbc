/** The loan comparison calculator: the monthly payment and total repaid of two loans, and the cheaper one. */
module LoanComparison {
  import opened Numbers
  import opened Growth

  /** What `calcLoan` returns: the monthly payment and the total repaid. */
  datatype Quote = Quote(payment: real, total: real)

  datatype Choice = LoanA | LoanB

  datatype Verdict = Verdict(better: Choice, difference: real)

  /**
   * Inputs for which `calcLoan` has a value: without interest the term is a divisor; with interest the
   * term must be a whole number of months and the annuity denominator `(1 + r)^n - 1` may not be zero.
   */
  predicate Computable(ratePercent: real, years: real)
  {
    var r := MonthlyRate(ratePercent);
    if r == 0.0 then Months(years) != 0.0
    else IsWholeNat(Months(years)) && Pow(1.0 + r, ToNat(Months(years))) != 1.0
  }

  /**
   * The annuity payment and the total repaid. The payments times their number is the total, and
   * without interest the total is the amount borrowed.
   */
  function CalcLoan(amount: real, ratePercent: real, years: real): (q: Quote)
    requires Computable(ratePercent, years)
    ensures q.payment * Months(years) == q.total
    ensures MonthlyRate(ratePercent) == 0.0 ==> q.total == amount
  {
    var r := MonthlyRate(ratePercent);
    var n := Months(years);
    if r == 0.0 then
      Quote(amount / n, amount)
    else
      var p := Pow(1.0 + r, ToNat(n));
      var pmt := (amount * r * p) / (p - 1.0);
      Quote(pmt, pmt * n)
  }

  /**
   * The payment amortises the loan: a balance that accrues the monthly rate and is reduced by one payment
   * each month is exactly zero after the last payment.
   */
  lemma CalcLoanRepaysLoan(amount: real, ratePercent: real, years: real)
    requires Computable(ratePercent, years) && IsWholeNat(Months(years))
    ensures Accumulate(amount, 1.0 + MonthlyRate(ratePercent), -CalcLoan(amount, ratePercent, years).payment, ToNat(Months(years))) == 0.0
  {
    var r := MonthlyRate(ratePercent);
    var k := ToNat(Months(years));
    var pmt := CalcLoan(amount, ratePercent, years).payment;
    if r == 0.0 {
      AccumulateWithoutGrowth(amount, -pmt, k);
      assert k as real * pmt == amount;
    } else {
      var p := Pow(1.0 + r, k);
      AccumulateClosedForm(amount, r, -pmt, k);
      assert pmt * (p - 1.0) == amount * r * p;
      var a := Accumulate(amount, 1.0 + r, -pmt, k);
      assert r * a == 0.0;
      assert a == (r * a) / r;
    }
  }

  /** With a positive rate a loan costs at least what was borrowed; without interest exactly that. */
  lemma CalcLoanCoversPrincipal(amount: real, ratePercent: real, years: real)
    requires Computable(ratePercent, years)
    requires 0.0 <= ratePercent && 0.0 <= amount
    ensures amount <= CalcLoan(amount, ratePercent, years).total
  {
    var r := MonthlyRate(ratePercent);
    if r != 0.0 {
      var k := ToNat(Months(years));
      var n := k as real;
      var p := Pow(1.0 + r, k);
      var q := CalcLoan(amount, ratePercent, years);
      PowBernoulli(r, k);
      PowGrowthBound(1.0 + r, k);
      assert 1.0 + r - 1.0 == r;
      AnnuityCoversAmount(amount, q.payment, n, r, p);
    }
  }

  lemma AnnuityCoversAmount(amount: real, pmt: real, n: real, r: real, p: real)
    requires 0.0 <= amount && 1.0 < p && p - 1.0 <= n * r * p
    requires pmt * (p - 1.0) == amount * r * p
    ensures amount <= pmt * n
  {
    var c := p - 1.0;
    var t := pmt * n;
    assert t * c == amount * (n * r * p);
    MulNonneg(amount, n * r * p - c);
    assert amount * c <= t * c;
    if t < amount {
      MulPos(amount - t, c);
      assert false;
    }
  }

  /**
   * The comparison of two quotes: the loan named better is cheaper by the difference, and loan A is named
   * only when it is strictly cheaper, so a tie names loan B.
   */
  function Compare(a: Quote, b: Quote): (v: Verdict)
    ensures 0.0 <= v.difference
    ensures v.better == LoanA <==> a.total < b.total
    ensures v.better == LoanA ==> a.total + v.difference == b.total
    ensures v.better == LoanB ==> b.total + v.difference == a.total
  {
    var diff := if a.total - b.total < 0.0 then b.total - a.total else a.total - b.total;
    Verdict(if a.total < b.total then LoanA else LoanB, diff)
  }
}

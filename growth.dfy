/**
 * Compound growth with regular deposits, the model shared by every calculator.
 *
 * `Pow` is `Math.pow` restricted to whole exponents. `Accumulate` is the period-by-period
 * simulation that the closed-form future-value formulas stand for: each period the balance
 * grows by a factor and then a deposit is added (a negative deposit is a loan repayment).
 * The FIRE handler runs this simulation literally; the other handlers use its closed form.
 */
module Growth {
  import opened Numbers

  /** `x` raised to the whole power `k`. */
  function Pow(x: real, k: nat): real
  {
    if k == 0 then 1.0 else x * Pow(x, k - 1)
  }

  /** Balance after `k` periods starting from `start`: each period multiplies by `growth`, then adds `deposit`. */
  function Accumulate(start: real, growth: real, deposit: real, k: nat): real
  {
    if k == 0 then start else Accumulate(start, growth, deposit, k - 1) * growth + deposit
  }

  /** A growth factor of at least one never shrinks under powers. */
  lemma {:induction false} PowAtLeastOne(g: real, k: nat)
    requires 1.0 <= g
    ensures 1.0 <= Pow(g, k)
  {
    if k > 0 {
      PowAtLeastOne(g, k - 1);
      MulNonneg(g - 1.0, Pow(g, k - 1) - 1.0);
    }
  }

  /** Bernoulli's inequality for whole exponents: `(1 + r)^k >= 1 + k*r` when `r >= 0`. */
  lemma {:induction false} PowBernoulli(r: real, k: nat)
    requires 0.0 <= r
    ensures 1.0 + k as real * r <= Pow(1.0 + r, k)
  {
    if k > 0 {
      PowBernoulli(r, k - 1);
      var p := Pow(1.0 + r, k - 1);
      calc {
        Pow(1.0 + r, k);
        (1.0 + r) * p;
        p + r * p;
      >= { PowAtLeastOne(1.0 + r, k - 1); MulNonneg(r, p - 1.0); }
        p + r;
      >= 1.0 + (k - 1) as real * r + r;
      }
    }
  }

  /**
   * The annuity closed form for a rate `r`, multiplied out so that it also holds at `r == 0`:
   * `r * balance == r * (start * (1 + r)^k) + deposit * ((1 + r)^k - 1)`.
   */
  lemma {:induction false} AccumulateClosedForm(x: real, r: real, s: real, k: nat)
    ensures r * Accumulate(x, 1.0 + r, s, k) == r * (x * Pow(1.0 + r, k)) + s * (Pow(1.0 + r, k) - 1.0)
  {
    if k > 0 {
      AccumulateClosedForm(x, r, s, k - 1);
      var a := Accumulate(x, 1.0 + r, s, k - 1);
      var p := Pow(1.0 + r, k - 1);
      assert Accumulate(x, 1.0 + r, s, k) == a * (1.0 + r) + s;
      assert Pow(1.0 + r, k) == (1.0 + r) * p;
      ClosedFormStep(a, x, p, r, s);
    }
  }

  /** The future value of `k` deposits at a rate `r` per period, `deposit * ((1 + r)^k - 1) / r`. */
  function FutureValue(deposit: real, r: real, k: nat): real
    requires r != 0.0
  {
    deposit * (Pow(1.0 + r, k) - 1.0) / r
  }

  /**
   * The future-value formula `start * (1 + r)^k + deposit * ((1 + r)^k - 1) / r` for a rate `r` that is
   * not zero is exactly the balance of the period-by-period simulation.
   */
  lemma SeriesFormula(x: real, r: real, s: real, k: nat)
    requires r != 0.0
    ensures Accumulate(x, 1.0 + r, s, k) == x * Pow(1.0 + r, k) + FutureValue(s, r, k)
  {
    var p := Pow(1.0 + r, k);
    AccumulateClosedForm(x, r, s, k);
    DivideOut(Accumulate(x, 1.0 + r, s, k), r, x * p, s * (p - 1.0));
    FutureValueIs(s, r, k, p);
  }

  /** Starting from nothing, the future value of the deposits is the balance of the simulation. */
  lemma SeriesFromZero(r: real, s: real, k: nat)
    requires r != 0.0
    ensures FutureValue(s, r, k) == Accumulate(0.0, 1.0 + r, s, k)
  {
    SeriesFormula(0.0, r, s, k);
    ZeroPlus(Pow(1.0 + r, k), FutureValue(s, r, k));
  }

  lemma FutureValueIs(s: real, r: real, k: nat, p: real)
    requires r != 0.0 && p == Pow(1.0 + r, k)
    ensures FutureValue(s, r, k) == s * (p - 1.0) / r
  {
  }

  lemma ZeroPlus(p: real, y: real)
    ensures 0.0 * p + y == y
  {
  }

  /** Without growth the balance is the start plus `k` deposits. */
  lemma {:induction false} AccumulateWithoutGrowth(x: real, s: real, k: nat)
    ensures Accumulate(x, 1.0, s, k) == x + k as real * s
  {
    if k > 0 {
      AccumulateWithoutGrowth(x, s, k - 1);
    }
  }

  /**
   * With a growth factor of at least one, a balance that is not negative and deposits that are not
   * negative, the balance is at least the start plus every deposit made.
   */
  lemma {:induction false} AccumulateAtLeastDeposits(x: real, g: real, s: real, k: nat)
    requires 1.0 <= g && 0.0 <= x && 0.0 <= s
    ensures x + k as real * s <= Accumulate(x, g, s, k)
  {
    if k > 0 {
      AccumulateAtLeastDeposits(x, g, s, k - 1);
      var a := Accumulate(x, g, s, k - 1);
      MulNonneg(g - 1.0, a);
      assert a <= a * g;
    }
  }

  /** `(g^k - 1) <= k * (g - 1) * g^k` for `g >= 1`: growth over `k` periods is at most `k` periods at the final level. */
  lemma {:induction false} PowGrowthBound(g: real, k: nat)
    requires 1.0 <= g
    ensures Pow(g, k) - 1.0 <= k as real * (g - 1.0) * Pow(g, k)
  {
    if k > 0 {
      PowGrowthBound(g, k - 1);
      var p := Pow(g, k - 1);
      var q := Pow(g, k);
      var c := (k - 1) as real * (g - 1.0);
      assert q == g * p;
      PowAtLeastOne(g, k - 1);
      PowAtLeastOne(g, k);
      calc {
        q - 1.0;
        g * (p - 1.0) + (g - 1.0);
      <= { MulLe(g, p - 1.0, c * p); }
        g * (c * p) + (g - 1.0);
        c * q + (g - 1.0);
      <= { MulLe(g - 1.0, 1.0, q); }
        c * q + (g - 1.0) * q;
        k as real * (g - 1.0) * q;
      }
    }
  }

  lemma MulLe(a: real, b: real, c: real)
    requires 0.0 <= a && b <= c
    ensures a * b <= a * c
  {
    MulNonneg(a, c - b);
  }

  lemma ClosedFormStep(a: real, x: real, p: real, r: real, s: real)
    requires r * a == r * (x * p) + s * (p - 1.0)
    ensures r * (a * (1.0 + r) + s) == r * (x * ((1.0 + r) * p)) + s * ((1.0 + r) * p - 1.0)
  {
    calc {
      r * (a * (1.0 + r) + s);
      (1.0 + r) * (r * a) + r * s;
      (1.0 + r) * (r * (x * p) + s * (p - 1.0)) + r * s;
      r * (x * ((1.0 + r) * p)) + s * ((1.0 + r) * p - 1.0);
    }
  }

  lemma DivideOut(a: real, d: real, b: real, c: real)
    requires d != 0.0 && d * a == d * b + c
    ensures a == b + c / d
  {
    assert d * (a - b) == c;
  }
}

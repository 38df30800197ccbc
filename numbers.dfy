/**
 * Unit conversions and the few JavaScript `Math` operations the calculators apply to their numbers.
 * Every number is a `real`: an exact idealisation of a JavaScript double.
 */
module Numbers {

  /** A percentage typed into a form, as a fraction (`x / 100`). */
  function Fraction(percent: real): real
  {
    percent / 100.0
  }

  /** An annual percentage as a fractional monthly rate (`x / 100 / 12`). */
  function MonthlyRate(percent: real): real
  {
    percent / 100.0 / 12.0
  }

  /** The number of months in `years` years, `years * 12`. */
  function Months(years: real): real
  {
    years * 12.0
  }

  /** True when `x` is a whole number that is not negative, i.e. it can serve as an exponent of `Pow`. */
  predicate IsWholeNat(x: real)
  {
    0.0 <= x && x.Floor as real == x
  }

  /** The whole number `x` as a `nat`. */
  function ToNat(x: real): (k: nat)
    requires IsWholeNat(x)
    ensures k as real == x
  {
    x.Floor
  }

  /** JavaScript's `Math.ceil`: the least integer that is not below `x`. */
  function Ceil(x: real): (c: int)
    ensures x <= c as real < x + 1.0
  {
    if x.Floor as real == x then x.Floor else x.Floor + 1
  }

  /** JavaScript's `Math.floor`: the greatest integer that is not above `x`. */
  function Floor(x: real): (f: int)
    ensures f as real <= x < f as real + 1.0
  {
    x.Floor
  }

  /** The quotient `x / y` rounded toward zero, as JavaScript's `%` uses it. */
  function Trunc(x: real): (t: int)
    ensures 0.0 <= x ==> t as real <= x < t as real + 1.0
    ensures x < 0.0 ==> t as real - 1.0 < x <= t as real
  {
    if 0.0 <= x then x.Floor else -((-x).Floor)
  }

  /** True when `x` is an integer (of either sign). */
  predicate IsWhole(x: real)
  {
    x.Floor as real == x
  }

  /** The magnitude of `x`. */
  function Abs(x: real): real
  {
    if x < 0.0 then -x else x
  }

  /**
   * JavaScript's `%` on numbers: the remainder of a division truncated toward zero, so the result
   * takes the sign of the dividend `x` (unlike Dafny's Euclidean `%`), is smaller in magnitude than
   * the divisor, and differs from `x` by a whole multiple of `y`.
   */
  function JsRem(x: real, y: real): (rem: real)
    requires y != 0.0
    ensures 0.0 <= x ==> 0.0 <= rem
    ensures x <= 0.0 ==> rem <= 0.0
    ensures Abs(rem) < Abs(y)
    ensures IsWhole((x - rem) / y)
  {
    var t := Trunc(x / y);
    var rem := x - y * t as real;
    assert y * (x / y) == x;
    TruncatedRemainder(x, y, x / y, t, rem);
    WholeQuotient(x - rem, y, t);
    rem
  }

  /** The sign and size of `x - y * t` when `t` is the quotient `q = x / y` truncated toward zero. */
  lemma TruncatedRemainder(x: real, y: real, q: real, t: int, rem: real)
    requires y != 0.0 && y * q == x && rem == x - y * t as real
    requires 0.0 <= q ==> t as real <= q < t as real + 1.0
    requires q < 0.0 ==> t as real - 1.0 < q <= t as real
    ensures 0.0 <= x ==> 0.0 <= rem
    ensures x <= 0.0 ==> rem <= 0.0
    ensures Abs(rem) < Abs(y)
  {
    var d := q - t as real;
    assert rem == y * d;
    FractionBelowDivisor(y, d);
    if q == 0.0 {
      assert t == 0;
    } else if 0.0 < q {
      MulSign(y, d);
      MulSignStrict(y, q);
    } else {
      MulSign(y, -d);
      MulSignStrict(y, -q);
    }
  }

  /** A multiple `y * t` divided by `y` is the whole number `t`. */
  lemma WholeQuotient(m: real, y: real, t: int)
    requires y != 0.0 && m == y * t as real
    ensures IsWhole(m / y)
  {
    assert m / y == t as real;
    assert (t as real).Floor == t;
  }

  /** A fraction of the divisor smaller than one whole is smaller in magnitude than the divisor. */
  lemma FractionBelowDivisor(y: real, d: real)
    requires y != 0.0 && -1.0 < d < 1.0
    ensures Abs(y * d) < Abs(y)
  {
    if 0.0 < y {
      MulPos(y, 1.0 - d);
      MulPos(y, 1.0 + d);
    } else {
      MulPos(-y, 1.0 - d);
      MulPos(-y, 1.0 + d);
    }
  }

  /** The sign of a product with a positive factor is the sign of the other factor. */
  lemma MulSignStrict(y: real, d: real)
    requires 0.0 < d
    ensures 0.0 < y ==> 0.0 < y * d
    ensures y < 0.0 ==> y * d < 0.0
  {
    if 0.0 < y {
      MulPos(y, d);
    } else if y < 0.0 {
      MulPos(-y, d);
    }
  }

  /** The sign of a product with a factor that is not negative follows the other factor. */
  lemma MulSign(y: real, d: real)
    requires 0.0 <= d
    ensures 0.0 < y ==> 0.0 <= y * d
    ensures y < 0.0 ==> y * d <= 0.0
  {
    if 0.0 < y {
      MulNonneg(y, d);
    } else if y < 0.0 {
      MulNonneg(-y, d);
    }
  }

  /** For a dividend that is not negative and a positive divisor, `%` is the remainder of floored division. */
  lemma JsRemOfNonnegative(x: real, y: real)
    requires 0.0 <= x && 0.0 < y
    ensures 0.0 <= JsRem(x, y) < y
    ensures x == y * Floor(x / y) as real + JsRem(x, y)
  {
    var q := x / y;
    var f := Floor(q) as real;
    assert y * q == x;
    assert 0.0 <= q by { MulNonneg(x, 1.0 / y); }
    assert Trunc(q) as real == f;
    assert JsRem(x, y) == y * (q - f);
    MulNonneg(y, q - f);
    MulPos(y, f + 1.0 - q);
  }

  lemma MulNonneg(a: real, b: real)
    requires 0.0 <= a && 0.0 <= b
    ensures 0.0 <= a * b
  {
  }

  lemma MulPos(a: real, b: real)
    requires 0.0 < a && 0.0 < b
    ensures 0.0 < a * b
  {
  }

  lemma CancelFactor(a: real, b: real, c: real)
    requires c != 0.0 && a * c == b * c
    ensures a == b
  {
    assert (a - b) * c == 0.0;
  }
}

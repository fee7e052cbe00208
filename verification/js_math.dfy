/** The two pieces of JavaScript number semantics the views use: the `%`
    operator, whose result takes the sign of the dividend, and `Math.round`,
    which rounds halves towards positive infinity. Operands are exact
    rationals `num / den`; floating-point error is not modelled. */
module JsMath {

  /** `a % b` for a positive divisor: truncated remainder, so a negative
      dividend gives a non-positive result (unlike Dafny's `%`). */
  function JsRem(a: int, b: int): (r: int)
    requires b > 0
    ensures a >= 0 ==> 0 <= r < b
    ensures a < 0 ==> -b < r <= 0
    ensures a == TruncQuot(a, b) * b + r
  {
    if a >= 0 then a % b
    else
      var q, m := (-a) / b, (-a) % b;
      assert -a == q * b + m;
      -m
  }

  /** The quotient that goes with `JsRem`: rounded towards zero. */
  function TruncQuot(a: int, b: int): int
    requires b > 0
  {
    if a >= 0 then a / b else -((-a) / b)
  }

  /** `Math.round(num / den)`: the integer nearest to the quotient, halves
      going up. */
  function Round(num: int, den: int): (r: int)
    requires den != 0
    ensures den > 0 ==> 2 * den * r - den <= 2 * num < 2 * den * r + den
    ensures den < 0 ==> 2 * den * r - den >= 2 * num > 2 * den * r + den
  {
    if den > 0 then (2 * num + den) / (2 * den)
    else (-2 * num - den) / (-2 * den)
  }

  /** `Math.round(n / d)` of an exact integer quotient is that integer. */
  lemma RoundExact(k: int, den: int)
    requires den > 0
    ensures Round(k * den, den) == k
  {
    var r := Round(k * den, den);
    assert 2 * den * r - den <= 2 * (k * den) < 2 * den * r + den;
    assert den * (2 * r - 2 * k - 1) <= 0 by {
      assert den * (2 * r - 2 * k - 1) == 2 * den * r - den - 2 * (k * den);
    }
    assert den * (2 * k - 2 * r - 1) < 0 by {
      assert den * (2 * k - 2 * r - 1) == 2 * (k * den) - 2 * den * r - den;
    }
    PositiveFactor(den, 2 * r - 2 * k - 1);
    PositiveFactor(den, 2 * k - 2 * r - 1);
  }

  /** A product with a positive factor has the sign of the other factor. */
  lemma PositiveFactor(d: int, a: int)
    requires d > 0
    ensures a > 0 ==> d * a > 0
    ensures a == 0 ==> d * a == 0
  {
  }

  /** `Math.round(n / d)` grows with `n`. */
  lemma RoundMonotone(n1: int, n2: int, den: int)
    requires den > 0 && n1 <= n2
    ensures Round(n1, den) <= Round(n2, den)
  {
    var r1, r2 := Round(n1, den), Round(n2, den);
    if r1 > r2 {
      assert 2 * den * r1 - den <= 2 * n1;
      assert 2 * n2 < 2 * den * r2 + den;
      assert den * (r1 - r2 - 1) >= 0 by {
        if r1 - r2 - 1 > 0 { PositiveFactor(den, r1 - r2 - 1); }
      }
      assert false;
    }
  }
}

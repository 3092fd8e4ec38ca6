/**
 * Python's `int()` applied to a float: truncation toward zero. Dafny's `/`
 * on `int` and `.Floor` on `real` both round down, which differs from
 * truncation for negative operands, so the sign is handled explicitly.
 * `mockup_generator.py` uses it for the resized size (lines 159-160) and
 * the percentage offsets (lines 165-166).
 */
module PyNumeric {

  /** `int(r)` for a real `r`: the integer part, rounded toward zero. */
  function Trunc(r: real): (t: int)
    ensures 0.0 <= r ==> 0 <= t && t as real <= r < t as real + 1.0
    ensures r < 0.0 ==> t <= 0 && t as real - 1.0 < r <= t as real
  {
    if r >= 0.0 then r.Floor else -((-r).Floor)
  }

  /** `int(a / b)` for integers `a` and `b > 0`: the quotient truncated toward zero. */
  function TruncDiv(a: int, b: int): (q: int)
    requires b > 0
    ensures 0 <= a ==> 0 <= q * b <= a < q * b + b
    ensures a < 0 ==> a <= q * b <= 0 && q * b - b < a
  {
    if a >= 0 then
      DivBounds(a, b);
      a / b
    else
      var m := (-a) / b;
      DivBounds(-a, b);
      NegMul(m, b);
      -m
  }

  lemma DivBounds(a: int, b: int)
    requires 0 <= a && b > 0
    ensures 0 <= (a / b) * b <= a < (a / b) * b + b
  {
    assert (a / b) * b + a % b == a;
  }

  lemma NegMul(m: int, b: int)
    ensures (-m) * b == -(m * b)
  {
  }

  /**
   * `int(size * pct / 100)`: a signed percentage of a pixel extent, the
   * exact hundredth of `size * pct` rounded toward zero.
   */
  function Percent(size: int, pct: int): (off: int)
    ensures 0 <= size * pct ==> 0 <= 100 * off <= size * pct < 100 * off + 100
    ensures size * pct < 0 ==> size * pct <= 100 * off <= 0 && 100 * off - 100 < size * pct
  {
    TruncDiv(size * pct, 100)
  }

  /** Truncation is symmetric about zero: a negative percentage mirrors the positive one. */
  lemma PercentOdd(size: int, pct: int)
    ensures Percent(size, -pct) == -Percent(size, pct)
  {
    assert size * -pct == -(size * pct);
  }

  /** Truncation toward zero differs from floor division on a negative quotient. */
  lemma PercentTruncatesTowardZero()
    ensures Percent(5, -10) == 0
    ensures (5 * -10) / 100 == -1
  {
  }

  /** Multiplying both sides of `x <= y` by a non-negative factor keeps the order. */
  lemma MulLe(a: real, x: real, y: real)
    requires 0.0 <= a && x <= y
    ensures a * x <= a * y && x * a <= y * a
  {
  }

  /** `MulLe` on integers. */
  lemma MulLeInt(a: int, x: int, y: int)
    requires 0 <= a && x <= y
    ensures a * x <= a * y && x * a <= y * a
  {
  }

  /** A percentage between 0 and 100 of a non-negative extent stays within it. */
  lemma PercentWithin(size: int, pct: int)
    requires 0 <= size && 0 <= pct <= 100
    ensures 0 <= Percent(size, pct) <= size
  {
    assert 0 <= size * pct <= size * 100;
  }
}

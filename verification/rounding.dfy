/**
 Rounding to two decimal places, as the indicator functions and the decision
 result apply it to every value they report.

 The program rounds binary floating-point values; here the value being rounded
 is an exact real. The rounding itself follows the same rule: the nearest
 multiple of 1/100, and on an exact tie the one whose hundredths count is even.
 */
module Rounding {

  /** Rounds `y` to the nearest integer; an exact tie goes to the even neighbour. */
  function RoundHalfEven(y: real): (n: int)
    ensures y - 0.5 <= n as real <= y + 0.5
    ensures n as real - y == 0.5 ==> n % 2 == 0
    ensures y - n as real == 0.5 ==> n % 2 == 0
  {
    var f := y.Floor;
    var frac := y - f as real;
    if frac < 0.5 then f
    else if frac > 0.5 then f + 1
    else if f % 2 == 0 then f
    else f + 1
  }

  /** `x` rounded to two decimal places. */
  function Round2(x: real): (r: real)
    ensures x - 0.005 <= r <= x + 0.005
    ensures IsHundredths(r)
  {
    var n := RoundHalfEven(x * 100.0);
    assert (n as real / 100.0) * 100.0 == n as real;
    n as real / 100.0
  }

  /** `x` is a whole number of hundredths. */
  predicate IsHundredths(x: real) {
    (x * 100.0).Floor as real == x * 100.0
  }

  /** Rounding never reverses the order of two values. */
  lemma Round2Monotone(x: real, y: real)
    requires x <= y
    ensures Round2(x) <= Round2(y)
  {
    RoundHalfEvenMonotone(x * 100.0, y * 100.0);
  }

  lemma RoundHalfEvenMonotone(a: real, b: real)
    requires a <= b
    ensures RoundHalfEven(a) <= RoundHalfEven(b)
  {
    var fa, fb := a.Floor, b.Floor;
    if fa < fb {
      assert RoundHalfEven(a) <= fa + 1 <= fb <= RoundHalfEven(b);
    } else {
      assert fa == fb;
    }
  }

  /** A value that already is a whole number of hundredths is left unchanged. */
  lemma Round2Exact(x: real)
    requires IsHundredths(x)
    ensures Round2(x) == x
  {
    var y := x * 100.0;
    assert y.Floor as real == y;
    assert RoundHalfEven(y) == y.Floor;
  }

  /** Rounding keeps a value inside any range whose ends are whole hundredths. */
  lemma Round2WithinHundredths(x: real, lo: real, hi: real)
    requires IsHundredths(lo) && IsHundredths(hi)
    requires lo <= x <= hi
    ensures lo <= Round2(x) <= hi
  {
    Round2Monotone(lo, x);
    Round2Monotone(x, hi);
    Round2Exact(lo);
    Round2Exact(hi);
  }
}

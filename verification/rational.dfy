/** Exact rational numbers, standing in for the Python floats the script
    computes with, so that a value is kept before any rounding. */
module Rational {

  /** The number `num / den`; every ratio built here has `den >= 1`. */
  datatype Ratio = Ratio(num: int, den: int)

  function Abs(x: int): (a: nat)
  {
    if x < 0 then -x else x
  }

  /** |q| > 1, for a ratio with a positive denominator. */
  predicate MagnitudeAboveOne(q: Ratio)
  {
    Abs(q.num) > q.den
  }
}

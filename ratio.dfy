/**
 * Exact non-negative ratios. The analysers divide counts and round the
 * quotient for display; here a quotient is kept as the pair `num / den`,
 * compared by cross-multiplication, and never rounded.
 */
module Ratio {

  /** The ratio `num / den`; `den` is positive. */
  datatype Fraction = Fraction(num: nat, den: nat)

  const Zero: Fraction := Fraction(0, 1)

  /** `a / b if b > 0 else 0.0` */
  function Quotient(a: nat, b: nat): (q: Fraction)
    ensures q.den > 0
    ensures b > 0 ==> q.num == a && q.den == b
    ensures b == 0 ==> q.num == 0
  {
    if b > 0 then Fraction(a, b) else Zero
  }

  /** `x <= y` as numbers. */
  predicate AtMost(x: Fraction, y: Fraction)
  {
    x.num * y.den <= y.num * x.den
  }

  /** `x == y` as numbers. */
  predicate Same(x: Fraction, y: Fraction)
  {
    x.num * y.den == y.num * x.den
  }

  /** `x * k` */
  function Scale(x: Fraction, k: nat): Fraction
  {
    Fraction(x.num * k, x.den)
  }

  /** The whole number `k`. */
  function Whole(k: nat): Fraction
  {
    Fraction(k, 1)
  }
}

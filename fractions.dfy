/** Facts about reals in the unit interval used by every score and rate. */
module Fractions {

  lemma UnitScale(x: real, q: real)
    requires 0.0 <= x <= 1.0 && q >= 0.0
    ensures 0.0 <= x * q <= q
  {
  }

  lemma UnitQuotient(s: real, t: real)
    requires t > 0.0 && 0.0 <= s <= t
    ensures 0.0 <= s / t <= 1.0
  {
    assert s / t * t == s;
  }

  lemma ScaleMonotone(a: real, x: real, y: real)
    requires a >= 0.0 && x <= y
    ensures a * x <= a * y
  {
  }

  lemma SquareNonNegative(x: real)
    ensures x * x >= 0.0
  {
  }
}

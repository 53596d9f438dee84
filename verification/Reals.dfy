/** Products and quotients of reals, compared one step at a time. */
module Reals {

  function AbsReal(x: real): real {
    if x >= 0.0 then x else -x
  }

  lemma ProductNonNegative(a: real, b: real)
    requires a >= 0.0 && b >= 0.0
    ensures a * b >= 0.0
  {
  }

  lemma ScaleReal(a: real, b: real, m: real)
    requires m > 0.0
    ensures a < b ==> a * m < b * m
    ensures a <= b ==> a * m <= b * m
  {
    if a < b {
      assert (b - a) * m > 0.0;
    }
  }

  lemma QuotientTimes(x: real, m: real)
    requires m > 0.0
    ensures (x / m) * m == x
  {
  }

  /** Comparing a quotient is comparing with the scaled bound. */
  lemma QuotientCompare(x: real, m: real, bound: real)
    requires m > 0.0
    ensures x / m <= bound <==> x <= bound * m
    ensures x / m < bound <==> x < bound * m
  {
    QuotientTimes(x, m);
    ScaleReal(x / m, bound, m);
    ScaleReal(bound, x / m, m);
  }
}

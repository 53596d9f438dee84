/** Fixed-point numbers with eight decimals in an i64; products and quotients pass through i128. */
module FixedPoint {
  import opened RustInt

  const MULTIPLIER: int := 100_000_000

  function Add(a: int, b: int): int {
    WrapI64(a + b)
  }

  function Sub(a: int, b: int): int {
    WrapI64(a - b)
  }

  function Neg(a: int): int {
    WrapI64(-a)
  }

  function Mul(a: int, b: int): int {
    WrapI64(TruncDiv(a * b, MULTIPLIER))
  }

  /** The source panics on a zero divisor; Position.apply_fill meets one only from i64::MIN. */
  function Div(a: int, b: int): int {
    if b == 0 then 0 else WrapI64(TruncDiv(a * MULTIPLIER, b))
  }

  function AbsI64(a: int): int {
    WrapI64(Abs(a))
  }

  /** Rounding a real toward zero, as a float-to-integer cast does. */
  function TruncReal(x: real): int {
    if x >= 0.0 then x.Floor else -((-x).Floor)
  }

  /** Rounding half away from zero. */
  function RoundReal(x: real): int {
    if x >= 0.0 then (x + 0.5).Floor else -((-x + 0.5).Floor)
  }

  /** A product misses the exact one by less than one unit of the last decimal. */
  lemma MulRemainder(a: int, b: int)
    requires FitsI64(TruncDiv(a * b, MULTIPLIER))
    ensures Abs(100_000_000 * Mul(a, b) - a * b) < 100_000_000
  {
    TruncDivRemainder(a * b, MULTIPLIER);
  }

  lemma DivRemainder(a: int, b: int)
    requires b != 0 && FitsI64(TruncDiv(a * MULTIPLIER, b))
    ensures Abs(Div(a, b) * b - a * 100_000_000) < Abs(b)
  {
    TruncDivRemainder(a * MULTIPLIER, b);
  }

  /** The nearest whole number, and the one further from zero of two equally near. */
  lemma RoundsToNearest(x: real)
    ensures -0.5 <= RoundReal(x) as real - x <= 0.5
    ensures x >= 0.0 ==> RoundReal(x) >= 0 && x - RoundReal(x) as real < 0.5
    ensures x <= 0.0 ==> RoundReal(x) <= 0 && RoundReal(x) as real - x < 0.5
  {
  }

  /** The whole number next to it on the side of zero. */
  lemma CutsTowardZero(x: real)
    ensures x >= 0.0 ==> 0 <= TruncReal(x) && TruncReal(x) as real <= x < TruncReal(x) as real + 1.0
    ensures x <= 0.0 ==> TruncReal(x) <= 0 && TruncReal(x) as real - 1.0 < x <= TruncReal(x) as real
  {
  }
}

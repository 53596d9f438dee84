/** Machine integers as a release build of the repository computes with them:
    overflow checks are switched off there, so arithmetic wraps, casts truncate
    and division rounds toward zero. */
module RustInt {

  const TWO_32: int := 0x1_0000_0000
  const TWO_63: int := 0x8000_0000_0000_0000
  const TWO_64: int := 0x1_0000_0000_0000_0000
  const U32_MAX: int := 0xFFFF_FFFF

  type Byte = b: nat | b < 256
  type U16 = x: nat | x < 0x1_0000
  type U32 = x: nat | x < TWO_32
  type U64 = x: nat | x < TWO_64
  type I64 = x: int | -TWO_63 <= x < TWO_63

  function Min(a: int, b: int): int {
    if a <= b then a else b
  }

  function Max(a: int, b: int): int {
    if a >= b then a else b
  }

  function Abs(a: int): nat {
    if a >= 0 then a else -a
  }

  function WrapU32(x: int): nat {
    x % TWO_32
  }

  function WrapU64(x: int): nat {
    x % TWO_64
  }

  function WrapI64(x: int): int {
    if FitsI64(x) then x else (x + TWO_63) % TWO_64 - TWO_63
  }

  predicate FitsI64(x: int) {
    -TWO_63 <= x < TWO_63
  }

  function SaturatingAddU32(a: nat, b: nat): nat {
    if a + b <= U32_MAX then a + b else U32_MAX
  }

  function SaturatingSub(a: nat, b: nat): nat {
    if a >= b then a - b else 0
  }

  /** Integer division rounding toward zero. */
  function TruncDiv(a: int, b: int): int
    requires b != 0
  {
    if a >= 0 then a / b else -((-a) / b)
  }

  lemma TruncDivRemainder(a: int, b: int)
    requires b != 0
    ensures Abs(a - TruncDiv(a, b) * b) < Abs(b)
    ensures a >= 0 ==> a - TruncDiv(a, b) * b >= 0
    ensures a <= 0 ==> a - TruncDiv(a, b) * b <= 0
  {
    if a < 0 {
      var q := (-a) / b;
      assert -a == q * b + (-a) % b;
      assert (-q) * b == -(q * b);
    } else {
      assert a == (a / b) * b + a % b;
    }
  }

  lemma WrapI64Congruent(x: int)
    ensures exists k :: WrapI64(x) == x + k * TWO_64
  {
    var k := -((x + TWO_63) / TWO_64);
    assert FitsI64(x) ==> k == 0;
    assert WrapI64(x) == x + k * TWO_64;
  }

  lemma WrapI64OfCongruent(x: int, k: int)
    ensures WrapI64(x + k * TWO_64) == WrapI64(x)
  {
    ModShift(x + TWO_63, k, TWO_64);
  }

  /** Wrapping an intermediate sum does not change where the final sum wraps to. */
  lemma WrapI64Absorbs(a: int, b: int)
    ensures WrapI64(WrapI64(a) + WrapI64(b)) == WrapI64(a + b)
  {
    WrapI64Congruent(a);
    WrapI64Congruent(b);
    var j: int :| WrapI64(a) == a + j * TWO_64;
    var k: int :| WrapI64(b) == b + k * TWO_64;
    WrapI64OfCongruent(a + b, j + k);
  }

  lemma SmallMod(q: nat, m: nat)
    requires q < m
    ensures q % m == q
  {
  }

  lemma ModShift(x: int, k: int, m: nat)
    requires m > 0
    ensures (x + k * m) % m == x % m
  {
    var q, r := x / m, x % m;
    assert x + k * m == (q + k) * m + r;
    DivModUnique(x + k * m, m, q + k, r);
  }

  lemma DivModUnique(x: int, m: nat, q: int, r: int)
    requires 0 <= r < m && x == q * m + r
    ensures x / m == q && x % m == r
  {
    var d := x / m - q;
    assert x == (x / m) * m + x % m;
    assert d * m == r - x % m;
    assert d < 1 by { if d >= 1 { Scale(d, m); } }
    assert d > -1 by { if d <= -1 { Scale(-d, m); } }
  }

  lemma Scale(d: int, m: nat)
    requires d >= 1
    ensures d * m >= m
  {
    assert (d - 1) * m >= 0;
  }

  lemma RemainderAtMost(x: nat, m: int)
    requires m > 0
    ensures x % m <= x
  {
    assert x == (x / m) * m + x % m;
    assert (x / m) * m >= 0;
  }

  lemma DivMonotone(a: nat, b: nat, d: int)
    requires a <= b && d > 0
    ensures a / d <= b / d
  {
    var qa, qb := a / d, b / d;
    assert a == qa * d + a % d && b == qb * d + b % d;
    if qa > qb {
      assert (qa - qb) * d >= d by { Scale(qa - qb, d); }
      assert false;
    }
  }
}

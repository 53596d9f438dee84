/** Bitwise operations on unsigned words, read as natural numbers. A left shift by n
    multiplies by Pow2(n), a right shift divides by it, and a mask of n ones keeps
    the remainder. */
module Bits {
  import RustInt

  function Pow2(n: nat): (p: nat)
    ensures p > 0
  {
    if n == 0 then 1 else 2 * Pow2(n - 1)
  }

  function Or(a: nat, b: nat): nat
    decreases a + b
  {
    if a == 0 && b == 0 then 0
    else 2 * Or(a / 2, b / 2) + if a % 2 == 1 || b % 2 == 1 then 1 else 0
  }

  function Xor(a: nat, b: nat): nat
    decreases a + b
  {
    if a == 0 && b == 0 then 0
    else 2 * Xor(a / 2, b / 2) + if a % 2 != b % 2 then 1 else 0
  }

  lemma DoubledProduct(a: nat, b: nat)
    ensures 2 * (a * b) == (2 * a) * b
  {
  }

  lemma {:induction false} Pow2Add(m: nat, n: nat)
    ensures Pow2(m + n) == Pow2(m) * Pow2(n)
  {
    if m > 0 {
      Pow2Add(m - 1, n);
      DoubledProduct(Pow2(m - 1), Pow2(n));
    }
  }

  lemma XorStep(a: nat, b: nat)
    ensures Xor(a, b) / 2 == Xor(a / 2, b / 2)
    ensures Xor(a, b) % 2 == if a % 2 != b % 2 then 1 else 0
  {
  }

  lemma OrStep(a: nat, b: nat)
    ensures Or(a, b) / 2 == Or(a / 2, b / 2)
    ensures Or(a, b) % 2 == if a % 2 == 1 || b % 2 == 1 then 1 else 0
  {
  }

  lemma {:induction false} XorZero(a: nat)
    ensures Xor(a, 0) == a && Xor(0, a) == a
  {
    if a > 0 { XorZero(a / 2); }
  }

  lemma {:induction false} OrZero(a: nat)
    ensures Or(a, 0) == a && Or(0, a) == a
  {
    if a > 0 { OrZero(a / 2); }
  }

  lemma {:induction false} XorSelf(a: nat)
    ensures Xor(a, a) == 0
  {
    if a > 0 { XorSelf(a / 2); }
  }

  lemma {:induction false} XorCommutes(a: nat, b: nat)
    ensures Xor(a, b) == Xor(b, a)
    decreases a + b
  {
    if a > 0 || b > 0 { XorCommutes(a / 2, b / 2); }
  }

  lemma {:induction false} XorAssociates(a: nat, b: nat, c: nat)
    ensures Xor(Xor(a, b), c) == Xor(a, Xor(b, c))
    decreases a + b + c
  {
    if a > 0 || b > 0 || c > 0 {
      XorAssociates(a / 2, b / 2, c / 2);
      XorStep(a, b);
      XorStep(b, c);
      XorStep(Xor(a, b), c);
      XorStep(a, Xor(b, c));
    }
  }

  lemma {:induction false} XorBound(a: nat, b: nat, n: nat)
    requires a < Pow2(n) && b < Pow2(n)
    ensures Xor(a, b) < Pow2(n)
  {
    if n > 0 && (a > 0 || b > 0) {
      XorBound(a / 2, b / 2, n - 1);
      XorStep(a, b);
    }
  }

  function Quotient(x: nat, m: nat): nat
    requires m > 0
  {
    x / m
  }

  lemma Divided(x: nat, m: nat) returns (q: nat, r: nat)
    requires m > 0
    ensures q == x / m && r == x % m && x == q * m + r && r < m
  {
    q, r := x / m, x % m;
  }

  lemma EvenScale(h: nat, m: nat)
    ensures (h * (2 * m)) / 2 == h * m && (h * (2 * m)) % 2 == 0
  {
    assert h * (2 * m) == 2 * (h * m);
  }

  /** Words with no common set bit: exclusive or adds them. */
  lemma {:induction false} XorDisjoint(h: nat, l: nat, n: nat)
    requires l < Pow2(n)
    ensures Xor(h * Pow2(n), l) == h * Pow2(n) + l
  {
    if n == 0 {
      XorZero(h);
    } else {
      EvenScale(h, Pow2(n - 1));
      XorDisjoint(h, l / 2, n - 1);
      XorStep(h * Pow2(n), l);
    }
  }

  /** Inclusive or acts on the two halves of a double word separately. */
  lemma {:induction false} OrWords(x1: nat, h1: nat, l1: nat, x2: nat, h2: nat, l2: nat, n: nat, m: nat)
    requires m == Pow2(n) && l1 < m && l2 < m
    requires x1 == h1 * m + l1 && x2 == h2 * m + l2
    ensures Or(x1, x2) == Or(h1, h2) * m + Or(l1, l2)
    ensures Or(l1, l2) < m
    decreases n
  {
    if n == 0 {
      assert x1 == h1 && x2 == h2;
      OrZero(0);
    } else {
      var half := Pow2(n - 1);
      HalveSum(h1, half, l1);
      HalveSum(h2, half, l2);
      OrWords(x1 / 2, h1, l1 / 2, x2 / 2, h2, l2 / 2, n - 1, half);
      OrUnhalved(x1, x2, l1, l2, Or(h1, h2), half);
    }
  }

  lemma OrUnhalved(x1: nat, x2: nat, l1: nat, l2: nat, h: nat, m: nat)
    requires x1 % 2 == l1 % 2 && x2 % 2 == l2 % 2
    requires Or(x1 / 2, x2 / 2) == h * m + Or(l1 / 2, l2 / 2)
    requires Or(l1 / 2, l2 / 2) < m
    ensures Or(x1, x2) == h * (2 * m) + Or(l1, l2) && Or(l1, l2) < 2 * m
  {
    OrStep(x1, x2);
    OrStep(l1, l2);
    EvenScale(h, m);
  }

  lemma HalveSum(h: nat, m: nat, l: nat)
    ensures (h * (2 * m) + l) / 2 == h * m + l / 2 && (h * (2 * m) + l) % 2 == l % 2
  {
    assert h * (2 * m) == 2 * (h * m);
  }

  /** Words with no common set bit: inclusive or adds them. */
  lemma OrDisjoint(h: nat, l: nat, n: nat)
    requires l < Pow2(n)
    ensures Or(l, h * Pow2(n)) == h * Pow2(n) + l
  {
    var m := Pow2(n);
    OrWords(l, 0, l, h * m, h, 0, n, m);
    OrZero(h);
    OrZero(l);
  }

  /** Or-ing in a word whose n low bits are clear leaves the n low bits alone. */
  lemma OrKeepsLow(a: nat, x: nat, h: nat, n: nat, m: nat)
    requires m == Pow2(n) && x == h * m
    ensures Or(a, x) % m == a % m
  {
    var q, r := Divided(a, m);
    OrWords(a, q, r, x, h, 0, n, m);
    OrZero(r);
    var o, k := Or(a, x), Or(q, h);
    assert o % m == r by { QuotientIs(o, m, k, r); }
  }

  lemma HalfOfQuotient(a: nat, m: nat)
    requires m > 0
    ensures a / (2 * m) == (a / 2) / m
  {
    var q := (a / 2) / m;
    var r := (a / 2) % m;
    assert a / 2 == q * m + r;
    var rest := 2 * r + a % 2;
    assert a == q * (2 * m) + rest by { assert q * (2 * m) == 2 * (q * m); }
    QuotientIs(a, 2 * m, q, rest);
  }

  lemma QuotientIs(a: nat, m: nat, q: nat, r: nat)
    requires r < m && a == q * m + r
    ensures a / m == q && a % m == r
  {
    RustInt.DivModUnique(a, m, q, r);
  }

  /** Exclusive or with a word below 2^n leaves the bits from n upwards alone. */
  lemma {:induction false} XorKeepsHigh(a: nat, b: nat, n: nat)
    requires b < Pow2(n)
    ensures Xor(a, b) / Pow2(n) == a / Pow2(n)
  {
    if n == 0 {
      XorZero(a);
    } else {
      XorStep(a, b);
      XorKeepsHigh(a / 2, b / 2, n - 1);
      HalfOfQuotient(a, Pow2(n - 1));
      HalfOfQuotient(Xor(a, b), Pow2(n - 1));
    }
  }

  lemma Pow2Doubled(n: nat, p: nat)
    requires Pow2(n) == p
    ensures Pow2(2 * n) == p * p
  {
    Pow2Add(n, n);
  }

  lemma WordSizes()
    ensures Pow2(4) == 16 && Pow2(5) == 32 && Pow2(6) == 64 && Pow2(7) == 128 && Pow2(8) == 256
    ensures Pow2(32) == RustInt.TWO_32 && Pow2(64) == RustInt.TWO_64
  {
    Pow2Doubled(4, 16);
    Pow2Doubled(8, 256);
    Pow2Doubled(16, 65536);
    Pow2Doubled(32, RustInt.TWO_32);
  }

  lemma Pow2Monotone(m: nat, n: nat)
    requires m <= n
    ensures Pow2(m) <= Pow2(n)
  {
    Pow2Add(m, n - m);
    RustInt.Scale(Pow2(n - m), Pow2(m));
  }

  // Quotients and remainders by products.

  lemma DivOfProduct(x: nat, a: nat, b: nat)
    requires a > 0 && b > 0
    ensures a * b > 0
    ensures x / (a * b) == (x / a) / b
    ensures (x / a) % b == (x % (a * b)) / a
  {
    var y, low := Divided(x, a);
    var q, r := Divided(y, b);
    var ab := a * b;
    Regroup(q, b, r, a);
    RustInt.Scale(b, a);
    BelowProduct(r, low, a, b);
    var rest := r * a + low;
    assert x / ab == q && x % ab == rest by { QuotientIs(x, ab, q, rest); }
    assert rest / a == r by { QuotientIs(rest, a, r, low); }
  }

  lemma Regroup(q: nat, b: nat, r: nat, a: nat)
    ensures (q * b + r) * a == q * (a * b) + r * a
  {
    assert (q * b + r) * a == (q * b) * a + r * a;
    assert (q * b) * a == q * (a * b);
  }

  lemma BelowProduct(r: nat, low: nat, a: nat, b: nat)
    requires r < b && low < a
    ensures r * a + low < a * b
  {
    assert (r + 1) * a <= b * a by { assert (b - r - 1) * a >= 0; }
  }

  lemma ModOfMultiple(h: nat, a: nat, b: nat)
    requires a > 0 && b > 0
    ensures a * b > 0
    ensures (h * a) % (a * b) == (h % b) * a
  {
    var q, r := h / b, h % b;
    Regroup(q, b, r, a);
    RustInt.Scale(b, a);
    assert r * a < a * b by { BelowProduct(r, 0, a, b); }
    QuotientIs(h * a, a * b, q, r * a);
  }
}

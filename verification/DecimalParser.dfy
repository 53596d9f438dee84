/** Decimal text to fixed point with eight decimals, as the exchange's prices and sizes
    are parsed: one pass over the bytes, then padding or truncating to eight places. */
module DecimalParser {
  import opened RustInt
  import Errors
  import opened Reals
  import Bits

  /** A panic is a division by a power of ten that has wrapped to zero. */
  datatype Outcome = Ok(value: int) | Err(error: Errors.ProtocolError) | Panic

  datatype Scanned = Digits(number: int, point: int) | Rejected(byte: Byte)

  const PLACES: nat := 8
  const MINUS: Byte := 45
  const DOT: Byte := 46

  predicate IsDigit(b: Byte) {
    48 <= b <= 57
  }

  function Digit(b: Byte): nat {
    if IsDigit(b) then b - 48 else 0
  }

  function Pow10(n: nat): (p: nat)
    ensures p > 0
  {
    if n == 0 then 1 else 10 * Pow10(n - 1)
  }

  function Negative(bytes: seq<Byte>): bool {
    bytes != [] && bytes[0] == MINUS
  }

  function Body(bytes: seq<Byte>): seq<Byte> {
    if Negative(bytes) then bytes[1..] else bytes
  }

  /** Digits with at most one point. */
  predicate WellFormed(body: seq<Byte>) {
    && (forall i :: 0 <= i < |body| ==> IsDigit(body[i]) || body[i] == DOT)
    && (forall i, j :: 0 <= i < j < |body| && body[i] == DOT ==> body[j] != DOT)
  }

  predicate Accepted(bytes: seq<Byte>) {
    bytes != [] && WellFormed(Body(bytes))
  }

  /** Position of the first point, or the length when there is none. */
  function DotIndex(body: seq<Byte>): (i: nat)
    ensures i <= |body|
    ensures i < |body| ==> body[i] == DOT
    ensures forall j :: 0 <= j < i ==> body[j] != DOT
  {
    if body == [] || body[0] == DOT then 0 else 1 + DotIndex(body[1..])
  }

  function Decimals(body: seq<Byte>): nat {
    if DotIndex(body) < |body| then |body| - DotIndex(body) - 1 else 0
  }

  /** The digits read as one whole number, the point ignored. */
  function Number(s: seq<Byte>): nat {
    if s == [] then 0
    else
      var init, last := s[..|s| - 1], s[|s| - 1];
      if last == DOT then Number(init) else 10 * Number(init) + Digit(last)
  }

  // What the text means, independently of how it is scanned.

  /** 0.d1 d2 d3 ... */
  function Fraction(digits: seq<Byte>): real {
    if digits == [] then 0.0 else (Digit(digits[0]) as real + Fraction(digits[1..])) / 10.0
  }

  function Magnitude(body: seq<Byte>): real {
    var dot := DotIndex(body);
    Number(body[..dot]) as real + if dot < |body| then Fraction(body[dot + 1..]) else 0.0
  }

  /** The value of the text times 10^8, cut toward zero. */
  function Meaning(bytes: seq<Byte>): int {
    var cut := (Magnitude(Body(bytes)) * 100_000_000.0).Floor;
    if Negative(bytes) then -cut else cut
  }

  // What the code computes from the digits it has read.

  function Signed(negative: bool, x: int): int {
    if negative then WrapI64(-x) else x
  }

  function Scaled(digits: int, decimals: nat, negative: bool): Outcome {
    if decimals < PLACES then
      Ok(Signed(negative, WrapI64(digits * WrapI64(Pow10(PLACES - decimals)))))
    else if decimals > PLACES then
      var factor := WrapI64(Pow10(WrapU32(decimals - PLACES)));
      if factor == 0 then Panic else Ok(Signed(negative, TruncDiv(digits, factor)))
    else
      Ok(Signed(negative, digits))
  }

  /** What Parse returns for accepted text. */
  function Parsed(bytes: seq<Byte>): Outcome {
    Scaled(WrapI64(Number(Body(bytes))), Decimals(Body(bytes)), Negative(bytes))
  }

  lemma WrapSnoc(n: nat, digit: nat)
    ensures WrapI64(WrapI64(n) * 10 + digit) == WrapI64(10 * n + digit)
  {
    WrapI64Congruent(n);
    var k: int :| WrapI64(n) == n + k * TWO_64;
    WrapI64OfCongruent(10 * n + digit, 10 * k);
    assert WrapI64(n) * 10 + digit == 10 * n + digit + 10 * k * TWO_64;
  }

  lemma PrefixNumber(s: seq<Byte>, i: nat)
    requires i < |s|
    ensures Number(s[..i + 1]) == if s[i] == DOT then Number(s[..i]) else 10 * Number(s[..i]) + Digit(s[i])
  {
    assert s[..i + 1][..i] == s[..i];
  }

  lemma PrefixStep(body: seq<Byte>, i: nat)
    requires i < |body| && WellFormed(body[..i])
    ensures WellFormed(body[..i + 1]) <==> IsDigit(body[i]) || (body[i] == DOT && DOT !in body[..i])
    ensures WellFormed(body) ==> WellFormed(body[..i + 1])
  {
    var longer := body[..i + 1];
    assert longer == body[..i] + [body[i]];
    if body[i] == DOT && DOT in body[..i] {
      var j :| 0 <= j < i && body[..i][j] == DOT;
      assert longer[j] == DOT && longer[i] == DOT;
    }
  }

  /** The first byte that cannot continue the number is the one reported. */
  predicate RejectedAt(body: seq<Byte>, i: nat, byte: Byte) {
    i < |body| && WellFormed(body[..i]) && !WellFormed(body[..i + 1]) && byte == body[i]
  }

  lemma FirstDot(body: seq<Byte>, i: nat)
    requires i <= |body| && DOT !in body[..i] && (i < |body| ==> body[i] == DOT)
    ensures DotIndex(body) == i
  {
    forall j | 0 <= j < i ensures body[j] != DOT {
      assert body[..i][j] == body[j];
    }
  }

  /** The scanning loop of Parse: the wrapped number, and where the point is or -1. */
  method Scan(body: seq<Byte>) returns (r: Scanned)
    ensures r.Digits? <==> WellFormed(body)
    ensures r.Digits? ==> r.number == WrapI64(Number(body))
    ensures r.Digits? ==> r.point == if DotIndex(body) < |body| then DotIndex(body) else -1
    ensures r.Rejected? ==> exists i: nat :: RejectedAt(body, i, r.byte)
  {
    var result := 0;
    var decimalPos := -1;
    for pos := 0 to |body|
      invariant WellFormed(body[..pos]) && result == WrapI64(Number(body[..pos]))
      invariant decimalPos == -1 ==> DOT !in body[..pos]
      invariant decimalPos != -1 ==> 0 <= decimalPos < pos && DotIndex(body) == decimalPos
    {
      PrefixStep(body, pos);
      PrefixNumber(body, pos);
      if IsDigit(body[pos]) {
        WrapSnoc(Number(body[..pos]), Digit(body[pos]));
        result := WrapI64(result * 10 + (body[pos] - 48));
      } else if body[pos] == DOT && decimalPos == -1 {
        FirstDot(body, pos);
        decimalPos := pos;
      } else {
        if decimalPos != -1 {
          assert body[..pos][decimalPos] == DOT;
        }
        assert RejectedAt(body, pos, body[pos]);
        return Rejected(body[pos]);
      }
    }
    assert body[..|body|] == body;
    if decimalPos == -1 {
      FirstDot(body, |body|);
    }
    r := Digits(result, decimalPos);
  }

  /** The end of Parse: pad or truncate to eight places, then apply the sign. */
  method Rescale(digits: int, decimalsRead: nat, negative: bool) returns (r: Outcome)
    ensures r == Scaled(digits, decimalsRead, negative)
  {
    var result := digits;
    if decimalsRead < PLACES {
      var scaleFactor := WrapI64(Pow10(PLACES - decimalsRead));
      result := WrapI64(result * scaleFactor);
    } else if decimalsRead > PLACES {
      var scaleFactor := WrapI64(Pow10(WrapU32(decimalsRead - PLACES)));
      if scaleFactor == 0 {
        return Panic;
      }
      result := TruncDiv(result, scaleFactor);
    }
    if negative {
      result := WrapI64(-result);
    }
    r := Ok(result);
  }

  method Parse(bytes: seq<Byte>) returns (r: Outcome)
    ensures bytes == [] ==> r == Err(Errors.InvalidLength(1, 0))
    ensures Accepted(bytes) ==> r == Parsed(bytes)
    ensures bytes != [] && !Accepted(bytes) ==>
              exists i: nat, byte :: RejectedAt(Body(bytes), i, byte) && r == Err(Errors.InvalidHeader(byte))
  {
    if bytes == [] {
      return Err(Errors.InvalidLength(1, 0));
    }
    var negative := bytes[0] == MINUS;
    var body := if negative then bytes[1..] else bytes;
    var scanned := Scan(body);
    match scanned {
      case Rejected(byte) =>
        r := Err(Errors.InvalidHeader(byte));
      case Digits(number, point) =>
        var decimalsRead := if point != -1 then |body| - point - 1 else 0;
        r := Rescale(number, decimalsRead, negative);
    }
  }

  // The number and the point together are the value of the text.

  lemma NumberSnoc(s: seq<Byte>, b: Byte)
    requires b != DOT
    ensures Number(s + [b]) == 10 * Number(s) + Digit(b)
  {
    assert (s + [b])[..|s|] == s;
  }

  lemma TenTimes(x: nat, p: nat, n: nat, digit: nat)
    ensures 10 * (x * p + n) + digit == x * (10 * p) + (10 * n + digit)
  {
    assert x * (10 * p) == 10 * (x * p);
  }

  /** p stands for Pow10(|b|), here and below. */
  lemma {:induction false} NumberOfParts(a: seq<Byte>, b: seq<Byte>, p: nat)
    requires DOT !in b && p == Pow10(|b|)
    ensures Number(a + b) == Number(a) * p + Number(b)
    decreases |b|
  {
    if b == [] {
      assert a + b == a;
    } else {
      var init, last := b[..|b| - 1], b[|b| - 1];
      var q := Pow10(|init|);
      NumberOfParts(a, init, q);
      assert a + b == (a + init) + [last] && b == init + [last];
      NumberSnoc(a + init, last);
      NumberSnoc(init, last);
      TenTimes(Number(a), q, Number(init), Digit(last));
    }
  }

  lemma TenthOf(x: real, digit: nat, rest: real, p: nat, q: nat, m: int, n: nat)
    requires x == (digit as real + rest) / 10.0 && p == 10 * q && m == digit * q + n
    requires rest * (q as real) == n as real
    ensures x * (p as real) == m as real
  {
    var r := q as real;
    assert p as real == 10.0 * r;
    assert x * (10.0 * r) == x * 10.0 * r;
    assert x * 10.0 == digit as real + rest;
    assert (digit as real + rest) * r == digit as real * r + rest * r;
    assert digit as real * r == (digit * q) as real;
  }

  lemma OneDigit(b: Byte)
    requires b != DOT
    ensures Number([b]) == Digit(b)
  {
    NumberSnoc([], b);
    assert [] + [b] == [b];
  }

  lemma NumberCons(b: Byte, rest: seq<Byte>, p: nat)
    requires b != DOT && DOT !in rest && p == Pow10(|rest|)
    ensures Number([b] + rest) == Digit(b) * p + Number(rest)
  {
    NumberOfParts([b], rest, p);
    OneDigit(b);
  }

  /** x and m stand for Fraction(f) and Number(f): a product of function values is slow to reason about. */
  lemma {:induction false} FractionOfDigits(f: seq<Byte>, p: nat, x: real, m: int)
    requires DOT !in f && p == Pow10(|f|) && x == Fraction(f) && m == Number(f)
    ensures x * (p as real) == m as real
    decreases |f|
  {
    if f != [] {
      var first, rest := f[0], f[1..];
      var q := Pow10(|rest|);
      assert f == [first] + rest;
      NumberCons(first, rest, q);
      var y, n := Fraction(rest), Number(rest);
      assert x == (Digit(first) as real + y) / 10.0 && m == Digit(first) * q + n;
      FractionOfDigits(rest, q, y, n);
      TenthOf(x, Digit(first), y, p, q, m, n);
    }
  }

  lemma SumScaled(x: real, w: nat, rest: real, p: nat, m: int, n: nat)
    requires x == w as real + rest && m == w * p + n
    requires rest * (p as real) == n as real
    ensures x * (p as real) == m as real
  {
    var q := p as real;
    assert (w as real + rest) * q == w as real * q + rest * q;
    assert w as real * q == (w * p) as real;
  }

  lemma PointSplits(body: seq<Byte>, dot: nat, p: nat, w: nat, n: nat)
    requires WellFormed(body) && dot == DotIndex(body) < |body| && p == Pow10(|body| - dot - 1)
    requires w == Number(body[..dot]) && n == Number(body[dot + 1..])
    ensures DOT !in body[dot + 1..] && Number(body) == w * p + n
  {
    var f := body[dot + 1..];
    assert body == body[..dot + 1] + f;
    PrefixNumber(body, dot);
    NumberOfParts(body[..dot + 1], f, p);
  }

  /** The scanned number is the magnitude times ten to the number of decimals. */
  lemma NumberIsMagnitude(body: seq<Byte>, p: nat, x: real, m: int)
    requires WellFormed(body) && p == Pow10(Decimals(body)) && x == Magnitude(body) && m == Number(body)
    ensures x * (p as real) == m as real
  {
    var dot := DotIndex(body);
    if dot == |body| {
      assert body[..dot] == body;
    } else {
      var f := body[dot + 1..];
      var w, y, n := Number(body[..dot]), Fraction(f), Number(f);
      PointSplits(body, dot, p, w, n);
      FractionOfDigits(f, p, y, n);
      SumScaled(x, w, y, p, m, n);
    }
  }

  lemma FloorBetween(x: real, q: int, e: real)
    requires e > 0.0 && q as real * e <= x * e < (q + 1) as real * e
    ensures x.Floor == q
  {
    ScaleReal(x, q as real, e);
    ScaleReal((q + 1) as real, x, e);
  }

  lemma ProductAsReal(a: int, b: int)
    ensures (a * b) as real == a as real * b as real
  {
  }

  lemma FloorOfQuotient(x: real, n: nat, d: nat)
    requires d > 0 && x * (d as real) == n as real
    ensures x.Floor == n / d
  {
    QuotientBounds(n, d);
    ProductAsReal(n / d, d);
    ProductAsReal(n / d + 1, d);
    FloorBetween(x, n / d, d as real);
  }

  lemma QuotientBounds(n: nat, d: nat)
    requires d > 0
    ensures n / d * d <= n < (n / d + 1) * d
  {
    var q := n / d;
    assert n == q * d + n % d;
    assert (q + 1) * d == q * d + d;
  }

  lemma TenfoldProduct(a: nat, b: nat)
    ensures 10 * (a * b) == (10 * a) * b
  {
  }

  lemma {:induction false} Pow10Add(m: nat, n: nat)
    ensures Pow10(m + n) == Pow10(m) * Pow10(n)
  {
    if m > 0 {
      Pow10Add(m - 1, n);
      TenfoldProduct(Pow10(m - 1), Pow10(n));
    }
  }

  lemma Pow10Sizes()
    ensures Pow10(8) == 100_000_000 && Pow10(18) == 1_000_000_000_000_000_000
  {
    assert Pow10(4) == 10000;
    Pow10Add(4, 4);
    Pow10Add(8, 2);
    Pow10Add(8, 10);
  }

  lemma Pow10Between(m: nat, n: nat)
    requires m <= n
    ensures Pow10(m) <= Pow10(n)
  {
    Pow10Add(m, n - m);
    Scale(Pow10(n - m), Pow10(m));
  }

  /** The whole number of 10^-8 units the text stands for, before the sign. */
  function Units(body: seq<Byte>): nat {
    var d := Decimals(body);
    if d <= PLACES then Number(body) * Pow10(PLACES - d) else Bits.Quotient(Number(body), Pow10(d - PLACES))
  }

  lemma PadUnits(x: real, p: nat, s: nat, m: int)
    requires x * (p as real) == m as real && p * s == 100_000_000
    ensures (x * 100_000_000.0).Floor == m * s
  {
    var a, b := p as real, s as real;
    assert a * b == 100_000_000.0 by { ProductAsReal(p, s); }
    assert x * (a * b) == x * a * b;
    ProductAsReal(m, s);
  }

  lemma CutUnits(x: real, p: nat, s: nat, m: nat)
    requires x * (p as real) == m as real && p == 100_000_000 * s && s > 0
    ensures (x * 100_000_000.0).Floor == m / s
  {
    var a, b := p as real, s as real;
    assert a == 100_000_000.0 * b;
    assert x * (100_000_000.0 * b) == x * 100_000_000.0 * b;
    FloorOfQuotient(x * 100_000_000.0, m, s);
  }

  lemma UnitsAreMeaning(body: seq<Byte>)
    requires WellFormed(body)
    ensures (Magnitude(body) * 100_000_000.0).Floor == Units(body)
  {
    var d, x, m := Decimals(body), Magnitude(body), Number(body);
    var p := Pow10(d);
    NumberIsMagnitude(body, p, x, m);
    Pow10Sizes();
    if d <= PLACES {
      Pow10Add(d, PLACES - d);
      PadUnits(x, p, Pow10(PLACES - d), m);
    } else {
      Pow10Add(PLACES, d - PLACES);
      CutUnits(x, p, Pow10(d - PLACES), m);
    }
  }

  lemma WrapTwice(m: int, s: int)
    ensures WrapI64(WrapI64(m) * s) == WrapI64(m * s)
  {
    WrapI64Congruent(m);
    var k: int :| WrapI64(m) == m + k * TWO_64;
    assert (m + k * TWO_64) * s == m * s + k * s * TWO_64;
    WrapI64OfCongruent(m * s, k * s);
  }

  lemma SignOfWrapped(negative: bool, y: int)
    ensures Signed(negative, WrapI64(y)) == WrapI64(if negative then -y else y)
  {
    if negative {
      WrapTwice(y, -1);
    }
  }

  lemma QuotientOfWrapped(m: nat, d: nat)
    requires 10 <= d <= 1_000_000_000_000_000_000
    ensures TruncDiv(WrapI64(m), d) == m / d <==> FitsI64(m)
    ensures Abs(TruncDiv(WrapI64(m), d)) < TWO_63
  {
    var w := WrapI64(m);
    var q, t := m / d, TruncDiv(w, d);
    TruncDivRemainder(w, d);
    TruncDivRemainder(m, d);
    SmallQuotient(w, t, d);
    if !FitsI64(m) {
      WrapI64Congruent(m);
      var k: int :| w == m + k * TWO_64;
      assert m - w >= TWO_64;
      if t == q {
        assert false;
      }
    }
  }

  lemma NegatedProduct(t: int, d: int)
    ensures (-t) * d == -(t * d)
  {
  }

  lemma Expanded(b: nat, e: nat)
    ensures (b + 1) * (e + 10) == b * e + 10 * b + e + 10 && b * e >= 0
  {
  }

  lemma SmallFactor(a: nat, d: nat, x: nat)
    requires 10 <= d && x <= TWO_63 && a * d < x + d
    ensures a < TWO_63
  {
    if a > 0 {
      Expanded(a - 1, d - 10);
    }
  }

  lemma SmallQuotient(w: int, t: int, d: nat)
    requires FitsI64(w) && 10 <= d && Abs(w - t * d) < d
    ensures Abs(t) < TWO_63
  {
    if t < 0 {
      NegatedProduct(t, d);
      SmallFactor(-t, d, TWO_63);
    } else {
      SmallFactor(t, d, TWO_63);
    }
  }

  /** What a caller can check: the scaled value fits an i64, or, when more than eight decimals
      are given, the digits read as one whole number do. */
  predicate Representable(bytes: seq<Byte>) {
    var m, d := Number(Body(bytes)), Decimals(Body(bytes));
    if d <= PLACES then FitsI64(if Negative(bytes) then -(m * Pow10(PLACES - d)) else m * Pow10(PLACES - d))
    else FitsI64(m)
  }

  lemma PaddedExactly(m: nat, d: nat, negative: bool, s: nat, y: int)
    requires d <= PLACES && s == Pow10(PLACES - d) && y == m * s
    ensures Scaled(WrapI64(m), d, negative) == Ok(WrapI64(if negative then -y else y))
  {
    Pow10Sizes();
    Pow10Between(PLACES - d, 8);
    WrapTwice(m, s);
    SignOfWrapped(negative, y);
    assert d == PLACES ==> s == 1 && y == m;
  }

  lemma CutDivisor(e: nat, s: nat)
    requires 0 < e <= 18 && s == Pow10(e)
    ensures 10 <= s <= 1_000_000_000_000_000_000
    ensures WrapI64(Pow10(WrapU32(e))) == s
  {
    Pow10Sizes();
    Pow10Between(1, e);
    Pow10Between(e, 18);
  }

  lemma CutExactly(m: nat, d: nat, negative: bool, s: nat, q: int)
    requires PLACES < d <= 26 && s == Pow10(d - PLACES) && q == m / s
    ensures Scaled(WrapI64(m), d, negative) == Ok(if negative then -q else q) <==> FitsI64(m)
  {
    CutDivisor(d - PLACES, s);
    var t := TruncDiv(WrapI64(m), s);
    QuotientOfWrapped(m, s);
    assert Signed(negative, t) == if negative then -t else t;
  }

  /** With at most 26 decimals the result is the exact value, cut toward zero, precisely for representable text. */
  lemma ParsesExactly(bytes: seq<Byte>)
    requires Accepted(bytes) && Decimals(Body(bytes)) <= 26
    ensures Parsed(bytes) == Ok(Meaning(bytes)) <==> Representable(bytes)
  {
    var m, d := Number(Body(bytes)), Decimals(Body(bytes));
    UnitsAreMeaning(Body(bytes));
    if d <= PLACES {
      PaddedExactly(m, d, Negative(bytes), Pow10(PLACES - d), m * Pow10(PLACES - d));
    } else {
      CutExactly(m, d, Negative(bytes), Pow10(d - PLACES), Bits.Quotient(m, Pow10(d - PLACES)));
    }
  }

  // Beyond 26 decimals the divisor itself wraps.

  lemma LongMeaningIsZero(body: seq<Byte>)
    requires WellFormed(body) && Decimals(body) > 26 && FitsI64(Number(body))
    ensures Units(body) == 0
  {
    Pow10Sizes();
    Pow10Between(19, Decimals(body) - PLACES);
    assert Pow10(19) == 10 * Pow10(18);
  }

  lemma QuotientIsZero(m: nat, w: int)
    requires w != 0
    ensures m / w == 0 <==> m < Abs(w)
  {
    assert m == m / w * w + m % w;
  }

  lemma SignedQuotientIsZero(negative: bool, m: nat, divisor: int)
    requires FitsI64(m) && divisor != 0
    ensures Signed(negative, TruncDiv(m, divisor)) == 0 <==> m < Abs(divisor)
  {
    QuotientIsZero(m, divisor);
    QuotientFits(m, divisor);
  }

  lemma LongScaled(digits: int, d: nat, negative: bool, divisor: int)
    requires PLACES < d < TWO_32 && divisor == WrapI64(Pow10(d - PLACES))
    ensures Scaled(digits, d, negative)
         == if divisor == 0 then Panic else Ok(Signed(negative, TruncDiv(digits, divisor)))
  {
    SmallMod(d - PLACES, TWO_32);
  }

  /** Text with 27 or more decimals, whose digits fit an i64, is zero at eight places.
      It is read as zero precisely when those digits are below the wrapped divisor. */
  lemma LongTextExactly(bytes: seq<Byte>, divisor: int)
    requires Accepted(bytes) && 26 < Decimals(Body(bytes)) < TWO_32 && FitsI64(Number(Body(bytes)))
    requires divisor == WrapI64(Pow10(Decimals(Body(bytes)) - PLACES))
    ensures Parsed(bytes) == Ok(Meaning(bytes)) <==> Number(Body(bytes)) < Abs(divisor)
  {
    UnitsAreMeaning(Body(bytes));
    LongMeaningIsZero(Body(bytes));
    LongScaled(WrapI64(Number(Body(bytes))), Decimals(Body(bytes)), Negative(bytes), divisor);
    if divisor != 0 {
      SignedQuotientIsZero(Negative(bytes), Number(Body(bytes)), divisor);
    }
  }

  lemma ProductAtLeast(a: nat, b: nat)
    requires b > 0
    ensures a * b >= a
  {
    assert a * (b - 1) >= 0;
  }

  /** A quotient t with remainder r is no larger than the dividend. */
  lemma QuotientBound(m: nat, w: int, t: int, r: nat, b: nat)
    requires b == Abs(w) && b > 0 && m == t * w + r && r < b
    ensures Abs(t) <= m
  {
    var a: nat := Abs(t);
    ProductAtLeast(a, b);
    if a > 0 {
      ProductAtLeast(b, a);
    }
    assert a * b == t * w || a * b == -(t * w);
  }

  lemma QuotientFits(m: nat, w: int)
    requires w != 0 && FitsI64(m)
    ensures FitsI64(m / w)
  {
    var t, r := m / w, m % w;
    assert m == t * w + r;
    QuotientBound(m, w, t, r, Abs(w));
  }

  // When the divisor wraps to zero.

  function Pow5(n: nat): (p: nat)
    ensures p % 2 == 1
  {
    if n == 0 then 1 else 5 * Pow5(n - 1)
  }

  lemma {:induction false} Pow10Factors(n: nat)
    ensures Pow10(n) == Pow5(n) * Bits.Pow2(n)
  {
    if n > 0 {
      Pow10Factors(n - 1);
      TenfoldFactors(Pow5(n - 1), Bits.Pow2(n - 1));
    }
  }

  lemma TenfoldFactors(a: nat, b: nat)
    ensures 10 * (a * b) == (5 * a) * (2 * b)
  {
    assert (5 * a) * (2 * b) == 10 * (a * b);
  }

  lemma WrapsToZero(x: int)
    ensures WrapI64(x) == 0 <==> x % TWO_64 == 0
  {
    if FitsI64(x) {
      if x < 0 { assert (x + TWO_64) % TWO_64 == x + TWO_64; ModShift(x, 1, TWO_64); }
    } else {
      ModShift(x - TWO_63, 1, TWO_64);
      ModShift(x, 1, TWO_64);
    }
  }

  lemma OddTimesPower(x: nat, odd: nat, low: nat, high: nat, half: nat)
    requires x == odd * low && odd % 2 == 1
    requires low > 0 && high == 2 * half && half > 0 && TWO_64 == low * high
    ensures x % TWO_64 != 0
  {
    Bits.ModOfMultiple(odd, low, high);
    var q, r := odd / high, odd % high;
    assert odd == q * high + r;
    assert q * high == 2 * (q * half);
    Scale(r, low);
  }

  /** Parsing panics precisely when 72 or more decimals are given. */
  lemma PanicsExactly(bytes: seq<Byte>)
    requires Accepted(bytes) && Decimals(Body(bytes)) < TWO_32
    ensures Parsed(bytes) == Panic <==> Decimals(Body(bytes)) >= 72
  {
    var d := Decimals(Body(bytes));
    if d > PLACES {
      LongScaled(WrapI64(Number(Body(bytes))), d, Negative(bytes), WrapI64(Pow10(d - PLACES)));
      DivisorWrapsToZero(d - PLACES);
    }
  }

  lemma MultipleOfWord(x: nat, odd: nat, low: nat, k: nat)
    requires x == odd * low && low == TWO_64 * k
    ensures x % TWO_64 == 0
  {
    assert odd * (TWO_64 * k) == (odd * k) * TWO_64;
    ModShift(0, odd * k, TWO_64);
  }

  lemma LargePower(e: nat)
    requires e >= 64
    ensures Pow10(e) % TWO_64 == 0
  {
    Pow10Factors(e);
    Bits.WordSizes();
    Bits.Pow2Add(64, e - 64);
    MultipleOfWord(Pow10(e), Pow5(e), Bits.Pow2(e), Bits.Pow2(e - 64));
  }

  lemma SmallPower(e: nat)
    requires e < 64
    ensures Pow10(e) % TWO_64 != 0
  {
    Pow10Factors(e);
    Bits.WordSizes();
    Bits.Pow2Add(e, 64 - e);
    OddTimesPower(Pow10(e), Pow5(e), Bits.Pow2(e), Bits.Pow2(64 - e), Bits.Pow2(63 - e));
  }

  lemma DivisorWrapsToZero(e: nat)
    ensures WrapI64(Pow10(e)) == 0 <==> e >= 64
  {
    WrapsToZero(Pow10(e));
    if e >= 64 {
      LargePower(e);
    } else {
      SmallPower(e);
    }
  }

  lemma MultipleExceeds(w: int, k: int, unit: nat)
    requires w == k * unit && w != 0
    ensures Abs(w) >= unit
  {
    if k > 0 { Scale(k, unit); } else { Scale(-k, unit); }
  }

  lemma MultipleOf2To19(x: nat, odd: nat, high: nat, j: int, w: int)
    requires x == odd * (524288 * high) && w == x + j * TWO_64 && w != 0
    ensures Abs(w) >= 524288
  {
    assert odd * (524288 * high) == (odd * high) * 524288;
    MultipleExceeds(w, odd * high + j * 35_184_372_088_832, 524288);
  }

  lemma PowerOfTwo19()
    ensures Bits.Pow2(19) == 524288
  {
    Bits.WordSizes();
    Bits.Pow2Add(8, 8);
    Bits.Pow2Add(16, 3);
  }

  /** A wrapped power of ten from 10^19 up is a multiple of 2^19. */
  lemma WrappedPowerIsLarge(e: nat, w: int)
    requires e >= 19 && w == WrapI64(Pow10(e)) && w != 0
    ensures Abs(w) >= 524288
  {
    Pow10Factors(e);
    Bits.Pow2Add(19, e - 19);
    PowerOfTwo19();
    WrapI64Congruent(Pow10(e));
    var j: int :| w == Pow10(e) + j * TWO_64;
    MultipleOf2To19(Pow10(e), Pow5(e), Bits.Pow2(e - 19), j, w);
  }

  lemma AbsProduct(t: int, w: int)
    ensures Abs(t * w) == Abs(t) * Abs(w)
  {
  }

  /** The product of a truncated quotient and its divisor is no larger than the dividend. */
  lemma TruncatedProduct(x: int, t: int, w: int)
    requires w != 0 && t == TruncDiv(x, w)
    ensures Abs(t) * Abs(w) <= Abs(x)
  {
    TruncDivRemainder(x, w);
    AbsProduct(t, w);
    if t != 0 {
      ProductAtLeast(Abs(w), Abs(t));
    }
  }

  lemma SmallAgainstLarge(a: nat, b: nat)
    requires a * b <= TWO_63 && b >= 524288
    ensures a <= 17_592_186_044_416
  {
    assert a * (b - 524288) == a * b - a * 524288 && a * (b - 524288) >= 0;
  }

  /** With 27 or more decimals the divisor has wrapped, and whatever the digits are the result is at most 2^44
      units: no text of a larger value is read correctly. */
  lemma LongTextLosesLargeValues(bytes: seq<Byte>)
    requires Accepted(bytes) && 26 < Decimals(Body(bytes)) < TWO_32
    ensures Parsed(bytes).Ok? ==> Abs(Parsed(bytes).value) <= 17_592_186_044_416
    ensures Abs(Meaning(bytes)) > 17_592_186_044_416 ==> Parsed(bytes) != Ok(Meaning(bytes))
  {
    var e := Decimals(Body(bytes)) - PLACES;
    var digits, w := WrapI64(Number(Body(bytes))), WrapI64(Pow10(e));
    LongScaled(digits, Decimals(Body(bytes)), Negative(bytes), w);
    if w != 0 {
      WrappedPowerIsLarge(e, w);
      TruncatedProduct(digits, TruncDiv(digits, w), w);
      SmallAgainstLarge(Abs(TruncDiv(digits, w)), Abs(w));
    }
  }

  // The notation.

  /** What is accepted: an optional minus, then digits with at most one point among them; nothing else is needed. */
  lemma AcceptedExactly(bytes: seq<Byte>)
    requires bytes != []
    ensures var from := if bytes[0] == 45 then 1 else 0;
      Accepted(bytes) <==>
        && (forall i :: from <= i < |bytes| ==> 48 <= bytes[i] <= 57 || bytes[i] == 46)
        && (forall i, j :: from <= i < j < |bytes| ==> !(bytes[i] == 46 && bytes[j] == 46))
  {
    var from, body := if bytes[0] == 45 then 1 else 0, Body(bytes);
    assert forall i :: from <= i < |bytes| ==> bytes[i] == body[i - from];
    assert forall i :: 0 <= i < |body| ==> body[i] == bytes[i + from];
  }

  /** A minus in front negates the value. */
  lemma MinusNegates(text: seq<Byte>)
    requires text != [] && text[0] != 45
    ensures Meaning([45] + text) == -Meaning(text)
  {
    assert ([45] + text)[1..] == text;
  }

  /** One digit is worth its place: it follows ten times the number before it, or is a tenth right after the point. */
  lemma PlaceValues(s: seq<Byte>, b: Byte)
    requires 48 <= b <= 57
    ensures Number(s + [b]) == 10 * Number(s) + (b - 48)
    ensures Number(s + [46]) == Number(s)
    ensures Fraction([b] + s) == ((b - 48) as real + Fraction(s)) / 10.0
  {
    assert (s + [b])[..|s|] == s && (s + [46])[..|s|] == s && ([b] + s)[1..] == s;
  }
}

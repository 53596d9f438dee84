/** Symbols packed into two 64-bit words, at 4, 5, 6 or 7 bits a character. */
module SymbolCodec {
  import opened RustInt
  import opened Errors
  import opened Bits
  import opened Wrappers

  datatype CompressedString = CompressedString(low: nat, high: nat)

  datatype Scheme = Hex4Bit | Alphabetic5Bit | AlphaNumeric6Bit | Ascii7Bit

  function Width(scheme: Scheme): nat {
    match scheme
    case Hex4Bit => 4
    case Alphabetic5Bit => 5
    case AlphaNumeric6Bit => 6
    case Ascii7Bit => 7
  }

  function MaxLength(scheme: Scheme): nat {
    match scheme
    case Hex4Bit => 32
    case Alphabetic5Bit => 25
    case AlphaNumeric6Bit => 21
    case Ascii7Bit => 18
  }

  predicate Allowed(scheme: Scheme, c: char) {
    match scheme
    case Hex4Bit => '0' <= c <= '9' || 'A' <= c <= 'F' || 'a' <= c <= 'f'
    case Alphabetic5Bit => 'A' <= c <= 'Z'
    case AlphaNumeric6Bit => 'A' <= c <= 'Z' || '0' <= c <= '9'
    case Ascii7Bit => c as int < 128
  }

  /** The number packed for a character. 'F' and 'f' give 16, one more than four bits hold. */
  function Code(scheme: Scheme, c: char): nat
    requires Allowed(scheme, c)
  {
    match scheme
    case Hex4Bit =>
      if c <= '9' then c as int - '0' as int + 1
      else if c <= 'F' then c as int - 'A' as int + 11
      else c as int - 'a' as int + 11
    case Alphabetic5Bit => c as int - 'A' as int + 1
    case AlphaNumeric6Bit => if 'A' <= c then c as int - 'A' as int else c as int - '0' as int + 26
    case Ascii7Bit => c as int
  }

  /** The character a decoder pushes for a field, or None where it stops. */
  function Symbol(scheme: Scheme, value: nat): Option<char> {
    match scheme
    case Hex4Bit =>
      if 1 <= value <= 10 then Some((value - 1 + '0' as int) as char)
      else if 11 <= value <= 15 then Some((value - 11 + 'A' as int) as char)
      else None
    case Alphabetic5Bit => if 1 <= value <= 26 then Some((value - 1 + 'A' as int) as char) else None
    case AlphaNumeric6Bit =>
      if value < 26 then Some((value + 'A' as int) as char)
      else if value < 36 then Some((value - 26 + '0' as int) as char)
      else None
    case Ascii7Bit => if 1 <= value <= 127 then Some(value as char) else None
  }

  /** Length in bytes, which is what the encoders compare with their limits. */
  function Utf8Length(s: string): (n: nat)
    ensures n >= |s|
  {
    if s == "" then 0
    else
      var c := s[|s| - 1] as int;
      Utf8Length(s[..|s| - 1]) + if c < 0x80 then 1 else if c < 0x800 then 2 else if c < 0x1_0000 then 3 else 4
  }

  predicate AllAllowed(scheme: Scheme, s: string) {
    forall i :: 0 <= i < |s| ==> Allowed(scheme, s[i])
  }

  predicate Accepts(scheme: Scheme, s: string) {
    Utf8Length(s) <= MaxLength(scheme) && AllAllowed(scheme, s)
  }

  predicate Fits(c: CompressedString) {
    c.low < TWO_64 && c.high < TWO_64
  }

  /** The two words read as one 128-bit number. */
  function Value(c: CompressedString): nat {
    c.low + c.high * TWO_64
  }

  // Shifts and masks on 64-bit words.

  function Shl(v: nat, n: nat): nat {
    WrapU64(v * Pow2(n))
  }

  function Shr(v: nat, n: nat): nat {
    Quotient(v, Pow2(n))
  }

  function Mask(v: nat, n: nat): nat {
    v % Pow2(n)
  }

  // Writing one character.

  /** The bits a character contributes to each word at a bit position. */
  function Shifted(v: nat, p: nat, w: nat): CompressedString {
    if p + w <= 64 then CompressedString(Shl(v, p), 0)
    else if p >= 64 then CompressedString(0, Shl(v, p - 64))
    else CompressedString(Shl(v, p), Shr(v, 64 - p))
  }

  function Put(c: CompressedString, v: nat, p: nat, w: nat): CompressedString {
    var bits := Shifted(v, p, w);
    CompressedString(Or(c.low, bits.low), Or(c.high, bits.high))
  }

  function Packed(scheme: Scheme, s: string): CompressedString
    requires AllAllowed(scheme, s)
  {
    if s == "" then CompressedString(0, 0)
    else
      var n := |s| - 1;
      Put(Packed(scheme, s[..n]), Code(scheme, s[n]), Width(scheme) * n, Width(scheme))
  }

  // Reading one field.

  /** The field of w bits at position p of the 128-bit number. */
  function Field(c: CompressedString, p: nat, w: nat): nat {
    Value(c) / Pow2(p) % Pow2(w)
  }

  // The same arithmetic on plain numbers, with a, b, k, m powers of two.

  lemma SumTimes(q: nat, high: nat, a: nat, b: nat)
    ensures (q + high * b) * a == q * a + high * (a * b)
  {
    var h := high * b;
    assert (q + h) * a == q * a + h * a;
    assert high * b * a == high * (a * b);
  }

  lemma ShiftAcross(low: nat, high: nat, a: nat, b: nat)
    requires a > 0
    ensures (low + high * (a * b)) / a == low / a + high * b
  {
    var q, r := Divided(low, a);
    SumTimes(q, high, a, b);
    QuotientIs(low + high * (a * b), a, q + high * b, r);
  }

  lemma LowPart(low: nat, high: nat, a: nat, m: nat, k: nat, t: nat)
    requires a > 0 && m > 0 && t == a * (m * k)
    ensures (low + high * t) / a % m == low / a % m
  {
    ShiftAcross(low, high, a, m * k);
    assert high * (m * k) == (high * k) * m;
    ModShift(low / a, high * k, m);
  }

  lemma QuotientBelow(low: nat, a: nat, b: nat)
    requires a > 0 && low < a * b
    ensures low / a < b
  {
    var q, r := Divided(low, a);
    if q >= b {
      Exceeds(q, a, b);
      assert false;
    }
  }

  lemma Exceeds(q: nat, a: nat, b: nat)
    requires q >= b
    ensures q * a >= a * b
  {
    assert (q - b) * a >= 0;
  }

  lemma SpanPart(low: nat, high: nat, a: nat, b: nat, k: nat, t: nat, m: nat)
    requires a > 0 && b > 0 && k > 0 && low < t && t == a * b && m == b * k
    ensures low / a < b && m > 0
    ensures (low + high * t) / a % m == high % k * b + low / a
  {
    ShiftAcross(low, high, a, b);
    QuotientBelow(low, a, b);
    var q := low / a;
    var hq, hr := Divided(high, k);
    Regroup(hq, k, hr, b);
    Scale(k, b);
    BelowProduct(hr, q, b, k);
    QuotientIs(q + high * b, m, hq, hr * b + q);
  }

  lemma ModOfMod(x: nat, a: nat, b: nat)
    requires a > 0 && b > 0
    ensures a * b > 0
    ensures x % (a * b) % a == x % a
  {
    Scale(b, a);
    var q, r := Divided(x, a * b);
    assert q * (a * b) == (q * b) * a;
    ModShift(r, q * b, a);
  }

  // The three places a field can lie.

  lemma PowersSplit(p: nat, total: nat)
    requires p <= total
    ensures Pow2(p) * Pow2(total - p) == Pow2(total)
  {
    Pow2Add(p, total - p);
  }

  lemma WordSplit(p: nat)
    requires p <= 64
    ensures Pow2(p) * Pow2(64 - p) == TWO_64
  {
    WordSizes();
    PowersSplit(p, 64);
  }

  lemma WordSplitTwice(p: nat, w: nat)
    requires p + w <= 64
    ensures Pow2(p) * (Pow2(w) * Pow2(64 - p - w)) == TWO_64
  {
    WordSplit(p);
    PowersSplit(w, 64 - p);
  }

  lemma FieldInLow(c: CompressedString, p: nat, w: nat)
    requires Fits(c) && p + w <= 64
    ensures Field(c, p, w) == Mask(Shr(c.low, p), w)
  {
    WordSplitTwice(p, w);
    LowPart(c.low, c.high, Pow2(p), Pow2(w), Pow2(64 - p - w), TWO_64);
  }

  lemma FieldInHigh(c: CompressedString, p: nat, w: nat)
    requires Fits(c) && 64 <= p
    ensures Field(c, p, w) == Mask(Shr(c.high, p - 64), w)
  {
    WordSizes();
    PowersSplit(64, p);
    DivOfProduct(Value(c), TWO_64, Pow2(p - 64));
    QuotientIs(Value(c), TWO_64, c.high, c.low);
  }

  /** A field that spans has the top of low under the bottom of high. */
  lemma FieldIsJoined(c: CompressedString, p: nat, w: nat)
    requires Fits(c) && p < 64 < p + w && w <= 64
    ensures Shr(c.low, p) < Pow2(64 - p)
    ensures Field(c, p, w) == Mask(c.high, p + w - 64) * Pow2(64 - p) + Shr(c.low, p)
  {
    WordSplit(p);
    PowersSplit(64 - p, w);
    SpanPart(c.low, c.high, Pow2(p), Pow2(64 - p), Pow2(p + w - 64), TWO_64, Pow2(w));
  }

  lemma SmallMask(q: nat, n: nat, w: nat)
    requires q < Pow2(n) && n <= w
    ensures Mask(q, w) == q
  {
    Pow2Monotone(n, w);
    SmallMod(q, Pow2(w));
  }

  lemma HighMasked(high: nat, b: nat, k: nat, m: nat, rest: nat)
    requires b > 0 && k > 0 && rest > 0 && m == b * k && m > 0 && m * rest == TWO_64
    ensures WrapU64(high * b) % m == high % k * b
    ensures WrapU64(high % k * b) == high % k * b
  {
    ModOfMod(high * b, m, rest);
    ModOfMultiple(high, b, k);
    BelowProduct(high % k, 0, b, k);
    Exceeds(rest, m, 1);
  }

  lemma FieldSpans(c: CompressedString, p: nat, w: nat)
    requires Fits(c) && p < 64 < p + w && w <= 64
    ensures Field(c, p, w) == Or(Mask(Shr(c.low, p), 64 - p), Shl(Mask(c.high, p + w - 64), 64 - p))
    ensures Field(c, p, w) == Or(Mask(Shr(c.low, p), w), Mask(Shl(c.high, 64 - p), w))
  {
    FieldIsJoined(c, p, w);
    SmallMask(Shr(c.low, p), 64 - p, 64 - p);
    SmallMask(Shr(c.low, p), 64 - p, w);
    PowersSplit(64 - p, w);
    WordSplit(w);
    HighMasked(c.high, Pow2(64 - p), Pow2(p + w - 64), Pow2(w), Pow2(64 - w));
    OrDisjoint(Mask(c.high, p + w - 64), Shr(c.low, p), 64 - p);
  }

  method ReadNibble(c: CompressedString, p: nat) returns (value: nat)
    requires Fits(c) && p < 128
    ensures value == Field(c, p, 4)
  {
    if p < 64 {
      if p + 4 <= 64 {
        FieldInLow(c, p, 4);
        value := Mask(Shr(c.low, p), 4);
      } else {
        var bitsFromLow := 64 - p;
        var bitsFromHigh := 4 - bitsFromLow;
        FieldSpans(c, p, 4);
        var lowPart := Mask(Shr(c.low, p), bitsFromLow);
        var highPart := Mask(c.high, bitsFromHigh);
        value := Or(lowPart, Shl(highPart, bitsFromLow));
      }
    } else {
      FieldInHigh(c, p, 4);
      value := Mask(Shr(c.high, p - 64), 4);
    }
  }

  method ReadField(c: CompressedString, p: nat, w: nat) returns (value: nat)
    requires Fits(c) && p < 128 && 0 < w <= 64
    ensures value == Field(c, p, w)
  {
    if p < 64 {
      value := Mask(Shr(c.low, p), w);
      if p > 64 - w {
        var overflowBits := p + w - 64;
        FieldSpans(c, p, w);
        value := Or(value, Mask(Shl(c.high, w - overflowBits), w));
      } else {
        FieldInLow(c, p, w);
      }
    } else {
      FieldInHigh(c, p, w);
      value := Mask(Shr(c.high, p - 64), w);
    }
  }

  // What one write does to the 128-bit number.

  /** The part of a character's number that is not pushed out of its word. */
  function Kept(v: nat, p: nat, w: nat): nat {
    if p + w <= 64 then Mask(v, 64 - p) else if 64 <= p < 128 then Mask(v, 128 - p) else v
  }

  lemma LowShifted(v: nat, p: nat)
    requires p <= 64
    ensures Shl(v, p) == Mask(v, 64 - p) * Pow2(p)
  {
    WordSplit(p);
    ModOfMultiple(v, Pow2(p), Pow2(64 - p));
  }

  lemma ScaleTwice(x: nat, a: nat, b: nat, t: nat)
    requires t == a * b
    ensures x * a * b == x * t
  {
    assert x * a * b == x * (a * b);
  }

  lemma Rejoin(v: nat, a: nat, b: nat, t: nat)
    requires b > 0 && t == a * b
    ensures v % b * a + v / b * t == v * a
  {
    var q, r := Divided(v, b);
    assert (q * b + r) * a == q * b * a + r * a;
    assert q * b * a == q * (a * b);
  }

  /** The bits written are those kept, moved up to the bit position. */
  lemma ShiftedIsKept(v: nat, p: nat, w: nat)
    requires p < 128
    ensures Value(Shifted(v, p, w)) == Kept(v, p, w) * Pow2(p)
  {
    if p + w <= 64 {
      LowShifted(v, p);
    } else if p >= 64 {
      LowShifted(v, p - 64);
      WordSizes();
      PowersSplit(p - 64, p);
      ScaleTwice(Mask(v, 128 - p), Pow2(p - 64), TWO_64, Pow2(p));
    } else {
      LowShifted(v, p);
      WordSplit(p);
      Rejoin(v, Pow2(p), Pow2(64 - p), TWO_64);
    }
  }

  lemma QuotientAtMost(v: nat, m: nat)
    requires m > 0
    ensures v / m <= v
  {
    var q, r := Divided(v, m);
    Exceeds(m, q, 1);
  }

  lemma ShiftedFits(v: nat, p: nat, w: nat)
    requires v < TWO_64
    ensures Fits(Shifted(v, p, w))
  {
    if p < 64 {
      QuotientAtMost(v, Pow2(64 - p));
    }
  }

  lemma PutOrs(c: CompressedString, v: nat, p: nat, w: nat)
    requires Fits(c) && v < TWO_64
    ensures Fits(Put(c, v, p, w))
    ensures Value(Put(c, v, p, w)) == Or(Value(c), Value(Shifted(v, p, w)))
  {
    var bits := Shifted(v, p, w);
    ShiftedFits(v, p, w);
    WordSizes();
    OrWords(Value(c), c.high, c.low, Value(bits), bits.high, bits.low, 64, TWO_64);
    OrWords(c.high, 0, c.high, bits.high, 0, bits.high, 64, TWO_64);
  }

  lemma CodeRange(scheme: Scheme, c: char)
    requires Allowed(scheme, c)
    ensures Code(scheme, c) < 128
    ensures Code(scheme, c) < Pow2(Width(scheme)) || (scheme == Hex4Bit && c in "Ff" && Code(scheme, c) == 16)
  {
    WordSizes();
  }

  lemma {:induction false} PackedFits(scheme: Scheme, s: string)
    requires AllAllowed(scheme, s)
    ensures Fits(Packed(scheme, s))
  {
    if s != "" {
      var n := |s| - 1;
      PackedFits(scheme, s[..n]);
      CodeRange(scheme, s[n]);
      PutOrs(Packed(scheme, s[..n]), Code(scheme, s[n]), Width(scheme) * n, Width(scheme));
    }
  }

  function Bits128(scheme: Scheme, s: string): nat
    requires AllAllowed(scheme, s)
  {
    Value(Packed(scheme, s))
  }

  /** What is kept of the last character of a symbol. */
  function LastKept(scheme: Scheme, s: string): nat
    requires AllAllowed(scheme, s) && s != ""
  {
    Kept(Code(scheme, s[|s| - 1]), Width(scheme) * (|s| - 1), Width(scheme))
  }

  /** Packing one more character or-s its kept bits in above everything before it. */
  lemma PackedGrows(scheme: Scheme, s: string)
    requires AllAllowed(scheme, s) && 0 < |s| <= MaxLength(scheme)
    ensures Bits128(scheme, s)
         == Or(Bits128(scheme, s[..|s| - 1]), LastKept(scheme, s) * Pow2(Width(scheme) * (|s| - 1)))
  {
    var n := |s| - 1;
    PackedFits(scheme, s[..n]);
    CodeRange(scheme, s[n]);
    PutOrs(Packed(scheme, s[..n]), Code(scheme, s[n]), Width(scheme) * n, Width(scheme));
    ShiftedIsKept(Code(scheme, s[n]), Width(scheme) * n, Width(scheme));
  }

  // Every field of a packed symbol.

  predicate InRange(scheme: Scheme, c: char) {
    Allowed(scheme, c) && Code(scheme, c) < Pow2(Width(scheme))
  }

  predicate AllInRange(scheme: Scheme, s: string) {
    forall i :: 0 <= i < |s| ==> InRange(scheme, s[i])
  }

  lemma KeptWhole(v: nat, p: nat, w: nat)
    requires v < Pow2(w) && p + w <= 128
    ensures Kept(v, p, w) == v
  {
    if p + w <= 64 {
      SmallMask(v, w, 64 - p);
    } else if p >= 64 {
      SmallMask(v, w, 128 - p);
    }
  }

  lemma KeptOverflow(p: nat)
    requires p % 4 == 0 && p < 128
    ensures Mask(Kept(16, p, 4), 4) == 0
  {
    WordSizes();
    var room := if p < 64 then 64 - p else 128 - p;
    if room == 4 {
    } else {
      Pow2Monotone(8, room);
      SmallMod(16, Pow2(room));
    }
  }

  lemma FactorOut(k: nat, a: nat, b: nat, ab: nat)
    requires ab == a * b
    ensures k * ab == k * b * a
  {
    assert k * (a * b) == k * b * a;
  }

  lemma OrAbove(x: nat, k: nat, p: nat, q: nat)
    requires p <= q
    ensures Or(x, k * Pow2(q)) % Pow2(p) == x % Pow2(p)
  {
    PowersSplit(p, q);
    FactorOut(k, Pow2(p), Pow2(q - p), Pow2(q));
    OrKeepsLow(x, k * Pow2(q), k * Pow2(q - p), p, Pow2(p));
  }

  /** What is packed later does not disturb the fields already there. */
  lemma {:induction false} PackedPrefix(scheme: Scheme, s: string, j: nat)
    requires AllAllowed(scheme, s) && j <= |s| <= MaxLength(scheme)
    ensures Bits128(scheme, s) % Pow2(Width(scheme) * j) == Bits128(scheme, s[..j]) % Pow2(Width(scheme) * j)
    decreases |s|
  {
    if j == |s| {
      assert s[..j] == s;
    } else {
      var n, w := |s| - 1, Width(scheme);
      PackedPrefix(scheme, s[..n], j);
      assert s[..n][..j] == s[..j];
      PackedGrows(scheme, s);
      Exceeds(n, w, j);
      OrAbove(Bits128(scheme, s[..n]), Kept(Code(scheme, s[n]), w * n, w), w * j, w * n);
    }
  }

  /** When every character fits its field, fields simply add up. */
  lemma {:induction false} PackedBelow(scheme: Scheme, s: string)
    requires AllInRange(scheme, s) && |s| <= MaxLength(scheme)
    ensures AllAllowed(scheme, s)
    ensures Bits128(scheme, s) < Pow2(Width(scheme) * |s|)
    ensures 0 < |s| ==> var n := |s| - 1;
      Bits128(scheme, s) == Bits128(scheme, s[..n]) + Code(scheme, s[n]) * Pow2(Width(scheme) * n)
  {
    if s != "" {
      var n, w := |s| - 1, Width(scheme);
      var v := Code(scheme, s[n]);
      PackedBelow(scheme, s[..n]);
      PackedGrows(scheme, s);
      KeptWhole(v, w * n, w);
      OrDisjoint(v, Bits128(scheme, s[..n]), w * n);
      BelowProduct(v, Bits128(scheme, s[..n]), Pow2(w * n), Pow2(w));
      Pow2Add(w * n, w);
      assert w * |s| == w * n + w;
    }
  }

  lemma TopField(x: nat, k: nat, low: nat, a: nat, m: nat)
    requires a > 0 && m > 0 && low < a && x % (a * m) == (k * a + low) % (a * m)
    ensures a * m > 0 && x / a % m == k % m
  {
    DivOfProduct(x, a, m);
    DivOfProduct(k * a + low, a, m);
    QuotientIs(k * a + low, a, k, low);
  }

  lemma HeadIs(scheme: Scheme, s: string, j: nat)
    requires AllAllowed(scheme, s) && j < |s| <= MaxLength(scheme) && AllInRange(scheme, s[..j])
    ensures Bits128(scheme, s[..j]) < Pow2(Width(scheme) * j)
    ensures var w := Width(scheme);
      Bits128(scheme, s[..j + 1]) == Kept(Code(scheme, s[j]), w * j, w) * Pow2(w * j) + Bits128(scheme, s[..j])
  {
    var head := s[..j + 1];
    assert head[..j] == s[..j];
    PackedBelow(scheme, s[..j]);
    PackedGrows(scheme, head);
    OrDisjoint(Kept(Code(scheme, s[j]), Width(scheme) * j, Width(scheme)), Bits128(scheme, s[..j]), Width(scheme) * j);
  }

  /** Field j holds the kept part of character j, once all before it fit their fields. */
  lemma FieldHolds(scheme: Scheme, s: string, j: nat)
    requires AllAllowed(scheme, s) && j < |s| <= MaxLength(scheme) && AllInRange(scheme, s[..j])
    ensures var w := Width(scheme);
      Field(Packed(scheme, s), w * j, w) == Mask(Kept(Code(scheme, s[j]), w * j, w), w)
  {
    var w := Width(scheme);
    var head, low := s[..j + 1], Bits128(scheme, s[..j]);
    var k := Kept(Code(scheme, s[j]), w * j, w);
    HeadIs(scheme, s, j);
    PackedPrefix(scheme, s, j + 1);
    assert w * (j + 1) == w * j + w;
    Pow2Add(w * j, w);
    TopField(Bits128(scheme, s), k, low, Pow2(w * j), Pow2(w));
  }

  /** The field of a character that fits is its number. */
  lemma FieldIsCode(scheme: Scheme, s: string, j: nat)
    requires AllAllowed(scheme, s) && j < |s| <= MaxLength(scheme) && AllInRange(scheme, s[..j + 1])
    ensures Field(Packed(scheme, s), Width(scheme) * j, Width(scheme)) == Code(scheme, s[j])
  {
    var w := Width(scheme);
    assert s[..j + 1][..j] == s[..j] && s[..j + 1][j] == s[j];
    FieldHolds(scheme, s, j);
    KeptWhole(Code(scheme, s[j]), w * j, w);
    SmallMask(Code(scheme, s[j]), w, w);
  }

  /** The field of a character too large for it, 'F' or 'f', reads as zero. */
  lemma FieldOverflows(s: string, j: nat)
    requires AllAllowed(Hex4Bit, s) && j < |s| <= MaxLength(Hex4Bit) && AllInRange(Hex4Bit, s[..j])
    requires Code(Hex4Bit, s[j]) == 16
    ensures Field(Packed(Hex4Bit, s), 4 * j, 4) == 0
  {
    assert Mask(Kept(16, 4 * j, 4), 4) == 0 by { KeptOverflow(4 * j); }
    FieldHolds(Hex4Bit, s, j);
  }

  /** Fields past the end are zero. */
  lemma FieldPastEnd(scheme: Scheme, s: string, j: nat)
    requires AllInRange(scheme, s) && |s| <= j && |s| <= MaxLength(scheme)
    ensures AllAllowed(scheme, s)
    ensures Field(Packed(scheme, s), Width(scheme) * j, Width(scheme)) == 0
  {
    var w := Width(scheme);
    PackedBelow(scheme, s);
    Pow2Monotone(w * |s|, w * j);
    QuotientIs(Bits128(scheme, s), Pow2(w * j), 0, Bits128(scheme, s));
    SmallMod(0, Pow2(w));
  }

  // Decoding.

  /** The decoders that stop at the first field with no symbol. */
  function PlainFrom(scheme: Scheme, c: CompressedString, p: nat): string
    decreases 128 - p
  {
    if p >= 128 then ""
    else
      match Symbol(scheme, Field(c, p, Width(scheme)))
      case None => ""
      case Some(ch) => [ch] + PlainFrom(scheme, c, p + Width(scheme))
  }

  /** Three 'A's in a row at position i. */
  predicate RunAt(s: string, i: nat) {
    i + 3 <= |s| && s[i] == 'A' && s[i + 1] == 'A' && s[i + 2] == 'A'
  }

  ghost predicate NoRun(s: string) {
    forall i: nat :: !RunAt(s, i)
  }

  /** The 6-bit decoder takes the first three 'A's in a row for padding and drops them and the rest. */
  function CutAtPadding(raw: string): string {
    if raw == "" || RunAt(raw, 0) then "" else [raw[0]] + CutAtPadding(raw[1..])
  }

  function Decoded(scheme: Scheme, c: CompressedString): string {
    if scheme == AlphaNumeric6Bit then CutAtPadding(PlainFrom(scheme, c, 0)) else PlainFrom(scheme, c, 0)
  }

  lemma TakeField(scheme: Scheme, c: CompressedString, p: nat, ch: char)
    requires p < 128 && Symbol(scheme, Field(c, p, Width(scheme))) == Some(ch)
    ensures PlainFrom(scheme, c, p) == [ch] + PlainFrom(scheme, c, p + Width(scheme))
  {
  }

  lemma Regrouped(s: string, ch: char, rest: string)
    ensures s + ([ch] + rest) == s + [ch] + rest
  {
  }

  lemma NothingLeft(scheme: Scheme, c: CompressedString, p: nat, result: string, raw: string)
    requires p >= 128 || Symbol(scheme, Field(c, p, Width(scheme))) == None
    requires result + PlainFrom(scheme, c, p) == raw
    ensures result == raw
  {
  }

  method DecodePlain(scheme: Scheme, c: CompressedString) returns (result: string)
    requires Fits(c) && scheme != AlphaNumeric6Bit
    ensures result == Decoded(scheme, c)
  {
    result := "";
    var bitPos := 0;
    ghost var raw := PlainFrom(scheme, c, 0);
    ghost var rest := raw;
    while bitPos < 128
      invariant rest == PlainFrom(scheme, c, bitPos) && result + rest == raw
      decreases 128 - bitPos
    {
      var value;
      if scheme == Hex4Bit {
        value := ReadNibble(c, bitPos);
      } else {
        value := ReadField(c, bitPos, Width(scheme));
      }
      match Symbol(scheme, value) {
        case None => break;
        case Some(ch) =>
          TakeField(scheme, c, bitPos, ch);
          rest := PlainFrom(scheme, c, bitPos + Width(scheme));
          Regrouped(result, ch, rest);
          result := result + [ch];
          bitPos := bitPos + Width(scheme);
      }
    }
    NothingLeft(scheme, c, bitPos, result, raw);
  }

  /** Exactly the last `run` characters, fewer than three of them, are the 'A's at the end. */
  predicate EndsWithRun(s: string, run: nat) {
    run < 3 && run <= |s| && (forall i :: |s| - run <= i < |s| ==> s[i] == 'A') && !EndsInA(s[..|s| - run])
  }

  predicate EndsInA(s: string) {
    s != "" && s[|s| - 1] == 'A'
  }

  lemma NoRunTail(s: string)
    requires NoRun(s) && 0 < |s|
    ensures NoRun(s[1..])
  {
    forall i: nat ensures !RunAt(s[1..], i) {
      assert !RunAt(s, i + 1);
    }
  }

  lemma {:induction false} CutOfNoRun(s: string)
    requires NoRun(s)
    ensures CutAtPadding(s) == s
  {
    if s != "" {
      NoRunTail(s);
      CutOfNoRun(s[1..]);
      assert s == [s[0]] + s[1..];
    }
  }

  /** The cut falls before the first run, whatever follows it. */
  lemma {:induction false} CutAtRun(s: string, rest: string)
    requires NoRun(s) && !EndsInA(s)
    ensures CutAtPadding(s + "AAA" + rest) == s
  {
    var whole := s + "AAA" + rest;
    if s == "" {
      assert RunAt(whole, 0);
    } else {
      NoRunTail(s);
      CutAtRun(s[1..], rest);
      assert whole[1..] == s[1..] + "AAA" + rest;
      assert !RunAt(s, 0);
      assert s == [s[0]] + s[1..];
    }
  }

  lemma PushOther(s: string, run: nat, ch: char)
    requires NoRun(s) && EndsWithRun(s, run) && ch != 'A'
    ensures NoRun(s + [ch]) && EndsWithRun(s + [ch], 0)
  {
    forall i: nat ensures !RunAt(s + [ch], i) {
      assert !RunAt(s, i);
    }
  }

  lemma PushA(s: string, run: nat)
    requires NoRun(s) && EndsWithRun(s, run)
    ensures run < 2 ==> NoRun(s + "A") && EndsWithRun(s + "A", run + 1)
    ensures run == 2 ==> var kept := s[..|s| - 2]; NoRun(kept) && !EndsInA(kept) && s + "A" == kept + "AAA"
  {
    if run < 2 {
      assert (s + "A")[..|s| - run] == s[..|s| - run];
      forall i: nat ensures !RunAt(s + "A", i) {
        assert !RunAt(s, i);
      }
    } else {
      var kept := s[..|s| - 2];
      forall i: nat ensures !RunAt(kept, i) {
        assert !RunAt(s, i);
      }
    }
  }

  lemma ThirdA(s: string, raw: string, rest: string)
    requires NoRun(s) && EndsWithRun(s, 2) && raw == s + "A" + rest
    ensures CutAtPadding(raw) == (s + "A")[..|s| - 2]
  {
    PushA(s, 2);
    CutAtRun(s[..|s| - 2], rest);
  }

  method DecodeAlphaNumeric(c: CompressedString) returns (result: string)
    requires Fits(c)
    ensures result == Decoded(AlphaNumeric6Bit, c)
  {
    result := "";
    var bitPos := 0;
    var consecutive := 0;
    ghost var raw := PlainFrom(AlphaNumeric6Bit, c, 0);
    ghost var rest := raw;
    while bitPos < 128
      invariant rest == PlainFrom(AlphaNumeric6Bit, c, bitPos) && result + rest == raw
      invariant NoRun(result) && EndsWithRun(result, consecutive)
      decreases 128 - bitPos
    {
      var value := ReadField(c, bitPos, 6);
      if value >= 36 {
        break;
      }
      var ch := if value < 26 then (value + 'A' as int) as char else (value - 26 + '0' as int) as char;
      TakeField(AlphaNumeric6Bit, c, bitPos, ch);
      ghost var before := result;
      rest := PlainFrom(AlphaNumeric6Bit, c, bitPos + 6);
      Regrouped(before, ch, rest);
      result := result + [ch];
      if ch == 'A' && value == 0 {
        consecutive := consecutive + 1;
        if consecutive >= 3 {
          result := result[..|result| - consecutive];
          ThirdA(before, raw, rest);
          return;
        }
        PushA(before, consecutive - 1);
      } else {
        PushOther(before, consecutive, ch);
        consecutive := 0;
      }
      bitPos := bitPos + 6;
    }
    NothingLeft(AlphaNumeric6Bit, c, bitPos, result, raw);
    CutOfNoRun(result);
  }

  method Decode(c: CompressedString, scheme: Scheme) returns (result: string)
    requires Fits(c)
    ensures result == Decoded(scheme, c)
  {
    if scheme == AlphaNumeric6Bit {
      result := DecodeAlphaNumeric(c);
    } else {
      result := DecodePlain(scheme, c);
    }
  }

  // Encoding.

  lemma Utf8LengthOfAscii(s: string)
    requires forall i :: 0 <= i < |s| ==> s[i] as int < 128
    ensures Utf8Length(s) == |s|
  {
  }

  /** The four encoders share this shape: length check, character check, packing loop. */
  method Encode(scheme: Scheme, s: string) returns (r: Result<CompressedString>)
    ensures r.Ok? <==> Accepts(scheme, s)
    ensures r.Ok? ==> r.value == Packed(scheme, s) && Fits(r.value)
    ensures Utf8Length(s) > MaxLength(scheme) ==> r == Err(StringTooLong(Utf8Length(s), MaxLength(scheme)))
    ensures Utf8Length(s) <= MaxLength(scheme) && r.Err? ==>
      && r.error.InvalidCharacter? && r.error.position < |s| && r.error.ch == s[r.error.position]
      && !Allowed(scheme, r.error.ch) && AllAllowed(scheme, s[..r.error.position])
  {
    if Utf8Length(s) > MaxLength(scheme) {
      return Err(StringTooLong(Utf8Length(s), MaxLength(scheme)));
    }
    for i := 0 to |s|
      invariant AllAllowed(scheme, s[..i])
    {
      if !Allowed(scheme, s[i]) {
        return Err(InvalidCharacter(s[i], i));
      }
    }
    assert s[..|s|] == s;
    var result := Pack(scheme, s);
    r := Ok(result);
  }

  method Pack(scheme: Scheme, s: string) returns (result: CompressedString)
    requires AllAllowed(scheme, s)
    ensures result == Packed(scheme, s) && Fits(result)
  {
    result := CompressedString(0, 0);
    var bitPos := 0;
    var w := Width(scheme);
    for i := 0 to |s|
      invariant result == Packed(scheme, s[..i]) && bitPos == w * i
    {
      var value := Code(scheme, s[i]);
      PackedSnoc(scheme, s, i);
      if bitPos + w <= 64 {
        OrZero(result.high);
        result := result.(low := Or(result.low, Shl(value, bitPos)));
      } else if bitPos >= 64 {
        OrZero(result.low);
        result := result.(high := Or(result.high, Shl(value, bitPos - 64)));
      } else {
        var bitsInLow := 64 - bitPos;
        result := result.(low := Or(result.low, Shl(value, bitPos)), high := Or(result.high, Shr(value, bitsInLow)));
      }
      bitPos := bitPos + w;
    }
    assert s[..|s|] == s;
    PackedFits(scheme, s);
  }

  lemma PackedSnoc(scheme: Scheme, s: string, i: nat)
    requires i < |s| && AllAllowed(scheme, s)
    ensures Packed(scheme, s[..i + 1])
         == Put(Packed(scheme, s[..i]), Code(scheme, s[i]), Width(scheme) * i, Width(scheme))
  {
    assert s[..i + 1][..i] == s[..i];
  }

  /** The scheme a symbol is stored under: the first, narrowest one that accepts it. */
  function Chosen(s: string): Option<Scheme> {
    if Accepts(Hex4Bit, s) then Some(Hex4Bit)
    else if Accepts(Alphabetic5Bit, s) then Some(Alphabetic5Bit)
    else if Accepts(AlphaNumeric6Bit, s) then Some(AlphaNumeric6Bit)
    else if Accepts(Ascii7Bit, s) then Some(Ascii7Bit)
    else None
  }

  method FromStr(s: string) returns (r: Result<(CompressedString, Scheme)>)
    ensures r == match Chosen(s)
      case Some(scheme) => Ok((Packed(scheme, s), scheme))
      case None => Err(StringTooLong(Utf8Length(s), 18))
    ensures r.Ok? ==> Fits(r.value.0)
  {
    if s == "" {
      return Ok((CompressedString(0, 0), Hex4Bit));
    }
    var hex := Encode(Hex4Bit, s);
    if hex.Ok? {
      return Ok((hex.value, Hex4Bit));
    }
    var alphabetic := Encode(Alphabetic5Bit, s);
    if alphabetic.Ok? {
      return Ok((alphabetic.value, Alphabetic5Bit));
    }
    var alphaNumeric := Encode(AlphaNumeric6Bit, s);
    if alphaNumeric.Ok? {
      return Ok((alphaNumeric.value, AlphaNumeric6Bit));
    }
    var ascii := Encode(Ascii7Bit, s);
    if ascii.Ok? {
      return Ok((ascii.value, Ascii7Bit));
    }
    r := Err(StringTooLong(Utf8Length(s), 18));
  }

  // What decoding gives back.

  /** Hexadecimal letters come back upper-case. */
  function Canonical(scheme: Scheme, c: char): char {
    if scheme == Hex4Bit && 'a' <= c <= 'f' then (c as int - 'a' as int + 'A' as int) as char else c
  }

  /** A character whose field is read back as a character. */
  predicate Readable(scheme: Scheme, c: char) {
    match scheme
    case Hex4Bit => c !in "Ff"
    case Ascii7Bit => c as int != 0
    case _ => true
  }

  /** The characters up to the first whose field reads as the end of the symbol. */
  function ReadablePrefix(scheme: Scheme, s: string): string {
    if s == "" || !Readable(scheme, s[0]) then ""
    else [Canonical(scheme, s[0])] + ReadablePrefix(scheme, s[1..])
  }

  lemma SymbolOfCode(scheme: Scheme, c: char)
    requires Allowed(scheme, c)
    ensures Readable(scheme, c) ==> InRange(scheme, c) && Symbol(scheme, Code(scheme, c)) == Some(Canonical(scheme, c))
    ensures !Readable(scheme, c) ==>
              (scheme == Hex4Bit && Code(scheme, c) == 16) || (InRange(scheme, c) && Code(scheme, c) == 0)
  {
    CodeRange(scheme, c);
  }

  /** What the decoder finds in field j. */
  lemma PlainField(scheme: Scheme, s: string, j: nat)
    requires scheme != AlphaNumeric6Bit && AllAllowed(scheme, s) && j < |s| <= MaxLength(scheme)
    requires AllInRange(scheme, s[..j])
    ensures Symbol(scheme, Field(Packed(scheme, s), Width(scheme) * j, Width(scheme)))
         == if Readable(scheme, s[j]) then Some(Canonical(scheme, s[j])) else None
    ensures Readable(scheme, s[j]) ==> AllInRange(scheme, s[..j + 1])
  {
    SymbolOfCode(scheme, s[j]);
    if InRange(scheme, s[j]) {
      assert s[..j + 1] == s[..j] + [s[j]];
      FieldIsCode(scheme, s, j);
    } else {
      FieldOverflows(s, j);
    }
  }

  /** Reading from field j on gives the readable prefix of the rest of the symbol. */
  lemma {:induction false} PlainReads(scheme: Scheme, s: string, j: nat)
    requires scheme != AlphaNumeric6Bit && AllAllowed(scheme, s) && j <= |s| <= MaxLength(scheme)
    requires AllInRange(scheme, s[..j])
    ensures PlainFrom(scheme, Packed(scheme, s), Width(scheme) * j) == ReadablePrefix(scheme, s[j..])
    decreases |s| - j
  {
    var w := Width(scheme);
    if j == |s| {
      assert s[..j] == s;
      FieldPastEnd(scheme, s, j);
    } else {
      PlainField(scheme, s, j);
      assert w * (j + 1) == w * j + w;
      if Readable(scheme, s[j]) {
        PlainReads(scheme, s, j + 1);
        assert s[j..][1..] == s[j + 1..];
      }
    }
  }

  lemma AlphaNumericField(s: string, j: nat)
    requires AllAllowed(AlphaNumeric6Bit, s) && |s| <= 21
    ensures Symbol(AlphaNumeric6Bit, Field(Packed(AlphaNumeric6Bit, s), 6 * j, 6))
         == Some(if j < |s| then s[j] else 'A')
  {
    forall i | 0 <= i < |s| ensures InRange(AlphaNumeric6Bit, s[i]) {
      SymbolOfCode(AlphaNumeric6Bit, s[i]);
    }
    if j < |s| {
      SymbolOfCode(AlphaNumeric6Bit, s[j]);
      FieldIsCode(AlphaNumeric6Bit, s, j);
    } else {
      FieldPastEnd(AlphaNumeric6Bit, s, j);
    }
  }

  /** The 6-bit fields are the symbol followed by an 'A' for each empty field. */
  lemma {:induction false} AlphaNumericReads(s: string, padding: string, j: nat)
    requires AllAllowed(AlphaNumeric6Bit, s) && |s| <= 21 && j <= |s + padding| == 22
    requires forall i :: 0 <= i < |padding| ==> padding[i] == 'A'
    ensures PlainFrom(AlphaNumeric6Bit, Packed(AlphaNumeric6Bit, s), 6 * j) == (s + padding)[j..]
    decreases 22 - j
  {
    var all := s + padding;
    if j < 22 {
      AlphaNumericReads(s, padding, j + 1);
      AlphaNumericField(s, j);
      TakeField(AlphaNumeric6Bit, Packed(AlphaNumeric6Bit, s), 6 * j, all[j]);
      assert all[j..] == [all[j]] + all[j + 1..];
    }
  }

  /** Where the cut falls: at the first run, or nowhere. */
  lemma {:induction false} CutShape(raw: string)
    ensures var cut := CutAtPadding(raw);
      cut <= raw && NoRun(cut) && (cut == raw || (RunAt(raw, |cut|) && !EndsInA(cut)))
  {
    if raw != "" && !RunAt(raw, 0) {
      CutShape(raw[1..]);
      var rest := CutAtPadding(raw[1..]);
      var cut := [raw[0]] + rest;
      assert raw == [raw[0]] + raw[1..];
      forall i: nat ensures !RunAt(cut, i) {
        if i > 0 { assert !RunAt(rest, i - 1); }
      }
    }
  }

  /** The symbols a scheme gives back unchanged. */
  ghost predicate Faithful(scheme: Scheme, s: string) {
    match scheme
    case Hex4Bit => forall i :: 0 <= i < |s| ==> '0' <= s[i] <= '9' || 'A' <= s[i] <= 'E'
    case Alphabetic5Bit => true
    case AlphaNumeric6Bit => |s| <= 19 && NoRun(s) && !EndsInA(s)
    case Ascii7Bit => forall i :: 0 <= i < |s| ==> s[i] as int != 0
  }

  lemma {:induction false} PrefixIsWhole(scheme: Scheme, s: string)
    requires AllAllowed(scheme, s) && scheme != AlphaNumeric6Bit
    ensures ReadablePrefix(scheme, s) == s <==> Faithful(scheme, s)
  {
    if s != "" {
      PrefixIsWhole(scheme, s[1..]);
      assert s == [s[0]] + s[1..];
      assert forall i :: 1 <= i < |s| ==> s[i] == s[1..][i - 1];
    }
  }

  lemma CutKeepsWhole(s: string, padding: string)
    requires padding != "" && (forall i :: 0 <= i < |padding| ==> padding[i] == 'A')
    ensures CutAtPadding(s + padding) == s <==> |padding| >= 3 && NoRun(s) && !EndsInA(s)
  {
    var raw := s + padding;
    CutShape(raw);
    if |padding| >= 3 && NoRun(s) && !EndsInA(s) {
      CutAtRun(s, padding[3..]);
      assert raw == s + "AAA" + padding[3..];
    }
  }

  lemma AlphaNumericRoundTrips(s: string)
    requires AllAllowed(AlphaNumeric6Bit, s) && |s| <= 21
    ensures Decoded(AlphaNumeric6Bit, Packed(AlphaNumeric6Bit, s)) == s <==> Faithful(AlphaNumeric6Bit, s)
  {
    var padding := seq(22 - |s|, _ => 'A');
    AlphaNumericReads(s, padding, 0);
    assert (s + padding)[0..] == s + padding;
    CutKeepsWhole(s, padding);
  }

  /** Decoding returns the symbol exactly when the symbol is one its scheme is faithful to. */
  lemma RoundTripsExactly(scheme: Scheme, s: string)
    requires Accepts(scheme, s)
    ensures Decoded(scheme, Packed(scheme, s)) == s <==> Faithful(scheme, s)
  {
    if scheme == AlphaNumeric6Bit {
      AlphaNumericRoundTrips(s);
    } else {
      PlainReads(scheme, s, 0);
      assert s[0..] == s;
      PrefixIsWhole(scheme, s);
    }
  }

  /** A symbol of upper-case letters that is not all hexadecimal always comes back. */
  lemma LettersRoundTrip(s: string)
    requires |s| <= 25 && (forall i :: 0 <= i < |s| ==> 'A' <= s[i] <= 'Z')
    requires exists i :: 0 <= i < |s| && s[i] > 'F'
    ensures Chosen(s) == Some(Alphabetic5Bit)
    ensures Decoded(Alphabetic5Bit, Packed(Alphabetic5Bit, s)) == s
  {
    Utf8LengthOfAscii(s);
    RoundTripsExactly(Alphabetic5Bit, s);
  }

  /** Two symbols that come back unchanged never share their stored form. */
  lemma StoredFormsDiffer(scheme: Scheme, s: string, t: string)
    requires Accepts(scheme, s) && Accepts(scheme, t) && Faithful(scheme, s) && Faithful(scheme, t) && s != t
    ensures Packed(scheme, s) != Packed(scheme, t)
  {
    RoundTripsExactly(scheme, s);
    RoundTripsExactly(scheme, t);
  }

  // The alphabets.

  /** The number packed for a character, by its ASCII code: hexadecimal digits and the letters of the 5-bit alphabet
      count from 1, the letters and digits of the 6-bit alphabet from 0. */
  lemma CodeByAscii(scheme: Scheme, c: char)
    requires Allowed(scheme, c)
    ensures var x := c as int;
      match scheme
      case Hex4Bit =>
        (48 <= x <= 57 && Code(scheme, c) == x - 47) || (65 <= x <= 70 && Code(scheme, c) == x - 54)
        || (97 <= x <= 102 && Code(scheme, c) == x - 86)
      case Alphabetic5Bit => 65 <= x <= 90 && Code(scheme, c) == x - 64
      case AlphaNumeric6Bit =>
        (65 <= x <= 90 && Code(scheme, c) == x - 65) || (48 <= x <= 57 && Code(scheme, c) == x - 22)
      case Ascii7Bit => 0 <= x <= 127 && Code(scheme, c) == x
  {
  }

  /** Which scheme an ASCII symbol is stored under, by ASCII codes: all hexadecimal digits, all capital letters, all
      capital letters or digits, or anything, each up to a length. */
  lemma ChosenExactly(s: string)
    requires forall i :: 0 <= i < |s| ==> s[i] as int < 128
    ensures var hex := forall i :: 0 <= i < |s| ==>
                         48 <= s[i] as int <= 57 || 65 <= s[i] as int <= 70 || 97 <= s[i] as int <= 102;
      var capitals := forall i :: 0 <= i < |s| ==> 65 <= s[i] as int <= 90;
      var both := forall i :: 0 <= i < |s| ==> 65 <= s[i] as int <= 90 || 48 <= s[i] as int <= 57;
      Chosen(s) == if |s| <= 32 && hex then Some(Hex4Bit)
                   else if |s| <= 25 && capitals then Some(Alphabetic5Bit)
                   else if |s| <= 21 && both then Some(AlphaNumeric6Bit)
                   else if |s| <= 18 then Some(Ascii7Bit) else None
  {
    Utf8LengthOfAscii(s);
    assert AllAllowed(Ascii7Bit, s);
  }
}

/** The software checksum: a 256-entry table against eight single-bit steps for each byte, and against the CRC-32C
    of section 12.1 of RFC 3720, which the hardware path computes. The register shifts right, so a polynomial has to be
    given with its bits reversed; the source gives it unreversed. */
module Checksum {
  import opened RustInt
  import opened Bits

  const POLYNOMIAL: nat := 0x1EDC6F41

  /** The same polynomial as a register that shifts right needs it. */
  const REVERSED: nat := 0x82F63B78

  /** One bit: shift right, and fold the polynomial in when the bit that fell out was set. */
  function BitStep(poly: nat, crc: nat): nat {
    if crc % 2 == 1 then Xor(crc / 2, poly) else crc / 2
  }

  function BitSteps(poly: nat, crc: nat, n: nat): nat {
    if n == 0 then crc else BitStep(poly, BitSteps(poly, crc, n - 1))
  }

  function ByteSteps(poly: nat, crc: nat): nat {
    BitSteps(poly, crc, 8)
  }

  /** The bit-serial definition: each byte enters the low end, then eight bits are processed. */
  function Serial(poly: nat, crc: nat, data: seq<Byte>): nat {
    if data == [] then crc
    else ByteSteps(poly, Xor(Serial(poly, crc, data[..|data| - 1]), data[|data| - 1]))
  }

  function BitSerialChecksum(poly: nat, data: seq<Byte>): int {
    U32_MAX - Serial(poly, U32_MAX, data)
  }

  lemma BitStepFits(poly: nat, crc: nat)
    requires poly < TWO_32 && crc < TWO_32
    ensures BitStep(poly, crc) < TWO_32
  {
    WordSizes();
    XorBound(crc / 2, poly, 32);
  }

  lemma {:induction false} BitStepsFit(poly: nat, crc: nat, n: nat)
    requires poly < TWO_32 && crc < TWO_32
    ensures BitSteps(poly, crc, n) < TWO_32
  {
    if n > 0 {
      BitStepsFit(poly, crc, n - 1);
      BitStepFits(poly, BitSteps(poly, crc, n - 1));
    }
  }

  /** The checksum never leaves 32 bits. */
  lemma {:induction false} SerialFits(poly: nat, crc: nat, data: seq<Byte>)
    requires poly < TWO_32 && crc < TWO_32
    ensures Serial(poly, crc, data) < TWO_32
  {
    if data != [] {
      var before := Serial(poly, crc, data[..|data| - 1]);
      SerialFits(poly, crc, data[..|data| - 1]);
      WordSizes();
      XorBound(before, data[|data| - 1], 32);
      BitStepsFit(poly, Xor(before, data[|data| - 1]), 8);
    }
  }

  lemma FoldBoth(a: nat, b: nat, p: nat)
    ensures Xor(Xor(a, p), Xor(b, p)) == Xor(a, b)
  {
    XorAssociates(a, p, Xor(b, p));
    XorCommutes(b, p);
    XorAssociates(p, p, b);
    XorSelf(p);
    XorZero(b);
  }

  lemma FoldOne(a: nat, b: nat, p: nat)
    ensures Xor(Xor(a, p), b) == Xor(Xor(a, b), p)
    ensures Xor(a, Xor(b, p)) == Xor(Xor(a, b), p)
  {
    XorAssociates(a, p, b);
    XorCommutes(p, b);
    XorAssociates(a, b, p);
  }

  /** The bit step is linear over exclusive or. */
  lemma BitStepLinear(poly: nat, a: nat, b: nat)
    ensures BitStep(poly, Xor(a, b)) == Xor(BitStep(poly, a), BitStep(poly, b))
  {
    XorStep(a, b);
    FoldBoth(a / 2, b / 2, poly);
    FoldOne(a / 2, b / 2, poly);
  }

  lemma {:induction false} BitStepsLinear(poly: nat, a: nat, b: nat, n: nat)
    ensures BitSteps(poly, Xor(a, b), n) == Xor(BitSteps(poly, a, n), BitSteps(poly, b, n))
  {
    if n > 0 {
      BitStepsLinear(poly, a, b, n - 1);
      BitStepLinear(poly, BitSteps(poly, a, n - 1), BitSteps(poly, b, n - 1));
    }
  }

  lemma EvenWord(h: nat, m: nat)
    ensures h * (2 * m) == (2 * h) * m
  {
  }

  /** n steps only shift a word whose n low bits are clear. */
  lemma {:induction false} ClearBitsOnlyShift(poly: nat, h: nat, n: nat, x: nat)
    requires x == h * Pow2(n)
    ensures BitSteps(poly, x, n) == h
    decreases n
  {
    if n > 0 {
      EvenWord(h, Pow2(n - 1));
      ClearBitsOnlyShift(poly, 2 * h, n - 1, x);
    }
  }

  /** The table identity: eight steps are a shift and a look-up of the low byte. */
  lemma TableIdentity(poly: nat, x: nat)
    ensures ByteSteps(poly, x) == Xor(x / 256, ByteSteps(poly, x % 256))
  {
    WordSizes();
    XorDisjoint(x / 256, x % 256, 8);
    BitStepsLinear(poly, x / 256 * 256, x % 256, 8);
    ClearBitsOnlyShift(poly, x / 256, 8, x / 256 * 256);
  }

  /** One byte through the table extends the bit-serial result by that byte. */
  lemma ByteStep(poly: nat, crc: nat, data: seq<Byte>, i: nat, entry: nat)
    requires i < |data| && crc == Serial(poly, U32_MAX, data[..i])
    requires entry == ByteSteps(poly, Xor(crc, data[i]) % 256)
    ensures Xor(crc / 256, entry) == Serial(poly, U32_MAX, data[..i + 1])
  {
    var grown := data[..i + 1];
    assert grown[..|grown| - 1] == data[..i];
    WordSizes();
    XorKeepsHigh(crc, data[i], 8);
    TableIdentity(poly, Xor(crc, data[i]));
  }

  method TableEntry(i: nat) returns (crc: nat)
    ensures crc == ByteSteps(POLYNOMIAL, i)
  {
    crc := i;
    for k := 0 to 8
      invariant crc == BitSteps(POLYNOMIAL, i, k)
    {
      if crc % 2 == 1 {
        crc := Xor(crc / 2, POLYNOMIAL);
      } else {
        crc := crc / 2;
      }
    }
  }

  method GenerateTable() returns (table: array<nat>)
    ensures fresh(table) && table.Length == 256
    ensures forall i :: 0 <= i < 256 ==> table[i] == ByteSteps(POLYNOMIAL, i)
  {
    table := new nat[256];
    for i := 0 to 256
      invariant forall j :: 0 <= j < i ==> table[j] == ByteSteps(POLYNOMIAL, j)
    {
      table[i] := TableEntry(i);
    }
  }

  method SoftwareCrc32c(data: seq<Byte>) returns (crc: int)
    ensures crc == BitSerialChecksum(POLYNOMIAL, data)
    ensures 0 <= crc <= U32_MAX
  {
    var table := GenerateTable();
    var rest: nat := U32_MAX;
    for i := 0 to |data|
      invariant forall j :: 0 <= j < 256 ==> table[j] == ByteSteps(POLYNOMIAL, j)
      invariant rest == Serial(POLYNOMIAL, U32_MAX, data[..i])
    {
      var index := Xor(rest, data[i]) % 256;
      ByteStep(POLYNOMIAL, rest, data, i, table[index]);
      rest := Xor(rest / 256, table[index]);
    }
    assert data[..|data|] == data;
    SerialFits(POLYNOMIAL, U32_MAX, data);
    crc := U32_MAX - rest;
  }

  // The polynomial.

  /** Exclusive or with n ones complements. */
  lemma {:induction false} XorOnes(n: nat, ones: nat, x: nat)
    requires ones + 1 == Pow2(n) && x <= ones
    ensures Xor(ones, x) == ones - x
    decreases n
  {
    if n > 0 {
      XorOnes(n - 1, ones / 2, x / 2);
      XorStep(ones, x);
    }
  }

  lemma Pow2Words()
    ensures Pow2(7) == 0x80 && Pow2(8) == 0x100 && Pow2(24) == 0x100_0000 && Pow2(29) == 0x2000_0000
    ensures Pow2(32) == TWO_32
  {
    WordSizes();
    Pow2Add(8, 16);
    Pow2Add(8, 8);
    Pow2Add(24, 5);
  }

  lemma NibbleSizes()
    ensures Pow2(0) == 1 && Pow2(4) == 0x10 && Pow2(8) == 0x100 && Pow2(12) == 0x1000 && Pow2(16) == 0x1_0000
    ensures Pow2(20) == 0x10_0000 && Pow2(24) == 0x100_0000 && Pow2(28) == 0x1000_0000
  {
    WordSizes();
    Pow2Add(8, 4);
    Pow2Add(8, 8);
    Pow2Add(16, 4);
    Pow2Add(16, 8);
    Pow2Add(24, 4);
  }

  lemma SwapXor(a: nat, b: nat, c: nat)
    ensures Xor(a, Xor(b, c)) == Xor(b, Xor(a, c))
  {
    XorAssociates(a, b, c);
    XorCommutes(a, b);
    XorAssociates(b, a, c);
  }

  /** n low ones complement the low part and leave the high part. */
  lemma XorLowOnes(high: nat, low: nat, n: nat, top: nat, ones: nat)
    requires top == high * Pow2(n) && ones == Pow2(n) - 1 && low <= ones
    ensures Xor(ones, top + low) == top + (ones - low)
  {
    assert Xor(top, low) == top + low by { XorDisjoint(high, low, n); }
    assert Xor(ones, low) == ones - low by { XorOnes(n, ones, low); }
    assert Xor(top, ones - low) == top + (ones - low) by { XorDisjoint(high, ones - low, n); }
    SwapXor(ones, top, low);
  }

  /** The byte 0x7F folds the polynomial in exactly once, at the last of its eight steps. */
  lemma OneFold(poly: nat)
    ensures Serial(poly, U32_MAX, [0x7F]) == Xor(0xFF_FFFF, poly)
  {
    FirstByte(poly);
    FoldedByte(poly, 0xFFFF_FF80);
  }

  lemma FoldedByte(poly: nat, x: nat)
    requires x / 256 == 0xFF_FFFF && x % 256 == 0x80
    ensures ByteSteps(poly, x) == Xor(0xFF_FFFF, poly)
  {
    TableIdentity(poly, x);
    LastStepFolds(poly);
  }

  lemma LowOnes24(high: nat, low: nat)
    requires low < 0x100_0000
    ensures Xor(0xFF_FFFF, high * 0x100_0000 + low) == high * 0x100_0000 + (0xFF_FFFF - low)
  {
    assert Pow2(24) == 0x100_0000 by { Pow2Words(); }
    XorLowOnes(high, low, 24, high * 0x100_0000, 0xFF_FFFF);
  }

  lemma FirstByte(poly: nat)
    ensures Serial(poly, U32_MAX, [0x7F]) == ByteSteps(poly, 0xFFFF_FF80)
  {
    assert Xor(U32_MAX, 0x7F) == 0xFFFF_FF80 by {
      Pow2Words();
      XorOnes(32, U32_MAX, 0x7F);
    }
    assert [0x7F][..0] == [];
    assert Serial(poly, U32_MAX, []) == U32_MAX;
  }

  lemma LastStepFolds(poly: nat)
    ensures ByteSteps(poly, 0x80) == poly
  {
    Pow2Words();
    ClearBitsOnlyShift(poly, 1, 7, 0x80);
    assert BitSteps(poly, 0x80, 8) == BitStep(poly, 1) == Xor(0, poly);
    XorZero(poly);
  }

  /** The checksum of that byte, as the software and as the hardware computes it. */
  lemma ChecksumsOf7F()
    ensures BitSerialChecksum(POLYNOMIAL, [0x7F]) == 0xE1DC_6F41
    ensures BitSerialChecksum(REVERSED, [0x7F]) == 0x7DF6_3B78
  {
    OneFold(POLYNOMIAL);
    LowOnes24(0x1E, 0xDC_6F41);
    OneFold(REVERSED);
    LowOnes24(0x82, 0xF6_3B78);
  }

  /** The n low bits of a number in reverse order. */
  function ReverseBits(x: nat, n: nat): nat {
    if n == 0 then 0 else x % 2 * Pow2(n - 1) + ReverseBits(x / 2, n - 1)
  }

  lemma {:induction false} BitStepsWithin(poly: nat, crc: nat, n: nat, width: nat)
    requires poly < Pow2(width) && crc < Pow2(width)
    ensures BitSteps(poly, crc, n) < Pow2(width)
  {
    if n > 0 {
      BitStepsWithin(poly, crc, n - 1, width);
      XorBound(BitSteps(poly, crc, n - 1) / 2, poly, width);
    }
  }

  /** The software's polynomial has only 29 bits, so after the first byte its register has no more. */
  lemma SoftwareRegister(data: seq<Byte>)
    requires data != []
    ensures Serial(POLYNOMIAL, U32_MAX, data) < 0x2000_0000
  {
    var n := |data| - 1;
    Pow2Words();
    SerialFits(POLYNOMIAL, U32_MAX, data[..n]);
    var x := Xor(Serial(POLYNOMIAL, U32_MAX, data[..n]), data[n]);
    XorBound(Serial(POLYNOMIAL, U32_MAX, data[..n]), data[n], 32);
    TableIdentity(POLYNOMIAL, x);
    BitStepsWithin(POLYNOMIAL, x % 256, 8, 29);
    XorBound(x / 256, ByteSteps(POLYNOMIAL, x % 256), 29);
  }

  /** On the empty string software and hardware agree; on any other they can agree only where the CRC-32C has its three
      top bits set, and on the single byte 0x7F they do not. */
  lemma SoftwareIsNotCrc32c(data: seq<Byte>)
    ensures data == [] ==> BitSerialChecksum(POLYNOMIAL, data) == BitSerialChecksum(REVERSED, data) == 0
    ensures data != [] ==> BitSerialChecksum(POLYNOMIAL, data) >= 0xE000_0000
    ensures data != [] && BitSerialChecksum(REVERSED, data) < 0xE000_0000 ==>
              BitSerialChecksum(POLYNOMIAL, data) != BitSerialChecksum(REVERSED, data)
    ensures data == [0x7F] ==> BitSerialChecksum(POLYNOMIAL, data) != BitSerialChecksum(REVERSED, data)
  {
    if data != [] {
      SoftwareRegister(data);
    }
    if data == [0x7F] {
      ChecksumsOf7F();
    }
  }

  lemma HalfOfParts(x: nat, high: nat, low: nat, h: nat)
    requires x == high * (2 * h) + low && low < 2 * h
    ensures x / 2 == high * h + low / 2 && x % 2 == low % 2 && low / 2 < h
  {
    assert high * (2 * h) == 2 * (high * h);
  }

  /** The low m bits come out above the rest. */
  lemma {:induction false} ReverseParts(x: nat, high: nat, low: nat, m: nat, n: nat, p: nat, q: nat)
    requires p == Pow2(m) && q == Pow2(n) && x == high * p + low && low < p
    ensures ReverseBits(x, m + n) == ReverseBits(low, m) * q + ReverseBits(high, n)
    decreases m
  {
    if m > 0 {
      var h := Pow2(m - 1);
      HalfOfParts(x, high, low, h);
      ReverseParts(x / 2, high, low / 2, m - 1, n, h, q);
      assert Pow2(m - 1 + n) == h * q by { Pow2Add(m - 1, n); }
      FirstBit(low % 2, h, ReverseBits(low / 2, m - 1), q);
    }
  }

  lemma FirstBit(bit: nat, high: nat, rest: nat, low: nat)
    ensures (bit * high + rest) * low == bit * (high * low) + rest * low
  {
    assert bit * high * low == bit * (high * low);
  }

  lemma ReversedNibbles()
    ensures ReverseBits(0x1, 4) == 0x8 && ReverseBits(0x4, 4) == 0x2 && ReverseBits(0x6, 4) == 0x6
    ensures ReverseBits(0xC, 4) == 0x3 && ReverseBits(0xD, 4) == 0xB
    ensures ReverseBits(0xE, 4) == 0x7 && ReverseBits(0xF, 4) == 0xF
  {
    assert Pow2(3) == 8 && Pow2(2) == 4 && Pow2(1) == 2 && Pow2(0) == 1;
  }

  /** One more hexadecimal digit. */
  lemma NextNibble(x: nat, n: nat, size: nat, digit: nat, rest: nat)
    requires size == Pow2(n) && ReverseBits(x % 16, 4) == digit && ReverseBits(x / 16, n) == rest
    ensures ReverseBits(x, n + 4) == digit * size + rest
  {
    assert Pow2(4) == 16 by { WordSizes(); }
    ReverseParts(x, x / 16, x % 16, 4, n, 16, size);
    assert ReverseBits(x, 4 + n) == ReverseBits(x, n + 4);
  }

  /** Both are the polynomial of the standard, read from opposite ends. */
  lemma PolynomialsAreReversed()
    ensures POLYNOMIAL == 0x1EDC_6F41 && REVERSED == ReverseBits(POLYNOMIAL, 32)
  {
    NibbleSizes();
    ReversedNibbles();
    NextNibble(0x1, 0, 1, 0x8, 0);
    NextNibble(0x1E, 4, 0x10, 0x7, 0x8);
    NextNibble(0x1ED, 8, 0x100, 0xB, 0x78);
    NextNibble(0x1EDC, 12, 0x1000, 0x3, 0xB78);
    NextNibble(0x1_EDC6, 16, 0x1_0000, 0x6, 0x3B78);
    NextNibble(0x1E_DC6F, 20, 0x10_0000, 0xF, 0x6_3B78);
    NextNibble(0x1ED_C6F4, 24, 0x100_0000, 0x2, 0xF6_3B78);
    NextNibble(0x1EDC_6F41, 28, 0x1000_0000, 0x8, 0x2F6_3B78);
  }

  /** Bytes are processed first to last: a checksum can be continued where it stopped. */
  lemma {:induction false} SerialContinues(poly: nat, crc: nat, a: seq<Byte>, b: seq<Byte>)
    ensures Serial(poly, crc, a + b) == Serial(poly, Serial(poly, crc, a), b)
    decreases |b|
  {
    if b == [] {
      assert a + b == a;
    } else {
      var n := |b| - 1;
      assert (a + b)[..|a| + n] == a + b[..n];
      SerialContinues(poly, crc, a, b[..n]);
    }
  }
}

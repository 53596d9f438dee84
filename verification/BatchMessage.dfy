/** The order-book batch on the wire: a 56-byte header, 16 bytes a level, a 4-byte checksum,
    all little-endian. The checksum function is a parameter, since the one used depends on
    the processor; both ends are assumed to use the same. */
module BatchMessage {
  import opened RustInt
  import opened Errors

  const HEADER_SIZE: nat := 56
  const LEVEL_SIZE: nat := 16
  const CRC_SIZE: nat := 4
  const WORD_SIZE: nat := 8
  const COUNT_SIZE: nat := 2
  const MESSAGE_TYPE: Byte := 0x03

  datatype Header = Header(
    header: Byte,
    exchange: Byte,
    updateType: Byte,
    encoding: Byte,
    numBids: U16,
    numAsks: U16,
    symbolLow: U64,
    symbolHigh: U64,
    timestamp: U64,
    firstUpdateId: U64,
    finalUpdateId: U64,
    prevUpdateId: U64)

  datatype PriceLevel = PriceLevel(price: I64, size: I64)

  datatype Content = Content(header: Header, bids: seq<PriceLevel>, asks: seq<PriceLevel>)

  // Little-endian words.

  function ToLittleEndian(x: nat, n: nat): (b: seq<Byte>)
    ensures |b| == n
    decreases n
  {
    if n == 0 then [] else [x % 256] + ToLittleEndian(x / 256, n - 1)
  }

  function FromLittleEndian(b: seq<Byte>): (x: nat)
    ensures x < Base(|b|)
  {
    if b == [] then 0 else b[0] + 256 * FromLittleEndian(b[1..])
  }

  function Base(n: nat): (p: nat)
    ensures p > 0
  {
    if n == 0 then 1 else 256 * Base(n - 1)
  }

  lemma Sizes()
    ensures Base(COUNT_SIZE) == 0x1_0000 && Base(CRC_SIZE) == TWO_32 && Base(WORD_SIZE) == TWO_64
  {
    assert Base(2) == 0x1_0000 && Base(4) == TWO_32 && Base(8) == TWO_64;
  }

  lemma {:induction false} LittleEndianReads(x: nat, n: nat)
    requires x < Base(n)
    ensures FromLittleEndian(ToLittleEndian(x, n)) == x
    decreases n
  {
    if n > 0 {
      LittleEndianReads(x / 256, n - 1);
      assert ToLittleEndian(x, n)[1..] == ToLittleEndian(x / 256, n - 1);
    }
  }

  lemma SplitByte(b: Byte, rest: nat)
    ensures (b + 256 * rest) % 256 == b && (b + 256 * rest) / 256 == rest
  {
  }

  lemma {:induction false} LittleEndianWrites(b: seq<Byte>)
    ensures ToLittleEndian(FromLittleEndian(b), |b|) == b
  {
    if b != [] {
      LittleEndianWrites(b[1..]);
      SplitByte(b[0], FromLittleEndian(b[1..]));
      assert b == [b[0]] + b[1..];
    }
  }

  function ReadU16(b: seq<Byte>): U16
    requires |b| == COUNT_SIZE
  {
    assert Base(COUNT_SIZE) == 0x1_0000 by { Sizes(); }
    FromLittleEndian(b)
  }

  function ReadU32(b: seq<Byte>): U32
    requires |b| == CRC_SIZE
  {
    assert Base(CRC_SIZE) == TWO_32 by { Sizes(); }
    FromLittleEndian(b)
  }

  function ReadU64(b: seq<Byte>): U64
    requires |b| == WORD_SIZE
  {
    assert Base(WORD_SIZE) == TWO_64 by { Sizes(); }
    FromLittleEndian(b)
  }

  function AsI64(u: U64): I64 {
    WrapI64(u)
  }

  lemma SignedReadsBack(x: I64)
    ensures AsI64(WrapU64(x)) == x
  {
    if x < 0 {
      ModShift(x, 1, TWO_64);
      SmallMod(x + TWO_64, TWO_64);
      ModShift(x + TWO_63, 1, TWO_64);
      SmallMod(x + TWO_63, TWO_64);
    } else {
      SmallMod(x, TWO_64);
    }
  }

  lemma SignedWritesBack(u: U64)
    ensures WrapU64(AsI64(u)) == u
  {
    SmallMod(u, TWO_64);
    if !FitsI64(u) {
      ModShift(u - TWO_64, 1, TWO_64);
      ModShift(u - TWO_63, 1, TWO_64);
      SmallMod(u - TWO_63, TWO_64);
    }
  }

  // Levels and headers.

  function LevelBytes(l: PriceLevel): (b: seq<Byte>)
    ensures |b| == LEVEL_SIZE
  {
    ToLittleEndian(WrapU64(l.price), WORD_SIZE) + ToLittleEndian(WrapU64(l.size), WORD_SIZE)
  }

  function ReadLevel(b: seq<Byte>): PriceLevel
    requires |b| == LEVEL_SIZE
  {
    PriceLevel(AsI64(ReadU64(b[0..8])), AsI64(ReadU64(b[8..16])))
  }

  function Concat(pieces: seq<seq<Byte>>): seq<Byte> {
    if pieces == [] then [] else Concat(pieces[..|pieces| - 1]) + pieces[|pieces| - 1]
  }

  predicate AllOfLength(pieces: seq<seq<Byte>>, n: nat) {
    forall i :: 0 <= i < |pieces| ==> |pieces[i]| == n
  }

  lemma {:induction false} ConcatLength(pieces: seq<seq<Byte>>, n: nat)
    requires AllOfLength(pieces, n)
    ensures |Concat(pieces)| == n * |pieces|
  {
    if pieces != [] {
      var k := |pieces| - 1;
      ConcatLength(pieces[..k], n);
      assert n * (k + 1) == n * k + n;
    }
  }

  /** Pieces of equal length are found again at multiples of that length. */
  lemma {:induction false} PieceAt(pieces: seq<seq<Byte>>, n: nat, i: nat, at: nat)
    requires AllOfLength(pieces, n) && i < |pieces| && at == n * i
    ensures at + n <= |Concat(pieces)| && Concat(pieces)[at..at + n] == pieces[i]
    decreases |pieces|
  {
    var k := |pieces| - 1;
    var init, last := pieces[..k], pieces[k];
    ConcatLength(init, n);
    if i < k {
      PieceAt(init, n, i, at);
      assert Concat(pieces)[at..at + n] == Concat(init)[at..at + n];
    }
  }

  /** A piece found at `at` in the middle of a sequence, where at is an offset into the whole. */
  lemma Inside(whole: seq<Byte>, before: seq<Byte>, middle: seq<Byte>, after: seq<Byte>, at: nat, piece: seq<Byte>)
    requires whole == before + middle + after && |before| <= at <= at + |piece| <= |before| + |middle|
    requires middle[at - |before|..at - |before| + |piece|] == piece
    ensures at + |piece| <= |whole| && whole[at..at + |piece|] == piece
  {
  }

  function HeaderFront(h: Header): seq<Byte> {
    [h.header, h.exchange, h.updateType, h.encoding]
    + ToLittleEndian(h.numBids, COUNT_SIZE) + ToLittleEndian(h.numAsks, COUNT_SIZE)
  }

  function HeaderWords(h: Header): seq<U64> {
    [h.symbolLow, h.symbolHigh, h.timestamp, h.firstUpdateId, h.finalUpdateId, h.prevUpdateId]
  }

  function WordPieces(words: seq<U64>): (pieces: seq<seq<Byte>>)
    ensures |pieces| == |words| && AllOfLength(pieces, WORD_SIZE)
  {
    seq(|words|, i requires 0 <= i < |words| => ToLittleEndian(words[i], WORD_SIZE))
  }

  function HeaderBytes(h: Header): (b: seq<Byte>)
    ensures |b| == HEADER_SIZE
  {
    ConcatLength(WordPieces(HeaderWords(h)), WORD_SIZE);
    HeaderFront(h) + Concat(WordPieces(HeaderWords(h)))
  }

  function ReadHeader(b: seq<Byte>): Header
    requires |b| >= HEADER_SIZE
  {
    Header(b[0], b[1], b[2], b[3], ReadU16(b[4..6]), ReadU16(b[6..8]),
           ReadU64(b[8..16]), ReadU64(b[16..24]), ReadU64(b[24..32]),
           ReadU64(b[32..40]), ReadU64(b[40..48]), ReadU64(b[48..56]))
  }

  lemma LevelReadsBack(l: PriceLevel)
    ensures ReadLevel(LevelBytes(l)) == l
  {
    Sizes();
    SignedReadsBack(l.price);
    SignedReadsBack(l.size);
    LittleEndianReads(WrapU64(l.price), WORD_SIZE);
    LittleEndianReads(WrapU64(l.size), WORD_SIZE);
    assert LevelBytes(l)[0..8] == ToLittleEndian(WrapU64(l.price), WORD_SIZE);
    assert LevelBytes(l)[8..16] == ToLittleEndian(WrapU64(l.size), WORD_SIZE);
  }

  lemma WordWritesBack(b: seq<Byte>)
    requires |b| == WORD_SIZE
    ensures ToLittleEndian(WrapU64(AsI64(ReadU64(b))), WORD_SIZE) == b
  {
    SignedWritesBack(ReadU64(b));
    LittleEndianWrites(b);
  }

  lemma Halves(b: seq<Byte>)
    requires |b| == LEVEL_SIZE
    ensures b[0..8] + b[8..16] == b
  {
  }

  lemma LevelWritesBack(b: seq<Byte>)
    requires |b| == LEVEL_SIZE
    ensures LevelBytes(ReadLevel(b)) == b
  {
    var l := ReadLevel(b);
    assert ToLittleEndian(WrapU64(l.price), WORD_SIZE) == b[0..8] by { WordWritesBack(b[0..8]); }
    assert ToLittleEndian(WrapU64(l.size), WORD_SIZE) == b[8..16] by { WordWritesBack(b[8..16]); }
    Halves(b);
  }

  lemma Regroup(a: seq<Byte>, b: seq<Byte>, c: seq<Byte>)
    ensures a + b + c == a + (b + c)
  {
  }

  lemma WordOfHeader(b: seq<Byte>, i: nat)
    requires |b| >= HEADER_SIZE && i < 6
    ensures HeaderWords(ReadHeader(b))[i] == FromLittleEndian(b[8 + 8 * i..8 + 8 * i + 8])
  {
  }

  lemma WordReadsBack(h: Header, whole: seq<Byte>, rest: seq<Byte>, i: nat)
    requires i < 6 && whole == HeaderBytes(h) + rest
    ensures HeaderWords(ReadHeader(whole))[i] == HeaderWords(h)[i]
  {
    WordOfHeader(whole, i);
    var word := ToLittleEndian(HeaderWords(h)[i], WORD_SIZE);
    PieceAt(WordPieces(HeaderWords(h)), WORD_SIZE, i, 8 * i);
    Inside(whole, HeaderFront(h), Concat(WordPieces(HeaderWords(h))), rest, 8 + 8 * i, word);
    assert HeaderWords(h)[i] < Base(WORD_SIZE) by { Sizes(); }
    LittleEndianReads(HeaderWords(h)[i], WORD_SIZE);
  }

  lemma FrontReads(h: Header, rest: seq<Byte>)
    ensures var b := HeaderFront(h) + rest;
      b[0] == h.header && b[1] == h.exchange && b[2] == h.updateType && b[3] == h.encoding
      && ReadU16(b[4..6]) == h.numBids && ReadU16(b[6..8]) == h.numAsks
  {
    var b := HeaderFront(h) + rest;
    Sizes();
    LittleEndianReads(h.numBids, COUNT_SIZE);
    LittleEndianReads(h.numAsks, COUNT_SIZE);
    assert b[4..6] == ToLittleEndian(h.numBids, COUNT_SIZE);
    assert b[6..8] == ToLittleEndian(h.numAsks, COUNT_SIZE);
  }

  lemma SameHeader(g: Header, h: Header)
    requires HeaderWords(g) == HeaderWords(h)
    requires g.header == h.header && g.exchange == h.exchange && g.updateType == h.updateType
    requires g.encoding == h.encoding && g.numBids == h.numBids && g.numAsks == h.numAsks
    ensures g == h
  {
    assert forall i :: 0 <= i < 6 ==> HeaderWords(g)[i] == HeaderWords(h)[i];
  }

  lemma HeaderReadsBack(h: Header, rest: seq<Byte>)
    ensures ReadHeader(HeaderBytes(h) + rest) == h
  {
    var whole := HeaderBytes(h) + rest;
    var read := ReadHeader(whole);
    var words := Concat(WordPieces(HeaderWords(h)));
    Regroup(HeaderFront(h), words, rest);
    FrontReads(h, words + rest);
    assert HeaderWords(read) == HeaderWords(h) by {
      forall i | 0 <= i < 6 ensures HeaderWords(read)[i] == HeaderWords(h)[i] {
        WordReadsBack(h, whole, rest, i);
      }
    }
    SameHeader(read, h);
  }

  lemma WordPieceWritesBack(b: seq<Byte>, i: nat)
    requires |b| == HEADER_SIZE && i < 6
    ensures WordPieces(HeaderWords(ReadHeader(b)))[i] == b[8 + 8 * i..8 + 8 * i + 8]
  {
    WordOfHeader(b, i);
    LittleEndianWrites(b[8 + 8 * i..8 + 8 * i + 8]);
  }

  lemma HeaderWritesBack(b: seq<Byte>)
    requires |b| == HEADER_SIZE
    ensures HeaderBytes(ReadHeader(b)) == b
  {
    var h := ReadHeader(b);
    FrontWritesBack(b, h);
    var pieces := WordPieces(HeaderWords(h));
    forall i | 0 <= i < 6 ensures pieces[i] == b[8 + 8 * i..8 + 8 * i + 8] {
      WordPieceWritesBack(b, i);
    }
    ConcatSlices(b, 8, pieces, WORD_SIZE, HEADER_SIZE);
    Adjoin(b, 0, 8, HEADER_SIZE);
  }

  lemma FrontWritesBack(b: seq<Byte>, h: Header)
    requires |b| == HEADER_SIZE && h == ReadHeader(b)
    ensures HeaderFront(h) == b[0..8]
  {
    LittleEndianWrites(b[4..6]);
    LittleEndianWrites(b[6..8]);
    Front(b[0..8]);
  }

  lemma Front(b: seq<Byte>)
    requires |b| == 8
    ensures b == [b[0], b[1], b[2], b[3]] + b[4..6] + b[6..8]
  {
  }

  /** Pieces that are consecutive slices of b put that stretch of b together again. */
  lemma {:induction false} ConcatSlices(b: seq<Byte>, offset: nat, pieces: seq<seq<Byte>>, n: nat, end: nat)
    requires end == offset + n * |pieces| <= |b|
    requires forall i :: 0 <= i < |pieces| ==>
      offset + n * i + n <= |b| && pieces[i] == b[offset + n * i..offset + n * i + n]
    ensures Concat(pieces) == b[offset..end]
    decreases |pieces|
  {
    if pieces != [] {
      var k := |pieces| - 1;
      assert end - n == offset + n * k by { assert n * (k + 1) == n * k + n; }
      ConcatSlices(b, offset, pieces[..k], n, end - n);
      assert pieces[k] == b[end - n..end];
      Adjoin(b, offset, end - n, end);
    }
  }

  lemma Adjoin(b: seq<Byte>, i: nat, j: nat, k: nat)
    requires i <= j <= k <= |b|
    ensures b[i..j] + b[j..k] == b[i..k]
    ensures b[0..|b|] == b
  {
  }

  // Lists of levels.

  function LevelPieces(levels: seq<PriceLevel>): (pieces: seq<seq<Byte>>)
    ensures |pieces| == |levels| && AllOfLength(pieces, LEVEL_SIZE)
  {
    seq(|levels|, i requires 0 <= i < |levels| => LevelBytes(levels[i]))
  }

  function LevelsBytes(levels: seq<PriceLevel>): (b: seq<Byte>)
    ensures |b| == LEVEL_SIZE * |levels|
  {
    ConcatLength(LevelPieces(levels), LEVEL_SIZE);
    Concat(LevelPieces(levels))
  }

  /** The bytes of level i of a list that starts at an offset. */
  function LevelSlice(b: seq<Byte>, offset: nat, i: nat): (slice: seq<Byte>)
    requires offset + LEVEL_SIZE * i + LEVEL_SIZE <= |b|
    ensures |slice| == LEVEL_SIZE
  {
    b[offset + LEVEL_SIZE * i..offset + LEVEL_SIZE * i + LEVEL_SIZE]
  }

  /** The n levels that start at an offset. */
  function ReadLevels(b: seq<Byte>, offset: nat, n: nat): (levels: seq<PriceLevel>)
    requires offset + LEVEL_SIZE * n <= |b|
    ensures |levels| == n
  {
    seq(n, i requires 0 <= i < n => ReadLevel(LevelSlice(b, offset, i)))
  }

  lemma PieceOf(levels: seq<PriceLevel>, i: nat)
    requires i < |levels|
    ensures LevelPieces(levels)[i] == LevelBytes(levels[i])
  {
  }

  lemma LevelAt(whole: seq<Byte>, before: seq<Byte>, pieces: seq<seq<Byte>>, after: seq<Byte>, i: nat, at: nat)
    requires AllOfLength(pieces, LEVEL_SIZE) && i < |pieces| && whole == before + Concat(pieces) + after
    requires at == |before| + LEVEL_SIZE * i
    ensures at + LEVEL_SIZE <= |whole| && whole[at..at + LEVEL_SIZE] == pieces[i]
  {
    PieceAt(pieces, LEVEL_SIZE, i, at - |before|);
    Inside(whole, before, Concat(pieces), after, at, pieces[i]);
  }

  lemma LevelsReadBack(before: seq<Byte>, levels: seq<PriceLevel>, after: seq<Byte>)
    ensures ReadLevels(before + LevelsBytes(levels) + after, |before|, |levels|) == levels
  {
    var whole := before + LevelsBytes(levels) + after;
    var read := ReadLevels(whole, |before|, |levels|);
    forall i | 0 <= i < |levels| ensures read[i] == levels[i] {
      LevelAt(whole, before, LevelPieces(levels), after, i, |before| + LEVEL_SIZE * i);
      PieceOf(levels, i);
      LevelReadsBack(levels[i]);
    }
  }

  lemma LevelOf(b: seq<Byte>, offset: nat, n: nat, i: nat)
    requires offset + LEVEL_SIZE * n <= |b| && i < n
    ensures ReadLevels(b, offset, n)[i] == ReadLevel(LevelSlice(b, offset, i))
  {
  }

  lemma PieceWritesBack(b: seq<Byte>, levels: seq<PriceLevel>, offset: nat, i: nat)
    requires offset + LEVEL_SIZE * |levels| <= |b| && levels == ReadLevels(b, offset, |levels|) && i < |levels|
    ensures LevelPieces(levels)[i] == LevelSlice(b, offset, i)
  {
    PieceOf(levels, i);
    LevelOf(b, offset, |levels|, i);
    LevelWritesBack(LevelSlice(b, offset, i));
  }

  lemma SlicesWriteBack(b: seq<Byte>, offset: nat, pieces: seq<seq<Byte>>)
    requires offset + LEVEL_SIZE * |pieces| <= |b|
    requires forall i :: 0 <= i < |pieces| ==> pieces[i] == LevelSlice(b, offset, i)
    ensures Concat(pieces) == b[offset..offset + LEVEL_SIZE * |pieces|]
  {
    ConcatSlices(b, offset, pieces, LEVEL_SIZE, offset + LEVEL_SIZE * |pieces|);
  }

  lemma LevelsWriteBack(b: seq<Byte>, offset: nat, n: nat)
    requires offset + LEVEL_SIZE * n <= |b|
    ensures LevelsBytes(ReadLevels(b, offset, n)) == b[offset..offset + LEVEL_SIZE * n]
  {
    var levels := ReadLevels(b, offset, n);
    forall i | 0 <= i < n ensures LevelPieces(levels)[i] == LevelSlice(b, offset, i) {
      PieceWritesBack(b, levels, offset, i);
    }
    SlicesWriteBack(b, offset, LevelPieces(levels));
  }

  // Whole messages.

  type Crc = seq<Byte> -> U32

  /** The header as it is sent: the counts are the list lengths cut to 16 bits. */
  function Counted(m: Content): Header {
    m.header.(numBids := |m.bids| % 0x1_0000, numAsks := |m.asks| % 0x1_0000)
  }

  function Payload(m: Content): seq<Byte> {
    HeaderBytes(Counted(m)) + LevelsBytes(m.bids) + LevelsBytes(m.asks)
  }

  function Encode(m: Content, crc: Crc): seq<Byte> {
    Payload(m) + ToLittleEndian(crc(Payload(m)), CRC_SIZE)
  }

  function Size(m: Content): nat {
    HEADER_SIZE + (|m.bids| + |m.asks|) * LEVEL_SIZE + CRC_SIZE
  }

  /** Everything before the checksum, and the checksum stored in the last four bytes. */
  function Checked(b: seq<Byte>): seq<Byte>
    requires |b| >= CRC_SIZE
  {
    b[..|b| - CRC_SIZE]
  }

  function Stored(b: seq<Byte>): U32
    requires |b| >= CRC_SIZE
  {
    ReadU32(b[|b| - CRC_SIZE..])
  }

  function Decode(b: seq<Byte>, crc: Crc): Result<Content> {
    if |b| < HEADER_SIZE + CRC_SIZE then Err(BufferTooSmall(HEADER_SIZE + CRC_SIZE, |b|))
    else if Stored(b) != crc(Checked(b)) then Err(InvalidChecksum(Stored(b), crc(Checked(b))))
    else if b[0] != MESSAGE_TYPE then Err(InvalidMessageType(b[0]))
    else
      var h := ReadHeader(b);
      if HEADER_SIZE + LEVEL_SIZE * (h.numBids + h.numAsks) > |b| then
        Err(BufferTooSmall(LEVEL_SIZE, (|b| - HEADER_SIZE) % LEVEL_SIZE))
      else
        Ok(Content(h, ReadLevels(b, HEADER_SIZE, h.numBids),
                   ReadLevels(b, HEADER_SIZE + LEVEL_SIZE * h.numBids, h.numAsks)))
  }

  lemma LevelsSnoc(levels: seq<PriceLevel>, i: nat)
    requires i < |levels|
    ensures LevelsBytes(levels[..i + 1]) == LevelsBytes(levels[..i]) + LevelBytes(levels[i])
  {
    var pieces := LevelPieces(levels[..i + 1]);
    assert pieces[..i] == LevelPieces(levels[..i]);
  }

  lemma ReadSnoc(b: seq<Byte>, offset: nat, i: nat)
    requires offset + LEVEL_SIZE * i + LEVEL_SIZE <= |b|
    ensures ReadLevels(b, offset, i + 1)
         == ReadLevels(b, offset, i) + [ReadLevel(b[offset + LEVEL_SIZE * i..][..LEVEL_SIZE])]
  {
    assert b[offset + LEVEL_SIZE * i..][..LEVEL_SIZE] == LevelSlice(b, offset, i);
  }

  /** PriceLevel::from_bytes: the first sixteen of the bytes left. */
  method LevelFromBytes(b: seq<Byte>) returns (r: Result<PriceLevel>)
    ensures |b| < LEVEL_SIZE ==> r == Err(BufferTooSmall(LEVEL_SIZE, |b|))
    ensures |b| >= LEVEL_SIZE ==> r == Ok(ReadLevel(b[..LEVEL_SIZE]))
  {
    if |b| < LEVEL_SIZE {
      return Err(BufferTooSmall(LEVEL_SIZE, |b|));
    }
    assert b[..LEVEL_SIZE][0..8] == b[0..8] && b[..LEVEL_SIZE][8..16] == b[8..16];
    r := Ok(PriceLevel(AsI64(ReadU64(b[0..8])), AsI64(ReadU64(b[8..16]))));
  }

  /** One of the two parsing loops: n levels from an offset, or what is left over when they run out. */
  method ParseLevels(b: seq<Byte>, start: nat, n: nat) returns (r: Result<seq<PriceLevel>>)
    requires start <= |b|
    ensures start + LEVEL_SIZE * n <= |b| ==> r == Ok(ReadLevels(b, start, n))
    ensures start + LEVEL_SIZE * n > |b| ==> r == Err(BufferTooSmall(LEVEL_SIZE, (|b| - start) % LEVEL_SIZE))
  {
    var levels: seq<PriceLevel> := [];
    var offset := start;
    for i := 0 to n
      invariant offset == start + LEVEL_SIZE * i <= |b|
      invariant levels == ReadLevels(b, start, i)
    {
      var level := LevelFromBytes(b[offset..]);
      if level.Err? {
        Leftover(|b| - start, i);
        return Err(level.error);
      }
      ReadSnoc(b, start, i);
      levels := levels + [level.value];
      offset := offset + LEVEL_SIZE;
    }
    r := Ok(levels);
  }

  lemma Leftover(x: nat, i: nat)
    requires LEVEL_SIZE * i <= x < LEVEL_SIZE * i + LEVEL_SIZE
    ensures x % LEVEL_SIZE == x - LEVEL_SIZE * i
  {
  }

  class OrderBookBatchMessage {
    var header: Header
    var bids: seq<PriceLevel>
    var asks: seq<PriceLevel>

    constructor NewWithIds(exchange: Byte, updateType: Byte, low: U64, high: U64, encoding: Byte,
                           timestamp: U64, first: U64, final: U64, prev: U64)
      ensures Contents() == Content(
                  Header(MESSAGE_TYPE, exchange, updateType, encoding, 0, 0, low, high, timestamp, first, final, prev),
                  [], [])
    {
      header := Header(MESSAGE_TYPE, exchange, updateType, encoding, 0, 0, low, high, timestamp, first, final, prev);
      bids := [];
      asks := [];
    }

    constructor Parsed(c: Content)
      ensures Contents() == c
    {
      header := c.header;
      bids := c.bids;
      asks := c.asks;
    }

    function Contents(): Content
      reads this
    {
      Content(header, bids, asks)
    }

    method AddBid(price: I64, size: I64)
      modifies this`bids
      ensures bids == old(bids) + [PriceLevel(price, size)]
    {
      bids := bids + [PriceLevel(price, size)];
    }

    method AddAsk(price: I64, size: I64)
      modifies this`asks
      ensures asks == old(asks) + [PriceLevel(price, size)]
    {
      asks := asks + [PriceLevel(price, size)];
    }

    method AddBids(levels: seq<PriceLevel>)
      modifies this`bids
      ensures bids == old(bids) + levels
    {
      for i := 0 to |levels|
        invariant bids == old(bids) + levels[..i]
      {
        assert levels[..i + 1] == levels[..i] + [levels[i]];
        AddBid(levels[i].price, levels[i].size);
      }
      assert levels[..|levels|] == levels;
    }

    method AddAsks(levels: seq<PriceLevel>)
      modifies this`asks
      ensures asks == old(asks) + levels
    {
      for i := 0 to |levels|
        invariant asks == old(asks) + levels[..i]
      {
        assert levels[..i + 1] == levels[..i] + [levels[i]];
        AddAsk(levels[i].price, levels[i].size);
      }
      assert levels[..|levels|] == levels;
    }

    /** One of the two serialising loops. */
    method PushLevels(start: seq<Byte>, levels: seq<PriceLevel>) returns (bytes: seq<Byte>)
      ensures bytes == start + LevelsBytes(levels)
    {
      bytes := start;
      assert levels[..0] == [];
      for i := 0 to |levels|
        invariant bytes == start + LevelsBytes(levels[..i])
      {
        LevelsSnoc(levels, i);
        Regroup(start, LevelsBytes(levels[..i]), LevelBytes(levels[i]));
        bytes := bytes + LevelBytes(levels[i]);
      }
      assert levels[..|levels|] == levels;
    }

    method ToBytes(crc: Crc) returns (bytes: seq<Byte>)
      ensures bytes == Encode(Contents(), crc)
      ensures |bytes| == Size(Contents())
    {
      var h := header.(numBids := |bids| % 0x1_0000, numAsks := |asks| % 0x1_0000);
      bytes := HeaderBytes(h);
      bytes := PushLevels(bytes, bids);
      bytes := PushLevels(bytes, asks);
      bytes := bytes + ToLittleEndian(crc(bytes), CRC_SIZE);
    }

    static method FromBytes(b: seq<Byte>, crc: Crc) returns (r: Result<OrderBookBatchMessage>)
      ensures r.Ok? <==> Decode(b, crc).Ok?
      ensures r.Ok? ==> fresh(r.value) && r.value.Contents() == Decode(b, crc).value
      ensures r.Err? ==> r.error == Decode(b, crc).error
    {
      if |b| < HEADER_SIZE + CRC_SIZE {
        return Err(BufferTooSmall(HEADER_SIZE + CRC_SIZE, |b|));
      }
      var crcOffset := |b| - CRC_SIZE;
      var expected := ReadU32(b[crcOffset..]);
      var actual := crc(b[..crcOffset]);
      if expected != actual {
        return Err(InvalidChecksum(expected, actual));
      }
      if b[0] != MESSAGE_TYPE {
        return Err(InvalidMessageType(b[0]));
      }
      var h := ReadHeader(b);
      var bids := ParseLevels(b, HEADER_SIZE, h.numBids);
      if bids.Err? {
        return Err(bids.error);
      }
      var offset := HEADER_SIZE + LEVEL_SIZE * h.numBids;
      var asks := ParseLevels(b, offset, h.numAsks);
      if asks.Err? {
        SameRemainder(|b| - HEADER_SIZE, h.numBids);
        return Err(asks.error);
      }
      var m := new OrderBookBatchMessage.Parsed(Content(h, bids.value, asks.value));
      r := Ok(m);
    }
  }

  lemma SameRemainder(x: nat, i: nat)
    requires LEVEL_SIZE * i <= x
    ensures (x - LEVEL_SIZE * i) % LEVEL_SIZE == x % LEVEL_SIZE
  {
    ModShift(x - LEVEL_SIZE * i, i, LEVEL_SIZE);
  }

  // What a round trip preserves.

  lemma ChecksumReadsBack(payload: seq<Byte>, crc: U32)
    ensures var b := payload + ToLittleEndian(crc, CRC_SIZE); Checked(b) == payload && Stored(b) == crc
  {
    Sizes();
    LittleEndianReads(crc, CRC_SIZE);
    var b := payload + ToLittleEndian(crc, CRC_SIZE);
    assert b[|b| - CRC_SIZE..] == ToLittleEndian(crc, CRC_SIZE);
  }

  lemma Sections(b: seq<Byte>, h: seq<Byte>, bids: seq<Byte>, asks: seq<Byte>, tail: seq<Byte>)
    requires b == h + bids + asks + tail
    ensures b == h + (bids + asks + tail)
    ensures b == h + bids + (asks + tail)
    ensures b == (h + bids) + asks + tail
  {
  }

  lemma PartsRead(b: seq<Byte>, h: Header, bids: seq<PriceLevel>, asks: seq<PriceLevel>, tail: seq<Byte>)
    requires b == HeaderBytes(h) + LevelsBytes(bids) + LevelsBytes(asks) + tail
    ensures |b| == HEADER_SIZE + LEVEL_SIZE * (|bids| + |asks|) + |tail|
    ensures ReadHeader(b) == h
    ensures ReadLevels(b, HEADER_SIZE, |bids|) == bids
    ensures ReadLevels(b, HEADER_SIZE + LEVEL_SIZE * |bids|, |asks|) == asks
  {
    var hb, bb, ab := HeaderBytes(h), LevelsBytes(bids), LevelsBytes(asks);
    var front := hb + bb;
    assert ReadHeader(b) == h by {
      Sections(b, hb, bb, ab, tail);
      HeaderReadsBack(h, bb + ab + tail);
    }
    assert ReadLevels(b, HEADER_SIZE, |bids|) == bids by {
      Sections(b, hb, bb, ab, tail);
      LevelsReadBack(hb, bids, ab + tail);
    }
    assert ReadLevels(b, |front|, |asks|) == asks by { LevelsReadBack(front, asks, tail); }
  }

  lemma CountedWhole(m: Content)
    requires |m.bids| <= 65535 && |m.asks| <= 65535
    ensures Counted(m).numBids == |m.bids| && Counted(m).numAsks == |m.asks|
  {
  }

  lemma DecodedCounts(b: seq<Byte>, crc: Crc)
    requires Decode(b, crc).Ok?
    ensures var c := Decode(b, crc).value; |c.bids| == c.header.numBids && |c.asks| == c.header.numAsks
  {
  }

  lemma DecodeOfParts(b: seq<Byte>, h: Header, bids: seq<PriceLevel>, asks: seq<PriceLevel>, crc: Crc)
    requires |b| >= HEADER_SIZE + LEVEL_SIZE * (|bids| + |asks|) && |b| >= HEADER_SIZE + CRC_SIZE
    requires Stored(b) == crc(Checked(b)) && ReadHeader(b) == h
    requires h.header == MESSAGE_TYPE && h.numBids == |bids| && h.numAsks == |asks|
    requires ReadLevels(b, HEADER_SIZE, |bids|) == bids
    requires ReadLevels(b, HEADER_SIZE + LEVEL_SIZE * |bids|, |asks|) == asks
    ensures Decode(b, crc) == Ok(Content(h, bids, asks))
  {
    assert b[0] == h.header;
  }

  lemma ChecksumMatches(b: seq<Byte>, payload: seq<Byte>, crc: Crc)
    requires b == payload + ToLittleEndian(crc(payload), CRC_SIZE)
    ensures Stored(b) == crc(Checked(b))
  {
    var stored := crc(payload);
    ChecksumReadsBack(payload, stored);
  }

  lemma DecodeOfEncoded(b: seq<Byte>, h: Header, bids: seq<PriceLevel>, asks: seq<PriceLevel>, tail: seq<Byte>,
                        crc: Crc)
    requires b == HeaderBytes(h) + LevelsBytes(bids) + LevelsBytes(asks) + tail && |b| >= HEADER_SIZE + CRC_SIZE
    requires Stored(b) == crc(Checked(b))
    requires h.header == MESSAGE_TYPE && h.numBids == |bids| && h.numAsks == |asks|
    ensures Decode(b, crc) == Ok(Content(h, bids, asks))
  {
    PartsRead(b, h, bids, asks, tail);
    DecodeOfParts(b, h, bids, asks, crc);
  }

  lemma RoundTripsWithinCounts(m: Content, crc: Crc)
    requires m.header.header == MESSAGE_TYPE && |m.bids| <= 65535 && |m.asks| <= 65535
    ensures Decode(Encode(m, crc), crc) == Ok(m.(header := Counted(m)))
  {
    CountedWhole(m);
    ChecksumMatches(Encode(m, crc), Payload(m), crc);
    DecodeOfEncoded(Encode(m, crc), Counted(m), m.bids, m.asks, ToLittleEndian(crc(Payload(m)), CRC_SIZE), crc);
  }

  /** A message comes back with the same header fields and the same levels in order
      precisely when neither side has more than 65535 levels. */
  lemma RoundTripsExactly(m: Content, crc: Crc)
    requires m.header.header == MESSAGE_TYPE
    ensures Decode(Encode(m, crc), crc) == Ok(m.(header := Counted(m))) <==> |m.bids| <= 65535 && |m.asks| <= 65535
  {
    if |m.bids| <= 65535 && |m.asks| <= 65535 {
      RoundTripsWithinCounts(m, crc);
    } else {
      var r := Decode(Encode(m, crc), crc);
      if r.Ok? {
        DecodedCounts(Encode(m, crc), crc);
      }
    }
  }

  lemma SliceOfPrefix(b: seq<Byte>, n: nat, i: nat, j: nat)
    requires i <= j <= n <= |b|
    ensures b[0..n][i..j] == b[i..j]
  {
  }

  lemma HeaderOfPrefix(b: seq<Byte>)
    requires |b| >= HEADER_SIZE
    ensures ReadHeader(b[0..HEADER_SIZE]) == ReadHeader(b)
  {
    var g, h := ReadHeader(b[0..HEADER_SIZE]), ReadHeader(b);
    forall i | 0 <= i < 6 ensures HeaderWords(g)[i] == HeaderWords(h)[i] {
      WordOfHeader(b, i);
      WordOfHeader(b[0..HEADER_SIZE], i);
      SliceOfPrefix(b, HEADER_SIZE, 8 + 8 * i, 8 + 8 * i + 8);
    }
    SliceOfPrefix(b, HEADER_SIZE, 4, 6);
    SliceOfPrefix(b, HEADER_SIZE, 6, 8);
    SameHeader(g, h);
  }

  lemma SplitAt(b: seq<Byte>, i: nat)
    requires i <= |b|
    ensures b[0..i] == b[..i] && b[..i] + b[i..] == b
  {
  }

  lemma HeaderPartWritesBack(b: seq<Byte>, h: Header)
    requires |b| >= HEADER_SIZE && h == ReadHeader(b)
    ensures HeaderBytes(h) == b[0..HEADER_SIZE]
  {
    HeaderOfPrefix(b);
    HeaderWritesBack(b[0..HEADER_SIZE]);
  }

  lemma PartsWriteBack(b: seq<Byte>, c: Content, mid: nat, end: nat)
    requires mid == HEADER_SIZE + LEVEL_SIZE * |c.bids| && end == mid + LEVEL_SIZE * |c.asks| <= |b|
    requires c.header == ReadHeader(b) && c.header.numBids == |c.bids| && c.header.numAsks == |c.asks|
    requires c.bids == ReadLevels(b, HEADER_SIZE, |c.bids|) && c.asks == ReadLevels(b, mid, |c.asks|)
    ensures Payload(c) == b[0..end]
  {
    HeaderPartWritesBack(b, c.header);
    assert LevelsBytes(c.bids) == b[HEADER_SIZE..mid] by { LevelsWriteBack(b, HEADER_SIZE, |c.bids|); }
    assert LevelsBytes(c.asks) == b[mid..end] by { LevelsWriteBack(b, mid, |c.asks|); }
    CountedAlready(c);
    JoinThree(b, HEADER_SIZE, mid, end);
  }

  lemma PayloadOfDecoded(b: seq<Byte>, crc: Crc)
    requires Decode(b, crc).Ok?
    ensures var c := Decode(b, crc).value; var end := Size(c) - CRC_SIZE;
      end <= |b| && Payload(c) == b[0..end]
  {
    var c := Decode(b, crc).value;
    var mid := HEADER_SIZE + LEVEL_SIZE * |c.bids|;
    PartsWriteBack(b, c, mid, mid + LEVEL_SIZE * |c.asks|);
  }

  lemma CountedAlready(c: Content)
    requires c.header.numBids == |c.bids| && c.header.numAsks == |c.asks|
    ensures Counted(c) == c.header
  {
  }

  lemma JoinThree(b: seq<Byte>, i: nat, j: nat, k: nat)
    requires i <= j <= k <= |b|
    ensures b[0..i] + b[i..j] + b[j..k] == b[0..k]
  {
  }

  /** Accepted bytes are what their own content serialises to precisely when they have its size. */
  lemma ReencodesExactly(b: seq<Byte>, crc: Crc)
    requires Decode(b, crc).Ok?
    ensures Encode(Decode(b, crc).value, crc) == b <==> |b| == Size(Decode(b, crc).value)
  {
    var end := Size(Decode(b, crc).value) - CRC_SIZE;
    PayloadOfDecoded(b, crc);
    if |b| == end + CRC_SIZE {
      LittleEndianWrites(b[end..]);
      SplitAt(b, end);
    }
  }

  // What is accepted beyond what ToBytes produces: the length is never compared with the counts.

  lemma ChecksumAppended(b: seq<Byte>, payload: seq<Byte>, tail: seq<Byte>, crc: Crc)
    requires b == payload + tail + ToLittleEndian(crc(payload + tail), CRC_SIZE)
    ensures Stored(b) == crc(Checked(b))
    ensures b == payload + (tail + ToLittleEndian(crc(payload + tail), CRC_SIZE))
  {
    ChecksumMatches(b, payload + tail, crc);
    Regroup(payload, tail, ToLittleEndian(crc(payload + tail), CRC_SIZE));
  }

  /** Any bytes between the levels and a matching checksum are ignored, so the message they follow is read
      back from bytes it does not serialise to. */
  lemma TrailingBytesAccepted(m: Content, tail: seq<Byte>, b: seq<Byte>, crc: Crc)
    requires m.header.header == MESSAGE_TYPE && |m.bids| <= 65535 && |m.asks| <= 65535
    requires b == Payload(m) + tail + ToLittleEndian(crc(Payload(m) + tail), CRC_SIZE)
    ensures Decode(b, crc) == Ok(m.(header := Counted(m)))
    ensures |b| == Size(m) + |tail|
    ensures Encode(m.(header := Counted(m)), crc) == b <==> tail == []
  {
    var end := tail + ToLittleEndian(crc(Payload(m) + tail), CRC_SIZE);
    CountedWhole(m);
    ChecksumAppended(b, Payload(m), tail, crc);
    DecodeOfEncoded(b, Counted(m), m.bids, m.asks, end, crc);
    ReencodesExactly(b, crc);
  }

  /** The last ask may end in the checksum itself: twelve bytes before it complete a level, and the
      message is accepted although it is four bytes short of its size. */
  lemma LevelOverlapsChecksum(h: Header, bids: seq<PriceLevel>, asks: seq<PriceLevel>, partial: seq<Byte>, b: seq<Byte>,
                              crc: Crc)
    requires h.header == MESSAGE_TYPE && h.numBids == |bids| && h.numAsks == |asks| + 1 && |partial| == 12
    requires var prefix := HeaderBytes(h) + LevelsBytes(bids) + LevelsBytes(asks) + partial;
             b == prefix + ToLittleEndian(crc(prefix), CRC_SIZE)
    ensures Decode(b, crc) == Ok(Content(h, bids, asks + [ReadLevel(b[|b| - LEVEL_SIZE..])]))
    ensures |b| == Size(Decode(b, crc).value) - CRC_SIZE && Encode(Decode(b, crc).value, crc) != b
  {
    var hb, bb, ab := HeaderBytes(h), LevelsBytes(bids), LevelsBytes(asks);
    var prefix := hb + bb + ab + partial;
    var tail := ToLittleEndian(crc(prefix), CRC_SIZE);
    ChecksumMatches(b, prefix, crc);
    LastLevel(hb + bb, ab, partial, tail);
    var level := ReadLevel(partial + tail);
    LevelWritesBack(partial + tail);
    LevelsAppend(asks, level);
    DecodeOfEncoded(b, h, bids, asks + [level], [], crc);
    ReencodesExactly(b, crc);
  }

  lemma LastLevel(front: seq<Byte>, asks: seq<Byte>, partial: seq<Byte>, tail: seq<Byte>)
    requires |partial| + |tail| == LEVEL_SIZE
    ensures var b := front + asks + partial + tail;
      b == front + (asks + (partial + tail)) + [] && b[|b| - LEVEL_SIZE..] == partial + tail
  {
  }

  lemma LevelsAppend(levels: seq<PriceLevel>, level: PriceLevel)
    ensures LevelsBytes(levels + [level]) == LevelsBytes(levels) + LevelBytes(level)
  {
    LevelsSnoc(levels + [level], |levels|);
    assert (levels + [level])[..|levels|] == levels;
    assert (levels + [level])[..|levels| + 1] == levels + [level];
  }

  // The layout, byte by byte.

  function ByteAt(b: seq<Byte>, i: nat): int
    requires i < |b|
  {
    b[i]
  }

  /** Little-endian numbers of two, four and eight bytes at an offset. */
  function ShortAt(b: seq<Byte>, at: nat): int
    requires at + 2 <= |b|
  {
    ByteAt(b, at) + 0x100 * ByteAt(b, at + 1)
  }

  function QuadAt(b: seq<Byte>, at: nat): int
    requires at + 4 <= |b|
  {
    ByteAt(b, at) + 0x100 * ByteAt(b, at + 1) + 0x1_0000 * ByteAt(b, at + 2) + 0x100_0000 * ByteAt(b, at + 3)
  }

  function WordAt(b: seq<Byte>, at: nat): int
    requires at + 8 <= |b|
  {
    QuadAt(b, at) + 0x1_0000_0000 * QuadAt(b, at + 4)
  }

  /** The same word in two's complement. */
  function SignedAt(b: seq<Byte>, at: nat): int
    requires at + 8 <= |b|
  {
    var u := WordAt(b, at);
    if u < 0x8000_0000_0000_0000 then u else u - 0x1_0000_0000_0000_0000
  }

  lemma TwoBytes(b: seq<Byte>, at: nat)
    requires at + 2 <= |b|
    ensures FromLittleEndian(b[at..at + 2]) == ShortAt(b, at)
  {
    var w := b[at..at + 2];
    assert w[1..][1..] == [];
    assert FromLittleEndian(w[1..]) == w[1];
  }

  lemma FourBytes(b: seq<Byte>, at: nat)
    requires at + 4 <= |b|
    ensures FromLittleEndian(b[at..at + 4]) == QuadAt(b, at)
  {
    var w := b[at..at + 4];
    assert w[1..][1..] == b[at + 2..at + 2 + 2];
    assert FromLittleEndian(w[1..]) == w[1] + 256 * FromLittleEndian(w[1..][1..]);
    TwoBytes(b, at + 2);
  }

  lemma {:induction false} ConcatReads(x: seq<Byte>, y: seq<Byte>)
    ensures FromLittleEndian(x + y) == FromLittleEndian(x) + Base(|x|) * FromLittleEndian(y)
    decreases |x|
  {
    if x == [] {
      assert x + y == y;
    } else {
      assert (x + y)[1..] == x[1..] + y && (x + y)[0] == x[0];
      ConcatReads(x[1..], y);
      NextDigit(FromLittleEndian(x[1..]), Base(|x| - 1), FromLittleEndian(y));
    }
  }

  lemma NextDigit(low: nat, base: nat, high: nat)
    ensures 256 * (low + base * high) == 256 * low + 256 * base * high
  {
  }

  lemma EightBytes(b: seq<Byte>, at: nat)
    requires at + 8 <= |b|
    ensures FromLittleEndian(b[at..at + 8]) == WordAt(b, at)
  {
    assert b[at..at + 8] == b[at..at + 4] + b[at + 4..at + 4 + 4];
    ConcatReads(b[at..at + 4], b[at + 4..at + 4 + 4]);
    Sizes();
    FourBytes(b, at);
    FourBytes(b, at + 4);
  }

  /** A level is its price and then its size, each in eight bytes. */
  lemma LevelLayout(b: seq<Byte>, at: nat, l: PriceLevel)
    requires at + 16 <= |b| && b[at..at + LEVEL_SIZE] == LevelBytes(l)
    ensures SignedAt(b, at) == l.price && SignedAt(b, at + 8) == l.size
  {
    var slice := b[at..at + LEVEL_SIZE];
    LevelReadsBack(l);
    assert slice[0..8] == b[at..at + 8] && slice[8..16] == b[at + 8..at + 8 + 8];
    EightBytes(b, at);
    EightBytes(b, at + 8);
    AsSigned(WordAt(b, at));
    AsSigned(WordAt(b, at + 8));
  }

  lemma AsSigned(u: nat)
    requires u < TWO_64
    ensures WrapI64(u) == if u < 0x8000_0000_0000_0000 then u else u - 0x1_0000_0000_0000_0000
  {
    if !FitsI64(u) {
      ModShift(u - TWO_63, 1, TWO_64);
      SmallMod(u - TWO_63, TWO_64);
    }
  }

  lemma PieceLayout(b: seq<Byte>, before: seq<Byte>, levels: seq<PriceLevel>, after: seq<Byte>, i: nat, at: nat)
    requires b == before + LevelsBytes(levels) + after && i < |levels| && at == |before| + 16 * i
    ensures at + 16 <= |b| && SignedAt(b, at) == levels[i].price && SignedAt(b, at + 8) == levels[i].size
  {
    LevelAt(b, before, LevelPieces(levels), after, i, at);
    PieceOf(levels, i);
    LevelLayout(b, at, levels[i]);
  }

  lemma EncodedSize(m: Content, crc: Crc)
    ensures |Encode(m, crc)| == 60 + 16 * (|m.bids| + |m.asks|)
  {
  }

  /** Bids start at byte 56, sixteen bytes each. */
  lemma BidsOnTheWire(m: Content, crc: Crc, i: nat, b: seq<Byte>, at: nat)
    requires b == Encode(m, crc) && i < |m.bids| && at == 56 + 16 * i
    ensures at + 16 <= |b| && SignedAt(b, at) == m.bids[i].price && SignedAt(b, at + 8) == m.bids[i].size
  {
    var front, tail := AroundBids(m, crc, b);
    PieceLayout(b, front, m.bids, tail, i, at);
  }

  lemma AroundBids(m: Content, crc: Crc, b: seq<Byte>) returns (front: seq<Byte>, tail: seq<Byte>)
    requires b == Encode(m, crc)
    ensures b == front + LevelsBytes(m.bids) + tail && |front| == 56
  {
    front := HeaderBytes(Counted(m));
    var crcBytes := ToLittleEndian(crc(Payload(m)), CRC_SIZE);
    tail := LevelsBytes(m.asks) + crcBytes;
    Regroup(front + LevelsBytes(m.bids), LevelsBytes(m.asks), crcBytes);
  }

  /** Asks follow the bids. */
  lemma AsksOnTheWire(m: Content, crc: Crc, i: nat, b: seq<Byte>, at: nat)
    requires b == Encode(m, crc) && i < |m.asks| && at == 56 + 16 * |m.bids| + 16 * i
    ensures at + 16 <= |b| && SignedAt(b, at) == m.asks[i].price && SignedAt(b, at + 8) == m.asks[i].size
  {
    var front, tail := BeforeAsks(m, crc, b);
    PieceLayout(b, front, m.asks, tail, i, at);
  }

  lemma BeforeAsks(m: Content, crc: Crc, b: seq<Byte>) returns (front: seq<Byte>, tail: seq<Byte>)
    requires b == Encode(m, crc)
    ensures b == front + LevelsBytes(m.asks) + tail && |front| == 56 + 16 * |m.bids|
  {
    front := HeaderBytes(Counted(m)) + LevelsBytes(m.bids);
    tail := ToLittleEndian(crc(Payload(m)), CRC_SIZE);
  }

  lemma HeaderLayout(b: seq<Byte>)
    requires |b| >= HEADER_SIZE
    ensures var h := ReadHeader(b);
      && b[0] == h.header && b[1] == h.exchange && b[2] == h.updateType && b[3] == h.encoding
      && ShortAt(b, 4) == h.numBids && ShortAt(b, 6) == h.numAsks
      && WordAt(b, 8) == h.symbolLow && WordAt(b, 16) == h.symbolHigh && WordAt(b, 24) == h.timestamp
      && WordAt(b, 32) == h.firstUpdateId && WordAt(b, 40) == h.finalUpdateId && WordAt(b, 48) == h.prevUpdateId
  {
    TwoBytes(b, 4);
    TwoBytes(b, 6);
    EightBytes(b, 8);
    EightBytes(b, 16);
    EightBytes(b, 24);
    EightBytes(b, 32);
    EightBytes(b, 40);
    EightBytes(b, 48);
  }

  /** Where the header fields are, with the counts cut to 16 bits. */
  lemma HeaderOnTheWire(m: Content, crc: Crc)
    ensures var b, h := Encode(m, crc), m.header;
      && |b| == 60 + 16 * (|m.bids| + |m.asks|)
      && b[0] == h.header && b[1] == h.exchange && b[2] == h.updateType && b[3] == h.encoding
      && ShortAt(b, 4) == |m.bids| % 0x1_0000 && ShortAt(b, 6) == |m.asks| % 0x1_0000
      && WordAt(b, 8) == h.symbolLow && WordAt(b, 16) == h.symbolHigh && WordAt(b, 24) == h.timestamp
      && WordAt(b, 32) == h.firstUpdateId && WordAt(b, 40) == h.finalUpdateId && WordAt(b, 48) == h.prevUpdateId
  {
    var b, h := Encode(m, crc), HeaderBytes(Counted(m));
    var asks := LevelsBytes(m.asks) + ToLittleEndian(crc(Payload(m)), CRC_SIZE);
    EncodedSize(m, crc);
    assert ReadHeader(b) == Counted(m) by {
      Regroup(h + LevelsBytes(m.bids), LevelsBytes(m.asks), ToLittleEndian(crc(Payload(m)), CRC_SIZE));
      Regroup(h, LevelsBytes(m.bids), asks);
      HeaderReadsBack(Counted(m), LevelsBytes(m.bids) + asks);
    }
    HeaderLayout(b);
  }

  /** The last four bytes hold the checksum of everything before them. */
  lemma ChecksumOnTheWire(m: Content, crc: Crc)
    ensures |Encode(m, crc)| >= 4
    ensures QuadAt(Encode(m, crc), |Encode(m, crc)| - 4) == crc(Encode(m, crc)[..|Encode(m, crc)| - 4])
  {
    EncodedSize(m, crc);
    ChecksumMatches(Encode(m, crc), Payload(m), crc);
    LastFour(Encode(m, crc), |Encode(m, crc)| - 4);
  }

  lemma LastFour(b: seq<Byte>, n: nat)
    requires n + 4 == |b|
    ensures Stored(b) == QuadAt(b, n) && Checked(b) == b[..n]
  {
    assert b[n..] == b[n..n + 4];
    FourBytes(b, n);
  }

  /** When the two ends compute different checksum functions, a message is accepted exactly when they agree on it. */
  lemma MixedChecksums(m: Content, sender: Crc, receiver: Crc)
    requires m.header.header == MESSAGE_TYPE && |m.bids| <= 65535 && |m.asks| <= 65535
    ensures Decode(Encode(m, sender), receiver)
         == if sender(Payload(m)) == receiver(Payload(m)) then Ok(m.(header := Counted(m)))
            else Err(InvalidChecksum(sender(Payload(m)), receiver(Payload(m))))
  {
    var b := Encode(m, sender);
    ChecksumMatches(b, Payload(m), sender);
    assert Checked(b) == Payload(m);
    if sender(Payload(m)) == receiver(Payload(m)) {
      CountedWhole(m);
      DecodeOfEncoded(b, Counted(m), m.bids, m.asks, ToLittleEndian(sender(Payload(m)), CRC_SIZE), receiver);
    }
  }

  /** Whatever is accepted is long enough, of message type 3, with the checksum of what precedes it at its end, and
      has as many levels on each side as its counts say, where they are expected. */
  lemma AcceptedBytes(b: seq<Byte>, crc: Crc)
    requires Decode(b, crc).Ok?
    ensures var c := Decode(b, crc).value;
      && |b| >= 60 && b[0] == 3 && QuadAt(b, |b| - 4) == crc(b[..|b| - 4])
      && |c.bids| == ShortAt(b, 4) && |c.asks| == ShortAt(b, 6)
      && (forall i :: 0 <= i < |c.bids| ==> 72 + 16 * i <= |b|)
      && 56 + 16 * (|c.bids| + |c.asks|) <= |b|
  {
    LastFour(b, |b| - 4);
    HeaderLayout(b);
  }

  /** Whatever is refused, and why, in the order of the checks: length, checksum, type, and levels that do not fit. */
  lemma RefusedBytes(b: seq<Byte>, crc: Crc)
    ensures |b| < 60 ==> Decode(b, crc) == Err(BufferTooSmall(60, |b|))
    ensures |b| >= 60 && QuadAt(b, |b| - 4) != crc(b[..|b| - 4]) ==>
              Decode(b, crc) == Err(InvalidChecksum(QuadAt(b, |b| - 4), crc(b[..|b| - 4])))
    ensures |b| >= 60 && QuadAt(b, |b| - 4) == crc(b[..|b| - 4]) && b[0] != 3 ==>
              Decode(b, crc) == Err(InvalidMessageType(b[0]))
    ensures |b| >= 60 && QuadAt(b, |b| - 4) == crc(b[..|b| - 4]) && b[0] == 3 ==>
              (Decode(b, crc).Err? <==> 56 + 16 * (ShortAt(b, 4) + ShortAt(b, 6)) > |b|)
              && (Decode(b, crc).Err? ==> Decode(b, crc).error == BufferTooSmall(16, (|b| - 56) % 16))
  {
    if |b| >= 60 {
      LastFour(b, |b| - 4);
      HeaderLayout(b);
    }
  }
}

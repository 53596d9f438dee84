/** Quote generation: prices from fair value, drift and skew, sizes from inventory, then a ladder. */
module QuoteEngine {
  import opened RustInt
  import opened FixedPoint
  import opened Strategy
  import opened Reals
  import opened InventoryManager
  import opened RiskManager
  import opened Wrappers

  const BPS_SCALE: int := 100_000_000

  /** The change that `bps` basis points make to a price, as the i128 arithmetic truncates it. */
  function Adjustment(price: int, bps: real): int {
    TruncDiv(price * TruncReal(bps * 10000.0), BPS_SCALE)
  }

  function ApplyBps(price: int, bps: real): int {
    WrapI64(price + WrapI64(Adjustment(price, bps)))
  }

  function SubtractBps(price: int, bps: real): int {
    WrapI64(price - WrapI64(Adjustment(price, bps)))
  }

  function MulScalar(x: int, scalar: real): int {
    TruncReal(x as real * scalar)
  }

  function SpreadMultiplier(a: Action): real {
    match a
    case EmergencyUnwind => 0.5
    case AggressiveUnwind => 0.7
    case PassiveUnwind => 1.0
    case Neutral => 1.0
    case Accumulate => 1.2
  }

  function SizeUrgency(a: Action): real {
    match a
    case EmergencyUnwind => 2.0
    case AggressiveUnwind => 1.5
    case PassiveUnwind => 1.0
    case Neutral => 1.0
    case Accumulate => 0.8
  }

  function BidSize(c: Config, quantity: int, driftBps: real): int
    requires c.maxPositionSize > 0.0
  {
    var factor := AsymmetricSizes(c, quantity).0;
    if quantity > 0 then MulScalar(FromReal(c.baseQuoteSize), factor)
    else MulScalar(FromReal(c.baseQuoteSize), factor * SizeUrgency(RecommendedAction(c, quantity, driftBps)))
  }

  function AskSize(c: Config, quantity: int, driftBps: real): int
    requires c.maxPositionSize > 0.0
  {
    var factor := AsymmetricSizes(c, quantity).1;
    if quantity < 0 then MulScalar(FromReal(c.baseQuoteSize), factor)
    else MulScalar(FromReal(c.baseQuoteSize), factor * SizeUrgency(RecommendedAction(c, quantity, driftBps)))
  }

  /** What the statistical models contribute: any drift, base spread, skew and confidence. */
  datatype Signals = Signals(
    timestamp: nat,
    mid: int,
    driftBps: real,
    baseSpreadBps: real,
    skewBps: real,
    confidence: real)

  function HalfSpread(c: Config, quantity: int, s: Signals): real
    requires c.maxPositionSize > 0.0
  {
    s.baseSpreadBps * SpreadMultiplier(RecommendedAction(c, quantity, s.driftBps)) / 2.0
  }

  /** The distances from fair value, in basis points, at which the bid and the ask are quoted. */
  function BidSpread(c: Config, quantity: int, s: Signals): real
    requires c.maxPositionSize > 0.0
  {
    HalfSpread(c, quantity, s) - s.skewBps / 2.0
  }

  function AskSpread(c: Config, quantity: int, s: Signals): real
    requires c.maxPositionSize > 0.0
  {
    HalfSpread(c, quantity, s) + s.skewBps / 2.0
  }

  function BaseQuote(c: Config, quantity: int, s: Signals): StrategyQuote
    requires c.maxPositionSize > 0.0
  {
    var fair := ApplyBps(s.mid, s.driftBps);
    StrategyQuote(s.timestamp,
                  SubtractBps(fair, BidSpread(c, quantity, s)), BidSize(c, quantity, s.driftBps),
                  ApplyBps(fair, AskSpread(c, quantity, s)), AskSize(c, quantity, s.driftBps),
                  fair, quantity, s.confidence)
  }

  /** Level `level` of a ladder built on `base`. */
  function LevelQuote(base: StrategyQuote, s: Signals, spacingBps: real, level: nat): StrategyQuote {
    var offset := spacingBps * level as real;
    var factor := 1.0 / (level as real + 1.0);
    StrategyQuote(s.timestamp,
                  SubtractBps(base.bidPrice, offset), MulScalar(base.bidSize, factor),
                  ApplyBps(base.askPrice, offset), MulScalar(base.askSize, factor),
                  base.fairValue, base.inventory, base.confidence * factor)
  }

  /** No price of this level leaves the i64 range. */
  predicate LevelFits(base: StrategyQuote, spacingBps: real, level: nat) {
    var offset := spacingBps * level as real;
    && FitsI64(Adjustment(base.bidPrice, offset)) && FitsI64(base.bidPrice - Adjustment(base.bidPrice, offset))
    && FitsI64(Adjustment(base.askPrice, offset)) && FitsI64(base.askPrice + Adjustment(base.askPrice, offset))
  }

  lemma FloorMonotone(a: real, b: real)
    requires a <= b
    ensures a.Floor <= b.Floor
  {
  }

  lemma TruncDivMonotone(a: int, b: int, d: int)
    requires 0 <= a <= b && d > 0
    ensures TruncDiv(a, d) <= TruncDiv(b, d)
  {
    TruncDivRemainder(a, d);
    TruncDivRemainder(b, d);
    DivMonotone(a, b, d);
  }

  /** Truncated basis-point changes of a positive price grow with the offset. */
  lemma AdjustmentMonotone(price: int, a: real, b: real)
    requires price > 0 && 0.0 <= a <= b
    ensures 0 <= Adjustment(price, a) <= Adjustment(price, b)
  {
    FloorMonotone(a * 10000.0, b * 10000.0);
    var ka, kb := TruncReal(a * 10000.0), TruncReal(b * 10000.0);
    assert 0 <= ka <= kb;
    assert 0 <= price * ka <= price * kb by {
      assert price * (kb - ka) >= 0;
    }
    TruncDivMonotone(0, price * ka, BPS_SCALE);
    TruncDivMonotone(price * ka, price * kb, BPS_SCALE);
  }

  lemma OffsetMonotone(spacingBps: real, i: nat, j: nat)
    requires spacingBps >= 0.0 && i <= j
    ensures 0.0 <= spacingBps * i as real <= spacingBps * j as real
  {
    assert spacingBps * (j - i) as real >= 0.0;
    assert spacingBps * j as real == spacingBps * i as real + spacingBps * (j - i) as real;
  }

  lemma FactorMonotone(size: int, i: nat, j: nat)
    requires size >= 0 && i <= j
    ensures MulScalar(size, 1.0 / (j as real + 1.0)) <= MulScalar(size, 1.0 / (i as real + 1.0))
  {
    var fi, fj := 1.0 / (i as real + 1.0), 1.0 / (j as real + 1.0);
    ReciprocalMonotone(i as real + 1.0, j as real + 1.0);
    assert size as real * (fi - fj) >= 0.0;
    assert size as real * fj >= 0.0;
    FloorMonotone(size as real * fj, size as real * fi);
  }

  lemma ReciprocalMonotone(x: real, y: real)
    requires 0.0 < x <= y
    ensures 0.0 < 1.0 / y <= 1.0 / x
  {
    QuotientCompare(1.0, y, 0.0);
    QuotientTimes(1.0, x);
    ScaleReal(x, y, 1.0 / x);
    QuotientCompare(1.0, y, 1.0 / x);
  }

  /** Level `j` is no more aggressive and no larger than level `i` before it. */
  predicate Behind(inner: StrategyQuote, outer: StrategyQuote) {
    && outer.bidPrice <= inner.bidPrice && outer.askPrice >= inner.askPrice
    && outer.bidSize <= inner.bidSize && outer.askSize <= inner.askSize
  }

  lemma PricesRecede(price: int, spacingBps: real, i: nat, j: nat)
    requires price > 0 && spacingBps >= 0.0 && i <= j
    ensures 0 <= Adjustment(price, spacingBps * i as real) <= Adjustment(price, spacingBps * j as real)
  {
    OffsetMonotone(spacingBps, i, j);
    AdjustmentMonotone(price, spacingBps * i as real, spacingBps * j as real);
  }

  lemma LevelsRecede(base: StrategyQuote, s: Signals, spacingBps: real, i: nat, j: nat)
    requires 0 < base.bidPrice && 0 < base.askPrice && 0 <= base.bidSize && 0 <= base.askSize
    requires spacingBps >= 0.0 && i <= j && LevelFits(base, spacingBps, i) && LevelFits(base, spacingBps, j)
    ensures Behind(LevelQuote(base, s, spacingBps, i), LevelQuote(base, s, spacingBps, j))
  {
    PricesRecede(base.bidPrice, spacingBps, i, j);
    PricesRecede(base.askPrice, spacingBps, i, j);
    FactorMonotone(base.bidSize, i, j);
    FactorMonotone(base.askSize, i, j);
  }

  class Engine {
    const config: Config
    var position: int
    var risk: Manager

    constructor (config: Config, position: int, risk: Manager)
      ensures this.config == config && this.position == position && this.risk == risk
    {
      this.config := config;
      this.position := position;
      this.risk := risk;
    }

    method GenerateQuotes(s: Signals) returns (q: Option<StrategyQuote>)
      requires config.maxPositionSize > 0.0
      ensures q == if Accepts(risk.Abstract(), BaseQuote(config, position, s), position, s.mid)
                   then Some(BaseQuote(config, position, s)) else None
    {
      if risk.isKilled {
        return None;
      }
      var quote := BaseQuote(config, position, s);
      var accept := risk.CheckQuote(quote, position, s.mid);
      return if accept then Some(quote) else None;
    }

    /** The base quote and its levels up to the first one that the risk checks refuse. When prices recede and
        sizes shrink from level to level is the subject of LadderRecedes and what follows it. */
    method GenerateLadderQuotes(s: Signals, numLevels: nat, spacingBps: real) returns (quotes: seq<StrategyQuote>)
      requires config.maxPositionSize > 0.0
      ensures |quotes| <= Max(1, numLevels)
      ensures forall i :: 0 <= i < |quotes| ==> Accepts(risk.Abstract(), quotes[i], position, s.mid)
      ensures |quotes| > 0 ==> quotes[0] == BaseQuote(config, position, s)
      ensures forall i :: 1 <= i < |quotes| ==> quotes[i] == LevelQuote(quotes[0], s, spacingBps, i)
      ensures |quotes| == 0 <==> !Accepts(risk.Abstract(), BaseQuote(config, position, s), position, s.mid)
      ensures 0 < |quotes| < numLevels ==>
                !Accepts(risk.Abstract(), LevelQuote(quotes[0], s, spacingBps, |quotes|), position, s.mid)
    {
      quotes := [];
      var base := GenerateQuotes(s);
      if base.None? {
        return;
      }
      quotes := [base.value];
      var level := 1;
      while level < numLevels
        invariant 1 <= level == |quotes| <= Max(1, numLevels)
        invariant quotes[0] == base.value
        invariant forall i :: 0 <= i < |quotes| ==> Accepts(risk.Abstract(), quotes[i], position, s.mid)
        invariant forall i :: 1 <= i < |quotes| ==> quotes[i] == LevelQuote(quotes[0], s, spacingBps, i)
      {
        var quote := LevelQuote(base.value, s, spacingBps, level);
        var accept := risk.CheckQuote(quote, position, s.mid);
        if !accept {
          break;
        }
        quotes := quotes + [quote];
        level := level + 1;
      }
    }
  }

  lemma TruncRealMonotone(a: real, b: real)
    requires a <= b
    ensures TruncReal(a) <= TruncReal(b)
  {
    if b < 0.0 {
      FloorMonotone(-b, -a);
    } else if a >= 0.0 {
      FloorMonotone(a, b);
    }
  }

  lemma SignedAdjustmentMonotone(price: int, a: real, b: real)
    requires price > 0 && a <= b
    ensures Adjustment(price, a) <= Adjustment(price, b)
    ensures a >= 0.0 ==> Adjustment(price, a) >= 0
  {
    TruncRealMonotone(a * 10000.0, b * 10000.0);
    TruncRealMonotone(0.0, if a >= 0.0 then a * 10000.0 else 0.0);
    var ka, kb := TruncReal(a * 10000.0), TruncReal(b * 10000.0);
    ProductMonotone(price, ka, kb);
    if price * kb < 0 {
      TruncDivMonotone(-(price * kb), -(price * ka), BPS_SCALE);
    } else if price * ka >= 0 {
      TruncDivMonotone(price * ka, price * kb, BPS_SCALE);
    }
  }

  lemma ProductMonotone(p: nat, a: int, b: int)
    requires a <= b
    ensures p * a <= p * b
    ensures a >= 0 ==> p * a >= 0
  {
    assert p * (b - a) >= 0;
  }

  /** No price of the quote leaves the i64 range, and fair value is positive. */
  predicate QuoteFits(c: Config, quantity: int, s: Signals)
    requires c.maxPositionSize > 0.0
  {
    var fair := ApplyBps(s.mid, s.driftBps);
    var bid, ask := Adjustment(fair, BidSpread(c, quantity, s)), Adjustment(fair, AskSpread(c, quantity, s));
    fair > 0 && FitsI64(bid) && FitsI64(ask) && FitsI64(fair - bid) && FitsI64(fair + ask)
  }

  /** The largest price for which a change by no more than itself stays within i64, with a tenth to spare. */
  const LARGEST_MID: int := 4_000_000_000_000_000_000

  /** Offsets of at most 10000 basis points either way change a price by at most itself. */
  lemma AdjustmentAtMostPrice(price: int, bps: real)
    requires price > 0 && -10000.0 <= bps <= 10000.0
    ensures -price <= Adjustment(price, bps) <= price
    ensures bps >= 0.0 ==> Adjustment(price, bps) >= 0
  {
    SignedAdjustmentMonotone(price, -10000.0, bps);
    SignedAdjustmentMonotone(price, bps, 10000.0);
    assert TruncReal(10000.0 * 10000.0) == BPS_SCALE && TruncReal(-10000.0 * 10000.0) == -BPS_SCALE;
    WholeAdjustments(price);
  }

  lemma WholeAdjustments(price: int)
    requires price > 0
    ensures TruncDiv(price * BPS_SCALE, BPS_SCALE) == price && TruncDiv(price * -BPS_SCALE, BPS_SCALE) == -price
  {
  }

  /** What a caller can check beforehand: a fair value up to 4 * 10^18 units, and spreads within 10000 basis points. */
  lemma ModestQuoteFits(c: Config, quantity: int, s: Signals)
    requires c.maxPositionSize > 0.0 && 0 < ApplyBps(s.mid, s.driftBps) <= LARGEST_MID
    requires -10000.0 <= BidSpread(c, quantity, s) <= 10000.0 && -10000.0 <= AskSpread(c, quantity, s) <= 10000.0
    ensures QuoteFits(c, quantity, s)
  {
    AdjustmentAtMostPrice(ApplyBps(s.mid, s.driftBps), BidSpread(c, quantity, s));
    AdjustmentAtMostPrice(ApplyBps(s.mid, s.driftBps), AskSpread(c, quantity, s));
  }

  /** Basis-point arithmetic without wrapping. */
  lemma PricesWithinRange(price: int, bps: real)
    requires FitsI64(Adjustment(price, bps))
    ensures FitsI64(price - Adjustment(price, bps)) ==> SubtractBps(price, bps) == price - Adjustment(price, bps)
    ensures FitsI64(price + Adjustment(price, bps)) ==> ApplyBps(price, bps) == price + Adjustment(price, bps)
  {
  }

  lemma BasePrices(c: Config, quantity: int, s: Signals)
    requires c.maxPositionSize > 0.0 && QuoteFits(c, quantity, s)
    ensures var q := BaseQuote(c, quantity, s);
      && q.fairValue == ApplyBps(s.mid, s.driftBps)
      && q.bidPrice == q.fairValue - Adjustment(q.fairValue, BidSpread(c, quantity, s))
      && q.askPrice == q.fairValue + Adjustment(q.fairValue, AskSpread(c, quantity, s))
  {
    var fair := ApplyBps(s.mid, s.driftBps);
    PricesWithinRange(fair, BidSpread(c, quantity, s));
    PricesWithinRange(fair, AskSpread(c, quantity, s));
  }

  /** The quote encloses fair value whenever the skew is no wider than the spread. */
  lemma QuoteEnclosesFairValue(c: Config, quantity: int, s: Signals)
    requires c.maxPositionSize > 0.0 && QuoteFits(c, quantity, s)
    requires BidSpread(c, quantity, s) >= 0.0 && AskSpread(c, quantity, s) >= 0.0
    ensures var q := BaseQuote(c, quantity, s); q.bidPrice <= q.fairValue <= q.askPrice
  {
    var fair, bid, ask := ApplyBps(s.mid, s.driftBps), BidSpread(c, quantity, s), AskSpread(c, quantity, s);
    BasePrices(c, quantity, s);
    SignedAdjustmentMonotone(fair, bid, bid);
    SignedAdjustmentMonotone(fair, ask, ask);
  }

  /** More skew moves both prices up, less moves both down: neither side is left behind. */
  lemma SkewMovesBothPrices(c: Config, quantity: int, s: Signals, t: Signals)
    requires c.maxPositionSize > 0.0 && t == s.(skewBps := t.skewBps) && s.skewBps <= t.skewBps
    requires QuoteFits(c, quantity, s) && QuoteFits(c, quantity, t)
    ensures var q, r := BaseQuote(c, quantity, s), BaseQuote(c, quantity, t);
      q.bidPrice <= r.bidPrice && q.askPrice <= r.askPrice && q.fairValue == r.fairValue
  {
    var fair := ApplyBps(s.mid, s.driftBps);
    BasePrices(c, quantity, s);
    BasePrices(c, quantity, t);
    assert HalfSpread(c, quantity, s) == HalfSpread(c, quantity, t);
    SignedAdjustmentMonotone(fair, BidSpread(c, quantity, t), BidSpread(c, quantity, s));
    SignedAdjustmentMonotone(fair, AskSpread(c, quantity, s), AskSpread(c, quantity, t));
  }

  /** The ladder that GenerateLadderQuotes returns. */
  ghost predicate IsLadder(l: Limits, quotes: seq<StrategyQuote>, position: int, s: Signals, spacingBps: real) {
    && (forall i :: 0 <= i < |quotes| ==> Accepts(l, quotes[i], position, s.mid))
    && (forall i :: 1 <= i < |quotes| ==> quotes[i] == LevelQuote(quotes[0], s, spacingBps, i))
  }

  lemma NonNegativeSizes(c: Config, quantity: int, driftBps: real)
    requires c.maxPositionSize > 0.0 && WithinLimit(c, quantity) && FromReal(c.baseQuoteSize) >= 0
    ensures BidSize(c, quantity, driftBps) >= 0 && AskSize(c, quantity, driftBps) >= 0
  {
    SizeFactorRange(c, quantity);
    var base, k := FromReal(c.baseQuoteSize) as real, SizeUrgency(RecommendedAction(c, quantity, driftBps));
    assert base * SizeFactor(c, quantity) >= 0.0;
    assert base * (SizeFactor(c, quantity) * k) >= 0.0 && base * (1.0 * k) >= 0.0;
  }

  lemma ScalarMonotone(x: int, a: real, b: real)
    requires x >= 0 && 0.0 <= a <= b
    ensures MulScalar(x, a) <= MulScalar(x, b)
  {
    ProductNonNegative(x as real, a);
    ProductNonNegative(x as real, b - a);
    assert x as real * (b - a) == x as real * b - x as real * a;
    FloorMonotone(x as real * a, x as real * b);
  }

  /** Unless the engine is accumulating, the side that unwinds the position is quoted at least as large
      as the side that adds to it. */
  lemma SizesLeanAgainstPosition(c: Config, quantity: int, driftBps: real)
    requires c.maxPositionSize > 0.0 && WithinLimit(c, quantity) && FromReal(c.baseQuoteSize) >= 0
    requires !RecommendedAction(c, quantity, driftBps).Accumulate?
    ensures quantity > 0 ==> BidSize(c, quantity, driftBps) <= AskSize(c, quantity, driftBps)
    ensures quantity < 0 ==> AskSize(c, quantity, driftBps) <= BidSize(c, quantity, driftBps)
    ensures quantity == 0 ==> BidSize(c, quantity, driftBps) == AskSize(c, quantity, driftBps)
  {
    SizeFactorRange(c, quantity);
    var k := SizeUrgency(RecommendedAction(c, quantity, driftBps));
    ScalarMonotone(FromReal(c.baseQuoteSize), SizeFactor(c, quantity), 1.0 * k);
  }

  lemma LevelSizesNonNegative(base: StrategyQuote, s: Signals, spacingBps: real, level: nat)
    requires base.bidSize >= 0 && base.askSize >= 0
    ensures LevelQuote(base, s, spacingBps, level).bidSize >= 0 && LevelQuote(base, s, spacingBps, level).askSize >= 0
  {
    var f := 1.0 / (level as real + 1.0);
    ReciprocalMonotone(1.0, level as real + 1.0);
    assert base.bidSize as real * f >= 0.0 && base.askSize as real * f >= 0.0;
  }

  /** Every quote of a ladder built from the configuration has positive sizes, positive uncrossed
      prices, and lies within a tenth of the mid price. */
  lemma LadderIsSane(c: Config, l: Limits, quotes: seq<StrategyQuote>, position: int, s: Signals, spacingBps: real,
                     j: nat)
    requires c == l.config && c.maxPositionSize > 0.0 && FromReal(c.baseQuoteSize) >= 0 && s.mid > 0
    requires IsLadder(l, quotes, position, s, spacingBps) && j < |quotes| && quotes[0] == BaseQuote(c, position, s)
    ensures 0 < quotes[j].bidSize && 0 < quotes[j].askSize
    ensures ToReal(quotes[j].bidSize) <= c.maxOrderSize && ToReal(quotes[j].askSize) <= c.maxOrderSize
    ensures 0 < quotes[j].bidPrice < quotes[j].askPrice
    ensures 9 * s.mid <= 10 * quotes[j].bidPrice && 10 * quotes[j].askPrice <= 11 * s.mid
  {
    assert Accepts(l, quotes[j], position, s.mid);
    AcceptedPrices(l, quotes[j], position, s.mid);
    NonNegativeSizes(c, position, s.driftBps);
    LevelSizesNonNegative(quotes[0], s, spacingBps, j);
    SizeCheckIgnoresSign(c, quotes[j].bidSize);
    SizeCheckIgnoresSign(c, quotes[j].askSize);
  }

  lemma LevelZeroIsBase(base: StrategyQuote, s: Signals, spacingBps: real)
    requires LevelFits(base, spacingBps, 0)
    ensures var q := LevelQuote(base, s, spacingBps, 0);
            && q.bidPrice == base.bidPrice && q.askPrice == base.askPrice
            && q.bidSize == base.bidSize && q.askSize == base.askSize
  {
    assert spacingBps * 0 as real == 0.0;
    assert TruncReal(0.0 * 10000.0) == 0;
    assert Adjustment(base.bidPrice, 0.0) == 0 && Adjustment(base.askPrice, 0.0) == 0;
    assert 1.0 / (0 as real + 1.0) == 1.0;
  }

  lemma WrapI64Fits(x: int)
    ensures FitsI64(WrapI64(x))
  {
  }

  lemma BaseFits(c: Config, position: int, s: Signals, spacingBps: real)
    requires c.maxPositionSize > 0.0
    ensures LevelFits(BaseQuote(c, position, s), spacingBps, 0)
  {
    var q, fair := BaseQuote(c, position, s), ApplyBps(s.mid, s.driftBps);
    WrapI64Fits(fair - WrapI64(Adjustment(fair, BidSpread(c, position, s))));
    WrapI64Fits(fair + WrapI64(Adjustment(fair, AskSpread(c, position, s))));
    assert spacingBps * 0 as real == 0.0 && TruncReal(0.0 * 10000.0) == 0;
    assert Adjustment(q.bidPrice, 0.0) == 0 && Adjustment(q.askPrice, 0.0) == 0;
  }

  /** At a positive mid price and non-negative spacing, bids fall, asks rise and sizes shrink from
      level to level, wherever the prices stay within i64. */
  lemma LadderRecedes(c: Config, l: Limits, quotes: seq<StrategyQuote>, position: int, s: Signals, spacingBps: real,
                      i: nat, j: nat)
    requires c == l.config && c.maxPositionSize > 0.0 && FromReal(c.baseQuoteSize) >= 0 && s.mid > 0
    requires IsLadder(l, quotes, position, s, spacingBps) && i <= j < |quotes| && quotes[0] == BaseQuote(c, position, s)
    requires spacingBps >= 0.0
    requires LevelFits(quotes[0], spacingBps, i) && LevelFits(quotes[0], spacingBps, j)
    ensures Behind(quotes[i], quotes[j])
  {
    LadderIsSane(c, l, quotes, position, s, spacingBps, 0);
    BaseFits(c, position, s, spacingBps);
    LevelZeroIsBase(quotes[0], s, spacingBps);
    LevelsRecede(quotes[0], s, spacingBps, i, j);
  }

  /** What a caller can check beforehand: a mid price of at most 4 * 10^18 units and offsets of at most
      10000 basis points keep every level of an accepted base quote within i64. */
  lemma ModestLevelFits(l: Limits, base: StrategyQuote, position: int, mid: int, spacingBps: real, level: nat)
    requires 0 < mid <= LARGEST_MID && Accepts(l, base, position, mid)
    requires 0.0 <= spacingBps && spacingBps * level as real <= 10000.0
    ensures LevelFits(base, spacingBps, level)
  {
    AcceptedPrices(l, base, position, mid);
    ProductNonNegative(spacingBps, level as real);
    AdjustmentAtMostPrice(base.bidPrice, spacingBps * level as real);
    AdjustmentAtMostPrice(base.askPrice, spacingBps * level as real);
  }

  lemma ModestLevelsFit(l: Limits, base: StrategyQuote, position: int, mid: int, spacingBps: real, level: nat,
                        levels: nat)
    requires 0 < mid <= LARGEST_MID && Accepts(l, base, position, mid) && level <= levels
    requires 0.0 <= spacingBps && spacingBps * levels as real <= 10000.0
    ensures LevelFits(base, spacingBps, level)
  {
    OffsetMonotone(spacingBps, level, levels);
    ModestLevelFits(l, base, position, mid, spacingBps, level);
  }

  /** Under that condition every ladder recedes. */
  lemma ModestLadderRecedes(c: Config, l: Limits, quotes: seq<StrategyQuote>, position: int, s: Signals,
                            spacingBps: real, numLevels: nat, i: nat, j: nat)
    requires c == l.config && c.maxPositionSize > 0.0 && FromReal(c.baseQuoteSize) >= 0 && 0 < s.mid <= LARGEST_MID
    requires IsLadder(l, quotes, position, s, spacingBps) && i <= j < |quotes| && quotes[0] == BaseQuote(c, position, s)
    requires |quotes| <= Max(1, numLevels) && spacingBps >= 0.0 && spacingBps * numLevels as real <= 10000.0
    ensures Behind(quotes[i], quotes[j])
  {
    var base := quotes[0];
    assert Accepts(l, base, position, s.mid);
    if j > 0 {
      assert LevelFits(base, spacingBps, i) by { ModestLevelsFit(l, base, position, s.mid, spacingBps, i, numLevels); }
      assert LevelFits(base, spacingBps, j) by { ModestLevelsFit(l, base, position, s.mid, spacingBps, j, numLevels); }
      LadderRecedes(c, l, quotes, position, s, spacingBps, i, j);
    }
  }

  /** The truncated offsets of this spacing are just below 19 * 2^64 for the bid and 21 * 2^64 for the ask. */
  const WRAPPING_SPACING: real := 184467440737095.5161

  lemma WrappedOffsets()
    ensures SubtractBps(19_000_000_000, WRAPPING_SPACING) == 19_000_000_114
    ensures ApplyBps(21_000_000_000, WRAPPING_SPACING) == 20_999_999_874
  {
    assert TruncReal(WRAPPING_SPACING * 10000.0) == 1_844_674_407_370_955_161;
    var bid, ask := Adjustment(19_000_000_000, WRAPPING_SPACING), Adjustment(21_000_000_000, WRAPPING_SPACING);
    assert bid == 19 * TWO_64 - 114 && ask == 21 * TWO_64 - 126;
    WrapI64OfCongruent(-114, 19);
    WrapI64OfCongruent(-126, 21);
  }

  /** Without it a ladder can close in: at a spacing whose offsets wrap to a small negative change, the second
      level is accepted with a higher bid and a lower ask than the first. */
  lemma WrappedLadderClosesIn() returns (c: Config, l: Limits, quotes: seq<StrategyQuote>, s: Signals)
    ensures c == l.config && c.maxPositionSize > 0.0 && FromReal(c.baseQuoteSize) >= 0 && s.mid > 0
    ensures IsLadder(l, quotes, 0, s, WRAPPING_SPACING) && |quotes| == 2 && quotes[0] == BaseQuote(c, 0, s)
    ensures quotes[0].bidPrice < quotes[1].bidPrice < quotes[1].askPrice < quotes[0].askPrice
  {
    c := Config(1.0, 1.0, 0.0, 0.4, 0.0);
    l := Limits(c, None, 0, false);
    s := Signals(0, 20_000_000_000, 0.0, 1000.0, 0.0, 1.0);
    assert RecommendedAction(c, 0, 0.0).Neutral?;
    assert FromReal(0.4) == 40_000_000;
    assert MulScalar(40_000_000, 1.0 * 1.0) == 40_000_000;
    assert TruncReal(0.0 * 10000.0) == 0 && Adjustment(20_000_000_000, 0.0) == 0;
    assert HalfSpread(c, 0, s) == 500.0 && TruncReal(500.0 * 10000.0) == 5_000_000;
    assert Adjustment(20_000_000_000, 500.0) == 1_000_000_000;
    var base := StrategyQuote(0, 19_000_000_000, 40_000_000, 21_000_000_000, 40_000_000, 20_000_000_000, 0, 1.0);
    assert BaseQuote(c, 0, s) == base;
    WrappedOffsets();
    assert MulScalar(40_000_000, 0.5) == 20_000_000;
    var level := LevelQuote(base, s, WRAPPING_SPACING, 1);
    assert WRAPPING_SPACING * 1 as real == WRAPPING_SPACING && 1.0 / (1 as real + 1.0) == 0.5;
    assert level == StrategyQuote(0, 19_000_000_114, 20_000_000, 20_999_999_874, 20_000_000, 20_000_000_000, 0, 0.5);
    quotes := [base, level];
  }

  // The remaining numbers of a quote.

  /** The half spread is half the base spread, narrower when unwinding fast and wider when accumulating. */
  lemma HalfSpreadShare(c: Config, quantity: int, s: Signals)
    requires c.maxPositionSize > 0.0
    ensures HalfSpread(c, quantity, s) ==
      match RecommendedAction(c, quantity, s.driftBps)
      case EmergencyUnwind => 0.25 * s.baseSpreadBps
      case AggressiveUnwind => 0.35 * s.baseSpreadBps
      case PassiveUnwind => 0.5 * s.baseSpreadBps
      case Neutral => 0.5 * s.baseSpreadBps
      case Accumulate => 0.6 * s.baseSpreadBps
  {
  }

  /** A change by so many basis points, to four decimals of one and to the unit toward zero. */
  lemma AdjustmentIsShare(price: int, bps: real)
    requires price >= 0 && bps >= 0.0
    ensures var tenThousandths := TruncReal(bps * 10000.0);
      && tenThousandths as real <= bps * 10000.0 < tenThousandths as real + 1.0
      && 100_000_000 * Adjustment(price, bps) <= price * tenThousandths < 100_000_000 * (Adjustment(price, bps) + 1)
  {
    CutsTowardZero(bps * 10000.0);
    ProductMonotone(price, 0, TruncReal(bps * 10000.0));
    TruncDivRemainder(price * TruncReal(bps * 10000.0), BPS_SCALE);
  }

  /** Level n of a ladder is the (n + 1)-th part of the base quote, and lies n spacings outside it. */
  lemma LevelIsShare(base: StrategyQuote, s: Signals, spacingBps: real, n: nat)
    requires base.bidSize >= 0 && base.askSize >= 0 && LevelFits(base, spacingBps, n)
    ensures var q := LevelQuote(base, s, spacingBps, n);
      && (n + 1) * q.bidSize <= base.bidSize < (n + 1) * (q.bidSize + 1)
      && (n + 1) * q.askSize <= base.askSize < (n + 1) * (q.askSize + 1)
      && q.confidence * (n + 1) as real == base.confidence
      && q.bidPrice == base.bidPrice - Adjustment(base.bidPrice, spacingBps * n as real)
      && q.askPrice == base.askPrice + Adjustment(base.askPrice, spacingBps * n as real)
      && q.fairValue == base.fairValue && q.inventory == base.inventory && q.timestamp == s.timestamp
  {
    LevelShares(base, s, spacingBps, n);
    LevelPrices(base, s, spacingBps, n);
  }

  lemma LevelPrices(base: StrategyQuote, s: Signals, spacingBps: real, n: nat)
    requires LevelFits(base, spacingBps, n)
    ensures var q := LevelQuote(base, s, spacingBps, n);
      && q.bidPrice == base.bidPrice - Adjustment(base.bidPrice, spacingBps * n as real)
      && q.askPrice == base.askPrice + Adjustment(base.askPrice, spacingBps * n as real)
      && q.fairValue == base.fairValue && q.inventory == base.inventory && q.timestamp == s.timestamp
  {
    PricesWithinRange(base.bidPrice, spacingBps * n as real);
    PricesWithinRange(base.askPrice, spacingBps * n as real);
  }

  lemma LevelShares(base: StrategyQuote, s: Signals, spacingBps: real, n: nat)
    requires base.bidSize >= 0 && base.askSize >= 0
    ensures var q := LevelQuote(base, s, spacingBps, n);
      && (n + 1) * q.bidSize <= base.bidSize < (n + 1) * (q.bidSize + 1)
      && (n + 1) * q.askSize <= base.askSize < (n + 1) * (q.askSize + 1)
      && q.confidence * (n + 1) as real == base.confidence
  {
    var factor := 1.0 / (n as real + 1.0);
    LevelFactor(n, factor);
    ShareOfSize(base.bidSize, n + 1, factor);
    ShareOfSize(base.askSize, n + 1, factor);
    ShareOfConfidence(base.confidence, (n + 1) as real, factor);
  }

  lemma LevelFactor(n: nat, factor: real)
    requires factor == 1.0 / (n as real + 1.0)
    ensures factor * (n + 1) as real == 1.0 && factor >= 0.0
  {
    QuotientTimes(1.0, n as real + 1.0);
    ReciprocalMonotone(n as real + 1.0, n as real + 1.0);
  }

  lemma ShareOfConfidence(confidence: real, parts: real, factor: real)
    requires factor * parts == 1.0
    ensures confidence * factor * parts == confidence
  {
    assert confidence * factor * parts == confidence * (factor * parts);
  }

  lemma ShareOfSize(size: nat, parts: nat, factor: real)
    requires parts > 0 && factor * parts as real == 1.0 && factor >= 0.0
    ensures parts * MulScalar(size, factor) <= size < parts * (MulScalar(size, factor) + 1)
  {
    var x := size as real * factor;
    ShareOfConfidence(size as real, parts as real, factor);
    ProductNonNegative(size as real, factor);
    CutsTowardZero(x);
    WholeBounds(x, parts, TruncReal(x), size);
  }

  lemma WholeBounds(x: real, parts: nat, share: int, size: nat)
    requires parts > 0 && x * parts as real == size as real && share as real <= x < share as real + 1.0
    ensures parts * share <= size < parts * (share + 1)
  {
    WholeAtMost(share, x, parts, size);
    WholeBelow(share + 1, x, parts, size);
  }

  lemma WholeAtMost(share: int, x: real, parts: nat, size: nat)
    requires parts > 0 && x * parts as real == size as real && share as real <= x
    ensures parts * share <= size
  {
    ScaleReal(share as real, x, parts as real);
    assert (parts * share) as real == share as real * parts as real;
  }

  lemma WholeBelow(share: int, x: real, parts: nat, size: nat)
    requires parts > 0 && x * parts as real == size as real && x < share as real
    ensures size < parts * share
  {
    ScaleReal(x, share as real, parts as real);
    assert (parts * share) as real == share as real * parts as real;
  }

  /** Fair value is the mid price moved by the drift, and the skew is the difference of two spreads that together are
      the base spread for the action. */
  lemma SpreadsAroundFairValue(c: Config, quantity: int, s: Signals)
    requires c.maxPositionSize > 0.0
    ensures AskSpread(c, quantity, s) - BidSpread(c, quantity, s) == s.skewBps
    ensures AskSpread(c, quantity, s) + BidSpread(c, quantity, s) == 2.0 * HalfSpread(c, quantity, s)
    ensures FitsI64(Adjustment(s.mid, s.driftBps)) && FitsI64(s.mid + Adjustment(s.mid, s.driftBps)) ==>
              BaseQuote(c, quantity, s).fairValue == s.mid + Adjustment(s.mid, s.driftBps)
  {
    if FitsI64(Adjustment(s.mid, s.driftBps)) {
      PricesWithinRange(s.mid, s.driftBps);
    }
  }
}

/** Risk checks a quote must pass before it is published. */
module RiskManager {
  import opened RustInt
  import opened FixedPoint
  import opened Strategy
  import opened Reals
  import opened Wrappers

  datatype Limits = Limits(config: Config, maxDailyLoss: Option<int>, dailyRealizedPnl: int, killed: bool)

  predicate SizeAllowed(c: Config, size: int) {
    0.0 < AbsReal(ToReal(size)) <= c.maxOrderSize
  }

  /** Further from the mark than a tenth of it; a zero mark makes the quotient infinite or undefined. */
  predicate TooFarFromMark(price: int, mark: int) {
    if mark > 0 then AbsReal(ToReal(price) - ToReal(mark)) / ToReal(mark) > 0.1
    else mark == 0 && price != 0
  }

  predicate Accepts(l: Limits, q: StrategyQuote, position: int, mark: int) {
    && !l.killed
    && (l.maxDailyLoss.Some? ==> l.dailyRealizedPnl >= l.maxDailyLoss.value)
    && AbsReal(ToReal(position)) <= l.config.maxPositionSize
    && SizeAllowed(l.config, q.bidSize) && SizeAllowed(l.config, q.askSize)
    && q.bidPrice < q.askPrice
    && !TooFarFromMark(q.bidPrice, mark) && !TooFarFromMark(q.askPrice, mark)
    && q.confidence >= l.config.minConfidence
  }

  /** In integers: at a positive mark both prices of an accepted quote lie within a tenth of it, so
      they are positive, and they do not cross. */
  lemma AcceptedPrices(l: Limits, q: StrategyQuote, position: int, mark: int)
    requires mark > 0 && Accepts(l, q, position, mark)
    ensures 9 * mark <= 10 * q.bidPrice && 10 * q.askPrice <= 11 * mark
    ensures 0 < q.bidPrice < q.askPrice
  {
    NearMark(q.bidPrice, mark);
    NearMark(q.askPrice, mark);
  }

  lemma NearMark(price: int, mark: int)
    requires mark > 0
    ensures !TooFarFromMark(price, mark) <==> 9 * mark <= 10 * price <= 11 * mark
  {
    var m, p := ToReal(mark), ToReal(price);
    QuotientCompare(AbsReal(p - m), m, 0.1);
    assert p - m == (price - mark) as real / 100000000.0;
  }

  /** The size check looks at magnitudes only: the sign has to come from the quote's construction. */
  lemma SizeCheckIgnoresSign(c: Config, size: int)
    ensures SizeAllowed(c, size) <==> SizeAllowed(c, -size)
    ensures SizeAllowed(c, size) ==> size != 0
  {
    assert ToReal(-size) == -ToReal(size);
  }

  class Manager {
    const config: Config
    var maxDailyLoss: Option<int>
    var dailyRealizedPnl: int
    var isKilled: bool

    function Abstract(): Limits
      reads this
    {
      Limits(config, maxDailyLoss, dailyRealizedPnl, isKilled)
    }

    constructor (config: Config)
      ensures Abstract() == Limits(config, Some(FromReal(-1000.0)), 0, false)
    {
      this.config := config;
      maxDailyLoss := Some(FromReal(-1000.0));
      dailyRealizedPnl := 0;
      isKilled := false;
    }

    method UpdateDailyPnl(change: int)
      modifies this`dailyRealizedPnl
      ensures dailyRealizedPnl == Add(old(dailyRealizedPnl), change)
    {
      dailyRealizedPnl := Add(dailyRealizedPnl, change);
    }

    method Kill()
      modifies this`isKilled
      ensures forall q, position, mark :: !Accepts(Abstract(), q, position, mark)
    {
      isKilled := true;
    }

    method Resume()
      modifies this`isKilled
      ensures Abstract() == old(Abstract()).(killed := false)
    {
      isKilled := false;
    }

    method CheckQuote(q: StrategyQuote, position: int, mark: int) returns (accept: bool)
      ensures accept <==> Accepts(Abstract(), q, position, mark)
    {
      if isKilled {
        return false;
      }
      if maxDailyLoss.Some? && dailyRealizedPnl < maxDailyLoss.value {
        return false;
      }
      if AbsReal(ToReal(position)) > config.maxPositionSize {
        return false;
      }
      var bidOk := CheckOrderSize(q.bidSize);
      if !bidOk {
        return false;
      }
      var askOk := CheckOrderSize(q.askSize);
      if !askOk {
        return false;
      }
      if q.bidPrice >= q.askPrice {
        return false;
      }
      if TooFarFromMark(q.bidPrice, mark) {
        return false;
      }
      if TooFarFromMark(q.askPrice, mark) {
        return false;
      }
      return q.confidence >= config.minConfidence;
    }

    method CheckOrderSize(size: int) returns (accept: bool)
      ensures accept <==> SizeAllowed(config, size)
    {
      var absSize := AbsReal(ToReal(size));
      if absSize > config.maxOrderSize {
        return false;
      }
      return absSize > 0.0;
    }
  }

  // The checks in units of the last decimal.

  predicate WithinUnits(x: int, limit: real) {
    -(limit * 100000000.0) <= x as real <= limit * 100000000.0
  }

  /** At a positive mark a quote is accepted exactly when nothing is killed, the day has not lost more than allowed, the
      position is within its limit, both sizes are non-zero and within the order limit, the prices do not cross and
      lie within a tenth of the mark, and the confidence suffices. */
  lemma AcceptsExactly(l: Limits, q: StrategyQuote, position: int, mark: int)
    requires mark > 0
    ensures Accepts(l, q, position, mark) <==>
      && !l.killed && (l.maxDailyLoss == None || l.maxDailyLoss.value <= l.dailyRealizedPnl)
      && WithinUnits(position, l.config.maxPositionSize)
      && q.bidSize != 0 && WithinUnits(q.bidSize, l.config.maxOrderSize)
      && q.askSize != 0 && WithinUnits(q.askSize, l.config.maxOrderSize)
      && 9 * mark <= 10 * q.bidPrice && q.bidPrice < q.askPrice && 10 * q.askPrice <= 11 * mark
      && l.config.minConfidence <= q.confidence
  {
    NearMark(q.bidPrice, mark);
    NearMark(q.askPrice, mark);
    InUnits(position, l.config.maxPositionSize);
    InUnits(q.bidSize, l.config.maxOrderSize);
    InUnits(q.askSize, l.config.maxOrderSize);
  }

  lemma InUnits(x: int, limit: real)
    ensures AbsReal(ToReal(x)) <= limit <==> WithinUnits(x, limit)
    ensures AbsReal(ToReal(x)) > 0.0 <==> x != 0
  {
  }

  /** Without a positive mark the distance says little: a negative mark passes every price, and zero only zero. */
  lemma MarkNotPositive(price: int, mark: int)
    requires mark <= 0
    ensures TooFarFromMark(price, mark) <==> mark == 0 && price != 0
  {
  }

  /** The result of a day after these changes, from a new manager on. */
  function DailyPnl(changes: seq<int>): int {
    if changes == [] then 0 else Add(DailyPnl(changes[..|changes| - 1]), changes[|changes| - 1])
  }

  function Total(changes: seq<int>): int {
    if changes == [] then 0 else Total(changes[..|changes| - 1]) + changes[|changes| - 1]
  }

  lemma {:induction false} DailyPnlIsTotal(changes: seq<int>)
    ensures DailyPnl(changes) == WrapI64(Total(changes))
    decreases |changes|
  {
    if changes != [] {
      var n := |changes| - 1;
      DailyPnlIsTotal(changes[..n]);
      WrapI64Congruent(Total(changes[..n]));
      var k: int :| WrapI64(Total(changes[..n])) == Total(changes[..n]) + k * TWO_64;
      WrapI64OfCongruent(Total(changes), k);
    }
  }

  /** With the default limit no quote is accepted once the day has lost more than 1000, short of overflow, and up to
      there the loss limit refuses none. */
  lemma LossStopsQuoting(l: Limits, changes: seq<int>, q: StrategyQuote, position: int, mark: int)
    requires l.maxDailyLoss == Some(FromReal(-1000.0)) && l.dailyRealizedPnl == DailyPnl(changes)
    requires FitsI64(Total(changes))
    ensures Accepts(l, q, position, mark) <==>
              Total(changes) >= -100_000_000_000 && Accepts(l.(maxDailyLoss := None), q, position, mark)
  {
    DailyPnlIsTotal(changes);
    assert FromReal(-1000.0) == -100_000_000_000;
  }
}

/** The feedback loop between quoting and fills: sizes follow the position, fills move it. */
module ClosedLoop {
  import opened RustInt
  import opened FixedPoint
  import opened Strategy
  import opened Reals
  import opened InventoryManager
  import opened RiskManager
  import opened QuoteEngine
  import opened Wrappers

  /** The position and what is still resting on each side. */
  datatype Loop = Loop(quantity: int, bid: nat, ask: nat)

  /** An attempt to quote, with whatever the market and the daily loss are by then; a fill of any part of
      a resting order. */
  datatype Event = Requote(signals: Signals, risk: Limits) | FillBid(amount: nat) | FillAsk(amount: nat)

  /** The quote computed for this position passes the risk checks; confidence is clamped when it is estimated. */
  predicate Published(c: Config, quantity: int, s: Signals, l: Limits)
    requires c.maxPositionSize > 0.0
  {
    && l.config == c && 0.1 <= s.confidence <= 1.0
    && Accepts(l, BaseQuote(c, quantity, s), quantity, s.mid)
  }

  /** A published quote replaces the resting orders, with an order for each positive size. */
  function Step(c: Config, s: Loop, e: Event): Loop
    requires c.maxPositionSize > 0.0
  {
    match e
    case Requote(signals, risk) =>
      if Published(c, s.quantity, signals, risk) then
        Loop(s.quantity, Max(0, BidSize(c, s.quantity, signals.driftBps)),
             Max(0, AskSize(c, s.quantity, signals.driftBps)))
      else s
    case FillBid(amount) => if amount <= s.bid then Loop(s.quantity + amount, s.bid - amount, s.ask) else s
    case FillAsk(amount) => if amount <= s.ask then Loop(s.quantity - amount, s.bid, s.ask - amount) else s
  }

  function Exec(c: Config, s: Loop, events: seq<Event>): Loop
    requires c.maxPositionSize > 0.0
    decreases |events|
  {
    if events == [] then s else Exec(c, Step(c, s, events[0]), events[1..])
  }

  /** Even if everything resting fills, the limit holds. */
  predicate Safe(c: Config, s: Loop) {
    && WithinLimit(c, s.quantity)
    && (s.quantity + s.bid) as real <= MaxUnits(c)
    && (s.quantity - s.ask) as real >= -MaxUnits(c)
  }

  predicate SmallBase(c: Config) {
    0.0 <= FromReal(c.baseQuoteSize) as real <= 0.4 * MaxUnits(c)
  }

  /** The ramps leave exactly enough room: what is held plus a shrunk order of two fifths fits. */
  lemma RampLeavesRoom(u: real, m: real, base: real, factor: real)
    requires 0.0 <= u <= 1.0 && m > 0.0 && 0.0 <= base <= 0.4 * m
    requires factor == SizeFactorAt(u)
    ensures 0.0 <= factor <= 1.0
    ensures u * m + base * factor <= m
  {
    assert 0.0 <= factor <= 1.0;
    ProductNonNegative(0.4 * m - base, factor);
    assert (0.4 * m - base) * factor == 0.4 * m * factor - base * factor;
    var room := 0.4 * m * factor;
    assert base * factor <= room;
    if u < 0.5 {
      ScaleReal(u, 0.5, m);
    } else if u < 0.8 {
      assert factor == 4.0 / 3.0 + 0.5 - u * (5.0 / 3.0);
      assert room == (11.0 / 15.0) * m - (2.0 / 3.0) * (u * m);
      ScaleReal(u, 0.8, m);
    } else {
      assert factor == 2.5 - 2.5 * u;
      assert room == m - u * m;
    }
  }

  lemma TruncBelow(x: real)
    requires x >= 0.0
    ensures 0 <= TruncReal(x) && TruncReal(x) as real <= x
  {
  }

  lemma ShrunkOrderFits(u: real, m: real, base: int, factor: real)
    requires 0.0 <= u <= 1.0 && m > 0.0 && 0.0 <= base as real <= 0.4 * m && factor == SizeFactorAt(u)
    ensures 0 <= MulScalar(base, factor) && u * m + MulScalar(base, factor) as real <= m
  {
    RampLeavesRoom(u, m, base as real, factor);
    ProductNonNegative(base as real, factor);
    TruncBelow(base as real * factor);
  }

  /** The order on the side that adds to the position fits under the limit. */
  lemma AddingSideFits(c: Config, quantity: int)
    requires c.maxPositionSize > 0.0 && SmallBase(c) && WithinLimit(c, quantity)
    ensures var size := MulScalar(FromReal(c.baseQuoteSize), SizeFactor(c, quantity));
            0 <= size && AbsReal(quantity as real) + size as real <= MaxUnits(c)
  {
    UtilizationUnits(c, quantity);
    ShrunkOrderFits(Utilization(c, quantity), MaxUnits(c), FromReal(c.baseQuoteSize), SizeFactor(c, quantity));
  }

  /** The unwinding side may be up to doubled, which is less than the whole limit. */
  lemma UnwindingSideFits(c: Config, quantity: int, driftBps: real)
    requires c.maxPositionSize > 0.0 && SmallBase(c)
    ensures var mult := 1.0 * SizeUrgency(RecommendedAction(c, quantity, driftBps));
            var size := MulScalar(FromReal(c.baseQuoteSize), mult);
            0 <= size && size as real <= MaxUnits(c)
  {
    var base, k := FromReal(c.baseQuoteSize) as real, SizeUrgency(RecommendedAction(c, quantity, driftBps));
    assert 0.0 <= base * k <= 2.0 * base;
    TruncBelow(base * k);
  }

  lemma QuoteIsSafe(c: Config, quantity: int, driftBps: real)
    requires c.maxPositionSize > 0.0 && SmallBase(c) && WithinLimit(c, quantity)
    ensures 0 <= BidSize(c, quantity, driftBps) && 0 <= AskSize(c, quantity, driftBps)
    ensures (quantity + BidSize(c, quantity, driftBps)) as real <= MaxUnits(c)
    ensures (quantity - AskSize(c, quantity, driftBps)) as real >= -MaxUnits(c)
  {
    AddingSideFits(c, quantity);
    UnwindingSideFits(c, quantity, driftBps);
  }

  lemma StepKeepsSafe(c: Config, s: Loop, e: Event)
    requires c.maxPositionSize > 0.0 && SmallBase(c) && Safe(c, s)
    ensures Safe(c, Step(c, s, e))
  {
    if e.Requote? {
      QuoteIsSafe(c, s.quantity, e.signals.driftBps);
    }
  }

  /** From any position within the limit, no sequence of quotes and of partial or full fills leaves it. */
  lemma {:induction false} PositionStaysWithinLimit(c: Config, s: Loop, events: seq<Event>)
    requires c.maxPositionSize > 0.0 && SmallBase(c) && Safe(c, s)
    ensures Safe(c, Exec(c, s, events))
    ensures WithinLimit(c, Exec(c, s, events).quantity)
    decreases |events|
  {
    if events != [] {
      StepKeepsSafe(c, s, events[0]);
      PositionStaysWithinLimit(c, Step(c, s, events[0]), events[1..]);
    }
  }

  // Runs are safe exactly when single quotes are.

  /** From every position within the limit with nothing resting, every run stays within it. */
  ghost predicate SafeOnEveryRun(c: Config)
    requires c.maxPositionSize > 0.0
  {
    forall quantity: int, events: seq<Event> | WithinLimit(c, quantity) ::
      WithinLimit(c, Exec(c, Loop(quantity, 0, 0), events).quantity)
  }

  /** Both sizes pass the order size check. */
  predicate SizesAllowed(c: Config, quantity: int, driftBps: real)
    requires c.maxPositionSize > 0.0
  {
    SizeAllowed(c, BidSize(c, quantity, driftBps)) && SizeAllowed(c, AskSize(c, quantity, driftBps))
  }

  /** Neither side of the quote for this position and drift, filled whole, leaves the limit. */
  predicate QuoteAffordable(c: Config, quantity: int, driftBps: real)
    requires c.maxPositionSize > 0.0
  {
    && (quantity + Max(0, BidSize(c, quantity, driftBps))) as real <= MaxUnits(c)
    && (quantity - Max(0, AskSize(c, quantity, driftBps))) as real >= -MaxUnits(c)
  }

  ghost predicate EveryAllowedQuoteAffordable(c: Config)
    requires c.maxPositionSize > 0.0
  {
    forall quantity: int, driftBps: real | WithinLimit(c, quantity) && SizesAllowed(c, quantity, driftBps) ::
      QuoteAffordable(c, quantity, driftBps)
  }

  lemma {:induction false} AffordableQuotesKeepSafe(c: Config, s: Loop, events: seq<Event>)
    requires c.maxPositionSize > 0.0 && EveryAllowedQuoteAffordable(c) && Safe(c, s)
    ensures Safe(c, Exec(c, s, events))
    decreases |events|
  {
    if events != [] {
      PublishedQuoteKeepsSafe(c, s, events[0]);
      AffordableQuotesKeepSafe(c, Step(c, s, events[0]), events[1..]);
    }
  }

  lemma PublishedQuoteKeepsSafe(c: Config, s: Loop, e: Event)
    requires c.maxPositionSize > 0.0 && EveryAllowedQuoteAffordable(c) && Safe(c, s)
    ensures Safe(c, Step(c, s, e))
  {
    UtilizationUnits(c, s.quantity);
    UtilizationUnits(c, Step(c, s, e).quantity);
    if e.Requote? && Published(c, s.quantity, e.signals, e.risk) {
      assert SizesAllowed(c, s.quantity, e.signals.driftBps);
      assert QuoteAffordable(c, s.quantity, e.signals.driftBps);
    }
  }

  lemma TwoSteps(c: Config, s: Loop, first: Event, second: Event)
    requires c.maxPositionSize > 0.0
    ensures Exec(c, s, [first, second]) == Step(c, Step(c, s, first), second)
  {
    assert [first, second][1..] == [second] && [second][1..] == [];
    assert Exec(c, Step(c, s, first), [second]) == Step(c, Step(c, s, first), second);
  }

  /** One published quote, filled whole on one side. */
  lemma QuoteAndFill(c: Config, quantity: int, signals: Signals, risk: Limits)
    requires c.maxPositionSize > 0.0 && Published(c, quantity, signals, risk)
    ensures var bid := Max(0, BidSize(c, quantity, signals.driftBps));
      Exec(c, Loop(quantity, 0, 0), [Requote(signals, risk), FillBid(bid)]).quantity == quantity + bid
    ensures var ask := Max(0, AskSize(c, quantity, signals.driftBps));
      Exec(c, Loop(quantity, 0, 0), [Requote(signals, risk), FillAsk(ask)]).quantity == quantity - ask
  {
    var s := Loop(quantity, 0, 0);
    var quote := Requote(signals, risk);
    var s1 := Step(c, s, quote);
    TwoSteps(c, s, quote, FillBid(s1.bid));
    TwoSteps(c, s, quote, FillAsk(s1.ask));
  }

  // Every quote whose sizes are allowed can be published.

  /** A drift with the same effect on the recommended action. */
  function SameAction(driftBps: real): real {
    if driftBps < -5.0 then -10.0 else if driftBps > 5.0 then 10.0 else 0.0
  }

  const MID: int := 10_000_000_000

  lemma FairNearMid(driftBps: real)
    ensures 9_990_000_000 <= ApplyBps(MID, SameAction(driftBps)) <= 10_010_000_000
  {
    assert TruncReal(10.0 * 10000.0) == 100_000 && TruncReal(-10.0 * 10000.0) == -100_000;
    assert TruncReal(0.0 * 10000.0) == 0;
  }

  /** A spread of 50 to 350 basis points, as a price change. */
  lemma SpreadOfPrice(fair: int, bps: real)
    requires 9_990_000_000 <= fair <= 10_010_000_000 && 50.0 <= bps <= 350.0
    ensures 0 < Adjustment(fair, bps) <= 400_000_000
  {
    AdjustmentMonotone(fair, 50.0, bps);
    AdjustmentMonotone(fair, bps, 350.0);
    assert TruncReal(50.0 * 10000.0) == 500_000 && TruncReal(350.0 * 10000.0) == 3_500_000;
  }

  lemma PricesPass(fair: int, bidBps: real, askBps: real)
    requires 9_990_000_000 <= fair <= 10_010_000_000 && 50.0 <= bidBps <= 350.0 && 50.0 <= askBps <= 350.0
    ensures SubtractBps(fair, bidBps) < ApplyBps(fair, askBps)
    ensures !TooFarFromMark(SubtractBps(fair, bidBps), MID) && !TooFarFromMark(ApplyBps(fair, askBps), MID)
  {
    SpreadOfPrice(fair, bidBps);
    SpreadOfPrice(fair, askBps);
    NearMark(SubtractBps(fair, bidBps), MID);
    NearMark(ApplyBps(fair, askBps), MID);
  }

  /** The base spread that the action turns into a half spread of 200 basis points. */
  function BaseSpreadFor(a: Action): real {
    400.0 / SpreadMultiplier(a)
  }

  lemma HalfSpreadFor(c: Config, quantity: int, s: Signals)
    requires c.maxPositionSize > 0.0
    requires s.baseSpreadBps == BaseSpreadFor(RecommendedAction(c, quantity, s.driftBps))
    ensures HalfSpread(c, quantity, s) == 200.0
  {
    QuotientTimes(400.0, SpreadMultiplier(RecommendedAction(c, quantity, s.driftBps)));
  }

  lemma SameActionSameSizes(c: Config, quantity: int, driftBps: real)
    requires c.maxPositionSize > 0.0
    ensures BidSize(c, quantity, SameAction(driftBps)) == BidSize(c, quantity, driftBps)
    ensures AskSize(c, quantity, SameAction(driftBps)) == AskSize(c, quantity, driftBps)
  {
    assert RecommendedAction(c, quantity, SameAction(driftBps)) == RecommendedAction(c, quantity, driftBps);
  }

  lemma PricesDecide(c: Config, quantity: int, s: Signals, fair: int, bidBps: real, askBps: real)
    requires c.maxPositionSize > 0.0 && c.minConfidence <= 1.0 && s.confidence == 1.0
    requires WithinLimit(c, quantity) && SizesAllowed(c, quantity, s.driftBps)
    requires fair == ApplyBps(s.mid, s.driftBps)
    requires bidBps == BidSpread(c, quantity, s) && askBps == AskSpread(c, quantity, s)
    requires SubtractBps(fair, bidBps) < ApplyBps(fair, askBps)
    requires !TooFarFromMark(SubtractBps(fair, bidBps), s.mid) && !TooFarFromMark(ApplyBps(fair, askBps), s.mid)
    ensures Published(c, quantity, s, Limits(c, None, 0, false))
  {
  }

  /** If both sizes pass the size check then, whatever the inventory skew up to 300 basis points, there is a
      market in which a quote with these sizes is published. */
  lemma QuoteCanBePublished(c: Config, quantity: int, driftBps: real, skewBps: real)
    returns (s: Signals, l: Limits)
    requires c.maxPositionSize > 0.0 && c.minConfidence <= 1.0 && -300.0 <= skewBps <= 300.0
    requires WithinLimit(c, quantity) && SizesAllowed(c, quantity, driftBps)
    ensures Published(c, quantity, s, l) && s.skewBps == skewBps
    ensures BidSize(c, quantity, s.driftBps) == BidSize(c, quantity, driftBps)
    ensures AskSize(c, quantity, s.driftBps) == AskSize(c, quantity, driftBps)
  {
    var drift := SameAction(driftBps);
    s := Signals(0, MID, drift, BaseSpreadFor(RecommendedAction(c, quantity, drift)), skewBps, 1.0);
    l := Limits(c, None, 0, false);
    SameActionSameSizes(c, quantity, driftBps);
    HalfSpreadFor(c, quantity, s);
    FairNearMid(driftBps);
    var bidBps, askBps := 200.0 - skewBps / 2.0, 200.0 + skewBps / 2.0;
    PricesPass(ApplyBps(MID, drift), bidBps, askBps);
    PricesDecide(c, quantity, s, ApplyBps(MID, drift), bidBps, askBps);
  }

  lemma UnaffordableQuoteOverruns(c: Config, quantity: int, driftBps: real)
    requires c.maxPositionSize > 0.0 && c.minConfidence <= 1.0
    requires WithinLimit(c, quantity) && SizesAllowed(c, quantity, driftBps)
    requires !QuoteAffordable(c, quantity, driftBps)
    ensures !SafeOnEveryRun(c)
  {
    var s, l := QuoteCanBePublished(c, quantity, driftBps, 0.0);
    var bid, ask := Max(0, BidSize(c, quantity, driftBps)), Max(0, AskSize(c, quantity, driftBps));
    QuoteAndFill(c, quantity, s, l);
    UtilizationUnits(c, quantity);
    UtilizationUnits(c, quantity + bid);
    UtilizationUnits(c, quantity - ask);
    var buys, sells := [Requote(s, l), FillBid(bid)], [Requote(s, l), FillAsk(ask)];
    assert !(WithinLimit(c, Exec(c, Loop(quantity, 0, 0), buys).quantity)
             && WithinLimit(c, Exec(c, Loop(quantity, 0, 0), sells).quantity));
  }

  /** For every limit, base and order limit: runs are safe exactly when no quote can be published at all or
      every quote that passes the size check can be afforded. */
  lemma RunsSafeExactlyWhenQuotesAre(c: Config)
    requires c.maxPositionSize > 0.0
    ensures SafeOnEveryRun(c) <==> c.minConfidence > 1.0 || EveryAllowedQuoteAffordable(c)
  {
    if c.minConfidence > 1.0 || EveryAllowedQuoteAffordable(c) {
      forall quantity: int, events: seq<Event> | WithinLimit(c, quantity)
        ensures WithinLimit(c, Exec(c, Loop(quantity, 0, 0), events).quantity)
      {
        UtilizationUnits(c, quantity);
        if c.minConfidence > 1.0 {
          NothingPublished(c, quantity, events);
        } else {
          AffordableQuotesKeepSafe(c, Loop(quantity, 0, 0), events);
        }
      }
    } else {
      var quantity: int, driftBps: real :| WithinLimit(c, quantity) && SizesAllowed(c, quantity, driftBps)
                                           && !QuoteAffordable(c, quantity, driftBps);
      UnaffordableQuoteOverruns(c, quantity, driftBps);
    }
  }

  /** No confidence reaches this threshold, so nothing ever rests and nothing fills but empty orders. */
  lemma {:induction false} NothingPublished(c: Config, quantity: int, events: seq<Event>)
    requires c.maxPositionSize > 0.0 && c.minConfidence > 1.0
    ensures Exec(c, Loop(quantity, 0, 0), events) == Loop(quantity, 0, 0)
    decreases |events|
  {
    if events != [] {
      assert Step(c, Loop(quantity, 0, 0), events[0]) == Loop(quantity, 0, 0);
      NothingPublished(c, quantity, events[1..]);
    }
  }

  predicate Publishes(c: Config, s: Loop, e: Event)
    requires c.maxPositionSize > 0.0
  {
    e.Requote? && Published(c, s.quantity, e.signals, e.risk)
  }

  predicate NonePublished(c: Config, s: Loop, events: seq<Event>)
    requires c.maxPositionSize > 0.0
    decreases |events|
  {
    events == [] || (!Publishes(c, s, events[0]) && NonePublished(c, Step(c, s, events[0]), events[1..]))
  }

  /** Orders rest until a published quote replaces them: in the meantime what leaves the resting bid is bought, what
      leaves the resting ask is sold, and nothing else happens. */
  lemma {:induction false} OrdersRestUntilReplaced(c: Config, s: Loop, events: seq<Event>)
    requires c.maxPositionSize > 0.0 && NonePublished(c, s, events)
    ensures var s' := Exec(c, s, events);
      s'.bid <= s.bid && s'.ask <= s.ask && s'.quantity - s.quantity == (s.bid - s'.bid) - (s.ask - s'.ask)
    decreases |events|
  {
    if events != [] {
      OrdersRestUntilReplaced(c, Step(c, s, events[0]), events[1..]);
    }
  }

  /** A fill no larger than the resting order goes through whole, on its own side. */
  lemma FillGoesThrough(c: Config, s: Loop, amount: nat)
    requires c.maxPositionSize > 0.0
    ensures amount <= s.bid ==> Step(c, s, FillBid(amount)) == Loop(s.quantity + amount, s.bid - amount, s.ask)
    ensures amount <= s.ask ==> Step(c, s, FillAsk(amount)) == Loop(s.quantity - amount, s.bid, s.ask - amount)
  {
  }
}

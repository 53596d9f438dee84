/** Which base sizes keep the position within its limit, given the order size limit: exact conditions. */
module ClosedLoopExact {
  import opened RustInt
  import opened FixedPoint
  import opened Strategy
  import opened Reals
  import opened InventoryManager
  import opened RiskManager
  import opened QuoteEngine
  import opened ClosedLoop

  function Base(c: Config): int {
    FromReal(c.baseQuoteSize)
  }

  /** The order on the side that adds to the position, and the one that unwinds it. */
  function AddingSize(c: Config, quantity: int): int
    requires c.maxPositionSize > 0.0
  {
    MulScalar(Base(c), SizeFactor(c, quantity))
  }

  function UnwindingSize(c: Config, quantity: int, driftBps: real): int
    requires c.maxPositionSize > 0.0
  {
    MulScalar(Base(c), 1.0 * SizeUrgency(RecommendedAction(c, quantity, driftBps)))
  }

  lemma SmallerAllowed(c: Config, size: int, larger: int)
    requires 0 < size <= larger && SizeAllowed(c, larger)
    ensures SizeAllowed(c, size)
  {
  }

  /** The two sides in terms of the distance from flat: both are checked, and flat quotes unwind on both. */
  lemma Sides(c: Config, quantity: int, driftBps: real)
    requires c.maxPositionSize > 0.0
    ensures var adding, unwinding := AddingSize(c, quantity), UnwindingSize(c, quantity, driftBps);
      && (SizesAllowed(c, quantity, driftBps) <==>
            (quantity != 0 ==> SizeAllowed(c, adding)) && SizeAllowed(c, unwinding))
      && (WithinLimit(c, quantity) ==> (QuoteAffordable(c, quantity, driftBps) <==>
            (quantity != 0 ==> (Abs(quantity) + Max(0, adding)) as real <= MaxUnits(c))
            && (Max(0, unwinding) - Abs(quantity)) as real <= MaxUnits(c)))
  {
    UtilizationUnits(c, quantity);
  }

  /** The multiples of the base that the actions quote. */
  lemma UnwindingSizes(c: Config, quantity: int, driftBps: real)
    requires c.maxPositionSize > 0.0 && Base(c) >= 0
    ensures var base, size := Base(c), UnwindingSize(c, quantity, driftBps);
      match RecommendedAction(c, quantity, driftBps)
      case EmergencyUnwind => size == 2 * base
      case AggressiveUnwind => size == 3 * base / 2
      case PassiveUnwind => size == base
      case Neutral => size == base
      case Accumulate => size == 4 * base / 5
  {
    Multiples(Base(c));
  }

  lemma FloorIs(x: real, n: int)
    requires n as real <= x < (n + 1) as real
    ensures x.Floor == n
  {
  }

  lemma Multiples(base: nat)
    ensures MulScalar(base, 1.0 * 2.0) == 2 * base && MulScalar(base, 1.0 * 1.5) == 3 * base / 2
    ensures MulScalar(base, 1.0 * 1.0) == base && MulScalar(base, 1.0 * 0.8) == 4 * base / 5
    ensures MulScalar(base, 0.5) == base / 2
  {
    FloorIs(base as real * 2.0, 2 * base);
    FloorIs(base as real * 1.5, 3 * base / 2);
    FloorIs(base as real, base);
    FloorIs(base as real * 0.8, 4 * base / 5);
    FloorIs(base as real * 0.5, base / 2);
  }

  lemma NoOrderFromNegativeBase(base: int, factor: real)
    requires base <= 0 && factor >= 0.0
    ensures MulScalar(base, factor) <= 0
  {
    ProductNonNegative(-(base as real), factor);
    assert base as real * factor == -(-(base as real) * factor);
  }

  lemma NegativeBaseQuotesNothing(c: Config, quantity: int, driftBps: real)
    requires c.maxPositionSize > 0.0 && Base(c) <= 0 && WithinLimit(c, quantity)
    ensures QuoteAffordable(c, quantity, driftBps)
  {
    UtilizationUnits(c, quantity);
    SizeFactorRange(c, quantity);
    NoOrderFromNegativeBase(Base(c), SizeFactor(c, quantity));
    NoOrderFromNegativeBase(Base(c), 1.0 * SizeUrgency(RecommendedAction(c, quantity, driftBps)));
  }

  // A limit of 5k units.

  /** The size factor at distance d below a limit of 5k units. */
  function FactorAtRoom(k: nat, d: nat): real
    requires k > 0
  {
    if 2 * d > 5 * k then 1.0
    else if d > k then (k + 2 * d) as real / (6 * k) as real
    else d as real / (2 * k) as real
  }

  /** The shrunk order at distance d below the limit, in units, is at most d. */
  lemma ShrunkWithinRoom(base: nat, k: nat, d: nat, f: real)
    requires k > 0 && base <= 2 * k + 1 && d <= 5 * k
    requires f == FactorAtRoom(k, d)
    ensures 0.0 <= base as real * f < (d + 1) as real
  {
    if 2 * d > 5 * k {
    } else if d > k {
      MiddleRoom(base, k, d);
      RealQuotientBelow(base, k + 2 * d, 6 * k, d + 1);
    } else {
      TopRoom(base, k, d);
      RealQuotientBelow(base, d, 2 * k, d + 1);
    }
  }

  lemma AtMostTimes(x: nat, top: nat, w: nat)
    requires x <= top
    ensures x * w <= top * w
  {
    assert (top - x) * w == top * w - x * w && (top - x) * w >= 0;
  }

  lemma TopRoom(base: nat, k: nat, d: nat)
    requires k > 0 && base <= 2 * k + 1 && d <= k
    ensures base * d < 2 * k * (d + 1)
  {
    AtMostTimes(base, 2 * k + 1, d);
    TopExpanded(k, d);
  }

  lemma TopExpanded(k: int, d: int)
    ensures (2 * k + 1) * d == 2 * (k * d) + d
    ensures 2 * k * (d + 1) == 2 * (k * d) + 2 * k
  {
  }

  lemma MiddleRoom(base: nat, k: nat, d: nat)
    requires k > 0 && base <= 2 * k + 1 && d > k
    ensures base * (k + 2 * d) < 6 * k * (d + 1)
  {
    AtMostTimes(base, 2 * k + 1, k + 2 * d);
    MiddleExpanded(k, d - k);
    AtMostTimes(1, k, d - k);
  }

  lemma MiddleExpanded(k: int, e: int)
    ensures (2 * k + 1) * (k + 2 * (k + e)) == 6 * (k * k) + 4 * (k * e) + 3 * k + 2 * e
    ensures 6 * k * (k + e + 1) == 6 * (k * k) + 6 * (k * e) + 6 * k
  {
  }

  lemma RealQuotientBelow(base: nat, top: nat, bottom: nat, bound: nat)
    requires bottom > 0 && base * top < bottom * bound
    ensures 0.0 <= base as real * (top as real / bottom as real) < bound as real
  {
    QuotientCompare(top as real, bottom as real, 0.0);
    ProductNonNegative(base as real, top as real / bottom as real);
    var x := base as real * (top as real / bottom as real);
    QuotientTimes(top as real, bottom as real);
    assert x * bottom as real == base as real * (top as real / bottom as real * bottom as real);
    assert (base * top) as real == base as real * top as real;
    assert (bottom * bound) as real == bottom as real * bound as real;
    ScaleReal(bound as real, x, bottom as real);
  }

  lemma IsQuotient(x: real, top: real, bottom: real)
    requires bottom > 0.0 && x * bottom == top
    ensures x == top / bottom
  {
    QuotientTimes(top, bottom);
    ScaleReal(x, top / bottom, bottom);
    ScaleReal(top / bottom, x, bottom);
  }

  /** Where a utilisation lies on the ramps, in units; m is the limit. */
  lemma RegionInUnits(u: real, m: real, held: real)
    requires m > 0.0 && u * m == held
    ensures u < 0.5 <==> held < 0.5 * m
    ensures u < 0.8 <==> held < 0.8 * m
    ensures u > 0.8 <==> held > 0.8 * m
  {
    ScaleReal(u, 0.5, m);
    ScaleReal(0.5, u, m);
    ScaleReal(u, 0.8, m);
    ScaleReal(0.8, u, m);
  }

  lemma RampsTimes(u: real, m: real, held: real)
    requires u * m == held
    ensures (11.0 - 10.0 * u) / 6.0 * m == (11.0 * m - 10.0 * held) / 6.0
    ensures (5.0 - 5.0 * u) / 2.0 * m == (5.0 * m - 5.0 * held) / 2.0
  {
    assert (11.0 - 10.0 * u) / 6.0 * m == 11.0 / 6.0 * m - 10.0 / 6.0 * (u * m);
    assert (5.0 - 5.0 * u) / 2.0 * m == 2.5 * m - 2.5 * (u * m);
  }

  lemma ScaleBoth(f: real, m: real, k: real, factor: real, top: real)
    requires f * m == top && m == 5.0 * k
    ensures f * (factor * k) == top * factor / 5.0
  {
    assert f * m == 5.0 * (f * k);
    assert f * (factor * k) == factor * (f * k);
  }

  lemma FactorInUnits(u: real, k: nat, held: nat)
    requires k > 0 && held <= 5 * k && u * (5.0 * k as real) == held as real
    ensures SizeFactorAt(u) == FactorAtRoom(k, 5 * k - held)
    ensures u > 0.8 <==> held > 4 * k
  {
    var m, d := 5.0 * k as real, 5 * k - held;
    RegionInUnits(u, m, held as real);
    RampsInClosedForm(u);
    RampsTimes(u, m, held as real);
    if u < 0.5 {
    } else if u < 0.8 {
      ScaleBoth((11.0 - 10.0 * u) / 6.0, m, k as real, 6.0, (11.0 * m - 10.0 * held as real) / 6.0);
      IsQuotient((11.0 - 10.0 * u) / 6.0, (k + 2 * d) as real, (6 * k) as real);
    } else {
      ScaleBoth((5.0 - 5.0 * u) / 2.0, m, k as real, 2.0, (5.0 * m - 5.0 * held as real) / 2.0);
      IsQuotient((5.0 - 5.0 * u) / 2.0, d as real, (2 * k) as real);
    }
  }

  lemma FloorBelow(x: real, bound: int)
    requires 0.0 <= x < (bound + 1) as real
    ensures 0 <= TruncReal(x) <= bound
  {
  }

  lemma HeldUnits(c: Config, k: nat, quantity: int)
    requires k > 0 && c.maxPositionSize > 0.0 && MaxUnits(c) == 5.0 * k as real
    ensures WithinLimit(c, quantity) <==> Abs(quantity) <= 5 * k
    ensures Utilization(c, quantity) * (5.0 * k as real) == Abs(quantity) as real
  {
    UtilizationUnits(c, quantity);
    assert AbsReal(quantity as real) == Abs(quantity) as real;
  }

  lemma ShrunkSize(base: nat, k: nat, d: nat, f: real)
    requires k > 0 && base <= 2 * k + 1 && d <= 5 * k && f == FactorAtRoom(k, d)
    ensures MulScalar(base, f) <= d
  {
    ShrunkWithinRoom(base, k, d, f);
    FloorBelow(base as real * f, d);
  }

  /** The size factor of a position, and the side it makes. */
  lemma AddingSizeInUnits(c: Config, k: nat, quantity: int)
    requires k > 0 && c.maxPositionSize > 0.0 && MaxUnits(c) == 5.0 * k as real && Abs(quantity) <= 5 * k
    ensures SizeFactor(c, quantity) == FactorAtRoom(k, 5 * k - Abs(quantity))
  {
    HeldUnits(c, k, quantity);
    FactorInUnits(Utilization(c, quantity), k, Abs(quantity));
  }

  /** The aggressive actions start at 71 per cent of the limit. */
  lemma UrgencyInUnits(c: Config, k: nat, quantity: int)
    requires k > 0 && c.maxPositionSize > 0.0 && MaxUnits(c) == 5.0 * k as real
    ensures Urgency(c, quantity) > 0.7 <==> 20 * Abs(quantity) > 71 * k
    ensures Urgency(c, quantity) > 1.0 <==> Abs(quantity) > 4 * k
  {
    HeldUnits(c, k, quantity);
    UrgencyRegions(Utilization(c, quantity));
    QuietRegion(Utilization(c, quantity), 5.0 * k as real, Abs(quantity) as real);
    RegionInUnits(Utilization(c, quantity), 5.0 * k as real, Abs(quantity) as real);
  }

  lemma UrgencyRegions(u: real)
    ensures UrgencyAt(u) > 0.7 <==> u > 0.71
    ensures UrgencyAt(u) > 1.0 <==> u > 0.8
  {
    RampsInClosedForm(u);
  }

  lemma QuietRegion(u: real, m: real, held: real)
    requires m > 0.0 && u * m == held
    ensures u > 0.71 <==> held > 0.71 * m
  {
    ScaleReal(0.71, u, m);
    ScaleReal(u, 0.71, m);
  }

  /** The furthest position that is not yet unwound aggressively, and the room it leaves. */
  function QuietPosition(k: nat): nat {
    71 * k / 20
  }

  function QuietRoom(k: nat): nat {
    5 * k - QuietPosition(k)
  }

  /** The engine may accumulate at this distance from flat, long or short. */
  predicate CanAccumulate(c: Config, quantity: int) {
    AbsReal(ToReal(quantity) - c.targetInventory) > 0.1 || AbsReal(ToReal(-quantity) - c.targetInventory) > 0.1
  }

  /** The smallest order on the unwinding side at any position. */
  function QuietSize(c: Config, k: nat): int {
    if CanAccumulate(c, QuietPosition(k)) then 4 * Base(c) / 5 else Base(c)
  }

  /** From four fifths of the limit: half the base exceeds the room, and one and a half of it may be ordered. */
  predicate AggressiveOverrun(c: Config, k: nat) {
    Base(c) >= 2 * k + 2 && SizeAllowed(c, 3 * Base(c) / 2)
  }

  /** From the furthest quiet position: the shrunk base exceeds the room, and the smallest order may be placed. */
  predicate QuietOverrun(c: Config, k: nat) {
    && Base(c) * (k + 2 * QuietRoom(k)) >= 6 * k * (QuietRoom(k) + 1)
    && SizeAllowed(c, QuietSize(c, k))
  }

  lemma QuietRoomBounds(k: nat)
    requires k >= 2
    ensures var d := QuietRoom(k); k < d && 2 * d <= 5 * k && 29 * k <= 20 * d <= 29 * k + 19
  {
  }

  lemma ThriceOverruns(base: nat, k: nat, d: nat)
    requires k >= 2 && base > 3 * k
    ensures base * (k + 2 * d) >= 6 * k * (d + 1)
  {
    AtMostTimes(3 * k, base, k + 2 * d);
    assert 3 * k * (k + 2 * d) - 6 * k * (d + 1) == 3 * (k * (k - 2));
    AtMostTimes(0, k, k - 2);
  }

  lemma MiddleQuiet(base: nat, k: nat, quiet: nat, d: nat)
    requires k >= 2 && base * (k + 2 * quiet) < 6 * k * (quiet + 1) && quiet <= d
    ensures base * (k + 2 * d) < 6 * k * (d + 1)
  {
    if base > 3 * k {
      ThriceOverruns(base, k, quiet);
    }
    AtMostTimes(base, 3 * k, 2 * (d - quiet));
    assert base * (k + 2 * d) == base * (k + 2 * quiet) + base * (2 * (d - quiet));
    assert 6 * k * (d + 1) == 6 * k * (quiet + 1) + 3 * k * (2 * (d - quiet));
  }

  lemma HighExpanded(k: int, quiet: int)
    ensures (5 * k + 3) * (k + 2 * quiet) == 5 * (k * k) + 10 * (k * quiet) + 3 * k + 6 * quiet
    ensures 6 * k * (quiet + 1) == 6 * (k * quiet) + 6 * k
  {
  }

  lemma HighOverruns(base: nat, k: nat, quiet: nat)
    requires k >= 2 && 2 * base >= 5 * k + 3 && 20 * quiet <= 29 * k + 19 && 29 * k <= 20 * quiet
    ensures base * (k + 2 * quiet) >= 6 * k * (quiet + 1)
  {
    AtMostTimes(5 * k + 3, 2 * base, k + 2 * quiet);
    assert 2 * base * (k + 2 * quiet) == 2 * (base * (k + 2 * quiet));
    HighExpanded(k, quiet);
    QuietSquares(k, quiet);
  }

  lemma QuietSquares(k: nat, quiet: nat)
    requires k >= 2 && 20 * quiet <= 29 * k + 19
    ensures 20 * (k * quiet) <= 29 * (k * k) + 19 * k && 2 * k <= k * k
  {
    AtMostTimes(20 * quiet, 29 * k + 19, k);
    AtMostTimes(2, k, k);
    assert 20 * quiet * k == 20 * (k * quiet) && (29 * k + 19) * k == 29 * (k * k) + 19 * k;
  }

  lemma WholeBase(base: nat)
    ensures MulScalar(base, 1.0) == base
  {
    FloorIs(base as real, base);
  }

  /** Below the quiet threshold the shrunk order fits at every quiet position. */
  lemma ShrunkWithinQuietRoom(base: nat, k: nat, d: nat, f: real)
    requires k >= 2 && base * (k + 2 * QuietRoom(k)) < 6 * k * (QuietRoom(k) + 1)
    requires QuietRoom(k) <= d <= 5 * k && f == FactorAtRoom(k, d)
    ensures MulScalar(base, f) <= d
  {
    QuietRoomBounds(k);
    if 2 * d > 5 * k {
      if base > d {
        HighOverruns(base, k, QuietRoom(k));
      }
      WholeBase(base);
    } else {
      MiddleQuiet(base, k, QuietRoom(k), d);
      MiddleSize(base, k, d);
    }
  }

  lemma MiddleSize(base: nat, k: nat, d: nat)
    requires k > 0 && base * (k + 2 * d) < 6 * k * (d + 1)
    ensures MulScalar(base, (k + 2 * d) as real / (6 * k) as real) <= d
  {
    RealQuotientBelow(base, k + 2 * d, 6 * k, d + 1);
    FloorBelow(base as real * ((k + 2 * d) as real / (6 * k) as real), d);
  }

  lemma QuietIsSmallest(c: Config, k: nat, quantity: int, driftBps: real)
    requires k >= 2 && c.maxPositionSize > 0.0 && MaxUnits(c) == 5.0 * k as real && Base(c) >= 0
    ensures QuietSize(c, k) <= UnwindingSize(c, quantity, driftBps)
  {
    UnwindingSizes(c, quantity, driftBps);
    UrgencyInUnits(c, k, quantity);
    if RecommendedAction(c, quantity, driftBps).Accumulate? {
      FurtherAccumulates(c, quantity, QuietPosition(k));
    }
  }

  /** Further from flat it is at least as far from the target on one of the two sides. */
  lemma FurtherAccumulates(c: Config, quantity: int, further: nat)
    requires Abs(quantity) <= further && AbsReal(ToReal(quantity) - c.targetInventory) > 0.1
    ensures CanAccumulate(c, further)
  {
  }

  /** An order this large overruns from the quiet position too. */
  lemma LargeBaseIsQuietOverrun(base: nat, k: nat, quiet: nat)
    requires k >= 2 && 3 * base > 10 * k && 29 * k <= 20 * quiet <= 29 * k + 19
    ensures base * (k + 2 * quiet) >= 6 * k * (quiet + 1)
  {
    AtMostTimes(10 * k, 3 * base, k + 2 * quiet);
    assert 3 * base * (k + 2 * quiet) == 3 * (base * (k + 2 * quiet));
    assert 10 * k * (k + 2 * quiet) == 10 * (k * k) + 20 * (k * quiet);
    assert 3 * (6 * k * (quiet + 1)) == 18 * (k * quiet) + 18 * k;
    AtMostTimes(2, k, k);
    AtMostTimes(1, quiet, k);
    assert quiet >= 2;
    AtMostTimes(2, quiet, k);
  }

  /** An allowed quote whose unwinding side overshoots the limit on the other side. */
  lemma UnwindingOverrun(c: Config, k: nat, quantity: int, driftBps: real)
    requires k >= 2 && c.maxPositionSize > 0.0 && MaxUnits(c) == 5.0 * k as real && Base(c) > 0
    requires Abs(quantity) <= 5 * k && SizeAllowed(c, UnwindingSize(c, quantity, driftBps))
    requires UnwindingSize(c, quantity, driftBps) > 5 * k + Abs(quantity)
    ensures QuietOverrun(c, k)
  {
    UnwindingSizes(c, quantity, driftBps);
    UrgencyInUnits(c, k, quantity);
    QuietRoomBounds(k);
    LargeBaseIsQuietOverrun(Base(c), k, QuietRoom(k));
    QuietIsSmallest(c, k, quantity, driftBps);
    SmallerAllowed(c, QuietSize(c, k), UnwindingSize(c, quantity, driftBps));
  }

  /** An allowed quote whose adding side does not fit in the room left. */
  lemma AddingOverrun(c: Config, k: nat, quantity: int, driftBps: real)
    requires k >= 2 && c.maxPositionSize > 0.0 && MaxUnits(c) == 5.0 * k as real && Base(c) > 0
    requires Abs(quantity) <= 5 * k && SizeAllowed(c, UnwindingSize(c, quantity, driftBps))
    requires AddingSize(c, quantity) > 5 * k - Abs(quantity)
    ensures AggressiveOverrun(c, k) || QuietOverrun(c, k)
  {
    AddingSizeInUnits(c, k, quantity);
    UnwindingSizes(c, quantity, driftBps);
    UrgencyInUnits(c, k, quantity);
    var base, d := Base(c), 5 * k - Abs(quantity);
    if d < QuietRoom(k) {
      if base <= 2 * k + 1 {
        ShrunkSize(base, k, d, SizeFactor(c, quantity));
      }
      SmallerAllowed(c, 3 * base / 2, UnwindingSize(c, quantity, driftBps));
    } else {
      if base * (k + 2 * QuietRoom(k)) < 6 * k * (QuietRoom(k) + 1) {
        ShrunkWithinQuietRoom(base, k, d, SizeFactor(c, quantity));
      }
      QuietIsSmallest(c, k, quantity, driftBps);
      QuietRoomBounds(k);
      QuietBaseAtLeastTwo(base, k, QuietRoom(k));
      SmallerAllowed(c, QuietSize(c, k), UnwindingSize(c, quantity, driftBps));
    }
  }

  lemma SingleUnitFits(base: nat, k: nat, d: nat)
    requires k >= 2 && base <= 1
    ensures base * (k + 2 * d) < 6 * k * (d + 1)
  {
    AtMostTimes(base, 1, k + 2 * d);
    AtMostTimes(1, k, d + 1);
    assert 6 * k * (d + 1) == 6 * (k * (d + 1)) && k * (d + 1) == k * d + k;
  }

  lemma QuietBaseAtLeastTwo(base: nat, k: nat, d: nat)
    requires k >= 2 && base * (k + 2 * d) >= 6 * k * (d + 1)
    ensures base >= 2
  {
    if base <= 1 {
      SingleUnitFits(base, k, d);
    }
  }

  lemma HalfSizeAtFourFifths(c: Config, k: nat)
    requires k > 0 && c.maxPositionSize > 0.0 && MaxUnits(c) == 5.0 * k as real
    ensures SizeFactor(c, 4 * k) == 0.5 && WithinLimit(c, 4 * k)
  {
    HeldUnits(c, k, 4 * k);
    FactorInUnits(Utilization(c, 4 * k), k, 4 * k);
    IsQuotient(0.5, k as real, (2 * k) as real);
  }

  lemma AggressiveOverrunHappens(c: Config, k: nat)
    requires k > 0 && c.maxPositionSize > 0.0 && MaxUnits(c) == 5.0 * k as real && AggressiveOverrun(c, k)
    ensures WithinLimit(c, 4 * k) && SizesAllowed(c, 4 * k, 0.0) && !QuoteAffordable(c, 4 * k, 0.0)
  {
    HalfSizeAtFourFifths(c, k);
    Multiples(Base(c));
    UrgencyInUnits(c, k, 4 * k);
    UnwindingSizes(c, 4 * k, 0.0);
    Sides(c, 4 * k, 0.0);
    SmallerAllowed(c, Base(c) / 2, 3 * Base(c) / 2);
  }

  /** A drift at which the engine accumulates, and the position to accumulate from; passive where it cannot. */
  function QuietDrift(c: Config, quantity: int): real {
    if ToReal(quantity) > c.targetInventory + 0.1 then 10.0
    else if ToReal(quantity) < c.targetInventory - 0.1 then -10.0
    else 0.0
  }

  function QuietSide(c: Config, quantity: int): int {
    if AbsReal(ToReal(quantity) - c.targetInventory) > 0.1 then quantity else -quantity
  }

  /** The shrunk order at the quiet position exceeds the room, and is smaller than four fifths of the base. */
  lemma QuietAddingSize(base: nat, k: nat)
    requires k >= 2 && base * (k + 2 * QuietRoom(k)) >= 6 * k * (QuietRoom(k) + 1)
    ensures QuietRoom(k) < MulScalar(base, FactorAtRoom(k, QuietRoom(k))) <= 4 * base / 5
  {
    var d := QuietRoom(k);
    QuietRoomBounds(k);
    assert FactorAtRoom(k, d) == (k + 2 * d) as real / (6 * k) as real;
    AtMostFourFifths(base, k + 2 * d, 6 * k);
    AtLeastQuotient(base, k + 2 * d, 6 * k, d + 1);
  }

  lemma AtMostFourFifths(base: nat, top: nat, bottom: nat)
    requires bottom > 0 && 5 * top <= 4 * bottom
    ensures MulScalar(base, top as real / bottom as real) <= 4 * base / 5
  {
    QuotientCompare(top as real, bottom as real, 0.8);
    QuotientCompare(0.0 - top as real, bottom as real, 0.0);
    assert (0.0 - top as real) / bottom as real == -(top as real / bottom as real);
    ScalarMonotone(base, top as real / bottom as real, 0.8);
    Multiples(base);
  }

  lemma AtLeastQuotient(base: nat, top: nat, bottom: nat, bound: nat)
    requires bottom > 0 && base * top >= bottom * bound
    ensures MulScalar(base, top as real / bottom as real) >= bound
  {
    RealQuotientAbove(base, top, bottom, bound);
    FloorAtLeast(base as real * (top as real / bottom as real), bound);
  }

  lemma FloorAtLeast(x: real, bound: nat)
    requires x >= bound as real
    ensures TruncReal(x) >= bound
  {
  }

  lemma RealQuotientAbove(base: nat, top: nat, bottom: nat, bound: nat)
    requires bottom > 0 && base * top >= bottom * bound
    ensures base as real * (top as real / bottom as real) >= bound as real
  {
    var x := base as real * (top as real / bottom as real);
    QuotientTimes(top as real, bottom as real);
    assert x * bottom as real == base as real * (top as real / bottom as real * bottom as real);
    assert (base * top) as real == base as real * top as real;
    assert (bottom * bound) as real == bottom as real * bound as real;
    ScaleReal(x, bound as real, bottom as real);
  }

  lemma QuietAction(c: Config, k: nat)
    requires k >= 2 && c.maxPositionSize > 0.0 && MaxUnits(c) == 5.0 * k as real
    ensures var q := QuietSide(c, QuietPosition(k)); var action := RecommendedAction(c, q, QuietDrift(c, q));
      if CanAccumulate(c, QuietPosition(k)) then action.Accumulate? else action.PassiveUnwind? || action.Neutral?
  {
    UrgencyInUnits(c, k, QuietSide(c, QuietPosition(k)));
  }

  lemma NoQuietOverrun(base: int, k: nat, d: nat)
    requires base <= 0 && k > 0
    ensures base * (k + 2 * d) < 6 * k * (d + 1)
  {
    AtMostTimes(0, -base, k + 2 * d);
    assert (-base) * (k + 2 * d) == -(base * (k + 2 * d));
    AtMostTimes(1, k, d + 1);
    assert 6 * k * (d + 1) == 6 * (k * (d + 1));
  }

  lemma QuietOverrunHappens(c: Config, k: nat)
    requires k >= 2 && c.maxPositionSize > 0.0 && MaxUnits(c) == 5.0 * k as real && QuietOverrun(c, k)
    ensures var q := QuietSide(c, QuietPosition(k)); var drift := QuietDrift(c, q);
      WithinLimit(c, q) && SizesAllowed(c, q, drift) && !QuoteAffordable(c, q, drift)
  {
    var q := QuietSide(c, QuietPosition(k));
    HeldUnits(c, k, q);
    AddingSizeInUnits(c, k, q);
    if Base(c) <= 0 {
      NoQuietOverrun(Base(c), k, QuietRoom(k));
    }
    QuietAddingSize(Base(c), k);
    QuietAction(c, k);
    UnwindingSizes(c, q, QuietDrift(c, q));
    Sides(c, q, QuietDrift(c, q));
    SmallerAllowed(c, AddingSize(c, q), QuietSize(c, k));
  }

  lemma AllowedQuoteAffordable(c: Config, k: nat, quantity: int, driftBps: real)
    requires k >= 2 && c.maxPositionSize > 0.0 && MaxUnits(c) == 5.0 * k as real
    requires !AggressiveOverrun(c, k) && !QuietOverrun(c, k)
    requires WithinLimit(c, quantity) && SizesAllowed(c, quantity, driftBps)
    ensures QuoteAffordable(c, quantity, driftBps)
  {
    if Base(c) <= 0 {
      NegativeBaseQuotesNothing(c, quantity, driftBps);
    } else {
      HeldUnits(c, k, quantity);
      Sides(c, quantity, driftBps);
      if AddingSize(c, quantity) > 5 * k - Abs(quantity) {
        AddingOverrun(c, k, quantity, driftBps);
      }
      if UnwindingSize(c, quantity, driftBps) > 5 * k + Abs(quantity) {
        UnwindingOverrun(c, k, quantity, driftBps);
      }
    }
  }

  /** With a limit of 5k units: some run from within the limit leaves it exactly when a quote can be published at
      all and the base overruns, through orders the order limit admits, from four fifths of the limit or from
      the furthest position that is not unwound aggressively. */
  lemma LimitHeldExactly(c: Config, k: nat)
    requires k >= 2 && c.maxPositionSize > 0.0 && MaxUnits(c) == 5.0 * k as real
    ensures SafeOnEveryRun(c) <==> c.minConfidence > 1.0 || (!AggressiveOverrun(c, k) && !QuietOverrun(c, k))
  {
    RunsSafeExactlyWhenQuotesAre(c);
    if !AggressiveOverrun(c, k) && !QuietOverrun(c, k) {
      forall quantity: int, driftBps: real | WithinLimit(c, quantity) && SizesAllowed(c, quantity, driftBps)
        ensures QuoteAffordable(c, quantity, driftBps)
      {
        AllowedQuoteAffordable(c, k, quantity, driftBps);
      }
    } else if AggressiveOverrun(c, k) {
      AggressiveOverrunHappens(c, k);
    } else {
      QuietOverrunHappens(c, k);
    }
  }

  // Any limit.

  /** The order size limit in units of the last decimal. */
  function OrderUnits(c: Config): real {
    c.maxOrderSize * 100000000.0
  }

  /** While nothing is unwound aggressively, seven sixteenths of the limit fit at every position. */
  lemma QuietRampLeavesRoom(u: real, m: real, base: real, factor: real)
    requires 0.0 <= u <= 0.71 && m > 0.0 && 0.0 <= base <= 0.4375 * m && factor == SizeFactorAt(u)
    ensures 0.0 <= factor && u * m + base * factor <= m
  {
    ProductNonNegative(0.4375 * m - base, factor);
    assert (0.4375 * m - base) * factor == 0.4375 * m * factor - base * factor;
    var room := 0.4375 * m * factor;
    if u < 0.5 {
      ScaleReal(u, 0.5, m);
    } else {
      RampsInClosedForm(u);
      assert room == 0.4375 * (11.0 * m - 10.0 * (u * m)) / 6.0;
      ScaleReal(u, 0.71, m);
    }
  }

  lemma AtLeastScaled(base: real, mult: real, product: real)
    requires base >= 0.0 && product == base * mult
    ensures mult >= 0.8 ==> product >= 0.8 * base
    ensures mult >= 1.5 ==> product >= 1.5 * base
  {
    if mult >= 0.8 {
      ProductNonNegative(base, mult - 0.8);
    }
    if mult >= 1.5 {
      ProductNonNegative(base, mult - 1.5);
    }
  }

  lemma TruncAbove(x: real, bound: real)
    requires x >= 0.0 && (TruncReal(x) + 1) as real <= bound
    ensures x < bound
  {
  }

  lemma BelowScaled(base: real, product: real, m: real)
    requires 0.0 <= product < 0.35 * m
    ensures product >= 0.8 * base ==> base <= 0.4375 * m
    ensures product >= 1.5 * base ==> base <= 0.4 * m
  {
  }

  /** An order limit of less than 35 per cent keeps the base below what fits. */
  lemma CheckedBase(base: real, mult: real, product: real, m: real)
    requires base >= 0.0 && mult >= 0.8 && product == base * mult && (TruncReal(product) + 1) as real <= 0.35 * m
    ensures base <= 0.4375 * m && (mult >= 1.5 ==> base <= 0.4 * m)
  {
    AtLeastScaled(base, mult, product);
    TruncAbove(product, 0.35 * m);
    BelowScaled(base, product, m);
  }

  lemma ShrunkOrderFitsEither(u: real, m: real, base: int, factor: real)
    requires 0.0 <= u <= 1.0 && m > 0.0 && 0 <= base && base as real <= 0.4375 * m && factor == SizeFactorAt(u)
    requires u > 0.71 ==> base as real <= 0.4 * m
    ensures u * m + MulScalar(base, factor) as real <= m
  {
    if u > 0.71 {
      ShrunkOrderFits(u, m, base, factor);
    } else {
      QuietRampLeavesRoom(u, m, base as real, factor);
      ProductNonNegative(base as real, factor);
      TruncBelow(base as real * factor);
    }
  }

  lemma CheckedQuoteAffordable(c: Config, quantity: int, driftBps: real)
    requires c.maxPositionSize > 0.0 && OrderUnits(c) + 1.0 <= 0.35 * MaxUnits(c) && Base(c) > 0
    requires WithinLimit(c, quantity) && SizesAllowed(c, quantity, driftBps)
    ensures QuoteAffordable(c, quantity, driftBps)
  {
    Sides(c, quantity, driftBps);
    var size := UnwindingSize(c, quantity, driftBps);
    assert size as real <= OrderUnits(c) && size as real <= MaxUnits(c);
    SizeUrgencyRange(c, quantity, driftBps);
    CheckedAddingSide(c, quantity, 1.0 * SizeUrgency(RecommendedAction(c, quantity, driftBps)));
  }

  lemma SizeUrgencyRange(c: Config, quantity: int, driftBps: real)
    requires c.maxPositionSize > 0.0
    ensures var k := SizeUrgency(RecommendedAction(c, quantity, driftBps));
      k >= 0.8 && (Utilization(c, quantity) > 0.71 ==> k >= 1.5)
  {
    UrgencyRegions(Utilization(c, quantity));
  }

  lemma CheckedAddingSide(c: Config, quantity: int, mult: real)
    requires c.maxPositionSize > 0.0 && Base(c) > 0 && WithinLimit(c, quantity)
    requires mult >= 0.8 && (Utilization(c, quantity) > 0.71 ==> mult >= 1.5)
    requires (MulScalar(Base(c), mult) + 1) as real <= 0.35 * MaxUnits(c)
    ensures AbsReal(quantity as real) + AddingSize(c, quantity) as real <= MaxUnits(c)
  {
    UtilizationUnits(c, quantity);
    CheckedOrderFits(Utilization(c, quantity), MaxUnits(c), AbsReal(quantity as real), Base(c), mult);
  }

  lemma CheckedOrderFits(u: real, m: real, held: real, base: nat, mult: real)
    requires 0.0 <= u <= 1.0 && m > 0.0 && u * m == held && mult >= 0.8 && (u > 0.71 ==> mult >= 1.5)
    requires (MulScalar(base, mult) + 1) as real <= 0.35 * m
    ensures held + MulScalar(base, SizeFactorAt(u)) as real <= m
  {
    var product := base as real * mult;
    assert MulScalar(base, mult) == TruncReal(product);
    CheckedBase(base as real, mult, product, m);
    ShrunkOrderFitsEither(u, m, base, SizeFactorAt(u));
  }

  /** With an order limit below 35 per cent of the position limit, every run from within the position limit stays
      within it whatever the base: the size check refuses the quotes that would not fit. */
  lemma SmallOrdersHoldLimit(c: Config)
    requires c.maxPositionSize > 0.0 && OrderUnits(c) + 1.0 <= 0.35 * MaxUnits(c)
    ensures SafeOnEveryRun(c)
  {
    RunsSafeExactlyWhenQuotesAre(c);
    forall quantity: int, driftBps: real | WithinLimit(c, quantity) && SizesAllowed(c, quantity, driftBps)
      ensures QuoteAffordable(c, quantity, driftBps)
    {
      if Base(c) <= 0 {
        NegativeBaseQuotesNothing(c, quantity, driftBps);
      } else {
        CheckedQuoteAffordable(c, quantity, driftBps);
      }
    }
  }

  // Two fifths is right to within three units.

  /** The greatest whole position at or below four fifths of the limit. */
  function FourFifths(m: real): int {
    (0.8 * m).Floor
  }

  lemma OverrunAtFourFifths(m: real, base: real, u: real, held: real)
    requires m >= 15.0 && base >= 0.4 * m + 3.0
    requires u * m == held && 0.8 * m - 1.0 < held <= 0.8 * m
    ensures 0.71 < u <= 0.8 && base * SizeFactorAt(u) >= m - held + 1.0
  {
    QuietRegion(u, m, held);
    RegionInUnits(u, m, held);
    RampsInClosedForm(u);
    RampsTimes(u, m, held);
    var g := (11.0 - 10.0 * u) / 6.0;
    ProductNonNegative(base - 0.4 * m - 3.0, g);
    assert (base - 0.4 * m - 3.0) * g == base * g - 0.4 * (g * m) - 3.0 * g;
  }

  lemma FloorAbove(x: real, bound: real)
    requires x >= bound + 1.0 && bound >= 0.0
    ensures TruncReal(x) as real > bound
  {
  }

  lemma LargeOrder(m: real, base: int, u: real, q: int)
    requires m >= 15.0 && base as real >= 0.4 * m + 3.0
    requires u * m == q as real && 0.8 * m - 1.0 < q as real <= 0.8 * m
    ensures 0.71 < u <= 0.8 && MulScalar(base, SizeFactorAt(u)) as real > m - q as real
  {
    OverrunAtFourFifths(m, base as real, u, q as real);
    FloorAbove(base as real * SizeFactorAt(u), m - q as real);
  }

  lemma BaseAboveOverruns(c: Config)
    requires c.maxPositionSize > 0.0 && MaxUnits(c) >= 15.0
    requires Base(c) as real >= 0.4 * MaxUnits(c) + 3.0 && SizeAllowed(c, 3 * Base(c) / 2)
    ensures var q := FourFifths(MaxUnits(c));
      WithinLimit(c, q) && SizesAllowed(c, q, 0.0) && !QuoteAffordable(c, q, 0.0)
  {
    var m, q, base := MaxUnits(c), FourFifths(MaxUnits(c)), Base(c);
    UtilizationUnits(c, q);
    LargeOrder(m, base, Utilization(c, q), q);
    SizeFactorRange(c, q);
    UrgencyRegions(Utilization(c, q));
    UnwindingSizes(c, q, 0.0);
    Sides(c, q, 0.0);
    ScalarMonotone(base, SizeFactor(c, q), 1.0);
    WholeBase(base);
    SmallerAllowed(c, AddingSize(c, q), 3 * base / 2);
  }

  /** For every limit of at least 15 units: a base of two fifths is safe; one three units above is not, if an order
      of one and a half times the base passes the size check and a quote can be published at all. */
  lemma TwoFifthsIsTight(c: Config)
    requires c.maxPositionSize > 0.0 && MaxUnits(c) >= 15.0
    ensures Base(c) as real <= 0.4 * MaxUnits(c) ==> SafeOnEveryRun(c)
    ensures Base(c) as real >= 0.4 * MaxUnits(c) + 3.0 && SizeAllowed(c, 3 * Base(c) / 2) && c.minConfidence <= 1.0
            ==> !SafeOnEveryRun(c)
  {
    RunsSafeExactlyWhenQuotesAre(c);
    if Base(c) as real <= 0.4 * MaxUnits(c) {
      forall quantity: int, driftBps: real | WithinLimit(c, quantity) && SizesAllowed(c, quantity, driftBps)
        ensures QuoteAffordable(c, quantity, driftBps)
      {
        if SmallBase(c) {
          QuoteIsSafe(c, quantity, driftBps);
        } else {
          NegativeBaseQuotesNothing(c, quantity, driftBps);
        }
      }
    }
    if Base(c) as real >= 0.4 * MaxUnits(c) + 3.0 && SizeAllowed(c, 3 * Base(c) / 2) {
      BaseAboveOverruns(c);
    }
  }
}

/** How inventory shapes quoting: urgency to unwind and smaller sizes near the position limit. */
module InventoryManager {
  import opened Strategy
  import opened Reals

  datatype Action = EmergencyUnwind | AggressiveUnwind | PassiveUnwind | Neutral | Accumulate

  function Utilization(c: Config, quantity: int): real
    requires c.maxPositionSize > 0.0
  {
    AbsReal(ToReal(quantity)) / c.maxPositionSize
  }

  function UrgencyAt(u: real): real {
    if u < 0.5 then 0.0
    else if u < 0.8 then (u - 0.5) / 0.3
    else 1.0 + (u - 0.8) / 0.2
  }

  function SizeFactorAt(u: real): real {
    if u < 0.5 then 1.0
    else if u < 0.8 then 1.0 - (u - 0.5) * 0.5 / 0.3
    else 0.5 - (u - 0.8) * 0.5 / 0.2
  }

  function Urgency(c: Config, quantity: int): real
    requires c.maxPositionSize > 0.0
  {
    UrgencyAt(Utilization(c, quantity))
  }

  function SizeFactor(c: Config, quantity: int): real
    requires c.maxPositionSize > 0.0
  {
    SizeFactorAt(Utilization(c, quantity))
  }

  /** Factors for the bid and the ask: only the side that adds to the position shrinks. */
  function AsymmetricSizes(c: Config, quantity: int): (real, real)
    requires c.maxPositionSize > 0.0
  {
    var inventory := ToReal(quantity);
    if inventory > 0.0 then (SizeFactor(c, quantity), 1.0)
    else if inventory < 0.0 then (1.0, SizeFactor(c, quantity))
    else (1.0, 1.0)
  }

  function RecommendedAction(c: Config, quantity: int, driftBps: real): Action
    requires c.maxPositionSize > 0.0
  {
    var inventory, urgency := ToReal(quantity), Urgency(c, quantity);
    if urgency > 1.0 then EmergencyUnwind
    else if urgency > 0.7 then AggressiveUnwind
    else if inventory > c.targetInventory + 0.1 then
      if driftBps < -5.0 then AggressiveUnwind else if driftBps > 5.0 then Accumulate else PassiveUnwind
    else if inventory < c.targetInventory - 0.1 then
      if driftBps > 5.0 then AggressiveUnwind else if driftBps < -5.0 then Accumulate else PassiveUnwind
    else if urgency > 0.3 then PassiveUnwind
    else Neutral
  }

  /** The position limit in units of the last decimal. */
  function MaxUnits(c: Config): real {
    c.maxPositionSize * 100000000.0
  }

  predicate WithinLimit(c: Config, quantity: int) {
    AbsReal(ToReal(quantity)) <= c.maxPositionSize
  }

  lemma UtilizationUnits(c: Config, quantity: int)
    requires c.maxPositionSize > 0.0
    ensures Utilization(c, quantity) * MaxUnits(c) == AbsReal(quantity as real)
    ensures WithinLimit(c, quantity) <==> AbsReal(quantity as real) <= MaxUnits(c)
    ensures 0.0 <= Utilization(c, quantity)
    ensures WithinLimit(c, quantity) <==> Utilization(c, quantity) <= 1.0
  {
    var x, m := AbsReal(ToReal(quantity)), c.maxPositionSize;
    QuotientTimes(x, m);
    QuotientCompare(x, m, 1.0);
    QuotientCompare(x, m, 0.0);
    assert x * 100000000.0 == AbsReal(quantity as real);
    assert (x / m) * (m * 100000000.0) == ((x / m) * m) * 100000000.0;
  }

  /** Within the limit the factor is a proper fraction. */
  lemma SizeFactorRange(c: Config, quantity: int)
    requires c.maxPositionSize > 0.0 && WithinLimit(c, quantity)
    ensures 0.0 <= SizeFactor(c, quantity) <= 1.0
  {
    UtilizationUnits(c, quantity);
  }

  lemma RampsInClosedForm(u: real)
    ensures UrgencyAt(u) == if u < 0.5 then 0.0 else if u < 0.8 then (10.0 * u - 5.0) / 3.0 else 5.0 * u - 3.0
    ensures SizeFactorAt(u)
         == if u < 0.5 then 1.0 else if u < 0.8 then (11.0 - 10.0 * u) / 6.0 else (5.0 - 5.0 * u) / 2.0
  {
  }

  lemma RampMonotone(u: real, v: real)
    requires u <= v
    ensures UrgencyAt(u) <= UrgencyAt(v) && SizeFactorAt(u) >= SizeFactorAt(v)
  {
    RampsInClosedForm(u);
    RampsInClosedForm(v);
  }

  /** A position further from flat is at least as urgent and quoted at most as large on the side that adds to it. */
  lemma RampsFollowPosition(c: Config, near: int, far: int)
    requires c.maxPositionSize > 0.0 && AbsReal(near as real) <= AbsReal(far as real)
    ensures Urgency(c, near) <= Urgency(c, far)
    ensures SizeFactor(c, near) >= SizeFactor(c, far)
  {
    var m := c.maxPositionSize;
    QuotientTimes(AbsReal(ToReal(far)), m);
    QuotientCompare(AbsReal(ToReal(near)), m, Utilization(c, far));
    RampMonotone(Utilization(c, near), Utilization(c, far));
  }

  /** Where the ramps begin and end: no urgency below half the limit, one at 80 per cent, two at the limit;
      full size up to half the limit, none at the limit, negative beyond it. */
  lemma RampEnds(c: Config, quantity: int)
    requires c.maxPositionSize > 0.0
    ensures Urgency(c, quantity) == 0.0 <==> Utilization(c, quantity) <= 0.5
    ensures Urgency(c, quantity) <= 1.0 <==> Utilization(c, quantity) <= 0.8
    ensures Urgency(c, quantity) <= 2.0 <==> WithinLimit(c, quantity)
    ensures Utilization(c, quantity) == 1.0 ==> Urgency(c, quantity) == 2.0 && SizeFactor(c, quantity) == 0.0
    ensures SizeFactor(c, quantity) == 1.0 <==> Utilization(c, quantity) <= 0.5
    ensures SizeFactor(c, quantity) >= 0.0 <==> WithinLimit(c, quantity)
  {
    UtilizationUnits(c, quantity);
    RampsInClosedForm(Utilization(c, quantity));
  }

  /** Whatever the drift, the emergency action is taken exactly above 80 per cent of the limit. */
  lemma EmergencyExactly(c: Config, quantity: int, driftBps: real)
    requires c.maxPositionSize > 0.0
    ensures RecommendedAction(c, quantity, driftBps).EmergencyUnwind? <==> Utilization(c, quantity) > 0.8
  {
    RampEnds(c, quantity);
  }

  /** Every action by the regions in which it is taken. */
  lemma ActionRegions(c: Config, quantity: int, driftBps: real)
    requires c.maxPositionSize > 0.0
    ensures var u, away := Utilization(c, quantity), ToReal(quantity) - c.targetInventory;
      var adverse := (away > 0.1 && driftBps < -5.0) || (away < -0.1 && driftBps > 5.0);
      var favourable := (away > 0.1 && driftBps > 5.0) || (away < -0.1 && driftBps < -5.0);
      match RecommendedAction(c, quantity, driftBps)
      case EmergencyUnwind => u > 0.8
      case AggressiveUnwind => u <= 0.8 && (u > 0.71 || adverse)
      case Accumulate => u <= 0.71 && favourable
      case Neutral => u <= 0.59 && -0.1 <= away <= 0.1
      case PassiveUnwind => u <= 0.71 && !adverse && !favourable && !(u <= 0.59 && -0.1 <= away <= 0.1)
  {
    RampsInClosedForm(Utilization(c, quantity));
  }
}

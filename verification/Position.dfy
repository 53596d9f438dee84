/** Position accounting: average entry price and realised profit under truncating fixed-point. */
module Position {
  import opened RustInt
  import opened FixedPoint
  import opened Wrappers

  datatype Fill = Fill(side: Side, price: int, quantity: int)

  datatype Holding = Holding(quantity: int, avgEntryPrice: int, realizedPnl: int)

  const FLAT := Holding(0, 0, 0)

  function SignedQuantity(side: Side, quantity: int): int {
    if side.Bid? then quantity else Neg(quantity)
  }

  datatype Kind = Open | AddTo | Flip | Reduce

  /** Which of the four branches a fill takes. */
  function KindOf(quantity: int, newQuantity: int): Kind {
    if quantity == 0 then Open
    else if (quantity > 0) == (newQuantity > 0) && AbsI64(newQuantity) > AbsI64(quantity) then AddTo
    else if (quantity > 0) != (newQuantity > 0) then Flip
    else Reduce
  }

  function Filled(h: Holding, f: Fill): Holding {
    var fillQty := SignedQuantity(f.side, f.quantity);
    var newQuantity := Add(h.quantity, fillQty);
    match KindOf(h.quantity, newQuantity)
    case Open => h.(quantity := newQuantity, avgEntryPrice := f.price)
    case AddTo =>
      var totalCost := Add(Mul(h.avgEntryPrice, h.quantity), Mul(f.price, fillQty));
      h.(quantity := newQuantity, avgEntryPrice := Div(totalCost, newQuantity))
    case Flip =>
      var closePnl := Mul(Sub(f.price, h.avgEntryPrice), h.quantity);
      Holding(newQuantity, f.price, Add(h.realizedPnl, closePnl))
    case Reduce =>
      var closePnl := Mul(Sub(f.price, h.avgEntryPrice), Neg(fillQty));
      h.(quantity := newQuantity, realizedPnl := Add(h.realizedPnl, closePnl))
  }

  function UnrealizedPnl(h: Holding, mark: int): int {
    if h.quantity == 0 then 0 else Mul(Sub(mark, h.avgEntryPrice), h.quantity)
  }

  function TotalPnl(h: Holding, mark: int): int {
    Add(h.realizedPnl, UnrealizedPnl(h, mark))
  }

  class Account {
    var quantity: int
    var avgEntryPrice: int
    var realizedPnl: int

    function Abstract(): Holding
      reads this
    {
      Holding(quantity, avgEntryPrice, realizedPnl)
    }

    constructor ()
      ensures Abstract() == FLAT
    {
      quantity, avgEntryPrice, realizedPnl := 0, 0, 0;
    }

    method ApplyFill(side: Side, price: int, fillQuantity: int)
      modifies this
      ensures Abstract() == Filled(old(Abstract()), Fill(side, price, fillQuantity))
    {
      var fillQty := match side case Bid => fillQuantity case Ask => Neg(fillQuantity);
      var newQuantity := Add(quantity, fillQty);
      if quantity == 0 {
        quantity := newQuantity;
        avgEntryPrice := price;
      } else if (quantity > 0) == (newQuantity > 0) && AbsI64(newQuantity) > AbsI64(quantity) {
        var totalCost := Add(Mul(avgEntryPrice, quantity), Mul(price, fillQty));
        avgEntryPrice := Div(totalCost, newQuantity);
        quantity := newQuantity;
      } else if (quantity > 0) != (newQuantity > 0) {
        var closePnl := Mul(Sub(price, avgEntryPrice), quantity);
        realizedPnl := Add(realizedPnl, closePnl);
        quantity := newQuantity;
        avgEntryPrice := price;
      } else {
        var closedQty := Neg(fillQty);
        var closePnl := Mul(Sub(price, avgEntryPrice), closedQty);
        realizedPnl := Add(realizedPnl, closePnl);
        quantity := newQuantity;
      }
    }
  }

  function Replay(h: Holding, fills: seq<Fill>): Holding {
    if fills == [] then h else Filled(Replay(h, fills[..|fills| - 1]), fills[|fills| - 1])
  }

  /** Exact signed quantity of a fill. */
  function Signed(f: Fill): int {
    if f.side.Bid? then f.quantity else -f.quantity
  }

  function NetQuantity(fills: seq<Fill>): int {
    if fills == [] then 0 else NetQuantity(fills[..|fills| - 1]) + Signed(fills[|fills| - 1])
  }

  /** Exact cash paid for the fills, in units of 10^-16. */
  function NetCost(fills: seq<Fill>): int {
    if fills == [] then 0
    else
      var f := fills[|fills| - 1];
      NetCost(fills[..|fills| - 1]) + f.price * Signed(f)
  }

  /** The quantity alone: every branch stores the wrapped sum. */
  function QuantityAfter(quantity: int, fills: seq<Fill>): int {
    if fills == [] then quantity
    else
      var f := fills[|fills| - 1];
      Add(QuantityAfter(quantity, fills[..|fills| - 1]), SignedQuantity(f.side, f.quantity))
  }

  lemma {:induction false} ReplayQuantity(h: Holding, fills: seq<Fill>)
    ensures Replay(h, fills).quantity == QuantityAfter(h.quantity, fills)
    decreases |fills|
  {
    if fills != [] {
      ReplayQuantity(h, fills[..|fills| - 1]);
    }
  }

  lemma {:induction false} WrappedSum(quantity: int, fills: seq<Fill>)
    requires FitsI64(quantity)
    requires forall i :: 0 <= i < |fills| ==> FitsI64(fills[i].quantity)
    ensures QuantityAfter(quantity, fills) == WrapI64(quantity + NetQuantity(fills))
    decreases |fills|
  {
    if fills != [] {
      var f, earlier := fills[|fills| - 1], fills[..|fills| - 1];
      WrappedSum(quantity, earlier);
      assert SignedQuantity(f.side, f.quantity) == WrapI64(Signed(f));
      WrapI64Absorbs(quantity + NetQuantity(earlier), Signed(f));
    }
  }

  /** The quantity is the signed sum of the fills modulo 2^64, whatever overflows on the way. */
  lemma QuantityIsSignedSum(h: Holding, fills: seq<Fill>)
    requires FitsI64(h.quantity)
    requires forall i :: 0 <= i < |fills| ==> FitsI64(fills[i].quantity)
    ensures Replay(h, fills).quantity == WrapI64(h.quantity + NetQuantity(fills))
  {
    ReplayQuantity(h, fills);
    WrappedSum(h.quantity, fills);
  }

  /** No intermediate result of the fill leaves the i64 range. */
  predicate FillFits(h: Holding, f: Fill) {
    var fillQty := Signed(f);
    var newQuantity := h.quantity + fillQty;
    && FitsI64(fillQty) && FitsI64(newQuantity) && FitsI64(-fillQty)
    && FitsI64(Abs(h.quantity)) && FitsI64(Abs(newQuantity))
    && FitsI64(f.price - h.avgEntryPrice)
    && match KindOf(h.quantity, newQuantity)
       case Open => true
       case AddTo =>
         var bought := TruncDiv(h.avgEntryPrice * h.quantity, MULTIPLIER);
         var sold := TruncDiv(f.price * fillQty, MULTIPLIER);
         && FitsI64(bought) && FitsI64(sold) && FitsI64(bought + sold)
         && FitsI64(TruncDiv((bought + sold) * MULTIPLIER, newQuantity))
       case Flip =>
         var pnl := TruncDiv((f.price - h.avgEntryPrice) * h.quantity, MULTIPLIER);
         FitsI64(pnl) && FitsI64(h.realizedPnl + pnl)
       case Reduce =>
         var pnl := TruncDiv((f.price - h.avgEntryPrice) * -fillQty, MULTIPLIER);
         FitsI64(pnl) && FitsI64(h.realizedPnl + pnl)
  }

  predicate FillsFit(h: Holding, fills: seq<Fill>) {
    fills == [] ||
    (FillsFit(h, fills[..|fills| - 1]) && FillFits(Replay(h, fills[..|fills| - 1]), fills[|fills| - 1]))
  }

  /** Realised profit less the cost of what is held, in units of 10^-16. */
  function BookValue(h: Holding): int {
    MULTIPLIER * h.realizedPnl - h.avgEntryPrice * h.quantity
  }

  /** What rounding can change in one fill: nothing on opening, one unit of the last decimal on a
      close, and on averaging two units plus one 10^-16 for each unit held. */
  function RoundingBudget(h: Holding, f: Fill): nat {
    var newQuantity := h.quantity + Signed(f);
    match KindOf(h.quantity, newQuantity)
    case Open => 0
    case AddTo => 2 * MULTIPLIER + Abs(newQuantity)
    case Flip => MULTIPLIER
    case Reduce => MULTIPLIER
  }

  /** How far one fill moves the books away from exact cash accounting. */
  function FillDrift(h: Holding, f: Fill, h': Holding): int {
    BookValue(h') - BookValue(h) + f.price * Signed(f)
  }

  lemma AveragingError(h: Holding, f: Fill)
    requires FillFits(h, f) && KindOf(h.quantity, h.quantity + Signed(f)) == AddTo
    ensures Abs(FillDrift(h, f, Filled(h, f))) <= RoundingBudget(h, f)
  {
    var fillQty := Signed(f);
    var newQuantity := h.quantity + fillQty;
    var cost := Mul(h.avgEntryPrice, h.quantity) + Mul(f.price, fillQty);
    var avg := Div(cost, newQuantity);
    MulRemainder(h.avgEntryPrice, h.quantity);
    MulRemainder(f.price, fillQty);
    DivRemainder(cost, newQuantity);
    assert Filled(h, f) == Holding(newQuantity, avg, h.realizedPnl);
    assert MULTIPLIER * cost == MULTIPLIER * Mul(h.avgEntryPrice, h.quantity) + MULTIPLIER * Mul(f.price, fillQty);
  }

  lemma FlipAlgebra(price: int, avg: int, q: int, f: int, realized: int, pnl: int)
    requires Abs(MULTIPLIER * pnl - (price - avg) * q) < MULTIPLIER
    ensures Abs((MULTIPLIER * (realized + pnl) - price * (q + f)) - (MULTIPLIER * realized - avg * q) + price * f)
          < MULTIPLIER
  {
    assert (price - avg) * q == price * q - avg * q;
    assert price * (q + f) == price * q + price * f;
  }

  lemma FlipError(h: Holding, f: Fill)
    requires FillFits(h, f) && KindOf(h.quantity, h.quantity + Signed(f)) == Flip
    ensures Abs(FillDrift(h, f, Filled(h, f))) <= RoundingBudget(h, f)
  {
    var pnl := Mul(f.price - h.avgEntryPrice, h.quantity);
    assert Filled(h, f) == Holding(h.quantity + Signed(f), f.price, h.realizedPnl + pnl);
    MulRemainder(f.price - h.avgEntryPrice, h.quantity);
    FlipAlgebra(f.price, h.avgEntryPrice, h.quantity, Signed(f), h.realizedPnl, pnl);
  }

  lemma ReduceAlgebra(price: int, avg: int, q: int, f: int, realized: int, pnl: int)
    requires Abs(MULTIPLIER * pnl - (price - avg) * -f) < MULTIPLIER
    ensures Abs((MULTIPLIER * (realized + pnl) - avg * (q + f)) - (MULTIPLIER * realized - avg * q) + price * f)
          < MULTIPLIER
  {
    assert (price - avg) * -f == avg * f - price * f;
    assert avg * (q + f) == avg * q + avg * f;
  }

  lemma ReduceError(h: Holding, f: Fill)
    requires FillFits(h, f) && KindOf(h.quantity, h.quantity + Signed(f)) == Reduce
    ensures Abs(FillDrift(h, f, Filled(h, f))) <= RoundingBudget(h, f)
  {
    var pnl := Mul(f.price - h.avgEntryPrice, -Signed(f));
    assert Filled(h, f) == Holding(h.quantity + Signed(f), h.avgEntryPrice, h.realizedPnl + pnl);
    MulRemainder(f.price - h.avgEntryPrice, -Signed(f));
    ReduceAlgebra(f.price, h.avgEntryPrice, h.quantity, Signed(f), h.realizedPnl, pnl);
  }

  lemma FillError(h: Holding, f: Fill)
    requires FillFits(h, f)
    ensures Abs(FillDrift(h, f, Filled(h, f))) <= RoundingBudget(h, f)
  {
    match KindOf(h.quantity, h.quantity + Signed(f))
    case Open =>
      assert Filled(h, f) == Holding(Signed(f), f.price, h.realizedPnl);
    case AddTo => AveragingError(h, f);
    case Flip => FlipError(h, f);
    case Reduce => ReduceError(h, f);
  }

  function TotalBudget(h: Holding, fills: seq<Fill>): nat {
    if fills == [] then 0
    else
      var earlier := fills[..|fills| - 1];
      TotalBudget(h, earlier) + RoundingBudget(Replay(h, earlier), fills[|fills| - 1])
  }

  /** Over any fills the books differ from exact cash accounting by at most the rounding budget. */
  lemma {:induction false} RoundingBound(fills: seq<Fill>)
    requires FillsFit(FLAT, fills)
    ensures Abs(BookValue(Replay(FLAT, fills)) + NetCost(fills)) <= TotalBudget(FLAT, fills)
    decreases |fills|
  {
    if fills != [] {
      var earlier := fills[..|fills| - 1];
      RoundingBound(earlier);
      FillError(Replay(FLAT, earlier), fills[|fills| - 1]);
    }
  }

  /** Without overflow the quantity is exactly the signed sum. */
  lemma {:induction false} QuantityExact(fills: seq<Fill>)
    requires FillsFit(FLAT, fills)
    ensures Replay(FLAT, fills).quantity == NetQuantity(fills)
    decreases |fills|
  {
    if fills != [] {
      QuantityExact(fills[..|fills| - 1]);
    }
  }

  predicate MarkFits(h: Holding, mark: int) {
    var pnl := TruncDiv((mark - h.avgEntryPrice) * h.quantity, MULTIPLIER);
    FitsI64(mark - h.avgEntryPrice) && FitsI64(pnl) && FitsI64(h.realizedPnl + pnl) && FitsI64(h.realizedPnl)
  }

  lemma TotalPnlError(h: Holding, mark: int)
    requires MarkFits(h, mark)
    ensures Abs(MULTIPLIER * TotalPnl(h, mark) - (BookValue(h) + mark * h.quantity)) < MULTIPLIER
  {
    if h.quantity == 0 {
      assert TotalPnl(h, mark) == h.realizedPnl;
    } else {
      var pnl := Mul(mark - h.avgEntryPrice, h.quantity);
      assert TotalPnl(h, mark) == h.realizedPnl + pnl;
      MulRemainder(mark - h.avgEntryPrice, h.quantity);
      MarkAlgebra(mark, h.avgEntryPrice, h.quantity, h.realizedPnl, pnl);
    }
  }

  lemma MarkAlgebra(mark: int, avg: int, q: int, realized: int, pnl: int)
    requires Abs(MULTIPLIER * pnl - (mark - avg) * q) < MULTIPLIER
    ensures Abs(MULTIPLIER * (realized + pnl) - (MULTIPLIER * realized - avg * q + mark * q)) < MULTIPLIER
  {
    assert (mark - avg) * q == mark * q - avg * q;
  }

  /** Reported total profit against exact mark-to-market equity: position at the mark, less cost. */
  lemma TotalPnlTracksEquity(fills: seq<Fill>, mark: int)
    requires FillsFit(FLAT, fills) && MarkFits(Replay(FLAT, fills), mark)
    ensures Abs(MULTIPLIER * TotalPnl(Replay(FLAT, fills), mark) - (mark * NetQuantity(fills) - NetCost(fills)))
            <= TotalBudget(FLAT, fills) + MULTIPLIER
  {
    var h := Replay(FLAT, fills);
    RoundingBound(fills);
    assert mark * h.quantity == mark * NetQuantity(fills) by { QuantityExact(fills); }
    TotalPnlError(h, mark);
    ErrorsAdd(MULTIPLIER * TotalPnl(h, mark), BookValue(h), mark * h.quantity, NetCost(fills),
              TotalBudget(FLAT, fills));
  }

  lemma ErrorsAdd(total: int, book: int, marked: int, cost: int, budget: int)
    requires Abs(total - (book + marked)) < MULTIPLIER && Abs(book + cost) <= budget
    ensures Abs(total - (marked - cost)) <= budget + MULTIPLIER
  {
  }

  // Signs and prices in plain terms.

  function Bought(fills: seq<Fill>): int {
    if fills == [] then 0
    else
      var f := fills[|fills| - 1];
      Bought(fills[..|fills| - 1]) + match f.side case Bid => f.quantity case Ask => 0
  }

  function Sold(fills: seq<Fill>): int {
    if fills == [] then 0
    else
      var f := fills[|fills| - 1];
      Sold(fills[..|fills| - 1]) + match f.side case Bid => 0 case Ask => f.quantity
  }

  /** The position is what was bought less what was sold. */
  lemma {:induction false} NetIsBoughtLessSold(fills: seq<Fill>)
    ensures NetQuantity(fills) == Bought(fills) - Sold(fills)
    decreases |fills|
  {
    if fills != [] {
      NetIsBoughtLessSold(fills[..|fills| - 1]);
    }
  }

  /** What each kind of fill does to entry price and profit: a reduction realises profit at the old entry price,
      crossing or reaching flat realises it and re-enters at the fill price, and only averaging moves the entry price
      without realising anything. */
  lemma EntryAndProfit(h: Holding, f: Fill)
    requires FillFits(h, f)
    ensures var h', q' := Filled(h, f), h.quantity + Signed(f);
      && (h.quantity == 0 ==> h'.avgEntryPrice == f.price && h'.realizedPnl == h.realizedPnl)
      && (h.quantity > 0 && q' > h.quantity ==> h'.realizedPnl == h.realizedPnl)
      && (h.quantity < 0 && q' < h.quantity ==> h'.realizedPnl == h.realizedPnl)
      && (0 < q' <= h.quantity || h.quantity <= q' < 0 ==> h'.avgEntryPrice == h.avgEntryPrice)
      && (q' <= 0 < h.quantity || h.quantity < 0 < q' ==> h'.avgEntryPrice == f.price)
  {
  }
}

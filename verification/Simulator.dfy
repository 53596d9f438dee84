/** Simulated execution: resting orders, fills against market data, and the position they build. */
module Simulator {
  import opened RustInt
  import opened FixedPoint
  import opened Position
  import opened Wrappers
  import opened Bits

  datatype Order = Order(id: nat, side: Side, price: int, remaining: int, original: int, activeAt: nat)

  datatype Execution = Execution(orderId: nat, fill: Fill, timestamp: nat)

  /** What a market update brings: the best prices of the book and the last trade, if any. */
  datatype Market = Market(bestBid: Option<int>, bestAsk: Option<int>, lastTrade: Option<int>, timestamp: nat)

  predicate Crosses(o: Order, m: Market) {
    m.timestamp >= o.activeAt &&
    match o.side
    case Bid =>
      if m.lastTrade.Some? then m.lastTrade.value <= o.price
      else m.bestAsk.Some? && m.bestAsk.value <= o.price
    case Ask =>
      if m.lastTrade.Some? then m.lastTrade.value >= o.price
      else m.bestBid.Some? && m.bestBid.value >= o.price
  }

  /** A fixed fraction of what remains, rounded half away from zero. */
  function FillQuantity(factor: real, remaining: int): int {
    RoundReal(remaining as real * factor)
  }

  lemma FillQuantityRange(factor: real, remaining: int)
    requires 0.0 <= factor <= 1.0
    ensures remaining >= 0 ==> 0 <= FillQuantity(factor, remaining) <= remaining
    ensures remaining < 0 ==> FillQuantity(factor, remaining) <= 0
  {
    if remaining >= 0 {
      assert 0.0 <= remaining as real * factor <= remaining as real;
    } else {
      assert remaining as real * factor <= 0.0;
    }
  }

  predicate Executes(o: Order, m: Market, factor: real) {
    Crosses(o, m) && FillQuantity(factor, o.remaining) > 0
  }

  function Touched(o: Order, m: Market, factor: real): Order {
    if Executes(o, m, factor) then o.(remaining := o.remaining - FillQuantity(factor, o.remaining)) else o
  }

  function ExecutionOf(o: Order, m: Market, factor: real): Execution {
    Execution(o.id, Fill(o.side, o.price, FillQuantity(factor, o.remaining)), m.timestamp)
  }

  /** Filled by this update and nothing left. */
  predicate Finishes(o: Order, m: Market, factor: real) {
    Executes(o, m, factor) && Touched(o, m, factor).remaining <= 0
  }

  function FilledOf(history: seq<Execution>, id: nat): int {
    if history == [] then 0
    else
      var e := history[|history| - 1];
      FilledOf(history[..|history| - 1], id) + if e.orderId == id then e.fill.quantity else 0
  }

  function Plain(history: seq<Execution>): seq<Fill> {
    if history == [] then [] else Plain(history[..|history| - 1]) + [history[|history| - 1].fill]
  }

  /** Nothing is lost between an order and its executions. */
  predicate Balanced(o: Order, history: seq<Execution>) {
    && -TWO_63 <= o.original < TWO_63 && o.original == o.remaining + FilledOf(history, o.id)
    && o.remaining <= o.original && (o.original >= 0 ==> 0 <= o.remaining <= o.original)
  }

  /** The execution belongs to a placed order, at its side and price, for no more than was ordered, and no
      earlier than the order was active. */
  predicate Justified(orders: map<nat, Order>, e: Execution) {
    && e.orderId in orders
    && e.fill.side == orders[e.orderId].side && e.fill.price == orders[e.orderId].price
    && 0 < e.fill.quantity <= orders[e.orderId].original < TWO_63 && e.timestamp >= orders[e.orderId].activeAt
  }

  ghost predicate Reconciled(orders: map<nat, Order>, history: seq<Execution>, position: Holding) {
    && (forall id :: id in orders ==> orders[id].id == id && Balanced(orders[id], history))
    && (forall i :: 0 <= i < |history| ==> Justified(orders, history[i]))
    && position == Replay(FLAT, Plain(history))
  }

  lemma FilledOfSnoc(history: seq<Execution>, e: Execution, id: nat)
    ensures FilledOf(history + [e], id) == FilledOf(history, id) + if e.orderId == id then e.fill.quantity else 0
    ensures Plain(history + [e]) == Plain(history) + [e.fill]
  {
    assert (history + [e])[..|history|] == history;
  }

  /** The order executed stays balanced, and the execution is one it allows. */
  lemma ExecutionBalances(o: Order, history: seq<Execution>, m: Market, factor: real)
    requires Balanced(o, history) && Executes(o, m, factor) && 0.0 <= factor <= 1.0
    ensures Balanced(Touched(o, m, factor), history + [ExecutionOf(o, m, factor)])
    ensures 0 < FillQuantity(factor, o.remaining) <= o.original
  {
    FillQuantityRange(factor, o.remaining);
    FilledOfSnoc(history, ExecutionOf(o, m, factor), o.id);
  }

  lemma ExecutionReconciles(orders: map<nat, Order>, history: seq<Execution>, position: Holding,
                            id: nat, m: Market, factor: real)
    requires Reconciled(orders, history, position) && 0.0 <= factor <= 1.0
    requires id in orders && Executes(orders[id], m, factor)
    ensures var e := ExecutionOf(orders[id], m, factor);
            Reconciled(orders[id := Touched(orders[id], m, factor)], history + [e], Filled(position, e.fill))
  {
    var o := orders[id];
    var e := ExecutionOf(o, m, factor);
    var history' := history + [e];
    var orders' := orders[id := Touched(o, m, factor)];
    ExecutionBalances(o, history, m, factor);
    forall k | k in orders' ensures orders'[k].id == k && Balanced(orders'[k], history') {
      assert Balanced(orders[k], history);
      FilledOfSnoc(history, e, k);
    }
    forall i | 0 <= i < |history'| ensures Justified(orders', history'[i]) {
      assert i < |history| ==> Justified(orders, history[i]);
    }
    FilledOfSnoc(history, e, id);
    ReplaySnoc(Plain(history), e.fill);
  }

  lemma ReplaySnoc(fills: seq<Fill>, f: Fill)
    ensures Replay(FLAT, fills + [f]) == Filled(Replay(FLAT, fills), f)
  {
    assert (fills + [f])[..|fills|] == fills;
  }

  lemma {:induction false} NeverFilled(orders: map<nat, Order>, history: seq<Execution>, id: nat)
    requires id !in orders && forall i :: 0 <= i < |history| ==> Justified(orders, history[i])
    ensures FilledOf(history, id) == 0
    decreases |history|
  {
    if history != [] {
      assert Justified(orders, history[|history| - 1]);
      NeverFilled(orders, history[..|history| - 1], id);
    }
  }

  /** `order` lists the members of `s`, each once. */
  predicate Enumerates(order: seq<nat>, s: set<nat>) {
    && (forall i :: 0 <= i < |order| ==> order[i] in s)
    && (forall id :: id in s ==> id in order)
    && (forall i, j :: 0 <= i < j < |order| ==> order[i] != order[j])
  }

  function AfterVisits(start: map<nat, Order>, visited: set<nat>, m: Market, factor: real): map<nat, Order> {
    map id | id in start :: if id in visited then Touched(start[id], m, factor) else start[id]
  }

  function FinishedAmong(start: map<nat, Order>, visited: set<nat>, m: Market, factor: real): set<nat> {
    set id | id in start && id in visited && Finishes(start[id], m, factor)
  }

  /** The active orders after one market update: every one touched, the finished ones gone. */
  function AfterUpdate(active: map<nat, Order>, m: Market, factor: real): map<nat, Order> {
    AfterVisits(active, active.Keys, m, factor) - FinishedAmong(active, active.Keys, m, factor)
  }

  /** The executions of the orders listed, in that order. */
  function Executions(start: map<nat, Order>, order: seq<nat>, m: Market, factor: real): seq<Execution>
    requires forall i :: 0 <= i < |order| ==> order[i] in start
  {
    if order == [] then []
    else
      var o := start[order[|order| - 1]];
      Executions(start, order[..|order| - 1], m, factor)
      + if Executes(o, m, factor) then [ExecutionOf(o, m, factor)] else []
  }

  lemma UpdateOnTheRight(a: map<nat, Order>, b: map<nat, Order>, id: nat, o: Order)
    ensures a + b[id := o] == (a + b)[id := o]
  {
  }

  lemma MoveToTheLeft(a: map<nat, Order>, b: map<nat, Order>, id: nat)
    requires id in b
    ensures a[id := b[id]] + (b - {id}) == a + b
  {
  }

  lemma RemoveOne(m: map<nat, Order>, gone: set<nat>, id: nat)
    ensures m - gone - {id} == m - (gone + {id})
  {
  }

  lemma TouchReconciles(retired: map<nat, Order>, active: map<nat, Order>, history: seq<Execution>, position: Holding,
                        id: nat, m: Market, factor: real)
    requires Reconciled(retired + active, history, position) && 0.0 <= factor <= 1.0
    requires id in active && Executes(active[id], m, factor)
    ensures var e := ExecutionOf(active[id], m, factor);
            Reconciled(retired + active[id := Touched(active[id], m, factor)], history + [e], Filled(position, e.fill))
  {
    UpdateOnTheRight(retired, active, id, Touched(active[id], m, factor));
    ExecutionReconciles(retired + active, history, position, id, m, factor);
  }

  /** Active and retired orders are all that were ever placed, under consecutive ids, and history and position
      account for them. */
  ghost predicate Accounted(next: nat, active: map<nat, Order>, retired: map<nat, Order>, history: seq<Execution>,
                            position: Holding) {
    && next >= 1 && active.Keys !! retired.Keys
    && (forall id :: id in retired + active <==> 1 <= id < next)
    && Reconciled(retired + active, history, position)
  }

  /** A changed order keeps its place in the accounts. */
  lemma ChangeKeepsAccounts(next: nat, active: map<nat, Order>, retired: map<nat, Order>, before: seq<Execution>,
                            was: Holding, id: nat, after: Order, history: seq<Execution>, position: Holding)
    requires Accounted(next, active, retired, before, was) && id in active
    requires Reconciled(retired + active[id := after], history, position)
    ensures Accounted(next, active[id := after], retired, history, position)
  {
    assert active[id := after].Keys == active.Keys;
  }

  lemma ExecutionAsWritten(o: Order, m: Market, factor: real, after: Order, e: Execution)
    requires Executes(o, m, factor) && after == Touched(o, m, factor)
    requires e == Execution(o.id, Fill(after.side, after.price, o.remaining - after.remaining), m.timestamp)
    ensures e == ExecutionOf(o, m, factor)
  {
  }

  lemma TouchKeepsAccounts(next: nat, active: map<nat, Order>, retired: map<nat, Order>, drained: seq<Execution>,
                           fills: seq<Execution>, position: Holding, id: nat, m: Market, factor: real,
                           after: Order, e: Execution)
    requires Accounted(next, active, retired, drained + fills, position) && 0.0 <= factor <= 1.0
    requires id in active && Executes(active[id], m, factor)
    requires after == Touched(active[id], m, factor)
    requires e == Execution(id, Fill(after.side, after.price, active[id].remaining - after.remaining), m.timestamp)
    ensures Accounted(next, active[id := after], retired, drained + (fills + [e]), Filled(position, e.fill))
    ensures e == ExecutionOf(active[id], m, factor)
  {
    assert active[id].id == id by { assert (retired + active)[id] == active[id]; }
    ExecutionAsWritten(active[id], m, factor, after, e);
    TouchReconciles(retired, active, drained + fills, position, id, m, factor);
    AppendStep(drained, fills, [e]);
    ChangeKeepsAccounts(next, active, retired, drained + fills, position, id, after, drained + (fills + [e]),
                        Filled(position, e.fill));
  }

  lemma AppendStep(a: seq<Execution>, b: seq<Execution>, c: seq<Execution>)
    ensures a + (b + c) == a + b + c
  {
  }

  lemma UntouchedStays(active: map<nat, Order>, id: nat, m: Market, factor: real)
    requires id in active && !Executes(active[id], m, factor)
    ensures active[id := Touched(active[id], m, factor)] == active
  {
  }

  /** The variables of the matching loop: `was` are the fills before it, `fills` those so far. */
  datatype Pass = Pass(active: map<nat, Order>, finished: set<nat>, was: seq<Execution>, fills: seq<Execution>)

  predicate Progress(start: map<nat, Order>, visited: set<nat>, order: seq<nat>, m: Market, factor: real, p: Pass) {
    && visited <= start.Keys && Enumerates(order, visited)
    && p.active == AfterVisits(start, visited, m, factor)
    && p.finished == FinishedAmong(start, visited, m, factor)
    && p.fills == p.was + Executions(start, order, m, factor)
  }

  function Touch(p: Pass, id: nat, m: Market, factor: real): Pass
    requires id in p.active
  {
    var o := p.active[id];
    Pass(p.active[id := Touched(o, m, factor)], if Finishes(o, m, factor) then p.finished + {id} else p.finished, p.was,
         if Executes(o, m, factor) then p.fills + [ExecutionOf(o, m, factor)] else p.fills)
  }

  lemma ProgressStart(start: map<nat, Order>, m: Market, factor: real, was: seq<Execution>)
    ensures Progress(start, {}, [], m, factor, Pass(start, {}, was, was))
  {
    assert start == AfterVisits(start, {}, m, factor);
  }

  lemma VisitMember(keys: set<nat>, visited: set<nat>, id: nat)
    requires id in keys - visited
    ensures keys - visited - {id} == keys - (visited + {id})
  {
  }

  lemma AllVisited(keys: set<nat>, visited: set<nat>)
    requires visited <= keys && keys - visited == {}
    ensures visited == keys
  {
    assert forall id :: id in keys ==> id in keys - visited || id in visited;
  }

  lemma VisitEnumerates(order: seq<nat>, visited: set<nat>, id: nat)
    requires Enumerates(order, visited) && id !in visited
    ensures Enumerates(order + [id], visited + {id})
  {
    forall k | k in visited + {id} ensures k in order + [id] {
      if k == id {
        assert (order + [id])[|order|] == id;
      }
    }
  }

  lemma AfterVisitsStep(start: map<nat, Order>, visited: set<nat>, id: nat, m: Market, factor: real)
    requires id in start
    ensures AfterVisits(start, visited, m, factor)[id := Touched(start[id], m, factor)]
         == AfterVisits(start, visited + {id}, m, factor)
  {
  }

  lemma FinishedStep(start: map<nat, Order>, visited: set<nat>, id: nat, m: Market, factor: real)
    requires id in start
    ensures FinishedAmong(start, visited + {id}, m, factor)
         == FinishedAmong(start, visited, m, factor) + if Finishes(start[id], m, factor) then {id} else {}
  {
  }

  lemma ExecutionsStep(start: map<nat, Order>, order: seq<nat>, id: nat, m: Market, factor: real)
    requires id in start && forall i :: 0 <= i < |order| ==> order[i] in start
    ensures Executions(start, order + [id], m, factor)
         == Executions(start, order, m, factor)
            + if Executes(start[id], m, factor) then [ExecutionOf(start[id], m, factor)] else []
  {
    assert (order + [id])[..|order|] == order;
  }

  lemma VisitOne(start: map<nat, Order>, visited: set<nat>, order: seq<nat>, id: nat, m: Market, factor: real, p: Pass)
    requires id in start && id !in visited && Progress(start, visited, order, m, factor, p)
    ensures Progress(start, visited + {id}, order + [id], m, factor, Touch(p, id, m, factor))
  {
    assert p.active[id] == start[id];
    assert Enumerates(order + [id], visited + {id}) by { VisitEnumerates(order, visited, id); }
    AfterVisitsStep(start, visited, id, m, factor);
    FinishedStep(start, visited, id, m, factor);
    ExecutionsStep(start, order, id, m, factor);
    AppendStep(p.was, Executions(start, order, m, factor), if Executes(start[id], m, factor)
                                                           then [ExecutionOf(start[id], m, factor)] else []);
  }

  /** An order that has never been placed before owes nothing to the history. */
  lemma NewOrderReconciles(orders: map<nat, Order>, history: seq<Execution>, position: Holding, o: Order)
    requires Reconciled(orders, history, position) && o.id !in orders
    requires -TWO_63 <= o.original < TWO_63 && o.original == o.remaining
    ensures Reconciled(orders[o.id := o], history, position)
  {
    NeverFilled(orders, history, o.id);
    forall i | 0 <= i < |history| ensures Justified(orders[o.id := o], history[i]) {
      assert Justified(orders, history[i]);
    }
    forall k | k in orders ensures Balanced(orders[k], history) {
    }
  }

  function ActiveAt(latencyUs: nat, timestamp: nat): nat {
    WrapU64(timestamp + WrapU64(latencyUs * 1000))
  }

  function NewOrder(id: nat, side: Side, price: int, quantity: int, activeAt: nat): Order {
    Order(id, side, price, quantity, quantity, activeAt)
  }

  datatype Quote = Quote(bidPrice: int, bidSize: I64, askPrice: int, askSize: I64)

  /** A quote becomes one order for each side with a positive size, the bid first. */
  function WithQuote(active: map<nat, Order>, next: nat, q: Quote, activeAt: nat): map<nat, Order> {
    var bid := NewOrder(next, Bid, q.bidPrice, q.bidSize, activeAt);
    var withBid := if q.bidSize > 0 then active[next := bid] else active;
    var askId := if q.bidSize > 0 then next + 1 else next;
    if q.askSize > 0 then withBid[askId := NewOrder(askId, Ask, q.askPrice, q.askSize, activeAt)] else withBid
  }

  /** The consecutive ids of the orders a quote becomes. */
  function QuoteIds(next: nat, q: Quote): seq<nat> {
    if q.bidSize > 0 then if q.askSize > 0 then [next, next + 1] else [next]
    else if q.askSize > 0 then [next] else []
  }

  class OrderBookSimulator {
    const latencyUs: nat
    const factor: real
    var nextOrderId: nat
    var activeOrders: map<nat, Order>
    var position: Holding
    var fills: seq<Execution>
    /** Fills already handed out, and the last state of orders no longer active. */
    ghost var drained: seq<Execution>
    ghost var retired: map<nat, Order>

    ghost function History(): seq<Execution>
      reads this
    {
      drained + fills
    }

    /** Every order ever placed. */
    ghost function Placed(): map<nat, Order>
      reads this
    {
      retired + activeOrders
    }

    ghost predicate Valid()
      reads this
    {
      0.0 <= factor <= 1.0 && Accounted(nextOrderId, activeOrders, retired, History(), position)
    }

    /** With i64 order quantities the position is always the net of all fills, drained or pending, modulo 2^64. */
    lemma PositionIsNet()
      requires Valid()
      ensures position.quantity == WrapI64(NetQuantity(Plain(History())))
    {
      forall i | 0 <= i < |History()| ensures FitsI64(History()[i].fill.quantity) {
        assert Justified(Placed(), History()[i]);
      }
      PositionIsNetOfHistory(History());
    }

    constructor (latencyUs: nat, factor: real)
      requires 0.0 <= factor <= 1.0
      ensures Valid() && History() == [] && Placed() == map[] && position == FLAT
      ensures this.latencyUs == latencyUs && this.factor == factor
    {
      this.latencyUs := latencyUs;
      this.factor := factor;
      nextOrderId := 1;
      activeOrders := map[];
      position := FLAT;
      fills := [];
      drained := [];
      retired := map[];
    }

    method DrainFills() returns (r: seq<Execution>)
      requires Valid()
      modifies this`fills, this`drained
      ensures Valid() && r == old(fills) && fills == []
      ensures drained == old(drained) + r && History() == old(History())
    {
      r := fills;
      drained := drained + fills;
      fills := [];
      assert History() == old(History());
    }

    method PlaceOrder(side: Side, price: int, quantity: I64, timestamp: nat) returns (id: nat)
      requires Valid()
      modifies this`nextOrderId, this`activeOrders
      ensures Valid()
      ensures id == old(nextOrderId) && nextOrderId == id + 1 && id !in old(Placed())
      ensures activeOrders
           == old(activeOrders)[id := NewOrder(id, side, price, quantity, ActiveAt(latencyUs, timestamp))]
    {
      id := nextOrderId;
      nextOrderId := nextOrderId + 1;
      var order := NewOrder(id, side, price, quantity, ActiveAt(latencyUs, timestamp));
      activeOrders := activeOrders[id := order];
      UpdateOnTheRight(retired, old(activeOrders), id, order);
      NewOrderReconciles(old(Placed()), History(), position, order);
    }

    method PlaceOrdersFromQuote(q: Quote, timestamp: nat) returns (ids: seq<nat>)
      requires Valid()
      modifies this`nextOrderId, this`activeOrders
      ensures Valid()
      ensures activeOrders == WithQuote(old(activeOrders), old(nextOrderId), q, ActiveAt(latencyUs, timestamp))
      ensures ids == QuoteIds(old(nextOrderId), q) && nextOrderId == old(nextOrderId) + |ids|
    {
      ids := [];
      if q.bidSize > 0 {
        var id := PlaceOrder(Bid, q.bidPrice, q.bidSize, timestamp);
        ids := [id];
      }
      if q.askSize > 0 {
        var id := PlaceOrder(Ask, q.askPrice, q.askSize, timestamp);
        ids := ids + [id];
      }
    }

    method CancelOrder(id: nat) returns (wasCancelled: bool)
      requires Valid()
      modifies this`activeOrders, this`retired
      ensures Valid() && wasCancelled == (id in old(activeOrders))
      ensures activeOrders == old(activeOrders) - {id} && Placed() == old(Placed())
    {
      wasCancelled := id in activeOrders;
      if wasCancelled {
        MoveToTheLeft(retired, activeOrders, id);
        retired := retired[id := activeOrders[id]];
      }
      activeOrders := activeOrders - {id};
      assert !wasCancelled ==> activeOrders == old(activeOrders);
    }

    method CancelAllOrders()
      requires Valid()
      modifies this`activeOrders, this`retired
      ensures Valid() && activeOrders == map[] && Placed() == old(Placed())
    {
      retired := retired + activeOrders;
      activeOrders := map[];
      assert Placed() == old(Placed());
    }

    /** The writes of one execution. */
    method Record(id: nat, after: Order, e: Execution)
      requires 0.0 <= factor <= 1.0
      requires Accounted(nextOrderId, activeOrders[id := after], retired, drained + (fills + [e]),
                         Filled(position, e.fill))
      modifies this`activeOrders, this`position, this`fills
      ensures Valid() && activeOrders == old(activeOrders)[id := after] && fills == old(fills) + [e]
    {
      fills := fills + [e];
      position := Filled(position, e.fill);
      activeOrders := activeOrders[id := after];
    }

    /** One pass of the matching loop over one order. */
    method TouchOrder(id: nat, m: Market) returns (done: bool)
      requires Valid() && id in activeOrders
      modifies this`activeOrders, this`position, this`fills
      ensures Valid()
      ensures activeOrders == old(activeOrders)[id := Touched(old(activeOrders)[id], m, factor)]
      ensures fills == if Executes(old(activeOrders)[id], m, factor)
                       then old(fills) + [ExecutionOf(old(activeOrders)[id], m, factor)] else old(fills)
      ensures done <==> Finishes(old(activeOrders)[id], m, factor)
    {
      var order := activeOrders[id];
      done := false;
      if Crosses(order, m) {
        var fillQuantity := FillQuantity(factor, order.remaining);
        if fillQuantity > 0 {
          var e := Execution(id, Fill(order.side, order.price, fillQuantity), m.timestamp);
          var remaining := order.remaining - fillQuantity;
          TouchKeepsAccounts(nextOrderId, activeOrders, retired, drained, fills, position, id, m, factor,
                             order.(remaining := remaining), e);
          Record(id, order.(remaining := remaining), e);
          done := remaining <= 0;
          return;
        }
      }
      UntouchedStays(activeOrders, id, m, factor);
    }

    /** The matching loop: every active order once, in any order of the map. */
    method MatchOrders(m: Market) returns (finished: set<nat>, ghost order: seq<nat>)
      requires Valid()
      modifies this`activeOrders, this`position, this`fills
      ensures Valid() && Enumerates(order, old(activeOrders).Keys)
      ensures activeOrders == AfterVisits(old(activeOrders), old(activeOrders).Keys, m, factor)
      ensures finished == FinishedAmong(old(activeOrders), old(activeOrders).Keys, m, factor)
      ensures fills == old(fills) + Executions(old(activeOrders), order, m, factor)
    {
      finished, order := {}, [];
      var todo := activeOrders.Keys;
      ghost var start, visited: set<nat> := activeOrders, {};
      ProgressStart(start, m, factor, fills);
      assert todo == start.Keys - visited;
      while todo != {}
        invariant Valid() && todo == start.Keys - visited
        invariant Progress(start, visited, order, m, factor, Pass(activeOrders, finished, old(fills), fills))
        decreases |todo|
      {
        if forall x :: x !in todo { assert false; }
        var id :| id in todo;
        ghost var before := Pass(activeOrders, finished, old(fills), fills);
        var done := TouchOrder(id, m);
        todo := todo - {id};
        if done {
          finished := finished + {id};
        }
        VisitOne(start, visited, order, id, m, factor, before);
        VisitMember(start.Keys, visited, id);
        visited, order := visited + {id}, order + [id];
      }
      AllVisited(start.Keys, visited);
    }

    /** Removal of the filled orders after the matching loop. */
    method Retire(finished: set<nat>)
      requires Valid()
      modifies this`activeOrders, this`retired
      ensures Valid() && activeOrders == old(activeOrders) - finished && Placed() == old(Placed())
    {
      var todo := finished;
      ghost var gone: set<nat> := {};
      assert activeOrders == activeOrders - {};
      while todo != {}
        invariant Valid() && todo == finished - gone && gone <= finished && Placed() == old(Placed())
        invariant activeOrders == old(activeOrders) - gone
        decreases |todo|
      {
        if forall x :: x !in todo { assert false; }
        var id :| id in todo;
        todo := todo - {id};
        var _ := CancelOrder(id);
        RemoveOne(old(activeOrders), gone, id);
        VisitMember(finished, gone, id);
        gone := gone + {id};
      }
      AllVisited(finished, gone);
    }

    /** Whatever order the map is iterated in, each active order is touched exactly once: `order` is
        the one taken. Filled orders leave the map, the others stay with what remains. */
    method UpdateMarketData(m: Market) returns (ghost order: seq<nat>)
      requires Valid()
      modifies this`activeOrders, this`position, this`fills, this`retired
      ensures Valid() && Placed().Keys == old(Placed()).Keys && Enumerates(order, old(activeOrders).Keys)
      ensures activeOrders == AfterUpdate(old(activeOrders), m, factor)
      ensures fills == old(fills) + Executions(old(activeOrders), order, m, factor)
    {
      var finished;
      finished, order := MatchOrders(m);
      Retire(finished);
    }
  }

  /** What the executions of one market update add to the position. */
  function NetOf(start: map<nat, Order>, order: seq<nat>, m: Market, factor: real): int
    requires forall i :: 0 <= i < |order| ==> order[i] in start
  {
    if order == [] then 0
    else
      var o := start[order[|order| - 1]];
      NetOf(start, order[..|order| - 1], m, factor)
      + if Executes(o, m, factor) then Signed(ExecutionOf(o, m, factor).fill) else 0
  }

  lemma {:induction false} NetOfExecutions(start: map<nat, Order>, order: seq<nat>, m: Market, factor: real)
    requires forall i :: 0 <= i < |order| ==> order[i] in start
    ensures NetQuantity(Plain(Executions(start, order, m, factor))) == NetOf(start, order, m, factor)
    decreases |order|
  {
    if order != [] {
      NetOfExecutions(start, order[..|order| - 1], m, factor);
      var o := start[order[|order| - 1]];
      var all := Executions(start, order, m, factor);
      if !Executes(o, m, factor) {
        assert all == Executions(start, order[..|order| - 1], m, factor);
      } else {
        assert all[..|all| - 1] == Executions(start, order[..|order| - 1], m, factor);
        var plain := Plain(all);
        assert plain[..|plain| - 1] == Plain(all[..|all| - 1]);
      }
    }
  }

  lemma {:induction false} NetOfWithout(start: map<nat, Order>, order: seq<nat>, i: nat, m: Market, factor: real)
    requires i < |order| && forall k :: 0 <= k < |order| ==> order[k] in start
    ensures NetOf(start, order, m, factor)
         == NetOf(start, order[..i] + order[i + 1..], m, factor) + NetOf(start, [order[i]], m, factor)
    decreases |order|
  {
    var n := |order| - 1;
    assert [order[i]][..0] == [];
    if i == n {
      assert order[..i] + order[i + 1..] == order[..n];
    } else {
      NetOfWithout(start, order[..n], i, m, factor);
      var rest := order[..i] + order[i + 1..];
      assert rest[..|rest| - 1] == order[..n][..i] + order[..n][i + 1..];
      assert rest[|rest| - 1] == order[n];
    }
  }

  lemma EnumeratesNothing(order: seq<nat>, ids: set<nat>)
    requires Enumerates([], ids) && Enumerates(order, ids)
    ensures order == []
  {
    var x := if |order| > 0 then order[0] else 0;
    assert |order| > 0 ==> x in ids;
  }

  lemma {:induction false} NetOfIgnoresOrder(start: map<nat, Order>, ids: set<nat>, a: seq<nat>, b: seq<nat>,
                                             m: Market, factor: real)
    requires ids <= start.Keys && Enumerates(a, ids) && Enumerates(b, ids)
    ensures NetOf(start, a, m, factor) == NetOf(start, b, m, factor)
    decreases |a|
  {
    if a == [] {
      EnumeratesNothing(b, ids);
    } else {
      var n := |a| - 1;
      assert a[n] in ids && a[n] in b;
      var i :| 0 <= i < |b| && b[i] == a[n];
      assert a[..n] + a[n + 1..] == a[..n];
      EnumeratesWithout(a, ids, n);
      EnumeratesWithout(b, ids, i);
      NetOfWithout(start, a, n, m, factor);
      NetOfWithout(start, b, i, m, factor);
      NetOfIgnoresOrder(start, ids - {a[n]}, a[..n], b[..i] + b[i + 1..], m, factor);
    }
  }

  /** Two iterations over the same orders change the position's quantity by the same amount. */
  lemma IterationOrderDoesNotMatter(start: map<nat, Order>, ids: set<nat>, a: seq<nat>, b: seq<nat>, m: Market,
                                    factor: real)
    requires ids <= start.Keys && Enumerates(a, ids) && Enumerates(b, ids)
    ensures NetQuantity(Plain(Executions(start, a, m, factor))) == NetQuantity(Plain(Executions(start, b, m, factor)))
  {
    NetOfExecutions(start, a, m, factor);
    NetOfExecutions(start, b, m, factor);
    NetOfIgnoresOrder(start, ids, a, b, m, factor);
  }

  lemma EnumeratesWithout(order: seq<nat>, ids: set<nat>, i: nat)
    requires Enumerates(order, ids) && i < |order|
    ensures Enumerates(order[..i] + order[i + 1..], ids - {order[i]})
  {
    var rest := order[..i] + order[i + 1..];
    forall id | id in ids - {order[i]} ensures id in rest {
      var k :| 0 <= k < |order| && order[k] == id;
      assert rest[if k < i then k else k - 1] == id;
    }
  }

  lemma {:induction false} PlainFits(history: seq<Execution>)
    requires forall i :: 0 <= i < |history| ==> FitsI64(history[i].fill.quantity)
    ensures forall i :: 0 <= i < |Plain(history)| ==> FitsI64(Plain(history)[i].quantity)
    decreases |history|
  {
    if history != [] {
      PlainFits(history[..|history| - 1]);
    }
  }

  /** The position a history builds is the net of all its executions, drained or not. */
  lemma {:induction false} PositionIsNetOfHistory(history: seq<Execution>)
    requires forall i :: 0 <= i < |history| ==> FitsI64(history[i].fill.quantity)
    ensures Replay(FLAT, Plain(history)).quantity == WrapI64(NetQuantity(Plain(history)))
  {
    PlainFits(history);
    QuantityIsSignedSum(FLAT, Plain(history));
  }

  // Orders that keep crossing.

  /** What remains of an order after `n` updates that cross it. */
  function RemainingAfter(remaining: int, factor: real, n: nat): int
    decreases n
  {
    if n == 0 then remaining
    else RemainingAfter(remaining - Max(0, FillQuantity(factor, remaining)), factor, n - 1)
  }

  /** One order through a sequence of market updates. */
  function TouchedBy(o: Order, ms: seq<Market>, factor: real): Order
    decreases |ms|
  {
    if ms == [] then o else TouchedBy(Touched(o, ms[0], factor), ms[1..], factor)
  }

  predicate AllCross(o: Order, ms: seq<Market>) {
    forall i :: 0 <= i < |ms| ==> Crosses(o, ms[i])
  }

  lemma {:induction false} RemainingOfTouched(o: Order, ms: seq<Market>, factor: real)
    requires AllCross(o, ms)
    ensures TouchedBy(o, ms, factor) == o.(remaining := RemainingAfter(o.remaining, factor, |ms|))
    decreases |ms|
  {
    if ms != [] {
      RemainingOfTouched(Touched(o, ms[0], factor), ms[1..], factor);
    }
  }

  function AfterUpdates(active: map<nat, Order>, ms: seq<Market>, factor: real): map<nat, Order>
    decreases |ms|
  {
    if ms == [] then active else AfterUpdates(AfterUpdate(active, ms[0], factor), ms[1..], factor)
  }

  lemma UpdateOfOrder(active: map<nat, Order>, m: Market, factor: real, id: nat)
    ensures id in AfterUpdate(active, m, factor) <==> id in active && !Finishes(active[id], m, factor)
    ensures id in AfterUpdate(active, m, factor) ==>
              AfterUpdate(active, m, factor)[id] == Touched(active[id], m, factor)
  {
  }

  lemma {:induction false} GoneForGood(active: map<nat, Order>, ms: seq<Market>, factor: real, id: nat)
    requires id !in active
    ensures id !in AfterUpdates(active, ms, factor)
    decreases |ms|
  {
    if ms != [] {
      UpdateOfOrder(active, ms[0], factor, id);
      GoneForGood(AfterUpdate(active, ms[0], factor), ms[1..], factor, id);
    }
  }

  lemma {:induction false} SurvivorIsTouched(active: map<nat, Order>, ms: seq<Market>, factor: real, id: nat)
    requires id in active && id in AfterUpdates(active, ms, factor)
    ensures AfterUpdates(active, ms, factor)[id] == TouchedBy(active[id], ms, factor)
    ensures active[id].remaining > 0 ==> TouchedBy(active[id], ms, factor).remaining > 0
    decreases |ms|
  {
    if ms != [] {
      UpdateOfOrder(active, ms[0], factor, id);
      if id !in AfterUpdate(active, ms[0], factor) {
        GoneForGood(AfterUpdate(active, ms[0], factor), ms[1..], factor, id);
      }
      SurvivorIsTouched(AfterUpdate(active, ms[0], factor), ms[1..], factor, id);
    }
  }

  lemma HalfIsFilled(factor: real, remaining: nat)
    requires factor >= 0.5
    ensures 2 * FillQuantity(factor, remaining) >= remaining
  {
    assert remaining as real * (factor - 0.5) >= 0.0;
    var x := remaining as real * factor;
    assert x >= remaining as real * 0.5;
    assert x + 0.5 >= ((remaining + 1) / 2) as real;
  }

  /** From a half upwards every crossing at least halves what remains. */
  lemma {:induction false} CompletesInLogarithmicallyManyUpdates(remaining: nat, factor: real, n: nat)
    requires 0.5 <= factor <= 1.0 && remaining < Pow2(n)
    ensures RemainingAfter(remaining, factor, n) == 0
    decreases n
  {
    if n > 0 {
      FillQuantityRange(factor, remaining);
      HalfIsFilled(factor, remaining);
      CompletesInLogarithmicallyManyUpdates(remaining - FillQuantity(factor, remaining), factor, n - 1);
    }
  }

  lemma {:induction false} FirstUpdates(active: map<nat, Order>, ms: seq<Market>, factor: real, n: nat)
    requires n <= |ms|
    ensures AfterUpdates(active, ms, factor) == AfterUpdates(AfterUpdates(active, ms[..n], factor), ms[n..], factor)
    decreases n
  {
    if n == 0 {
      assert ms[0..] == ms && ms[..0] == [];
    } else {
      FirstUpdates(AfterUpdate(active, ms[0], factor), ms[1..], factor, n - 1);
      assert ms[..n][1..] == ms[1..][..n - 1] && ms[1..][n - 1..] == ms[n..];
    }
  }

  /** With a factor of at least one half, an order of fewer than 2^n units that every update crosses has
      left the active orders after n updates, and stays away. */
  lemma CrossingOrderLeaves(active: map<nat, Order>, id: nat, ms: seq<Market>, factor: real, n: nat)
    requires 0.5 <= factor <= 1.0 && id in active && 0 < active[id].remaining < Pow2(n)
    requires n <= |ms| && AllCross(active[id], ms[..n])
    ensures id !in AfterUpdates(active, ms, factor)
  {
    var soFar := AfterUpdates(active, ms[..n], factor);
    if id in soFar {
      SurvivorIsTouched(active, ms[..n], factor, id);
      RemainingOfTouched(active[id], ms[..n], factor);
      CompletesInLogarithmicallyManyUpdates(active[id].remaining, factor, n);
    }
    FirstUpdates(active, ms, factor, n);
    GoneForGood(soFar, ms[n..], factor, id);
  }

  /** Below one half the last unit of an order is never filled, so the order never leaves. */
  lemma {:induction false} LastUnitStuck(active: map<nat, Order>, id: nat, ms: seq<Market>, factor: real)
    requires 0.0 <= factor < 0.5 && id in active && active[id].remaining == 1
    ensures id in AfterUpdates(active, ms, factor) && AfterUpdates(active, ms, factor)[id] == active[id]
    decreases |ms|
  {
    if ms != [] {
      assert FillQuantity(factor, 1) == 0;
      UpdateOfOrder(active, ms[0], factor, id);
      LastUnitStuck(AfterUpdate(active, ms[0], factor), id, ms[1..], factor);
    }
  }

  /** An order placed without a positive quantity is never filled, so it stays until it is cancelled. */
  lemma {:induction false} EmptyOrderStays(active: map<nat, Order>, id: nat, ms: seq<Market>, factor: real)
    requires 0.0 <= factor <= 1.0 && id in active && active[id].remaining <= 0
    ensures id in AfterUpdates(active, ms, factor) && AfterUpdates(active, ms, factor)[id] == active[id]
    decreases |ms|
  {
    if ms != [] {
      FillQuantityRange(factor, active[id].remaining);
      UpdateOfOrder(active, ms[0], factor, id);
      EmptyOrderStays(AfterUpdate(active, ms[0], factor), id, ms[1..], factor);
    }
  }

  lemma {:induction false} BelowPow2(r: nat)
    ensures r < Pow2(r)
  {
    if r > 0 {
      BelowPow2(r - 1);
    }
  }

  /** After some number of updates that all cross it, the order is gone, whatever the updates were. */
  ghost predicate LeavesWithin(active: map<nat, Order>, id: nat, factor: real, n: nat)
    requires id in active
  {
    forall ms: seq<Market> :: n <= |ms| && AllCross(active[id], ms) ==> id !in AfterUpdates(active, ms, factor)
  }

  ghost predicate EveryCrossingOrderLeaves(factor: real) {
    forall active: map<nat, Order>, id: nat | id in active && active[id].remaining > 0 ::
      exists n: nat :: LeavesWithin(active, id, factor, n)
  }

  /** A market whose last trade is at the order's own price, once the order is active. */
  function AtPrice(o: Order): Market {
    Market(None, None, Some(o.price), o.activeAt)
  }

  lemma OneUnitOrderStays(factor: real, active: map<nat, Order>, id: nat, n: nat)
    requires 0.0 <= factor < 0.5 && id in active && active[id].remaining == 1
    ensures !LeavesWithin(active, id, factor, n)
  {
    var ms := seq(n, _ => AtPrice(active[id]));
    assert AllCross(active[id], ms);
    LastUnitStuck(active, id, ms, factor);
  }

  /** Every order with something left that keeps crossing leaves the simulator's active orders after
      finitely many updates exactly when the fill factor is at least one half. */
  lemma CompletionCondition(factor: real)
    requires 0.0 <= factor <= 1.0
    ensures EveryCrossingOrderLeaves(factor) <==> factor >= 0.5
  {
    if factor >= 0.5 {
      forall active: map<nat, Order>, id: nat | id in active && active[id].remaining > 0
        ensures exists n: nat :: LeavesWithin(active, id, factor, n)
      {
        var n: nat := active[id].remaining;
        BelowPow2(n);
        forall ms: seq<Market> | n <= |ms| && AllCross(active[id], ms)
          ensures id !in AfterUpdates(active, ms, factor)
        {
          CrossingOrderLeaves(active, id, ms, factor, n);
        }
        assert LeavesWithin(active, id, factor, n);
      }
    } else {
      var o := Order(1, Bid, 0, 1, 1, 0);
      var active := map[1 := o];
      forall n: nat ensures !LeavesWithin(active, 1, factor, n) {
        OneUnitOrderStays(factor, active, 1, n);
      }
      assert 1 in active && active[1].remaining > 0;
      assert !exists n: nat :: LeavesWithin(active, 1, factor, n);
    }
  }

  // Which market fills which order, in prices.

  lemma {:induction false} ExecutionHasOrder(start: map<nat, Order>, order: seq<nat>, m: Market, factor: real, i: nat)
    returns (id: nat)
    requires (forall k :: 0 <= k < |order| ==> order[k] in start) && i < |Executions(start, order, m, factor)|
    ensures id in order && Executes(start[id], m, factor)
    ensures Executions(start, order, m, factor)[i] == ExecutionOf(start[id], m, factor)
    decreases |order|
  {
    var n := |order| - 1;
    var before := Executions(start, order[..n], m, factor);
    if i < |before| {
      id := ExecutionHasOrder(start, order[..n], m, factor, i);
    } else {
      id := order[n];
    }
  }

  /** Every execution of an update is at a price the market reached: a bid no lower, an ask no higher than the last
      trade, or, without one, than the best price on the other side; and it bears the time of the update. */
  lemma ExecutedAtReachedPrice(start: map<nat, Order>, order: seq<nat>, m: Market, factor: real, i: nat)
    requires (forall k :: 0 <= k < |order| ==> order[k] in start) && i < |Executions(start, order, m, factor)|
    ensures var e := Executions(start, order, m, factor)[i];
      && e.timestamp == m.timestamp
      && match (e.fill.side, m.lastTrade)
         case (Bid, Some(trade)) => trade <= e.fill.price
         case (Ask, Some(trade)) => trade >= e.fill.price
         case (Bid, None) => m.bestAsk.Some? && m.bestAsk.value <= e.fill.price
         case (Ask, None) => m.bestBid.Some? && m.bestBid.value >= e.fill.price
  {
    var id := ExecutionHasOrder(start, order, m, factor, i);
  }

  /** Conversely an order that is active, whose price the market reached and half a unit or more of which is due,
      is executed, once, for the nearest whole number of units to the fraction due, at its own price. */
  lemma ReachedOrderExecutes(start: map<nat, Order>, order: seq<nat>, ids: set<nat>, m: Market, factor: real, id: nat)
    requires ids <= start.Keys && Enumerates(order, ids) && id in ids && start[id].id == id
    requires start[id].activeAt <= m.timestamp && start[id].remaining as real * factor >= 0.5
    requires match (start[id].side, m.lastTrade)
             case (Bid, Some(trade)) => trade <= start[id].price
             case (Ask, Some(trade)) => trade >= start[id].price
             case (Bid, None) => m.bestAsk.Some? && m.bestAsk.value <= start[id].price
             case (Ask, None) => m.bestBid.Some? && m.bestBid.value >= start[id].price
    ensures exists i :: 0 <= i < |Executions(start, order, m, factor)| &&
              var e := Executions(start, order, m, factor)[i];
              && e.orderId == id && e.fill.side == start[id].side && e.fill.price == start[id].price
              && -0.5 <= e.fill.quantity as real - start[id].remaining as real * factor <= 0.5
  {
    RoundsToNearest(start[id].remaining as real * factor);
    var k :| 0 <= k < |order| && order[k] == id;
    var i := ExecutedAtPosition(start, order, m, factor, k);
  }

  lemma {:induction false} ExecutedAtPosition(start: map<nat, Order>, order: seq<nat>, m: Market, factor: real, k: nat)
    returns (i: nat)
    requires (forall j :: 0 <= j < |order| ==> order[j] in start) && k < |order| && Executes(start[order[k]], m, factor)
    ensures i < |Executions(start, order, m, factor)|
    ensures Executions(start, order, m, factor)[i] == ExecutionOf(start[order[k]], m, factor)
    decreases |order|
  {
    var n := |order| - 1;
    if k == n {
      i := |Executions(start, order[..n], m, factor)|;
    } else {
      i := ExecutedAtPosition(start, order[..n], m, factor, k);
    }
  }

  /** An order that is not active yet, or whose price the market has not reached, is left as it is. */
  lemma UnreachedOrderStays(o: Order, m: Market, factor: real)
    requires m.timestamp < o.activeAt ||
             match (o.side, m.lastTrade)
             case (Bid, Some(trade)) => trade > o.price
             case (Ask, Some(trade)) => trade < o.price
             case (Bid, None) => m.bestAsk.None? || m.bestAsk.value > o.price
             case (Ask, None) => m.bestBid.None? || m.bestBid.value < o.price
    ensures Touched(o, m, factor) == o
  {
  }

  /** The latency in microseconds is what passes, in nanoseconds, before an order can be filled. */
  lemma ActiveAfterLatency(id: nat, side: Side, price: int, quantity: int, latencyUs: nat, placed: nat)
    requires placed + 1000 * latencyUs < 18_446_744_073_709_551_616
    ensures var o := NewOrder(id, side, price, quantity, ActiveAt(latencyUs, placed));
      && o.activeAt == placed + 1000 * latencyUs
      && o.id == id && o.side == side && o.price == price && o.remaining == o.original == quantity
  {
    SmallMod(latencyUs * 1000, TWO_64);
    SmallMod(placed + latencyUs * 1000, TWO_64);
  }

  /** A quote is placed as a bid at its bid price and size and an ask at its ask price and size, each only if its size
      is positive, and leaves the other orders alone. */
  lemma QuoteBecomesOrders(active: map<nat, Order>, next: nat, q: Quote, activeAt: nat)
    requires forall id :: id in active ==> id < next
    ensures var after, ids := WithQuote(active, next, q, activeAt), QuoteIds(next, q);
      && (forall id :: id in after <==> id in active || id in ids)
      && (forall id :: id in active ==> after[id] == active[id])
      && (forall id :: id in ids ==> after[id].id == id && after[id].activeAt == activeAt && 0 < after[id].remaining)
      && (forall id :: id in ids && after[id].side == Bid ==>
            q.bidSize > 0 && after[id].price == q.bidPrice && after[id].remaining == q.bidSize)
      && (forall id :: id in ids && after[id].side == Ask ==>
            q.askSize > 0 && after[id].price == q.askPrice && after[id].remaining == q.askSize)
      && (q.bidSize > 0 <==> exists id :: id in ids && after[id].side == Bid)
      && (q.askSize > 0 <==> exists id :: id in ids && after[id].side == Ask)
  {
    var after, ids := WithQuote(active, next, q, activeAt), QuoteIds(next, q);
    if q.bidSize > 0 {
      assert next in ids && after[next].side == Bid;
    }
    if q.askSize > 0 {
      var askId := if q.bidSize > 0 then next + 1 else next;
      assert askId in ids && after[askId].side == Ask;
    }
  }
}

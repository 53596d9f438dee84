/** The local replica of an exchange's book, kept by the message loop of the strategy and of the
    simulator, against the exchange's own book. */
module Replica {
  import opened RustInt
  import opened OrderBook
  import opened OrderbookSync
  import opened Wrappers

  /** The exchange side: update `i` of the log (counted from 1) writes one absolute quantity. */
  datatype Write = Write(side: Side, price: int, quantity: int)

  /** Event `k` reports the updates after `cuts[k]` up to and including `cuts[k + 1]`. */
  datatype Exchange = Exchange(log: seq<Write>, cuts: seq<nat>, events: seq<Batch>)

  datatype Snapshot = Snapshot(bids: seq<Level>, asks: seq<Level>, lastId: nat)

  /** The exchange's own book after its first `n` updates. */
  function BookAt(log: seq<Write>, side: Side, n: nat): Levels
    requires n <= |log|
  {
    if n == 0 then map[]
    else if log[n - 1].side == side then Written(BookAt(log, side, n - 1), log[n - 1].price, log[n - 1].quantity)
    else BookAt(log, side, n - 1)
  }

  function Quantity(m: Levels, price: int): int {
    if price in m then m[price] else 0
  }

  /** Every level of the event carries the quantity the exchange has at `to`, and every price written
      after `from` up to `to` is among them. */
  predicate Summarises(log: seq<Write>, side: Side, levels: seq<Level>, from: nat, to: nat)
    requires from <= to <= |log|
  {
    && (forall i :: 0 <= i < |levels| ==> levels[i].size == Quantity(BookAt(log, side, to), levels[i].price))
    && (forall w :: from <= w < to && log[w].side == side ==> Mentions(levels, log[w].price))
  }

  predicate Mentions(levels: seq<Level>, price: int) {
    exists i :: 0 <= i < |levels| && levels[i].price == price
  }

  ghost predicate ValidExchange(x: Exchange) {
    && |x.cuts| == |x.events| + 1
    && (forall k :: 0 <= k < |x.cuts| ==> x.cuts[k] <= |x.log|)
    && (forall j, k :: 0 <= j < k < |x.cuts| ==> x.cuts[j] < x.cuts[k])
    && (forall i :: 0 <= i < |x.log| ==> x.log[i].price > 0)
    && (forall k :: 0 <= k < |x.events| ==> ValidEvent(x, k))
  }

  ghost predicate ValidEvent(x: Exchange, k: nat)
    requires k < |x.events| && |x.cuts| == |x.events| + 1
  {
    && x.cuts[k] < x.cuts[k + 1] <= |x.log|
    && x.events[k].firstId == x.cuts[k] + 1 && x.events[k].finalId == x.cuts[k + 1] && x.events[k].prevId == x.cuts[k]
    && Summarises(x.log, Bid, x.events[k].bids, x.cuts[k], x.cuts[k + 1])
    && Summarises(x.log, Ask, x.events[k].asks, x.cuts[k], x.cuts[k + 1])
  }

  /** Snapshot levels are written as they come, without the positive-price filter. */
  function Loaded(levels: seq<Level>): Levels {
    if levels == [] then map[]
    else
      var last := levels[|levels| - 1];
      Written(Loaded(levels[..|levels| - 1]), last.price, last.size)
  }

  predicate CompleteSnapshot(x: Exchange, s: Snapshot) {
    && s.lastId <= |x.log|
    && Loaded(s.bids) == BookAt(x.log, Bid, s.lastId) && Loaded(s.asks) == BookAt(x.log, Ask, s.lastId)
  }

  /** What is fetched in practice: the best `depth` levels of each side. */
  ghost predicate DepthSnapshot(x: Exchange, s: Snapshot, depth: nat) {
    && s.lastId <= |x.log|
    && KeepsBest(Bid, Loaded(s.bids), BookAt(x.log, Bid, s.lastId), depth)
    && KeepsBest(Ask, Loaded(s.asks), BookAt(x.log, Ask, s.lastId), depth)
  }

  datatype Local = Local(bids: Levels, asks: Levels, sync: Sync)

  function FromSnapshot(s: Snapshot): Local {
    Local(Loaded(s.bids), Loaded(s.asks), FreshSync(s.lastId))
  }

  /** One batch through the message loop; `fetch` is what a snapshot request would return. */
  function OnBatch(r: Local, b: Batch, now: nat, fetch: Option<Snapshot>): Local {
    var (s, process) := Filtered(r.sync, b);
    if process then Local(Applied(r.bids, b.bids), Applied(r.asks, b.asks), s)
    else
      var (s', resync) := Resync(s, now);
      if resync && fetch.Some? then FromSnapshot(fetch.value) else r.(sync := s')
  }

  /** The message loop's variables. */
  class Node {
    var book: Book
    var sync: SyncState

    function Abstract(): Local
      reads this, book, sync
    {
      Local(book.bids, book.asks, sync.Abstract())
    }

    constructor (snapshot: Snapshot)
      ensures Abstract() == FromSnapshot(snapshot) && fresh(book) && fresh(sync)
    {
      book := new Book(50);
      sync := new SyncState(snapshot.lastId);
      new;
      Load(book, snapshot);
    }

    method HandleBatch(b: Batch, now: nat, fetch: Option<Snapshot>)
      modifies this, book, sync
      ensures Abstract() == OnBatch(old(Abstract()), b, now, fetch)
      ensures (book == old(book) || fresh(book)) && (sync == old(sync) || fresh(sync))
    {
      var process := sync.ShouldProcessUpdate(b);
      if process {
        book.ApplyBatch(b);
        return;
      }
      var resync := sync.ShouldResync(now);
      if resync && fetch.Some? {
        var newBook := new Book(50);
        Load(newBook, fetch.value);
        book := newBook;
        sync := new SyncState(fetch.value.lastId);
      }
    }
  }

  method Load(book: Book, s: Snapshot)
    requires book.bids == map[] && book.asks == map[]
    modifies book
    ensures book.bids == Loaded(s.bids) && book.asks == Loaded(s.asks)
  {
    for i := 0 to |s.bids|
      invariant book.bids == Loaded(s.bids[..i]) && book.asks == map[]
    {
      assert s.bids[..i + 1][..i] == s.bids[..i];
      book.UpdateBid(s.bids[i].price, s.bids[i].size);
    }
    assert s.bids[..|s.bids|] == s.bids;
    for i := 0 to |s.asks|
      invariant book.bids == Loaded(s.bids) && book.asks == Loaded(s.asks[..i])
    {
      assert s.asks[..i + 1][..i] == s.asks[..i];
      book.UpdateAsk(s.asks[i].price, s.asks[i].size);
    }
    assert s.asks[..|s.asks|] == s.asks;
  }

  lemma {:induction false} AppliedQuantity(m: Levels, levels: seq<Level>, price: int, quantity: int)
    requires price > 0
    requires forall i :: 0 <= i < |levels| && levels[i].price == price ==> levels[i].size == quantity
    ensures Quantity(Applied(m, levels), price) == if Mentions(levels, price) then quantity else Quantity(m, price)
    decreases |levels|
  {
    if levels != [] {
      var n := |levels| - 1;
      var before := levels[..n];
      AppliedQuantity(m, before, price, quantity);
      if Mentions(before, price) {
        var i :| 0 <= i < |before| && before[i].price == price;
        assert levels[i].price == price;
      }
      if levels[n].price != price && Mentions(levels, price) {
        var i :| 0 <= i < |levels| && levels[i].price == price;
        assert before[i].price == price;
      }
    }
  }

  /** A level book: positive prices, no stored zero. */
  predicate Proper(m: Levels) {
    forall p :: p in m ==> p > 0 && m[p] != 0
  }

  lemma {:induction false} AppliedProper(m: Levels, levels: seq<Level>)
    requires Proper(m)
    ensures Proper(Applied(m, levels))
    decreases |levels|
  {
    if levels != [] {
      AppliedProper(m, levels[..|levels| - 1]);
    }
  }

  lemma {:induction false} BookProper(log: seq<Write>, side: Side, n: nat)
    requires n <= |log| && forall i :: 0 <= i < |log| ==> log[i].price > 0
    ensures Proper(BookAt(log, side, n))
  {
    if n > 0 {
      BookProper(log, side, n - 1);
    }
  }

  lemma SameQuantitiesSameBook(a: Levels, b: Levels)
    requires Proper(a) && Proper(b)
    requires forall p :: p > 0 ==> Quantity(a, p) == Quantity(b, p)
    ensures a == b
  {
    forall p | p in a ensures p in b && a[p] == b[p] { assert Quantity(a, p) == Quantity(b, p); }
    forall p | p in b ensures p in a { assert Quantity(a, p) == Quantity(b, p); }
  }

  lemma {:induction false} UnwrittenPriceStays(log: seq<Write>, side: Side, price: int, at: nat, end: nat)
    requires at <= end <= |log|
    requires forall w :: at <= w < end && log[w].side == side ==> log[w].price != price
    ensures Quantity(BookAt(log, side, end), price) == Quantity(BookAt(log, side, at), price)
    decreases end
  {
    if at < end {
      UnwrittenPriceStays(log, side, price, at, end - 1);
      assert log[end - 1].side == side ==> log[end - 1].price != price;
    }
  }

  /** Absolute quantities make an overlap harmless: the event brings any book of its range to its end. */
  lemma SummaryCatchesUp(log: seq<Write>, side: Side, levels: seq<Level>, from: nat, at: nat, to: nat)
    requires from <= at <= to <= |log|
    requires Summarises(log, side, levels, from, to)
    requires forall i :: 0 <= i < |log| ==> log[i].price > 0
    ensures Applied(BookAt(log, side, at), levels) == BookAt(log, side, to)
  {
    BookProper(log, side, at);
    BookProper(log, side, to);
    AppliedProper(BookAt(log, side, at), levels);
    forall p | p > 0
      ensures Quantity(Applied(BookAt(log, side, at), levels), p) == Quantity(BookAt(log, side, to), p)
    {
      AppliedQuantity(BookAt(log, side, at), levels, p, Quantity(BookAt(log, side, to), p));
      if !Mentions(levels, p) {
        UnwrittenPriceStays(log, side, p, at, to);
      }
    }
    SameQuantitiesSameBook(Applied(BookAt(log, side, at), levels), BookAt(log, side, to));
  }

  /** The update id whose book the replica shows. */
  function Version(s: Sync): nat {
    if s.lastId == 0 then s.snapshotId else s.lastId
  }

  predicate Agrees(x: Exchange, r: Local) {
    && Version(r.sync) <= |x.log|
    && r.bids == BookAt(x.log, Bid, Version(r.sync)) && r.asks == BookAt(x.log, Ask, Version(r.sync))
  }

  /** The filter's ids are consistent with the events so far; `next` is the first that may still arrive. */
  ghost predicate InStep(x: Exchange, sync: Sync, next: nat)
    requires ValidExchange(x)
  {
    && next < |x.cuts|
    && Version(sync) <= |x.log|
    && (sync.synced ==> sync.lastId != 0)
    && (sync.lastId != 0 ==> sync.snapshotId <= sync.lastId <= x.cuts[next])
  }

  lemma LaterCut(x: Exchange, j: nat, k: nat)
    requires ValidExchange(x) && j <= k < |x.cuts|
    ensures x.cuts[j] <= x.cuts[k]
  {
  }

  /** An accepted event starts no later than the version shown and brings it to the event's end. */
  lemma AcceptedEventStraddles(x: Exchange, sync: Sync, next: nat, k: nat)
    requires ValidExchange(x) && InStep(x, sync, next) && next <= k < |x.events|
    requires Filtered(sync, x.events[k]).1
    ensures x.cuts[k] <= Version(sync) <= x.cuts[k + 1] == Version(Filtered(sync, x.events[k]).0)
    ensures InStep(x, Filtered(sync, x.events[k]).0, k + 1)
  {
    assert ValidEvent(x, k);
    LaterCut(x, next, k);
  }

  lemma StepKeepsInStep(x: Exchange, r: Local, next: nat, k: nat, now: nat, fetch: Option<Snapshot>)
    requires ValidExchange(x) && InStep(x, r.sync, next) && next <= k < |x.events|
    requires fetch.Some? ==> fetch.value.lastId <= |x.log|
    ensures InStep(x, OnBatch(r, x.events[k], now, fetch).sync, k + 1)
  {
    assert ValidEvent(x, k);
    LaterCut(x, next, k + 1);
    if Filtered(r.sync, x.events[k]).1 {
      AcceptedEventStraddles(x, r.sync, next, k);
    }
  }

  /** Event `index` arrives at `now`; events may be missing but never repeat or overtake. */
  datatype Delivery = Delivery(index: nat, now: nat, fetch: Option<Snapshot>)

  /** Drops only: events come in order, and any snapshot fetched is of the log. */
  ghost predicate ValidDeliveries(x: Exchange, ds: seq<Delivery>, next: nat) {
    forall i :: 0 <= i < |ds| ==>
      && next <= ds[i].index < |x.events|
      && (ds[i].fetch.Some? ==> ds[i].fetch.value.lastId <= |x.log|)
      && (forall j :: 0 <= j < i ==> ds[j].index < ds[i].index)
  }

  function Exec(x: Exchange, r: Local, ds: seq<Delivery>): Local
    requires forall i :: 0 <= i < |ds| ==> ds[i].index < |x.events|
    decreases |ds|
  {
    if ds == [] then r
    else Exec(x, OnBatch(r, x.events[ds[0].index], ds[0].now, ds[0].fetch), ds[1..])
  }

  /** A waiting replica synchronises on exactly the event whose range contains the snapshot id. */
  lemma SynchronisesOnStraddlingEvent(x: Exchange, s: Snapshot, k: nat)
    requires ValidExchange(x) && k < |x.events|
    ensures Filtered(FreshSync(s.lastId), x.events[k]).1 <==> x.cuts[k] < s.lastId <= x.cuts[k + 1]
  {
    assert ValidEvent(x, k);
  }

  /** The replica has lost an event since it synchronised. */
  predicate Desynced(r: Local) {
    !r.sync.synced && r.sync.lastId != 0
  }

  /** A missing event is noticed at the next one, which is not applied. */
  lemma GapIsNoticed(x: Exchange, r: Local, next: nat, k: nat, now: nat)
    requires ValidExchange(x) && InStep(x, r.sync, next) && next <= k < |x.events| && r.sync.synced
    ensures OnBatch(r, x.events[k], now, None).sync.synced <==> r.sync.lastId == x.cuts[k]
    ensures r.sync.lastId != x.cuts[k] ==> Desynced(OnBatch(r, x.events[k], now, None))
  {
    assert ValidEvent(x, k);
    LaterCut(x, next, k);
  }

  /** After a gap no delivery changes the book until a snapshot replaces it. */
  lemma {:induction false} NothingAppliesAfterGap(x: Exchange, r: Local, next: nat, ds: seq<Delivery>)
    requires ValidExchange(x) && InStep(x, r.sync, next) && ValidDeliveries(x, ds, next) && Desynced(r)
    requires forall i :: 0 <= i < |ds| ==> ds[i].fetch.None?
    ensures var r' := Exec(x, r, ds);
            Desynced(r') && r'.bids == r.bids && r'.asks == r.asks && r'.sync.lastId == r.sync.lastId
    decreases |ds|
  {
    if ds != [] {
      var d := ds[0];
      assert ValidEvent(x, d.index);
      LaterCut(x, next, d.index);
      StepKeepsInStep(x, r, next, d.index, d.now, d.fetch);
      NothingAppliesAfterGap(x, OnBatch(r, x.events[d.index], d.now, d.fetch), d.index + 1, ds[1..]);
    }
  }

  // Recovery.

  /** The delivery is not applied when it arrives. */
  predicate Skipped(x: Exchange, r: Local, d: Delivery)
    requires d.index < |x.events|
  {
    !Filtered(r.sync, x.events[d.index]).1
  }

  /** The message loop rebuilds exactly on a skipped delivery that is the 20th or a later one in a row, no sooner
      than 30 seconds after the last attempt, and only if a snapshot could be fetched. */
  lemma RebuildsExactly(x: Exchange, r: Local, d: Delivery)
    requires d.index < |x.events| && Skipped(x, r, d)
    ensures var r' := OnBatch(r, x.events[d.index], d.now, d.fetch);
      var asks := r.sync.skipped >= 19 &&
                  (r.sync.lastAttempt.Some? ==> d.now >= r.sync.lastAttempt.value + 30_000_000_000);
      if asks && d.fetch.Some? then r' == FromSnapshot(d.fetch.value)
      else r'.bids == r.bids && r'.asks == r.asks && !r'.sync.synced && r'.sync.skipped == r.sync.skipped + 1
           && r'.sync.lastAttempt == (if asks then Some(d.now) else r.sync.lastAttempt)
  {
    SkipIsCounted(r.sync, x.events[d.index]);
    ResyncsExactly(Filtered(r.sync, x.events[d.index]).0, d.now);
  }

  /** Up to 19 skipped deliveries only count; nothing is attempted and the book stays. */
  lemma {:induction false} SkippedStretch(x: Exchange, r: Local, next: nat, ds: seq<Delivery>)
    requires ValidExchange(x) && InStep(x, r.sync, next) && ValidDeliveries(x, ds, next) && Desynced(r)
    requires r.sync.skipped + |ds| <= 19
    ensures var r' := Exec(x, r, ds);
      && Desynced(r') && r'.bids == r.bids && r'.asks == r.asks
      && r'.sync.skipped == r.sync.skipped + |ds| && r'.sync.lastAttempt == r.sync.lastAttempt
      && InStep(x, r'.sync, if ds == [] then next else ds[|ds| - 1].index + 1)
    decreases |ds|
  {
    if ds != [] {
      var d := ds[0];
      assert ValidEvent(x, d.index);
      LaterCut(x, next, d.index);
      RebuildsExactly(x, r, d);
      StepKeepsInStep(x, r, next, d.index, d.now, d.fetch);
      SkippedStretch(x, OnBatch(r, x.events[d.index], d.now, d.fetch), d.index + 1, ds[1..]);
    }
  }

  lemma AfterGap(x: Exchange, r: Local, next: nat, d: Delivery) returns (r': Local)
    requires ValidExchange(x) && InStep(x, r.sync, next) && next <= d.index < |x.events|
    requires d.fetch.Some? ==> d.fetch.value.lastId <= |x.log|
    requires r.sync.synced && r.sync.skipped == 0 && r.sync.lastId != x.cuts[d.index]
    ensures r' == OnBatch(r, x.events[d.index], d.now, d.fetch)
    ensures Desynced(r') && r'.bids == r.bids && r'.asks == r.asks && InStep(x, r'.sync, d.index + 1)
    ensures r'.sync.skipped == 1 && r'.sync.lastAttempt == r.sync.lastAttempt
  {
    r' := OnBatch(r, x.events[d.index], d.now, d.fetch);
    assert ValidEvent(x, d.index);
    LaterCut(x, next, d.index);
    RebuildsExactly(x, r, d);
    StepKeepsInStep(x, r, next, d.index, d.now, d.fetch);
  }

  lemma TwentiethSkipRebuilds(x: Exchange, r: Local, next: nat, d: Delivery)
    requires ValidExchange(x) && InStep(x, r.sync, next) && next <= d.index < |x.events|
    requires Desynced(r) && r.sync.skipped == 19 && d.fetch.Some?
    requires r.sync.lastAttempt.Some? ==> d.now >= r.sync.lastAttempt.value + 30_000_000_000
    ensures OnBatch(r, x.events[d.index], d.now, d.fetch) == FromSnapshot(d.fetch.value)
  {
    assert ValidEvent(x, d.index);
    LaterCut(x, next, d.index);
    RebuildsExactly(x, r, d);
  }

  /** The delivery that makes it 20 rebuilds the book. */
  lemma {:induction false} StretchRebuilds(x: Exchange, r: Local, next: nat, ds: seq<Delivery>)
    requires ValidExchange(x) && InStep(x, r.sync, next) && ValidDeliveries(x, ds, next) && Desynced(r)
    requires ds != [] && r.sync.skipped + |ds| == 20 && ds[|ds| - 1].fetch.Some?
    requires r.sync.lastAttempt.Some? ==> ds[|ds| - 1].now >= r.sync.lastAttempt.value + 30_000_000_000
    ensures Exec(x, r, ds) == FromSnapshot(ds[|ds| - 1].fetch.value)
    decreases |ds|
  {
    var d := ds[0];
    var r' := OnBatch(r, x.events[d.index], d.now, d.fetch);
    assert Exec(x, r, ds) == Exec(x, r', ds[1..]);
    if |ds| == 1 {
      TwentiethSkipRebuilds(x, r, next, d);
    } else {
      assert ValidEvent(x, d.index);
      LaterCut(x, next, d.index);
      RebuildsExactly(x, r, d);
      StepKeepsInStep(x, r, next, d.index, d.now, d.fetch);
      StretchRebuilds(x, r', d.index + 1, ds[1..]);
    }
  }

  /** A synchronised replica that loses an event recovers: the 20th event after the gap rebuilds it from the snapshot
      fetched then, unless an attempt was made in the 30 seconds before. */
  lemma RecoversAfterGap(x: Exchange, r: Local, next: nat, ds: seq<Delivery>)
    requires ValidExchange(x) && InStep(x, r.sync, next) && ValidDeliveries(x, ds, next) && |ds| == 20
    requires r.sync.synced && r.sync.skipped == 0 && r.sync.lastId != x.cuts[ds[0].index]
    requires ds[19].fetch.Some?
    requires r.sync.lastAttempt.Some? ==> ds[19].now >= r.sync.lastAttempt.value + 30_000_000_000
    ensures Exec(x, r, ds) == FromSnapshot(ds[19].fetch.value)
  {
    var r1 := AfterGap(x, r, next, ds[0]);
    StretchRebuilds(x, r1, ds[0].index + 1, ds[1..]);
  }

  // What the replica knows: a snapshot of the best levels says nothing about prices behind them.

  /** The prices a snapshot settles: all those it lists, all better than one it lists, and every price
      when it holds fewer levels than it could. */
  ghost function Settled(side: Side, listed: Levels, depth: nat): iset<int> {
    iset p: int | p in listed || |listed| < depth || exists k :: k in listed && Better(side, p, k)
  }

  ghost function Mentioned(levels: seq<Level>): iset<int> {
    iset p: int | Mentions(levels, p)
  }

  /** The replica with the prices of each side that the last snapshot or an event since has settled. */
  datatype Informed = Informed(replica: Local, bids: iset<int>, asks: iset<int>)

  ghost function InformedBy(s: Snapshot, depth: nat): Informed {
    Informed(FromSnapshot(s), Settled(Bid, Loaded(s.bids), depth), Settled(Ask, Loaded(s.asks), depth))
  }

  ghost function OnBatchInformed(i: Informed, b: Batch, now: nat, fetch: Option<Snapshot>, depth: nat): Informed {
    var (s, process) := Filtered(i.replica.sync, b);
    if process then Informed(OnBatch(i.replica, b, now, fetch), i.bids + Mentioned(b.bids), i.asks + Mentioned(b.asks))
    else if Resync(s, now).1 && fetch.Some? then InformedBy(fetch.value, depth)
    else i.(replica := OnBatch(i.replica, b, now, fetch))
  }

  ghost function ExecInformed(x: Exchange, i: Informed, ds: seq<Delivery>, depth: nat): Informed
    requires forall i :: 0 <= i < |ds| ==> ds[i].index < |x.events|
    decreases |ds|
  {
    if ds == [] then i
    else ExecInformed(x, OnBatchInformed(i, x.events[ds[0].index], ds[0].now, ds[0].fetch, depth), ds[1..], depth)
  }

  /** `m` is exactly the part of the book `whole` at the prices in `known`. */
  ghost predicate PartOf(m: Levels, whole: Levels, known: iset<int>) {
    && SubBook(m, whole)
    && forall p :: p in known ==> Quantity(m, p) == Quantity(whole, p)
  }

  lemma SnapshotIsPart(side: Side, listed: Levels, whole: Levels, depth: nat)
    requires KeepsBest(side, listed, whole, depth)
    ensures PartOf(listed, whole, Settled(side, listed, depth))
  {
    if |listed| < depth {
      KeepsBestUnique(side, listed, whole, whole, depth);
    } else {
      forall p | p in Settled(side, listed, depth) ensures Quantity(listed, p) == Quantity(whole, p) {
        if p !in listed {
          var k :| k in listed && Better(side, p, k);
          assert p in whole ==> Better(side, k, p);
        }
      }
    }
  }

  lemma PartQuantity(m: Levels, whole: Levels, p: int)
    requires SubBook(m, whole)
    ensures Quantity(m, p) == 0 || Quantity(m, p) == Quantity(whole, p)
  {
  }

  lemma SubBookByQuantity(m: Levels, whole: Levels)
    requires Proper(m) && forall p :: p > 0 ==> Quantity(m, p) == 0 || Quantity(m, p) == Quantity(whole, p)
    ensures SubBook(m, whole)
  {
    forall k | k in m ensures k in whole && m[k] == whole[k] {
      assert Quantity(m, k) == m[k] != 0;
    }
  }

  /** An event takes any part of a book in its range to a part of the book at its end, and settles
      the prices it mentions; prices settled before stay settled. */
  lemma SummaryExtendsPart(log: seq<Write>, side: Side, m: Levels, levels: seq<Level>, known: iset<int>,
                           from: nat, at: nat, to: nat)
    requires from <= at <= to <= |log| && Summarises(log, side, levels, from, to)
    requires forall i :: 0 <= i < |log| ==> log[i].price > 0
    requires Proper(m) && PartOf(m, BookAt(log, side, at), known)
    ensures Proper(Applied(m, levels))
    ensures PartOf(Applied(m, levels), BookAt(log, side, to), known + Mentioned(levels))
  {
    var before, after, grown := BookAt(log, side, at), BookAt(log, side, to), Applied(m, levels);
    AppliedProper(m, levels);
    BookProper(log, side, to);
    forall p | p > 0
      ensures Quantity(grown, p) == 0 || Quantity(grown, p) == Quantity(after, p)
      ensures p in known + Mentioned(levels) ==> Quantity(grown, p) == Quantity(after, p)
    {
      AppliedQuantity(m, levels, p, Quantity(after, p));
      PartQuantity(m, before, p);
      if !Mentions(levels, p) {
        UnwrittenPriceStays(log, side, p, at, to);
      }
    }
    SubBookByQuantity(grown, after);
  }

  ghost predicate Consistent(x: Exchange, i: Informed)
    requires ValidExchange(x)
  {
    var r := i.replica;
    && Version(r.sync) <= |x.log| && Proper(r.bids) && Proper(r.asks)
    && PartOf(r.bids, BookAt(x.log, Bid, Version(r.sync)), i.bids)
    && PartOf(r.asks, BookAt(x.log, Ask, Version(r.sync)), i.asks)
  }

  lemma SubBookProper(m: Levels, whole: Levels)
    requires SubBook(m, whole) && Proper(whole)
    ensures Proper(m)
  {
  }

  lemma SnapshotIsConsistent(x: Exchange, s: Snapshot, depth: nat)
    requires ValidExchange(x) && DepthSnapshot(x, s, depth)
    ensures Consistent(x, InformedBy(s, depth))
  {
    BookProper(x.log, Bid, s.lastId);
    BookProper(x.log, Ask, s.lastId);
    SnapshotIsPart(Bid, Loaded(s.bids), BookAt(x.log, Bid, s.lastId), depth);
    SnapshotIsPart(Ask, Loaded(s.asks), BookAt(x.log, Ask, s.lastId), depth);
    SubBookProper(Loaded(s.bids), BookAt(x.log, Bid, s.lastId));
    SubBookProper(Loaded(s.asks), BookAt(x.log, Ask, s.lastId));
  }

  lemma AcceptedEventKeepsConsistent(x: Exchange, i: Informed, next: nat, k: nat, now: nat, fetch: Option<Snapshot>,
                                     depth: nat)
    requires ValidExchange(x) && InStep(x, i.replica.sync, next) && next <= k < |x.events|
    requires Consistent(x, i) && Filtered(i.replica.sync, x.events[k]).1
    ensures Consistent(x, OnBatchInformed(i, x.events[k], now, fetch, depth))
  {
    var e := x.events[k];
    assert ValidEvent(x, k);
    var at := Version(i.replica.sync);
    AcceptedEventStraddles(x, i.replica.sync, next, k);
    SummaryExtendsPart(x.log, Bid, i.replica.bids, e.bids, i.bids, x.cuts[k], at, x.cuts[k + 1]);
    SummaryExtendsPart(x.log, Ask, i.replica.asks, e.asks, i.asks, x.cuts[k], at, x.cuts[k + 1]);
  }

  lemma StepKeepsConsistent(x: Exchange, i: Informed, next: nat, k: nat, now: nat, fetch: Option<Snapshot>, depth: nat)
    requires ValidExchange(x) && InStep(x, i.replica.sync, next) && next <= k < |x.events|
    requires Consistent(x, i) && (fetch.Some? ==> DepthSnapshot(x, fetch.value, depth))
    ensures Consistent(x, OnBatchInformed(i, x.events[k], now, fetch, depth))
    ensures OnBatchInformed(i, x.events[k], now, fetch, depth).replica == OnBatch(i.replica, x.events[k], now, fetch)
  {
    assert ValidEvent(x, k);
    var (s, process) := Filtered(i.replica.sync, x.events[k]);
    if process {
      AcceptedEventKeepsConsistent(x, i, next, k, now, fetch, depth);
    } else if Resync(s, now).1 && fetch.Some? {
      SnapshotIsConsistent(x, fetch.value, depth);
    }
  }

  ghost predicate DepthFetches(x: Exchange, ds: seq<Delivery>, depth: nat) {
    forall i :: 0 <= i < |ds| && ds[i].fetch.Some? ==> DepthSnapshot(x, ds[i].fetch.value, depth)
  }

  lemma {:induction false} RunKeepsConsistent(x: Exchange, i: Informed, next: nat, ds: seq<Delivery>, depth: nat)
    requires ValidExchange(x) && InStep(x, i.replica.sync, next) && Consistent(x, i)
    requires ValidDeliveries(x, ds, next) && DepthFetches(x, ds, depth)
    ensures Consistent(x, ExecInformed(x, i, ds, depth))
    ensures ExecInformed(x, i, ds, depth).replica == Exec(x, i.replica, ds)
    decreases |ds|
  {
    if ds != [] {
      var d := ds[0];
      StepKeepsInStep(x, i.replica, next, d.index, d.now, d.fetch);
      StepKeepsConsistent(x, i, next, d.index, d.now, d.fetch, depth);
      var i' := OnBatchInformed(i, x.events[d.index], d.now, d.fetch, depth);
      RunKeepsConsistent(x, i', d.index + 1, ds[1..], depth);
    }
  }

  /** With snapshots of any depth, whatever is dropped and whenever they are fetched, the replica never shows
      a level or quantity the exchange does not have, and shows every level at each price that the last
      snapshot settled or an event applied since has mentioned. */
  lemma ReplicaIsPartOfExchange(x: Exchange, s: Snapshot, ds: seq<Delivery>, depth: nat)
    requires ValidExchange(x) && DepthSnapshot(x, s, depth)
    requires ValidDeliveries(x, ds, 0) && DepthFetches(x, ds, depth)
    ensures var i := ExecInformed(x, InformedBy(s, depth), ds, depth);
            Consistent(x, i) && i.replica == Exec(x, FromSnapshot(s), ds)
  {
    SnapshotIsConsistent(x, s, depth);
    RunKeepsConsistent(x, InformedBy(s, depth), 0, ds, depth);
  }

  /** As long as every price ahead of the replica's best one is settled, that price leads the exchange's book too. */
  lemma BestIsBest(side: Side, m: Levels, whole: Levels, known: iset<int>, best: int)
    requires PartOf(m, whole, known) && IsBest(side, m, best) && Proper(whole)
    requires forall p: int :: Better(side, p, best) ==> p in known
    ensures IsBest(side, whole, best) && whole[best] == m[best]
  {
    forall j | j in whole && j != best ensures Better(side, best, j) {
      if Better(side, j, best) {
        assert Quantity(m, j) == Quantity(whole, j);
        assert j in m;
      }
    }
  }

  /** The snapshot the replica was last built from: the first one, or the last one fetched to resynchronise. */
  function LastSnapshot(x: Exchange, r: Local, s: Snapshot, ds: seq<Delivery>): Snapshot
    requires forall i :: 0 <= i < |ds| ==> ds[i].index < |x.events|
    decreases |ds|
  {
    if ds == [] then s
    else
      var (f, process) := Filtered(r.sync, x.events[ds[0].index]);
      var rebuilt := !process && Resync(f, ds[0].now).1 && ds[0].fetch.Some?;
      LastSnapshot(x, OnBatch(r, x.events[ds[0].index], ds[0].now, ds[0].fetch),
                   if rebuilt then ds[0].fetch.value else s, ds[1..])
  }

  /** What the last snapshot settled stays settled. */
  lemma {:induction false} SettledStays(x: Exchange, i: Informed, s: Snapshot, ds: seq<Delivery>, depth: nat)
    requires forall k :: 0 <= k < |ds| ==> ds[k].index < |x.events|
    requires Settled(Bid, Loaded(s.bids), depth) <= i.bids && Settled(Ask, Loaded(s.asks), depth) <= i.asks
    ensures var last, i' := LastSnapshot(x, i.replica, s, ds), ExecInformed(x, i, ds, depth);
      Settled(Bid, Loaded(last.bids), depth) <= i'.bids && Settled(Ask, Loaded(last.asks), depth) <= i'.asks
    decreases |ds|
  {
    if ds != [] {
      var d := ds[0];
      var b := x.events[d.index];
      var (f, process) := Filtered(i.replica.sync, b);
      var rebuilt := !process && Resync(f, d.now).1 && d.fetch.Some?;
      var i' := OnBatchInformed(i, b, d.now, d.fetch, depth);
      assert i'.replica == OnBatch(i.replica, b, d.now, d.fetch);
      SettledStays(x, i', if rebuilt then d.fetch.value else s, ds[1..], depth);
    }
  }

  /** No worse than some price the snapshot listed, or the snapshot had room for more levels than there were. */
  ghost predicate WithinListed(side: Side, listed: Levels, depth: nat, best: int) {
    |listed| < depth || exists k :: k in listed && (k == best || Better(side, best, k))
  }

  lemma AheadOfListed(side: Side, listed: Levels, depth: nat, best: int)
    requires WithinListed(side, listed, depth, best)
    ensures forall p: int :: Better(side, p, best) ==> p in Settled(side, listed, depth)
  {
  }

  /** Over any run: while the replica's best price is no worse than the worst one its last snapshot listed, or that
      snapshot held the whole side, it is the exchange's best price too, with the same quantity. */
  lemma BestIsBestOnRun(x: Exchange, s: Snapshot, ds: seq<Delivery>, depth: nat, side: Side, best: int)
    requires ValidExchange(x) && DepthSnapshot(x, s, depth)
    requires ValidDeliveries(x, ds, 0) && DepthFetches(x, ds, depth)
    requires var r, last := Exec(x, FromSnapshot(s), ds), LastSnapshot(x, FromSnapshot(s), s, ds);
      && IsBest(side, if side == Bid then r.bids else r.asks, best)
      && WithinListed(side, Loaded(if side == Bid then last.bids else last.asks), depth, best)
    ensures var r := Exec(x, FromSnapshot(s), ds);
      && Version(r.sync) <= |x.log|
      && IsBest(side, BookAt(x.log, side, Version(r.sync)), best)
      && BookAt(x.log, side, Version(r.sync))[best] == (if side == Bid then r.bids else r.asks)[best]
  {
    var last, i := LastSnapshot(x, FromSnapshot(s), s, ds), ExecInformed(x, InformedBy(s, depth), ds, depth);
    ReplicaIsPartOfExchange(x, s, ds, depth);
    SettledStays(x, InformedBy(s, depth), s, ds, depth);
    var whole := BookAt(x.log, side, Version(i.replica.sync));
    BookProper(x.log, side, Version(i.replica.sync));
    if side == Bid {
      AheadOfListed(side, Loaded(last.bids), depth, best);
      BestIsBest(side, i.replica.bids, whole, i.bids, best);
    } else {
      AheadOfListed(side, Loaded(last.asks), depth, best);
      BestIsBest(side, i.replica.asks, whole, i.asks, best);
    }
  }

  // Complete snapshots settle every price.

  lemma {:induction false} BookSize(log: seq<Write>, side: Side, n: nat)
    requires n <= |log|
    ensures |BookAt(log, side, n)| <= n
  {
    if n > 0 {
      BookSize(log, side, n - 1);
      WrittenSize(BookAt(log, side, n - 1), log[n - 1].price, log[n - 1].quantity);
    }
  }

  lemma WrittenSize(m: Levels, price: int, quantity: int)
    ensures |Written(m, price, quantity)| <= |m| + 1
  {
    if quantity == 0 {
      assert price !in m ==> m - {price} == m;
      if price in m { SmallerMap(m, price); }
    } else if price in m {
      assert m[price := quantity].Keys == m.Keys;
      SameKeysSameSize(m[price := quantity], m);
    } else {
      assert m[price := quantity] - {price} == m;
      SmallerMap(m[price := quantity], price);
    }
  }

  lemma SameKeysSameSize(a: Levels, b: Levels)
    requires a.Keys == b.Keys
    ensures |a| == |b|
  {
    assert |a| == |a.Keys| && |b| == |b.Keys|;
  }

  lemma CompleteIsDeep(x: Exchange, s: Snapshot)
    requires CompleteSnapshot(x, s)
    ensures DepthSnapshot(x, s, |x.log| + 1)
    ensures |Loaded(s.bids)| <= |x.log| && |Loaded(s.asks)| <= |x.log|
  {
    BookSize(x.log, Bid, s.lastId);
    BookSize(x.log, Ask, s.lastId);
  }

  ghost predicate SettlesAll(i: Informed) {
    forall p: int :: p in i.bids && p in i.asks
  }

  lemma CompleteSettlesAll(x: Exchange, s: Snapshot)
    requires CompleteSnapshot(x, s)
    ensures SettlesAll(InformedBy(s, |x.log| + 1))
  {
    CompleteIsDeep(x, s);
  }

  lemma {:induction false} RunSettlesAll(x: Exchange, i: Informed, ds: seq<Delivery>)
    requires SettlesAll(i) && forall k :: 0 <= k < |ds| ==> ds[k].index < |x.events|
    requires forall k :: 0 <= k < |ds| && ds[k].fetch.Some? ==> CompleteSnapshot(x, ds[k].fetch.value)
    ensures SettlesAll(ExecInformed(x, i, ds, |x.log| + 1))
    decreases |ds|
  {
    if ds != [] {
      var d := ds[0];
      if d.fetch.Some? { CompleteSettlesAll(x, d.fetch.value); }
      RunSettlesAll(x, OnBatchInformed(i, x.events[d.index], d.now, d.fetch, |x.log| + 1), ds[1..]);
    }
  }

  /** With complete snapshots the replica always equals the exchange's book: at the snapshot id before
      synchronisation, at the last processed id after. */
  lemma {:induction false} ReplicaAgreement(x: Exchange, s: Snapshot, ds: seq<Delivery>)
    requires ValidExchange(x) && CompleteSnapshot(x, s) && ValidDeliveries(x, ds, 0)
    requires forall i :: 0 <= i < |ds| && ds[i].fetch.Some? ==> CompleteSnapshot(x, ds[i].fetch.value)
    ensures Agrees(x, Exec(x, FromSnapshot(s), ds))
  {
    var depth := |x.log| + 1;
    CompleteIsDeep(x, s);
    CompleteSettlesAll(x, s);
    forall i | 0 <= i < |ds| && ds[i].fetch.Some? ensures DepthSnapshot(x, ds[i].fetch.value, depth) {
      CompleteIsDeep(x, ds[i].fetch.value);
    }
    ReplicaIsPartOfExchange(x, s, ds, depth);
    RunSettlesAll(x, InformedBy(s, depth), ds);
    var i := ExecInformed(x, InformedBy(s, depth), ds, depth);
    var v := Version(i.replica.sync);
    BookProper(x.log, Bid, v);
    BookProper(x.log, Ask, v);
    SameQuantitiesSameBook(i.replica.bids, BookAt(x.log, Bid, v));
    SameQuantitiesSameBook(i.replica.asks, BookAt(x.log, Ask, v));
  }
}

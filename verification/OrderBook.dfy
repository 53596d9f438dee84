/** The local order book: two price-indexed maps, trimmed to the best levels of each side. */
module OrderBook {
  import opened RustInt
  import opened Wrappers

  datatype Level = Level(price: int, size: int)

  /** What the book needs of a decoded batch message. */
  datatype Batch = Batch(bids: seq<Level>, asks: seq<Level>, timestamp: nat, firstId: nat, finalId: nat, prevId: nat)

  type Levels = map<int, int>

  predicate Better(side: Side, a: int, b: int) {
    if side.Bid? then a > b else a < b
  }

  /** One absolute quantity: zero removes the level. */
  function Written(m: Levels, price: int, quantity: int): Levels {
    if quantity == 0 then m - {price} else m[price := quantity]
  }

  /** Levels written in order; levels without a positive price are ignored. */
  function Applied(m: Levels, levels: seq<Level>): Levels {
    if levels == [] then m
    else
      var before, last := Applied(m, levels[..|levels| - 1]), levels[|levels| - 1];
      if last.price > 0 then Written(before, last.price, last.size) else before
  }

  ghost predicate IsBest(side: Side, m: Levels, k: int) {
    k in m && forall j :: j in m && j != k ==> Better(side, k, j)
  }

  ghost predicate IsWorst(side: Side, m: Levels, k: int) {
    k in m && forall j :: j in m && j != k ==> Better(side, j, k)
  }

  function Opposite(side: Side): Side {
    if side.Bid? then Ask else Bid
  }

  lemma NonEmptyHasMember(s: set<int>)
    requires s != {}
    ensures exists x :: x in s
  {
    if forall x :: x !in s {
      assert false;
    }
  }

  lemma {:induction false} BestOfSet(side: Side, prices: set<int>)
    requires prices != {}
    ensures exists k :: k in prices && forall j :: j in prices && j != k ==> Better(side, k, j)
    decreases |prices|
  {
    NonEmptyHasMember(prices);
    var a :| a in prices;
    var rest := prices - {a};
    if rest == {} {
      assert prices == {a};
    } else {
      BestOfSet(side, rest);
      var b :| b in rest && forall j :: j in rest && j != b ==> Better(side, b, j);
      var k := if Better(side, a, b) then a else b;
      forall j | j in prices && j != k ensures Better(side, k, j) {
        assert j == a || j in rest;
      }
    }
  }

  lemma BestExists(side: Side, m: Levels)
    requires m != map[]
    ensures exists k :: IsBest(side, m, k)
  {
    assert m.Keys != {};
    BestOfSet(side, m.Keys);
    var k :| k in m.Keys && forall j :: j in m.Keys && j != k ==> Better(side, k, j);
    assert IsBest(side, m, k);
  }

  lemma SmallerMap(m: Levels, k: int)
    requires k in m
    ensures |m - {k}| == |m| - 1
  {
    assert (m - {k}).Keys == m.Keys - {k};
  }

  lemma WorstExists(side: Side, m: Levels)
    requires m != map[]
    ensures exists k :: IsWorst(side, m, k)
  {
    BestExists(Opposite(side), m);
    var k :| IsBest(Opposite(side), m, k);
    assert IsWorst(side, m, k);
  }

  ghost function Best(side: Side, m: Levels): (k: int)
    requires m != map[]
    ensures IsBest(side, m, k)
  {
    BestExists(side, m);
    var k :| IsBest(side, m, k);
    k
  }

  ghost function Worst(side: Side, m: Levels): (k: int)
    requires m != map[]
    ensures IsWorst(side, m, k)
  {
    WorstExists(side, m);
    var k :| IsWorst(side, m, k);
    k
  }

  /** The best `n` levels in order, the best first. */
  ghost function Top(side: Side, m: Levels, n: nat): seq<(int, int)>
    decreases n
  {
    if n == 0 || m == map[] then []
    else
      var k := Best(side, m);
      [(k, m[k])] + Top(side, m - {k}, n - 1)
  }

  /** Worst levels removed until at most `n` are left. */
  ghost function Trimmed(side: Side, m: Levels, n: nat): Levels
    decreases |m|
  {
    if |m| <= n then m
    else
      SmallerMap(m, Worst(side, m));
      Trimmed(side, m - {Worst(side, m)}, n)
  }

  ghost predicate SubBook(a: Levels, b: Levels) {
    forall k :: k in a ==> k in b && a[k] == b[k]
  }

  /** `kept` holds exactly the best `n` levels of `m`, quantities included. */
  ghost predicate KeepsBest(side: Side, kept: Levels, m: Levels, n: nat) {
    && SubBook(kept, m)
    && |kept| == Min(|m|, n)
    && forall k, j :: k in kept && j in m && j !in kept ==> Better(side, k, j)
  }

  lemma {:induction false} TrimmedKeepsBest(side: Side, m: Levels, n: nat)
    ensures KeepsBest(side, Trimmed(side, m, n), m, n)
    decreases |m|
  {
    if |m| > n {
      var w := Worst(side, m);
      SmallerMap(m, w);
      TrimmedKeepsBest(side, m - {w}, n);
      var kept := Trimmed(side, m - {w}, n);
      forall k, j | k in kept && j in m && j !in kept ensures Better(side, k, j) {
        if j != w {
          assert j in m - {w};
        }
      }
    }
  }

  lemma SameSizeOverlap(a: set<int>, b: set<int>, k: int)
    requires k in a && k !in b && |a| == |b|
    ensures exists j :: j in b && j !in a
  {
    assert a == (a * b) + (a - b) && b == (a * b) + (b - a);
    assert |a - b| > 0 by { assert k in a - b; }
    assert |b - a| > 0;
    NonEmptyHasMember(b - a);
    var j :| j in b - a;
  }

  lemma KeptPriceIsKept(side: Side, a: Levels, b: Levels, m: Levels, n: nat, k: int)
    requires KeepsBest(side, a, m, n) && KeepsBest(side, b, m, n) && k in a
    ensures k in b
  {
    if k !in b {
      assert |a.Keys| == |a| && |b.Keys| == |b|;
      SameSizeOverlap(a.Keys, b.Keys, k);
      assert false;
    }
  }

  /** There is only one set of best levels. */
  lemma KeepsBestUnique(side: Side, a: Levels, b: Levels, m: Levels, n: nat)
    requires KeepsBest(side, a, m, n) && KeepsBest(side, b, m, n)
    ensures a == b
  {
    forall k | k in a ensures k in b { KeptPriceIsKept(side, a, b, m, n, k); }
    forall k | k in b ensures k in a { KeptPriceIsKept(side, b, a, m, n, k); }
    forall k | k in a ensures a[k] == b[k] { assert a[k] == m[k]; }
    assert a.Keys == b.Keys;
  }

  /** Trimming is invisible to anyone who asks for no more than the kept number of levels. */
  lemma {:induction false} TrimmingKeepsTop(side: Side, kept: Levels, m: Levels, n: nat, top: nat)
    requires KeepsBest(side, kept, m, n) && top <= n
    ensures Top(side, kept, top) == Top(side, m, top)
    decreases top
  {
    if top > 0 && m != map[] {
      assert kept != map[] by { assert |m| > 0; assert |kept| > 0; }
      var b := Best(side, m);
      var k := Best(side, kept);
      assert b == k by {
        if b !in kept {
          assert Better(side, k, b);
        }
      }
      SmallerMap(m, b);
      SmallerMap(kept, b);
      forall x, j | x in kept - {b} && j in m - {b} && j !in kept - {b} ensures Better(side, x, j) {
        assert j !in kept;
      }
      TrimmingKeepsTop(side, kept - {b}, m - {b}, n - 1, top - 1);
    }
  }

  /** Strictly best first, each with the quantity the book has. */
  predicate ListsBestFirst(side: Side, m: Levels, t: seq<(int, int)>) {
    && (forall i :: 0 <= i < |t| ==> t[i].0 in m && m[t[i].0] == t[i].1)
    && (forall i, j :: 0 <= i < j < |t| ==> Better(side, t[i].0, t[j].0))
  }

  predicate Lists(t: seq<(int, int)>, price: int) {
    exists i :: 0 <= i < |t| && t[i].0 == price
  }

  /** Everything left out is worse than everything listed. */
  predicate LeavesOutWorse(side: Side, m: Levels, t: seq<(int, int)>) {
    forall i, k :: 0 <= i < |t| && k in m && !Lists(t, k) ==> Better(side, t[i].0, k)
  }

  lemma ListsCons(head: (int, int), rest: seq<(int, int)>, price: int)
    ensures Lists([head] + rest, price) <==> head.0 == price || Lists(rest, price)
  {
    var t := [head] + rest;
    assert t[0] == head;
    if Lists(rest, price) {
      var i :| 0 <= i < |rest| && rest[i].0 == price;
      assert t[i + 1].0 == price;
    }
  }

  /** Top lists as many levels as asked for, or all of them, and they are the best ones in order. */
  lemma {:induction false} TopIsSortedPrefix(side: Side, m: Levels, n: nat)
    ensures |Top(side, m, n)| == Min(|m|, n)
    ensures ListsBestFirst(side, m, Top(side, m, n))
    ensures LeavesOutWorse(side, m, Top(side, m, n))
    decreases n
  {
    if n > 0 && m != map[] {
      var b := Best(side, m);
      SmallerMap(m, b);
      TopIsSortedPrefix(side, m - {b}, n - 1);
      var rest := Top(side, m - {b}, n - 1);
      var t := [(b, m[b])] + rest;
      forall i, k | 0 <= i < |t| && k in m && !Lists(t, k) ensures Better(side, t[i].0, k) {
        ListsCons((b, m[b]), rest, k);
        assert k in m - {b};
      }
    }
  }

  /** One thing that happens to a side of the book. */
  datatype Change = Update(price: int, quantity: int) | Trim

  ghost function ExecTrimming(side: Side, m: Levels, n: nat, changes: seq<Change>): Levels {
    if changes == [] then m
    else
      var before := ExecTrimming(side, m, n, changes[..|changes| - 1]);
      match changes[|changes| - 1]
      case Update(price, quantity) => Written(before, price, quantity)
      case Trim => Trimmed(side, before, n)
  }

  ghost function ExecFull(m: Levels, changes: seq<Change>): Levels {
    if changes == [] then m
    else
      var before := ExecFull(m, changes[..|changes| - 1]);
      match changes[|changes| - 1]
      case Update(price, quantity) => Written(before, price, quantity)
      case Trim => before
  }

  /** However updates and trims interleave, the trimmed book never shows a level or a quantity that
      the untrimmed book does not have. */
  lemma {:induction false} TrimmedBookIsSubBook(side: Side, m: Levels, n: nat, changes: seq<Change>)
    ensures SubBook(ExecTrimming(side, m, n, changes), ExecFull(m, changes))
    decreases |changes|
  {
    if changes != [] {
      var earlier := changes[..|changes| - 1];
      TrimmedBookIsSubBook(side, m, n, earlier);
      if changes[|changes| - 1].Trim? {
        TrimmedKeepsBest(side, ExecTrimming(side, m, n, earlier), n);
      }
    }
  }

  class Book {
    var bids: Levels
    var asks: Levels
    var timestamp: nat
    const maxLevels: nat

    constructor (maxLevels: nat)
      ensures bids == map[] && asks == map[] && timestamp == 0 && this.maxLevels == maxLevels
    {
      bids := map[];
      asks := map[];
      timestamp := 0;
      this.maxLevels := maxLevels;
    }

    method UpdateBid(price: int, quantity: int)
      modifies this`bids
      ensures bids == Written(old(bids), price, quantity)
    {
      if quantity == 0 {
        bids := bids - {price};
      } else {
        bids := bids[price := quantity];
      }
    }

    method UpdateAsk(price: int, quantity: int)
      modifies this`asks
      ensures asks == Written(old(asks), price, quantity)
    {
      if quantity == 0 {
        asks := asks - {price};
      } else {
        asks := asks[price := quantity];
      }
    }

    method ApplyBatch(batch: Batch)
      modifies this
      ensures bids == Applied(old(bids), batch.bids)
      ensures asks == Applied(old(asks), batch.asks)
      ensures timestamp == batch.timestamp
    {
      for i := 0 to |batch.bids|
        invariant bids == Applied(old(bids), batch.bids[..i]) && asks == old(asks)
      {
        assert batch.bids[..i + 1][..i] == batch.bids[..i];
        if batch.bids[i].price > 0 {
          UpdateBid(batch.bids[i].price, batch.bids[i].size);
        }
      }
      assert batch.bids[..|batch.bids|] == batch.bids;
      for i := 0 to |batch.asks|
        invariant bids == Applied(old(bids), batch.bids) && asks == Applied(old(asks), batch.asks[..i])
      {
        assert batch.asks[..i + 1][..i] == batch.asks[..i];
        if batch.asks[i].price > 0 {
          UpdateAsk(batch.asks[i].price, batch.asks[i].size);
        }
      }
      assert batch.asks[..|batch.asks|] == batch.asks;
      timestamp := batch.timestamp;
    }

    method TrimBook()
      modifies this`bids, this`asks
      ensures bids == Trimmed(Bid, old(bids), maxLevels) && KeepsBest(Bid, bids, old(bids), maxLevels)
      ensures asks == Trimmed(Ask, old(asks), maxLevels) && KeepsBest(Ask, asks, old(asks), maxLevels)
    {
      while |bids| > maxLevels
        invariant Trimmed(Bid, bids, maxLevels) == Trimmed(Bid, old(bids), maxLevels)
        invariant asks == old(asks)
        decreases |bids|
      {
        WorstExists(Bid, bids);
        var lowest :| lowest in bids && forall j :: j in bids && j != lowest ==> lowest < j;
        assert lowest == Worst(Bid, bids);
        SmallerMap(bids, lowest);
        bids := bids - {lowest};
      }
      TrimmedKeepsBest(Bid, old(bids), maxLevels);
      while |asks| > maxLevels
        invariant Trimmed(Ask, asks, maxLevels) == Trimmed(Ask, old(asks), maxLevels)
        invariant bids == Trimmed(Bid, old(bids), maxLevels)
        decreases |asks|
      {
        WorstExists(Ask, asks);
        var highest :| highest in asks && forall j :: j in asks && j != highest ==> highest > j;
        assert highest == Worst(Ask, asks);
        SmallerMap(asks, highest);
        asks := asks - {highest};
      }
      TrimmedKeepsBest(Ask, old(asks), maxLevels);
    }

    method TopBids(n: nat) returns (levels: seq<(int, int)>)
      ensures levels == Top(Bid, bids, n)
    {
      levels := TopOf(Bid, bids, n);
    }

    method TopAsks(n: nat) returns (levels: seq<(int, int)>)
      ensures levels == Top(Ask, asks, n)
    {
      levels := TopOf(Ask, asks, n);
    }

    method BestBid() returns (best: seq<(int, int)>)
      ensures best == Top(Bid, bids, 1)
    {
      best := TopOf(Bid, bids, 1);
    }

    method BestAsk() returns (best: seq<(int, int)>)
      ensures best == Top(Ask, asks, 1)
    {
      best := TopOf(Ask, asks, 1);
    }
  }

  /** Ordered iteration over a side, best level first, stopped after `n` levels. */
  method TopOf(side: Side, m: Levels, n: nat) returns (levels: seq<(int, int)>)
    ensures levels == Top(side, m, n)
  {
    levels := [];
    var rest := m;
    while |levels| < n && rest != map[]
      invariant |levels| <= n
      invariant levels + Top(side, rest, n - |levels|) == Top(side, m, n)
      decreases n - |levels|
    {
      BestExists(side, rest);
      var k :| k in rest && forall j :: j in rest && j != k ==> Better(side, k, j);
      assert IsBest(side, rest, k) && k == Best(side, rest);
      assert Top(side, rest, n - |levels|) == [(k, rest[k])] + Top(side, rest - {k}, n - |levels| - 1);
      assert levels + ([(k, rest[k])] + Top(side, rest - {k}, n - |levels| - 1))
          == (levels + [(k, rest[k])]) + Top(side, rest - {k}, n - |levels| - 1);
      levels, rest := levels + [(k, rest[k])], rest - {k};
    }
  }

  // In prices.

  /** The bids of a book are listed from the highest price down, and what is left out is lower still. */
  lemma BidsFromHighest(bids: Levels, n: nat, i: nat)
    requires i < |Top(Bid, bids, n)|
    ensures var top := Top(Bid, bids, n);
      && (forall j :: i < j < |top| ==> top[j].0 < top[i].0)
      && (forall p :: p in bids && (forall j :: 0 <= j < |top| ==> top[j].0 != p) ==> p < top[i].0)
  {
    TopIsSortedPrefix(Bid, bids, n);
  }

  /** The asks of a book are listed from the lowest price up, and what is left out is higher still. */
  lemma AsksFromLowest(asks: Levels, n: nat, i: nat)
    requires i < |Top(Ask, asks, n)|
    ensures var top := Top(Ask, asks, n);
      && (forall j :: i < j < |top| ==> top[j].0 > top[i].0)
      && (forall p :: p in asks && (forall j :: 0 <= j < |top| ==> top[j].0 != p) ==> p > top[i].0)
  {
    TopIsSortedPrefix(Ask, asks, n);
  }

  /** Trimming drops the lowest bids and the highest asks. */
  lemma TrimDropsOutside(side: Side, m: Levels, n: nat, kept: int, dropped: int)
    requires kept in Trimmed(side, m, n) && dropped in m && dropped !in Trimmed(side, m, n)
    ensures if side == Bid then dropped < kept else dropped > kept
  {
    TrimmedKeepsBest(side, m, n);
  }

  /** A quantity of 0 removes its level and any other replaces it; no other level is touched. */
  lemma WrittenLevel(m: Levels, price: int, quantity: int, p: int)
    ensures p == price ==> (p in Written(m, price, quantity) <==> quantity != 0)
    ensures p == price && quantity != 0 ==> Written(m, price, quantity)[p] == quantity
    ensures p != price ==> (p in Written(m, price, quantity) <==> p in m)
    ensures p != price && p in m ==> Written(m, price, quantity)[p] == m[p]
  {
  }

  /** A batch leaves alone every price it does not list, and every price that is not positive. */
  lemma {:induction false} UnlistedStays(m: Levels, levels: seq<Level>, p: int)
    requires p <= 0 || forall i :: 0 <= i < |levels| ==> levels[i].price != p
    ensures p in Applied(m, levels) <==> p in m
    ensures p in m ==> Applied(m, levels)[p] == m[p]
    decreases |levels|
  {
    if levels != [] {
      var n := |levels| - 1;
      UnlistedStays(m, levels[..n], p);
      WrittenLevel(Applied(m, levels[..n]), levels[n].price, levels[n].size, p);
    }
  }

  /** At a positive price it lists the last entry counts. */
  lemma {:induction false} LastEntryCounts(m: Levels, levels: seq<Level>, i: nat)
    requires i < |levels| && levels[i].price > 0
    requires forall j :: i < j < |levels| ==> levels[j].price != levels[i].price
    ensures levels[i].price in Applied(m, levels) <==> levels[i].size != 0
    ensures levels[i].size != 0 ==> Applied(m, levels)[levels[i].price] == levels[i].size
    decreases |levels|
  {
    var n := |levels| - 1;
    if i < n {
      LastEntryCounts(m, levels[..n], i);
    }
    WrittenLevel(Applied(m, levels[..n]), levels[n].price, levels[n].size, levels[i].price);
  }
}

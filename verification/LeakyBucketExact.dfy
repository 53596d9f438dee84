/** The integer bucket against an exact one that never rounds: same calls, same grants. */
module LeakyBucketExact {
  import opened RustInt
  import opened LeakyBucket

  datatype Call = Call(now: nat, weight: nat)

  /** Both buckets side by side. `level` is the exact content at time `at`, in billionths of a
      milli-token; `refills` counts the calls that credited something to the integer bucket. */
  datatype Pair = Pair(bucket: Bucket, level: int, at: nat, refills: nat)

  function Full(c: Config): int {
    CapacityScaled(c) * RATE_SCALE
  }

  function Stored(p: Pair): int {
    p.bucket.tokens * RATE_SCALE
  }

  function Start(c: Config, now: nat): Pair {
    Pair(Fresh(c, now), Full(c), now, 0)
  }

  /** Both buckets fill up to `now`, the exact one continuously up to capacity. */
  function Filled(c: Config, p: Pair, now: nat): Pair
    requires p.at <= now
  {
    var credited := TokensToAdd(c, SaturatingSub(now, p.bucket.lastRefill)) != 0;
    Pair(Refilled(c, p.bucket, now), Min(Full(c), p.level + c.ratePerNano * (now - p.at)), now,
         p.refills + if credited then 1 else 0)
  }

  /** The exact bucket pays for whatever the integer one grants. */
  function Paid(p: Pair, weight: nat): Pair {
    if p.bucket.tokens < Required(weight) then p
    else p.(bucket := p.bucket.(tokens := p.bucket.tokens - Required(weight)),
            level := p.level - Required(weight) * RATE_SCALE)
  }

  function Step(c: Config, p: Pair, call: Call): (p': Pair)
    requires p.at <= call.now
    ensures p'.bucket == Acquired(c, p.bucket, call.now, call.weight).0
  {
    if call.weight == 0 then p else Paid(Filled(c, p, call.now), call.weight)
  }

  /** Calls come in clock order, none so late that the credit computation overflows. */
  predicate Timely(c: Config, p: Pair, calls: seq<Call>)
    decreases |calls|
  {
    calls == [] ||
    (&& p.at <= calls[0].now && p.bucket.lastRefill <= calls[0].now
     && c.ratePerNano * (calls[0].now - p.bucket.lastRefill) < TWO_32 * RATE_SCALE
     && Timely(c, Step(c, p, calls[0]), calls[1..]))
  }

  function Exec(c: Config, p: Pair, calls: seq<Call>): Pair
    requires Timely(c, p, calls)
    decreases |calls|
  {
    if calls == [] then p else Exec(c, Step(c, p, calls[0]), calls[1..])
  }

  /** Earned by the clock but not yet worth a whole milli-token. */
  function Uncredited(c: Config, p: Pair): int
    requires p.bucket.lastRefill <= p.at
  {
    c.ratePerNano * (p.at - p.bucket.lastRefill)
  }

  predicate Inv(c: Config, p: Pair) {
    && p.bucket.lastRefill <= p.at
    && p.bucket.tokens <= CapacityScaled(c)
    && Uncredited(c, p) < RATE_SCALE
    && p.level <= Full(c)
    && Stored(p) + Uncredited(c, p) <= p.level + (RATE_SCALE - 1)
    && p.level <= Stored(p) + p.refills * (RATE_SCALE - 1) + Uncredited(c, p)
  }

  /** No fraction of a milli-token has been granted twice: the integer bucket is not ahead. */
  predicate NotAhead(c: Config, p: Pair)
    requires p.bucket.lastRefill <= p.at
  {
    Stored(p) + Uncredited(c, p) <= p.level
  }

  lemma CreditIsExactQuotient(c: Config, from: nat, to: nat)
    requires from <= to && c.ratePerNano * (to - from) < TWO_32 * RATE_SCALE
    ensures var x := c.ratePerNano * (to - from);
            var add := TokensToAdd(c, to - from);
            add < TWO_32 && add * RATE_SCALE <= x < (add + 1) * RATE_SCALE
  {
    assert (to - from) * c.ratePerNano == c.ratePerNano * (to - from);
  }

  lemma UncreditedSplit(c: Config, last: nat, at: nat, now: nat)
    requires last <= at <= now
    ensures c.ratePerNano * (now - last) == c.ratePerNano * (now - at) + c.ratePerNano * (at - last)
    ensures c.ratePerNano >= RATE_SCALE && now > last ==> c.ratePerNano * (now - last) >= RATE_SCALE
    ensures c.ratePerNano == 0 || now == last ==> c.ratePerNano * (now - last) == 0
  {
    if now > last && c.ratePerNano >= RATE_SCALE {
      Scale(now - last, c.ratePerNano);
    }
  }

  /** Too soon to credit anything: last_refill and the tokens stay. */
  lemma QuietFillKeepsInv(c: Config, p: Pair, now: nat)
    requires Inv(c, p) && p.at <= now && c.ratePerNano * (now - p.bucket.lastRefill) < TWO_32 * RATE_SCALE
    requires TokensToAdd(c, now - p.bucket.lastRefill) == 0
    ensures Inv(c, Filled(c, p, now))
    ensures NotAhead(c, p) && (c.ratePerNano == 0 || c.ratePerNano >= RATE_SCALE)
            ==> NotAhead(c, Filled(c, p, now))
  {
    CreditIsExactQuotient(c, p.bucket.lastRefill, now);
    UncreditedSplit(c, p.bucket.lastRefill, p.at, now);
  }

  /** The arithmetic of a credit: `earned` billionths since the last credit, of which `before` had
      been earned by the previous call, against tokens worth `stored` and an exact `level`. */
  lemma CreditArithmetic(stored: int, full: int, level: int, add: int, earned: int, before: int, lost: int)
    requires 0 <= before <= earned && add * RATE_SCALE <= earned < (add + 1) * RATE_SCALE
    requires stored <= full && level <= full
    requires stored + before <= level + (RATE_SCALE - 1) && level <= stored + lost + before
    ensures var filled := Min(full, level + (earned - before));
            var topped := Min(stored + add * RATE_SCALE, full);
            && topped <= filled + (RATE_SCALE - 1) && filled <= topped + lost + (RATE_SCALE - 1)
            && (stored + before <= level ==> topped <= filled)
  {
  }

  lemma RefilledTokens(c: Config, b: Bucket, now: nat)
    requires b.lastRefill <= now && c.ratePerNano * (now - b.lastRefill) < TWO_32 * RATE_SCALE
    requires b.tokens <= CapacityScaled(c) && TokensToAdd(c, now - b.lastRefill) != 0
    ensures Refilled(c, b, now)
         == Bucket(Min(b.tokens + TokensToAdd(c, now - b.lastRefill), CapacityScaled(c)), now)
  {
    CreditIsExactQuotient(c, b.lastRefill, now);
  }

  /** A fill that credits: the fraction it rounds away is lost for good. */
  lemma CreditFillKeepsInv(c: Config, p: Pair, now: nat)
    requires Inv(c, p) && p.at <= now && c.ratePerNano * (now - p.bucket.lastRefill) < TWO_32 * RATE_SCALE
    requires TokensToAdd(c, now - p.bucket.lastRefill) != 0
    ensures Inv(c, Filled(c, p, now))
    ensures NotAhead(c, p) ==> NotAhead(c, Filled(c, p, now))
  {
    CreditIsExactQuotient(c, p.bucket.lastRefill, now);
    UncreditedSplit(c, p.bucket.lastRefill, p.at, now);
    UncreditedSplit(c, now, now, now);
    RefilledTokens(c, p.bucket, now);
    CreditArithmetic(Stored(p), Full(c), p.level, TokensToAdd(c, now - p.bucket.lastRefill),
                     c.ratePerNano * (now - p.bucket.lastRefill), Uncredited(c, p), p.refills * (RATE_SCALE - 1));
  }

  lemma PayingKeepsInv(c: Config, p: Pair, weight: nat)
    requires Inv(c, p)
    ensures Inv(c, Paid(p, weight))
    ensures NotAhead(c, p) ==> NotAhead(c, Paid(p, weight))
  {
    assert Uncredited(c, Paid(p, weight)) == Uncredited(c, p);
    assert Stored(Paid(p, weight)) - Paid(p, weight).level == Stored(p) - p.level;
  }

  lemma StepKeepsInv(c: Config, p: Pair, call: Call)
    requires Inv(c, p) && Timely(c, p, [call])
    ensures Inv(c, Step(c, p, call))
    ensures NotAhead(c, p) && (c.ratePerNano == 0 || c.ratePerNano >= RATE_SCALE)
            ==> NotAhead(c, Step(c, p, call))
  {
    if call.weight != 0 {
      if TokensToAdd(c, call.now - p.bucket.lastRefill) == 0 {
        QuietFillKeepsInv(c, p, call.now);
      } else {
        CreditFillKeepsInv(c, p, call.now);
      }
      PayingKeepsInv(c, Filled(c, p, call.now), call.weight);
    }
  }

  lemma {:induction false} RunKeepsInv(c: Config, p: Pair, calls: seq<Call>)
    requires Inv(c, p) && Timely(c, p, calls)
    ensures Inv(c, Exec(c, p, calls))
    ensures NotAhead(c, p) && (c.ratePerNano == 0 || c.ratePerNano >= RATE_SCALE)
            ==> NotAhead(c, Exec(c, p, calls))
    decreases |calls|
  {
    if calls != [] {
      assert [calls[0]][1..] == [];
      StepKeepsInv(c, p, calls[0]);
      RunKeepsInv(c, Step(c, p, calls[0]), calls[1..]);
    }
  }

  lemma StartInv(c: Config, now: nat)
    ensures Inv(c, Start(c, now)) && NotAhead(c, Start(c, now))
  {
    assert Uncredited(c, Start(c, now)) == 0;
  }

  predicate Close(c: Config, p: Pair) {
    && 0 <= Stored(p) <= Full(c) && p.level <= Full(c)
    && Stored(p) - p.level < RATE_SCALE
    && p.level - Stored(p) < (p.refills + 1) * RATE_SCALE
  }

  lemma LagFromInv(c: Config, p: Pair)
    requires Inv(c, p)
    ensures Close(c, p)
  {
    assert 0 <= Uncredited(c, p);
    assert p.refills * (RATE_SCALE - 1) <= p.refills * RATE_SCALE;
    assert (p.refills + 1) * RATE_SCALE == p.refills * RATE_SCALE + RATE_SCALE;
  }

  /** After any run the stored tokens are less than one milli-token ahead of the exact level, and
      behind it by less than one milli-token per credited refill plus one. */
  lemma StaysCloseToExact(c: Config, now: nat, calls: seq<Call>)
    requires Timely(c, Start(c, now), calls)
    ensures Close(c, Exec(c, Start(c, now), calls))
  {
    StartInv(c, now);
    RunKeepsInv(c, Start(c, now), calls);
    LagFromInv(c, Exec(c, Start(c, now), calls));
  }

  lemma FastNeverAbove(c: Config, now: nat, calls: seq<Call>)
    requires c.ratePerNano == 0 || c.ratePerNano >= RATE_SCALE
    requires Timely(c, Start(c, now), calls)
    ensures Stored(Exec(c, Start(c, now), calls)) <= Exec(c, Start(c, now), calls).level
  {
    StartInv(c, now);
    RunKeepsInv(c, Start(c, now), calls);
    NotAheadIsBelow(c, Exec(c, Start(c, now), calls));
  }

  lemma NotAheadIsBelow(c: Config, p: Pair)
    requires p.bucket.lastRefill <= p.at && NotAhead(c, p)
    ensures Stored(p) <= p.level
  {
    assert Uncredited(c, p) >= 0;
  }

  ghost predicate NeverAboveExact(c: Config) {
    forall now: nat, calls: seq<Call> ::
      Timely(c, Start(c, now), calls) ==>
        Stored(Exec(c, Start(c, now), calls)) <= Exec(c, Start(c, now), calls).level
  }

  /** A slow bucket that is full keeps the fraction earned while full, because a zero credit leaves
      last_refill alone; after a grant that fraction completes a milli-token too early. */
  lemma FractionKeptWhileFull(c: Config) returns (calls: seq<Call>)
    requires 0 < c.ratePerNano < RATE_SCALE && 0 < c.capacity && c.capacity * TOKEN_SCALE < TWO_32
    ensures Timely(c, Start(c, 0), calls)
    ensures Stored(Exec(c, Start(c, 0), calls)) > Exec(c, Start(c, 0), calls).level
  {
    var rate := c.ratePerNano;
    var wait := (RATE_SCALE + rate - 1) / rate;
    assert wait * rate >= RATE_SCALE && (wait - 1) * rate < RATE_SCALE by {
      var x := RATE_SCALE + rate - 1;
      assert x == wait * rate + x % rate;
      assert (wait - 1) * rate == wait * rate - rate;
    }
    assert wait >= 2;
    var first, second := Call(1, 1), Call(wait, TWO_32 - 1);
    calls := [first, second];
    var p0 := Start(c, 0);
    assert TokensToAdd(c, 1) == 0;
    var p1 := Step(c, p0, first);
    assert p1 == Pair(Bucket(CapacityScaled(c) - 1000, 0), Full(c) - 1000 * RATE_SCALE, 1, 0);
    SecondCall(c, wait);
    var p2 := Step(c, p1, second);
    assert calls[1..] == [second] && [second][1..] == [];
    assert Exec(c, p0, calls) == Exec(c, p1, [second]) == Exec(c, p2, []) == p2;
  }

  lemma SecondCall(c: Config, wait: nat)
    requires 0 < c.ratePerNano < RATE_SCALE && 0 < c.capacity && c.capacity * TOKEN_SCALE < TWO_32
    requires wait >= 2 && wait * c.ratePerNano >= RATE_SCALE && (wait - 1) * c.ratePerNano < RATE_SCALE
    ensures var p1 := Pair(Bucket(CapacityScaled(c) - 1000, 0), Full(c) - 1000 * RATE_SCALE, 1, 0);
            var p2 := Step(c, p1, Call(wait, TWO_32 - 1));
            && Timely(c, p1, [Call(wait, TWO_32 - 1)])
            && Stored(p2) > p2.level
  {
    var p1 := Pair(Bucket(CapacityScaled(c) - 1000, 0), Full(c) - 1000 * RATE_SCALE, 1, 0);
    var second := Call(wait, TWO_32 - 1);
    assert [second][1..] == [];
    assert wait * c.ratePerNano == (wait - 1) * c.ratePerNano + c.ratePerNano < 2 * RATE_SCALE;
    assert c.ratePerNano * (wait - 0) == wait * c.ratePerNano;
    assert c.ratePerNano * (wait - 1) == (wait - 1) * c.ratePerNano;
    CreditIsExactQuotient(c, 0, wait);
    assert TokensToAdd(c, wait) == 1;
  }

  /** The stored tokens never exceed the exact level exactly when the rate is zero or every
      nanosecond is worth at least a milli-token. */
  lemma NeverAboveExactCondition(c: Config)
    requires 0 < c.capacity && c.capacity * TOKEN_SCALE < TWO_32
    ensures NeverAboveExact(c) <==> c.ratePerNano == 0 || c.ratePerNano >= RATE_SCALE
  {
    if c.ratePerNano == 0 || c.ratePerNano >= RATE_SCALE {
      forall now: nat, calls: seq<Call> | Timely(c, Start(c, now), calls)
        ensures Stored(Exec(c, Start(c, now), calls)) <= Exec(c, Start(c, now), calls).level
      {
        FastNeverAbove(c, now, calls);
      }
    } else {
      var calls := FractionKeptWhileFull(c);
    }
  }

  /** Decisions follow the exact bucket: what is granted it covers but for less than a milli-token, and what it covers
      with the accumulated lag to spare is granted. */
  lemma DecisionsTrackExact(c: Config, now: nat, calls: seq<Call>, call: Call)
    requires Timely(c, Start(c, now), calls) && Timely(c, Exec(c, Start(c, now), calls), [call]) && call.weight > 0
    ensures var filled := Filled(c, Exec(c, Start(c, now), calls), call.now);
      var cost := call.weight * 1000 % 4_294_967_296 * 1_000_000_000;
      var granted := Acquired(c, Exec(c, Start(c, now), calls).bucket, call.now, call.weight).1;
      && (granted ==> cost < filled.level + 1_000_000_000)
      && (filled.level >= cost + (filled.refills + 1) * 1_000_000_000 ==> granted)
  {
    StartInv(c, now);
    RunKeepsInv(c, Start(c, now), calls);
    var p := Exec(c, Start(c, now), calls);
    if TokensToAdd(c, call.now - p.bucket.lastRefill) == 0 {
      QuietFillKeepsInv(c, p, call.now);
    } else {
      CreditFillKeepsInv(c, p, call.now);
    }
    LagFromInv(c, Filled(c, p, call.now));
  }
}

/** The leaky bucket under any number of threads. Every atomic access is one step, and the
    steps of different threads interleave freely with each other and with the clock. */
module LeakyBucketThreads {
  import opened RustInt
  import opened LeakyBucket

  datatype Op = TryAcquire(weight: nat) | Available

  /** Where a thread stands between two atomic accesses, with the values it holds. */
  datatype Pc =
    | Idle
    | ReadClock(op: Op)
    | LoadLast(op: Op, now: nat)
    | ClaimRefill(op: Op, now: nat, last: nat)
    | LoadTokens(op: Op, credit: nat)
    | AddTokens(op: Op, credit: nat, current: nat)
    | Inspect(op: Op)
    | Take(weight: nat, current: nat)

  /** `granted` records the total weight admitted so far. */
  datatype State = State(clock: nat, bucket: Bucket, threads: seq<Pc>, granted: nat)

  /** A weak compare-and-exchange may fail although the value matches: `spurious`. */
  datatype Action = Tick(dt: nat) | Call(thread: nat, op: Op) | Run(thread: nat, spurious: bool)

  function Init(c: Config, start: nat, threads: nat): State {
    State(start, Fresh(c, start), seq(threads, _ => Idle), 0)
  }

  function Move(s: State, t: nat, pc: Pc): State
    requires t < |s.threads|
  {
    s.(threads := s.threads[t := pc])
  }

  function Apply(c: Config, s: State, a: Action): State {
    match a
    case Tick(dt) => s.(clock := s.clock + dt)
    case Call(t, op) =>
      if t >= |s.threads| || s.threads[t] != Idle || op == TryAcquire(0) then s
      else Move(s, t, ReadClock(op))
    case Run(t, spurious) =>
      if t >= |s.threads| then s else RunThread(c, s, t, spurious)
  }

  function RunThread(c: Config, s: State, t: nat, spurious: bool): State
    requires t < |s.threads|
  {
    match s.threads[t]
    case Idle => s
    case ReadClock(op) => Move(s, t, LoadLast(op, s.clock))
    case LoadLast(op, now) =>
      var last := s.bucket.lastRefill;
      if TokensToAdd(c, SaturatingSub(now, last)) == 0 then Move(s, t, Inspect(op))
      else Move(s, t, ClaimRefill(op, now, last))
    case ClaimRefill(op, now, last) =>
      if s.bucket.lastRefill != last then Move(s, t, Inspect(op))
      else
        var credit := WrapU32(TokensToAdd(c, SaturatingSub(now, last)));
        Move(s, t, LoadTokens(op, credit)).(bucket := s.bucket.(lastRefill := now))
    case LoadTokens(op, credit) =>
      var current := s.bucket.tokens;
      if current == Topped(c, current, credit) then Move(s, t, Inspect(op))
      else Move(s, t, AddTokens(op, credit, current))
    case AddTokens(op, credit, current) =>
      if spurious || s.bucket.tokens != current then Move(s, t, LoadTokens(op, credit))
      else Move(s, t, Inspect(op)).(bucket := s.bucket.(tokens := Topped(c, current, credit)))
    case Inspect(Available) => Move(s, t, Idle)
    case Inspect(TryAcquire(weight)) =>
      if s.bucket.tokens < Required(weight) then Move(s, t, Idle)
      else Move(s, t, Take(weight, s.bucket.tokens))
    case Take(weight, current) =>
      if spurious || s.bucket.tokens != current || current < Required(weight)
      then Move(s, t, Inspect(TryAcquire(weight)))
      else Move(s, t, Idle).(bucket := s.bucket.(tokens := current - Required(weight)),
                             granted := s.granted + weight)
  }

  function Exec(c: Config, s: State, actions: seq<Action>): State
    decreases |actions|
  {
    if actions == [] then s else Exec(c, Apply(c, s, actions[0]), actions[1..])
  }

  /** Credit that a thread has claimed by moving last_refill but not yet added. */
  function Claimed(pc: Pc): nat {
    match pc
    case LoadTokens(_, credit) => credit
    case AddTokens(_, credit, _) => credit
    case _ => 0
  }

  function Pending(threads: seq<Pc>): nat {
    if threads == [] then 0 else Claimed(threads[0]) + Pending(threads[1..])
  }

  function Potential(s: State): nat {
    s.bucket.tokens + TOKEN_SCALE * s.granted + Pending(s.threads)
  }

  lemma {:induction false} PendingUpdate(threads: seq<Pc>, t: nat, pc: Pc)
    requires t < |threads|
    ensures Pending(threads[t := pc]) == Pending(threads) - Claimed(threads[t]) + Claimed(pc)
  {
    if t == 0 {
      assert threads[t := pc][1..] == threads[1..];
    } else {
      PendingUpdate(threads[1..], t - 1, pc);
      assert threads[t := pc][1..] == threads[1..][t - 1 := pc];
    }
  }

  lemma {:induction false} PendingOfIdle(n: nat)
    ensures Pending(seq(n, _ => Idle)) == 0
  {
    if n > 0 {
      PendingOfIdle(n - 1);
      assert seq(n, _ => Idle)[1..] == seq(n - 1, _ => Idle);
    }
  }

  predicate WeightAtMost(op: Op, limit: nat) {
    op.TryAcquire? ==> op.weight <= limit
  }

  predicate PcOk(pc: Pc, clock: nat, limit: nat) {
    match pc
    case Idle => true
    case ReadClock(op) => WeightAtMost(op, limit)
    case LoadLast(op, now) => WeightAtMost(op, limit) && now <= clock
    case ClaimRefill(op, now, last) => WeightAtMost(op, limit) && last < now <= clock
    case LoadTokens(op, _) => WeightAtMost(op, limit)
    case AddTokens(op, _, _) => WeightAtMost(op, limit)
    case Inspect(op) => WeightAtMost(op, limit)
    case Take(weight, _) => weight <= limit
  }

  /** Holds in every reachable state; `limit` bounds the weights in flight. */
  predicate Inv(c: Config, s: State, limit: nat) {
    && s.bucket.tokens <= CapacityScaled(c)
    && s.bucket.lastRefill <= s.clock
    && forall t :: 0 <= t < |s.threads| ==> PcOk(s.threads[t], s.clock, limit)
  }

  predicate ActionsWithin(actions: seq<Action>, limit: nat) {
    forall i :: 0 <= i < |actions| && actions[i].Call? ==> WeightAtMost(actions[i].op, limit)
  }

  /** The largest weight whose scaled cost still fits a u32. */
  const MAX_EXACT_WEIGHT: nat := 4_294_967

  /** No weight up to `limit` is charged less than its full cost by a bucket of this capacity: one whose cost
      wraps is refused even by a full bucket. */
  ghost predicate CostsInFull(c: Config, limit: nat) {
    forall w: nat | w <= limit && Required(w) <= CapacityScaled(c) :: Required(w) == w * TOKEN_SCALE
  }

  lemma {:induction false} InitInv(c: Config, start: nat, threads: nat, limit: nat)
    ensures Inv(c, Init(c, start, threads), limit)
  {
  }

  lemma StepKeepsInv(c: Config, s: State, a: Action, limit: nat)
    requires Inv(c, s, limit) && ActionsWithin([a], limit)
    ensures Inv(c, Apply(c, s, a), limit)
    ensures s.clock <= Apply(c, s, a).clock
    ensures s.bucket.lastRefill <= Apply(c, s, a).bucket.lastRefill
  {
    assert [a][0] == a;
    if a.Run? && a.thread < |s.threads| {
      var pc := s.threads[a.thread];
      assert PcOk(pc, s.clock, limit);
      if pc.LoadLast? {
        assert TokensToAdd(c, 0) == 0;
      }
    }
  }

  /** Winning the claim moves last_refill and puts the credit on the thread's account. */
  lemma ClaimPaysForItself(c: Config, s: State, t: nat, limit: nat)
    requires t < |s.threads| && PcOk(s.threads[t], s.clock, limit)
    requires s.threads[t].ClaimRefill? && s.threads[t].last == s.bucket.lastRefill
    ensures var s' := RunThread(c, s, t, false);
            Potential(s') <= Potential(s) + Earned(c, s.bucket.lastRefill, s'.bucket.lastRefill)
  {
    PendingUpdate(s.threads, t, RunThread(c, s, t, false).threads[t]);
    CreditAtMostEarned(c, s.threads[t].last, s.threads[t].now);
  }

  lemma RunDoesNotOverspend(c: Config, s: State, t: nat, spurious: bool, limit: nat)
    requires t < |s.threads| && PcOk(s.threads[t], s.clock, limit)
    requires CostsInFull(c, limit) && s.bucket.tokens <= CapacityScaled(c)
    requires !(s.threads[t].ClaimRefill? && s.threads[t].last == s.bucket.lastRefill)
    ensures Potential(RunThread(c, s, t, spurious)) <= Potential(s)
  {
    PendingUpdate(s.threads, t, RunThread(c, s, t, spurious).threads[t]);
    assert s.threads[t := s.threads[t]] == s.threads;
  }

  /** One step raises the potential by no more than was earned while last_refill moved. */
  lemma StepPaysForItself(c: Config, s: State, a: Action, limit: nat)
    requires CostsInFull(c, limit)
    requires Inv(c, s, limit) && ActionsWithin([a], limit)
    ensures s.bucket.lastRefill <= Apply(c, s, a).bucket.lastRefill
    ensures Potential(Apply(c, s, a))
         <= Potential(s) + Earned(c, s.bucket.lastRefill, Apply(c, s, a).bucket.lastRefill)
  {
    StepKeepsInv(c, s, a, limit);
    match a
    case Tick(_) =>
    case Call(t, op) =>
      if t < |s.threads| {
        PendingUpdate(s.threads, t, ReadClock(op));
      }
    case Run(t, spurious) =>
      if t < |s.threads| {
        assert PcOk(s.threads[t], s.clock, limit);
        if s.threads[t].ClaimRefill? && s.threads[t].last == s.bucket.lastRefill {
          ClaimPaysForItself(c, s, t, limit);
        } else {
          RunDoesNotOverspend(c, s, t, spurious, limit);
        }
      }
  }

  /** Over any stretch of any interleaving, what is granted is paid from the tokens and claimed
      credits at its start plus what the clock earned meanwhile. */
  lemma {:induction false} SegmentBound(c: Config, s: State, actions: seq<Action>, limit: nat)
    requires CostsInFull(c, limit)
    requires Inv(c, s, limit) && ActionsWithin(actions, limit)
    ensures Inv(c, Exec(c, s, actions), limit)
    ensures s.clock <= Exec(c, s, actions).clock
    ensures s.bucket.lastRefill <= Exec(c, s, actions).bucket.lastRefill
    ensures Potential(Exec(c, s, actions))
         <= Potential(s) + Earned(c, s.bucket.lastRefill, Exec(c, s, actions).bucket.lastRefill)
    decreases |actions|
  {
    if actions == [] {
      assert Earned(c, s.bucket.lastRefill, s.bucket.lastRefill) == 0;
    } else {
      var s' := Apply(c, s, actions[0]);
      StepKeepsInv(c, s, actions[0], limit);
      StepPaysForItself(c, s, actions[0], limit);
      SegmentBound(c, s', actions[1..], limit);
      EarnedAccumulates(c, s.bucket.lastRefill, s'.bucket.lastRefill, Exec(c, s, actions).bucket.lastRefill);
    }
  }

  /** Tokens left, weight granted and credit still claimed never exceed capacity plus earnings. */
  predicate Bounded(c: Config, start: nat, s: State) {
    && start <= s.bucket.lastRefill <= s.clock
    && Potential(s) <= TOKEN_SCALE * c.capacity + Earned(c, start, s.bucket.lastRefill)
    && TOKEN_SCALE * s.granted <= TOKEN_SCALE * c.capacity + Earned(c, start, s.clock)
  }

  lemma AdmissionBound(c: Config, start: nat, threads: nat, actions: seq<Action>, limit: nat)
    requires CostsInFull(c, limit) && ActionsWithin(actions, limit)
    ensures Bounded(c, start, Exec(c, Init(c, start, threads), actions))
  {
    InitInv(c, start, threads, limit);
    PendingOfIdle(threads);
    SegmentBound(c, Init(c, start, threads), actions, limit);
    RemainderAtMost(c.capacity * TOKEN_SCALE, TWO_32);
    var s := Exec(c, Init(c, start, threads), actions);
    EarnedAccumulates(c, start, s.bucket.lastRefill, s.clock);
  }

  ghost predicate BoundedOnEveryRun(c: Config, limit: nat) {
    forall start: nat, threads: nat, actions: seq<Action> ::
      ActionsWithin(actions, limit) ==> Bounded(c, start, Exec(c, Init(c, start, threads), actions))
  }

  /** The first weight whose cost wraps costs 0.704 tokens, and one call with it breaks the bound. */
  lemma WrappedWeightOverspends(c: Config)
    requires 0 < c.capacity <= MAX_EXACT_WEIGHT
    ensures var w := MAX_EXACT_WEIGHT + 1;
            var run := [Call(0, TryAcquire(w)), Run(0, false), Run(0, false), Run(0, false), Run(0, false)];
            ActionsWithin(run, w) && !Bounded(c, 0, Exec(c, Init(c, 0, 1), run))
  {
    var w := MAX_EXACT_WEIGHT + 1;
    var r := Run(0, false);
    var s0 := Init(c, 0, 1);
    var s1 := Move(s0, 0, ReadClock(TryAcquire(w)));
    var s2 := Move(s1, 0, LoadLast(TryAcquire(w), 0));
    var s3 := Move(s2, 0, Inspect(TryAcquire(w)));
    var s4 := Move(s3, 0, Take(w, CapacityScaled(c)));
    assert TokensToAdd(c, 0) == 0;
    assert Required(w) == 704;
    assert CapacityScaled(c) == 1000 * c.capacity;
    var s5 := Apply(c, s4, r);
    assert s5.granted == w;
    calc {
      Exec(c, s0, [Call(0, TryAcquire(w)), r, r, r, r]);
      { assert [Call(0, TryAcquire(w)), r, r, r, r][1..] == [r, r, r, r]; }
      Exec(c, s1, [r, r, r, r]);
      { assert [r, r, r, r][1..] == [r, r, r]; }
      Exec(c, s2, [r, r, r]);
      { assert [r, r, r][1..] == [r, r]; }
      Exec(c, s3, [r, r]);
      { assert [r, r][1..] == [r]; }
      Exec(c, s4, [r]);
      { assert [r][1..] == []; }
      s5;
    }
    assert Earned(c, 0, s5.clock) == 0;
  }

  /** Thread `t` makes up to `n` accesses that nobody contends; an idle thread makes none. */
  function Solo(c: Config, s: State, t: nat, n: nat): State
    requires t < |s.threads|
    decreases n
  {
    if n == 0 then s else Solo(c, RunThread(c, s, t, false), t, n - 1)
  }

  lemma {:induction false} SoloIdle(c: Config, s: State, t: nat, n: nat)
    requires t < |s.threads| && s.threads[t] == Idle
    ensures Solo(c, s, t, n) == s
    decreases n
  {
    if n > 0 {
      SoloIdle(c, s, t, n - 1);
    }
  }

  lemma SoloAcquire(c: Config, s: State, t: nat, weight: nat, n: nat)
    requires t < |s.threads| && s.threads[t] == Inspect(TryAcquire(weight)) && n >= 2
    ensures Solo(c, s, t, n) ==
            if s.bucket.tokens < Required(weight) then Move(s, t, Idle)
            else Move(s, t, Idle).(bucket := s.bucket.(tokens := s.bucket.tokens - Required(weight)),
                                   granted := s.granted + weight)
  {
    var s1 := RunThread(c, s, t, false);
    if s.bucket.tokens < Required(weight) {
      SoloIdle(c, s1, t, n - 1);
    } else {
      assert s1.threads[t] == Take(weight, s.bucket.tokens);
      SoloIdle(c, RunThread(c, s1, t, false), t, n - 2);
    }
  }

  lemma SoloTopUp(c: Config, s: State, t: nat, op: Op, credit: nat, n: nat) returns (left: nat)
    requires t < |s.threads| && s.threads[t] == LoadTokens(op, credit) && n >= 4
    ensures left >= 2
    ensures Solo(c, s, t, n)
         == Solo(c, Move(s, t, Inspect(op)).(bucket := s.bucket.(tokens := Topped(c, s.bucket.tokens, credit))), t,
                 left)
  {
    var s1 := RunThread(c, s, t, false);
    if s.bucket.tokens == Topped(c, s.bucket.tokens, credit) {
      left := n - 1;
    } else {
      left := n - 2;
      var s2 := RunThread(c, s1, t, false);
      assert s2.threads == s.threads[t := Inspect(op)];
    }
  }

  lemma CreditAlreadyU32(c: Config, current: nat, toAdd: nat)
    ensures Topped(c, current, WrapU32(toAdd)) == Topped(c, current, toAdd)
  {
  }

  lemma SoloClaim(c: Config, s: State, t: nat, op: Op, n: nat) returns (left: nat)
    requires t < |s.threads| && s.threads[t] == ClaimRefill(op, s.clock, s.bucket.lastRefill) && n >= 5
    requires TokensToAdd(c, SaturatingSub(s.clock, s.bucket.lastRefill)) != 0
    ensures left >= 2
    ensures Solo(c, s, t, n)
         == Solo(c, Move(s, t, Inspect(op)).(bucket := Refilled(c, s.bucket, s.clock)), t, left)
  {
    var credit := WrapU32(TokensToAdd(c, SaturatingSub(s.clock, s.bucket.lastRefill)));
    var s1 := Move(s, t, LoadTokens(op, credit)).(bucket := s.bucket.(lastRefill := s.clock));
    left := SoloTopUp(c, s1, t, op, credit, n - 1);
    assert s.threads[t := LoadTokens(op, credit)][t := Inspect(op)] == s.threads[t := Inspect(op)];
    CreditAlreadyU32(c, s.bucket.tokens, TokensToAdd(c, SaturatingSub(s.clock, s.bucket.lastRefill)));
  }

  /** The refill part of a call, from the clock read to the inspection of the tokens. */
  lemma SoloRefill(c: Config, s: State, t: nat, op: Op, n: nat) returns (left: nat)
    requires t < |s.threads| && s.threads[t] == LoadLast(op, s.clock) && n >= 6
    ensures left >= 2
    ensures Solo(c, s, t, n)
         == Solo(c, Move(s, t, Inspect(op)).(bucket := Refilled(c, s.bucket, s.clock)), t, left)
  {
    if TokensToAdd(c, SaturatingSub(s.clock, s.bucket.lastRefill)) == 0 {
      left := n - 1;
    } else {
      left := SoloClaim(c, Move(s, t, ClaimRefill(op, s.clock, s.bucket.lastRefill)), t, op, n - 1);
      assert s.threads[t := ClaimRefill(op, s.clock, s.bucket.lastRefill)][t := Inspect(op)]
          == s.threads[t := Inspect(op)];
    }
  }

  /** The sequential limiter is what one thread does when nobody interleaves with it. */
  lemma SoloCallIsSequential(c: Config, s: State, t: nat, weight: nat, n: nat)
    requires t < |s.threads| && s.threads[t] == Idle && weight > 0 && n >= 7
    ensures var (b, ok) := Acquired(c, s.bucket, s.clock, weight);
            Solo(c, Apply(c, s, Call(t, TryAcquire(weight))), t, n)
            == State(s.clock, b, s.threads, s.granted + if ok then weight else 0)
  {
    var op := TryAcquire(weight);
    var s1 := Apply(c, s, Call(t, op));
    var s2 := RunThread(c, s1, t, false);
    var left := SoloRefill(c, s2, t, op, n - 1);
    var s3 := Move(s2, t, Inspect(op)).(bucket := Refilled(c, s2.bucket, s2.clock));
    SoloAcquire(c, s3, t, weight, left);
    assert s3.threads[t := Idle] == s.threads;
  }

  // Wrapped weights against any capacity: one call after another, each after the bucket has earned its cost.

  lemma {:induction false} ExecSnoc(c: Config, s: State, actions: seq<Action>, more: seq<Action>)
    ensures Exec(c, s, actions + more) == Exec(c, Exec(c, s, actions), more)
    decreases |actions|
  {
    if actions == [] {
      assert actions + more == more;
    } else {
      assert (actions + more)[1..] == actions[1..] + more;
      ExecSnoc(c, Apply(c, s, actions[0]), actions[1..], more);
    }
  }

  function Runs(n: nat): seq<Action> {
    seq(n, _ => Run(0, false))
  }

  lemma {:induction false} RunsAreSolo(c: Config, s: State, n: nat)
    requires |s.threads| == 1
    ensures Exec(c, s, Runs(n)) == Solo(c, s, 0, n)
    decreases n
  {
    if n > 0 {
      assert Runs(n)[1..] == Runs(n - 1);
      RunsAreSolo(c, RunThread(c, s, 0, false), n - 1);
    }
  }

  /** The clock advances, then the one thread makes an uncontended call. */
  function Round(weight: nat, dt: nat): seq<Action> {
    [Tick(dt), Call(0, TryAcquire(weight))] + Runs(7)
  }

  lemma TwoActions(c: Config, s: State, first: Action, second: Action)
    ensures Exec(c, s, [first, second]) == Apply(c, Apply(c, s, first), second)
  {
    assert [first, second][1..] == [second] && [second][1..] == [];
    assert Exec(c, Apply(c, s, first), [second]) == Exec(c, Apply(c, Apply(c, s, first), second), []);
  }

  lemma RoundIsCall(c: Config, s: State, weight: nat, dt: nat)
    requires s.threads == [Idle] && weight > 0
    ensures var (b, ok) := Acquired(c, s.bucket, s.clock + dt, weight);
            Exec(c, s, Round(weight, dt))
            == State(s.clock + dt, b, [Idle], s.granted + if ok then weight else 0)
  {
    var call := Call(0, TryAcquire(weight));
    ExecSnoc(c, s, [Tick(dt), call], Runs(7));
    TwoActions(c, s, Tick(dt), call);
    RunsAreSolo(c, Apply(c, Apply(c, s, Tick(dt)), call), 7);
    SoloCallIsSequential(c, Apply(c, s, Tick(dt)), 0, weight, 7);
  }

  /** A wait after which the bucket has earned the cost of this weight, or none when it costs nothing. */
  predicate EarnsCost(c: Config, weight: nat, dt: nat) {
    && Required(weight) <= CapacityScaled(c)
    && if Required(weight) == 0 then dt == 0 else Required(weight) <= TokensToAdd(c, dt) < TWO_32
  }

  lemma RoundGrants(c: Config, b: Bucket, now: nat, weight: nat, dt: nat)
    requires EarnsCost(c, weight, dt) && weight > 0 && b.lastRefill == now
    ensures var (b', ok) := Acquired(c, b, now + dt, weight); ok && b'.lastRefill == now + dt
  {
    assert TokensToAdd(c, 0) == 0;
  }

  lemma Times(x: nat, k: nat)
    ensures x * (k + 1) == x * k + x
  {
  }

  lemma {:induction false} RoundsGrant(c: Config, weight: nat, dt: nat, k: nat) returns (actions: seq<Action>)
    requires EarnsCost(c, weight, dt) && weight > 0
    ensures ActionsWithin(actions, weight)
    ensures var s := Exec(c, Init(c, 0, 1), actions);
            s.threads == [Idle] && s.clock == s.bucket.lastRefill == dt * k && s.granted == weight * k
    decreases k
  {
    if k == 0 {
      actions := [];
    } else {
      var before := RoundsGrant(c, weight, dt, k - 1);
      actions := before + Round(weight, dt);
      var s := Exec(c, Init(c, 0, 1), before);
      ExecSnoc(c, Init(c, 0, 1), before, Round(weight, dt));
      RoundIsCall(c, s, weight, dt);
      RoundGrants(c, s.bucket, s.clock, weight, dt);
      Times(dt, k - 1);
      Times(weight, k - 1);
    }
  }

  /** Up to this rate, more than four tokens a nanosecond, earnings stay far below what a wrapped cost saves. */
  const MAX_RATE: nat := 4_294_967_295_000

  /** The shortest wait that earns `cost`. */
  function Wait(cost: nat, rate: nat): nat
    requires rate > 0
  {
    if cost == 0 then 0 else (cost * RATE_SCALE + rate - 1) / rate
  }

  lemma WaitEarns(cost: nat, rate: nat)
    requires 0 < rate <= MAX_RATE && cost <= 704
    ensures cost * RATE_SCALE <= Wait(cost, rate) * rate < 5000 * RATE_SCALE
    ensures cost > 0 ==> cost <= WrapU64(Wait(cost, rate) * rate) / RATE_SCALE < 5000
  {
    var x := cost * RATE_SCALE + rate - 1;
    assert x == (x / rate) * rate + x % rate;
    SmallMod(Wait(cost, rate) * rate, TWO_64);
  }

  /** Rounds of a wrapped weight, each as soon as its cost is earned, overspend: one more round than the
      capacity has units is enough. */
  lemma RoundsOverspend(c: Config, weight: nat) returns (actions: seq<Action>)
    requires weight > MAX_EXACT_WEIGHT && Required(weight) <= 704 && Required(weight) <= CapacityScaled(c)
    requires 0 < c.ratePerNano <= MAX_RATE
    ensures ActionsWithin(actions, weight) && !Bounded(c, 0, Exec(c, Init(c, 0, 1), actions))
  {
    var dt, k := Wait(Required(weight), c.ratePerNano), c.capacity + 1;
    WaitEarns(Required(weight), c.ratePerNano);
    actions := RoundsGrant(c, weight, dt, k);
    EarnedInRounds(c, dt, k);
    GrantedInRounds(weight, c.capacity);
  }

  lemma EarnedInRounds(c: Config, dt: nat, k: nat)
    requires dt * c.ratePerNano < 5000 * RATE_SCALE
    ensures Earned(c, 0, dt * k) <= 5000 * k
  {
    assert c.ratePerNano * (dt * k) == dt * c.ratePerNano * k;
    AtMostProduct(dt * c.ratePerNano, 5000 * RATE_SCALE, k);
    assert 5000 * RATE_SCALE * k == (5000 * k) * RATE_SCALE;
    DivMonotone(c.ratePerNano * (dt * k), (5000 * k) * RATE_SCALE, RATE_SCALE);
  }

  lemma AtMostProduct(x: nat, top: nat, k: nat)
    requires x <= top
    ensures x * k <= top * k
  {
    assert (top - x) * k >= 0;
  }

  lemma GrantedInRounds(weight: nat, capacity: nat)
    requires weight > MAX_EXACT_WEIGHT
    ensures TOKEN_SCALE * (weight * (capacity + 1)) > TOKEN_SCALE * capacity + 5000 * (capacity + 1)
  {
    AtMostProduct(MAX_EXACT_WEIGHT + 1, weight, capacity + 1);
  }

  /** The first weight whose cost wraps costs 704: with at least that many thousandths in a full bucket, costs
      are in full exactly when they fit a u32. */
  lemma FullCosts(c: Config, limit: nat)
    requires CapacityScaled(c) >= 704
    ensures CostsInFull(c, limit) <==> limit * TOKEN_SCALE < TWO_32
  {
    if limit > MAX_EXACT_WEIGHT {
      assert Required(MAX_EXACT_WEIGHT + 1) == 704;
    }
  }

  lemma WrappedCost(c: Config, limit: nat) returns (weight: nat)
    requires !CostsInFull(c, limit)
    ensures MAX_EXACT_WEIGHT < weight <= limit && Required(weight) <= CapacityScaled(c) && Required(weight) <= 704
  {
    if CapacityScaled(c) >= 704 {
      FullCosts(c, limit);
      weight := MAX_EXACT_WEIGHT + 1;
    } else {
      weight :| weight <= limit && Required(weight) <= CapacityScaled(c) && Required(weight) != weight * TOKEN_SCALE;
    }
  }

  /** Exactly which calls the bound covers: those that cannot get away with a wrapped cost. */
  lemma BoundHoldsExactly(c: Config, limit: nat)
    requires c.capacity > 0 && (c.capacity <= MAX_EXACT_WEIGHT || 0 < c.ratePerNano <= MAX_RATE)
    ensures BoundedOnEveryRun(c, limit) <==> CostsInFull(c, limit)
  {
    if CostsInFull(c, limit) {
      forall start: nat, threads: nat, actions: seq<Action> | ActionsWithin(actions, limit)
        ensures Bounded(c, start, Exec(c, Init(c, start, threads), actions))
      {
        AdmissionBound(c, start, threads, actions, limit);
      }
    } else {
      var weight := WrappedCost(c, limit);
      var actions: seq<Action>;
      if c.capacity <= MAX_EXACT_WEIGHT {
        WrappedWeightOverspends(c);
        actions := [Call(0, TryAcquire(MAX_EXACT_WEIGHT + 1))] + Runs(4);
        assert actions == [Call(0, TryAcquire(MAX_EXACT_WEIGHT + 1)), Run(0, false), Run(0, false), Run(0, false),
                           Run(0, false)];
      } else {
        actions := RoundsOverspend(c, weight);
      }
      assert ActionsWithin(actions, limit) && !Bounded(c, 0, Exec(c, Init(c, 0, 1), actions));
    }
  }

  // What a call comes to, contended or not.

  /** The thread is somewhere in a call of `op`. */
  predicate Serves(pc: Pc, op: Op) {
    match pc
    case Idle => false
    case ReadClock(o) => o == op
    case LoadLast(o, _) => o == op
    case ClaimRefill(o, _, _) => o == op
    case LoadTokens(o, _) => o == op
    case AddTokens(o, _, _) => o == op
    case Inspect(o) => o == op
    case Take(weight, _) => op == TryAcquire(weight)
  }

  /** Granted and paid for, or refused at a moment when the tokens did not cover the cost. */
  predicate Settled(s: State, s': State, weight: nat) {
    var cost := weight * 1000 % 4_294_967_296;
    || (cost <= s.bucket.tokens && s'.bucket == s.bucket.(tokens := s.bucket.tokens - cost)
        && s'.granted == s.granted + weight)
    || (s.bucket.tokens < cost && s'.bucket == s.bucket && s'.granted == s.granted)
  }

  /** A call goes on until it is settled; a lost or spuriously failed exchange does not end it. */
  lemma StepOfCall(c: Config, s: State, t: nat, spurious: bool, op: Op)
    requires t < |s.threads| && Serves(s.threads[t], op)
    ensures var s' := RunThread(c, s, t, spurious);
      if s'.threads[t] != Idle then Serves(s'.threads[t], op) && s'.granted == s.granted
      else if op.TryAcquire? then Settled(s, s', op.weight)
      else s'.bucket == s.bucket && s'.granted == s.granted
  {
  }

  /** Over any run: whenever a call for a weight ends, it is granted and paid for, or at that moment the tokens
      do not cover it. No call is refused while the tokens it inspects suffice. */
  lemma EveryCallIsSettled(c: Config, s: State, actions: seq<Action>, k: nat, t: nat, weight: nat)
    requires k < |actions| && t < |Exec(c, s, actions[..k]).threads|
    requires Serves(Exec(c, s, actions[..k]).threads[t], TryAcquire(weight))
    requires t < |Exec(c, s, actions[..k + 1]).threads| && Exec(c, s, actions[..k + 1]).threads[t] == Idle
    ensures Settled(Exec(c, s, actions[..k]), Exec(c, s, actions[..k + 1]), weight)
  {
    var before := Exec(c, s, actions[..k]);
    NextState(c, s, actions, k);
    match actions[k]
    case Tick(_) =>
    case Call(_, _) =>
    case Run(u, spurious) =>
      if u == t {
        StepOfCall(c, before, t, spurious, TryAcquire(weight));
      } else if u < |before.threads| {
        OthersStay(c, before, u, spurious, t);
      }
  }

  lemma NextState(c: Config, s: State, actions: seq<Action>, k: nat)
    requires k < |actions|
    ensures Exec(c, s, actions[..k + 1]) == Apply(c, Exec(c, s, actions[..k]), actions[k])
  {
    assert actions[..k + 1] == actions[..k] + [actions[k]];
    ExecSnoc(c, s, actions[..k], [actions[k]]);
    assert [actions[k]][1..] == [];
  }

  lemma OthersStay(c: Config, s: State, u: nat, spurious: bool, t: nat)
    requires u < |s.threads| && t < |s.threads| && u != t
    ensures |RunThread(c, s, u, spurious).threads| == |s.threads|
    ensures RunThread(c, s, u, spurious).threads[t] == s.threads[t]
  {
  }

  predicate Carries(pc: Pc, credit: nat) {
    (pc.LoadTokens? && pc.credit == credit) || (pc.AddTokens? && pc.credit == credit)
  }

  /** A claimed credit is carried through lost exchanges until the tokens have it, up to the capacity. */
  lemma CreditArrives(c: Config, s: State, t: nat, spurious: bool, credit: nat)
    requires t < |s.threads| && Carries(s.threads[t], credit)
    ensures var s' := RunThread(c, s, t, spurious);
      || (Carries(s'.threads[t], credit) && s'.bucket == s.bucket)
      || (s'.threads[t].Inspect? && s'.bucket == s.bucket.(tokens :=
            Min(Min(s.bucket.tokens + credit % 4_294_967_296, 4_294_967_295), c.capacity * 1000 % 4_294_967_296)))
  {
  }

  /** Only a winning claim moves last_refill, to the time it read, and it carries off what was earned since. */
  lemma ClaimCarriesEarnings(c: Config, s: State, t: nat, spurious: bool)
    requires t < |s.threads| && RunThread(c, s, t, spurious).bucket.lastRefill != s.bucket.lastRefill
    ensures var last, s' := s.bucket.lastRefill, RunThread(c, s, t, spurious);
      && s.threads[t].ClaimRefill? && s.threads[t].now == s'.bucket.lastRefill
      && Carries(s'.threads[t], SaturatingSub(s.threads[t].now, last) * c.ratePerNano % 18_446_744_073_709_551_616
                                / 1_000_000_000 % 4_294_967_296)
  {
  }
}

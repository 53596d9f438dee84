/** The fixed window under any number of threads: a reset claims `window_start` first and stores
    the zero count in a later step, with anything in between. */
module FixedWindowThreads {
  import opened RustInt
  import opened FixedWindow

  datatype Op = TryAcquire(weight: nat) | Available

  datatype Pc =
    | Idle
    | ReadClock(op: Op)
    | LoadStart(op: Op, now: nat)
    | ClaimWindow(op: Op, now: nat, start: nat)
    | StoreZero(op: Op)
    | LoadCount(op: Op)
    | AddWeight(weight: nat, current: nat)

  /** `granted` is the weight admitted in all, `sinceStore` since the last store of zero and
      `sinceClaim` since `window_start` last moved. */
  datatype State = State(clock: nat, w: Window, threads: seq<Pc>, granted: nat, sinceStore: nat, sinceClaim: nat)

  datatype Action = Tick(dt: nat) | Call(thread: nat, op: Op) | Run(thread: nat, spurious: bool)

  function Init(start: nat, threads: nat): State {
    State(start, Fresh(start), seq(threads, _ => Idle), 0, 0, 0)
  }

  function Move(s: State, t: nat, pc: Pc): State
    requires t < |s.threads|
  {
    s.(threads := s.threads[t := pc])
  }

  function Apply(c: Config, s: State, a: Action): State
    requires c.window > 0
  {
    match a
    case Tick(dt) => s.(clock := s.clock + dt)
    case Call(t, op) =>
      if t >= |s.threads| || s.threads[t] != Idle || op == TryAcquire(0) then s
      else Move(s, t, ReadClock(op))
    case Run(t, spurious) =>
      if t >= |s.threads| then s else RunThread(c, s, t, spurious)
  }

  function RunThread(c: Config, s: State, t: nat, spurious: bool): State
    requires c.window > 0 && t < |s.threads|
  {
    match s.threads[t]
    case Idle => s
    case ReadClock(op) => Move(s, t, LoadStart(op, s.clock))
    case LoadStart(op, now) =>
      if SaturatingSub(now, s.w.start) < c.window then Move(s, t, LoadCount(op))
      else Move(s, t, ClaimWindow(op, now, s.w.start))
    case ClaimWindow(op, now, start) =>
      if s.w.start != start then Move(s, t, LoadCount(op))
      else Move(s, t, StoreZero(op)).(w := s.w.(start := NewStart(c, start, now)), sinceClaim := 0)
    case StoreZero(op) => Move(s, t, LoadCount(op)).(w := s.w.(count := 0), sinceStore := 0)
    case LoadCount(Available) => Move(s, t, Idle)
    case LoadCount(TryAcquire(weight)) =>
      if SaturatingAddU32(s.w.count, weight) > c.limit then Move(s, t, Idle)
      else Move(s, t, AddWeight(weight, s.w.count))
    case AddWeight(weight, current) =>
      if spurious || s.w.count != current then Move(s, t, ReadClock(TryAcquire(weight)))
      else Move(s, t, Idle).(w := s.w.(count := SaturatingAddU32(current, weight)), granted := s.granted + weight,
                             sinceStore := s.sinceStore + weight, sinceClaim := s.sinceClaim + weight)
  }

  function Exec(c: Config, s: State, actions: seq<Action>): State
    requires c.window > 0
    decreases |actions|
  {
    if actions == [] then s else Exec(c, Apply(c, s, actions[0]), actions[1..])
  }

  /** Resets that are claimed but whose zero has not been stored yet. */
  function PendingStores(threads: seq<Pc>): nat {
    if threads == [] then 0 else (if threads[0].StoreZero? then 1 else 0) + PendingStores(threads[1..])
  }

  lemma {:induction false} PendingUpdate(threads: seq<Pc>, t: nat, pc: Pc)
    requires t < |threads|
    ensures PendingStores(threads[t := pc]) == PendingStores(threads)
            - (if threads[t].StoreZero? then 1 else 0) + (if pc.StoreZero? then 1 else 0)
  {
    if t == 0 {
      assert threads[t := pc][1..] == threads[1..];
    } else {
      PendingUpdate(threads[1..], t - 1, pc);
      assert threads[t := pc][1..] == threads[1..][t - 1 := pc];
    }
  }

  lemma {:induction false} PendingOfIdle(n: nat)
    ensures PendingStores(seq(n, _ => Idle)) == 0
  {
    if n > 0 {
      PendingOfIdle(n - 1);
      assert seq(n, _ => Idle)[1..] == seq(n - 1, _ => Idle);
    }
  }

  /** Windows that have begun since the limiter was created. */
  function Windows(c: Config, origin: nat, start: nat): nat
    requires c.window > 0 && origin <= start
  {
    (start - origin) / c.window
  }

  predicate PcOk(c: Config, pc: Pc, clock: nat) {
    match pc
    case LoadStart(_, now) => now <= clock
    case ClaimWindow(_, now, start) => now <= clock && SaturatingSub(now, start) >= c.window
    case AddWeight(weight, current) => SaturatingAddU32(current, weight) <= c.limit
    case _ => true
  }

  predicate Inv(c: Config, origin: nat, s: State)
    requires c.window > 0
  {
    && origin <= s.w.start <= s.clock
    && (s.w.start - origin) % c.window == 0
    && s.w.count == s.sinceStore <= c.limit
    && PendingStores(s.threads) <= Windows(c, origin, s.w.start)
    && s.granted <= c.limit * (Windows(c, origin, s.w.start) - PendingStores(s.threads)) + s.w.count
    && forall t :: 0 <= t < |s.threads| ==> PcOk(c, s.threads[t], s.clock)
  }

  lemma InitInv(c: Config, origin: nat, threads: nat)
    requires ValidConfig(c)
    ensures Inv(c, origin, Init(origin, threads))
  {
    PendingOfIdle(threads);
  }

  lemma WindowsGrow(c: Config, origin: nat, start: nat, now: nat)
    requires c.window > 0 && origin <= start && (start - origin) % c.window == 0
    requires SaturatingSub(now, start) >= c.window
    ensures (NewStart(c, start, now) - origin) % c.window == 0
    ensures start < NewStart(c, start, now) <= now
    ensures Windows(c, origin, NewStart(c, start, now)) >= Windows(c, origin, start) + 1
  {
    NewStartOnGrid(c, start, now);
    var m, k := (start - origin) / c.window, (now - start) / c.window;
    assert start - origin == m * c.window && NewStart(c, start, now) - start == k * c.window;
    assert (m + k) * c.window == m * c.window + k * c.window;
    DivModUnique((m + k) * c.window, c.window, m + k, 0);
    DivModUnique(k * c.window, c.window, k, 0);
  }

  lemma BudgetGrows(limit: nat, before: int, after: int)
    requires before <= after
    ensures limit * before <= limit * after
  {
  }

  lemma ClaimKeepsInv(c: Config, origin: nat, s: State, t: nat)
    requires ValidConfig(c) && Inv(c, origin, s) && t < |s.threads|
    requires s.threads[t].ClaimWindow? && s.threads[t].start == s.w.start
    ensures Inv(c, origin, RunThread(c, s, t, false))
  {
    var s' := RunThread(c, s, t, false);
    assert PcOk(c, s.threads[t], s.clock);
    WindowsGrow(c, origin, s.w.start, s.threads[t].now);
    PendingUpdate(s.threads, t, s'.threads[t]);
    var before := Windows(c, origin, s.w.start) - PendingStores(s.threads);
    var after := Windows(c, origin, s'.w.start) - PendingStores(s'.threads);
    BudgetGrows(c.limit, before, after);
    forall u | 0 <= u < |s'.threads| ensures PcOk(c, s'.threads[u], s'.clock) {
      assert PcOk(c, s.threads[u], s.clock);
    }
  }

  lemma StoreKeepsInv(c: Config, origin: nat, s: State, t: nat, spurious: bool)
    requires ValidConfig(c) && Inv(c, origin, s) && t < |s.threads| && s.threads[t].StoreZero?
    ensures Inv(c, origin, RunThread(c, s, t, spurious))
  {
    PendingUpdate(s.threads, t, LoadCount(s.threads[t].op));
    var free := Windows(c, origin, s.w.start) - PendingStores(s.threads);
    assert c.limit * (free + 1) == c.limit * free + c.limit;
  }

  lemma OtherRunKeepsInv(c: Config, origin: nat, s: State, t: nat, spurious: bool)
    requires ValidConfig(c) && c.limit < U32_MAX && Inv(c, origin, s) && t < |s.threads|
    requires !s.threads[t].StoreZero?
    requires !(s.threads[t].ClaimWindow? && s.threads[t].start == s.w.start)
    ensures Inv(c, origin, RunThread(c, s, t, spurious))
  {
    assert PcOk(c, s.threads[t], s.clock);
    PendingUpdate(s.threads, t, RunThread(c, s, t, spurious).threads[t]);
  }

  lemma StepKeepsInv(c: Config, origin: nat, s: State, a: Action)
    requires ValidConfig(c) && c.limit < U32_MAX && Inv(c, origin, s)
    ensures Inv(c, origin, Apply(c, s, a))
  {
    match a
    case Tick(dt) =>
      forall t | 0 <= t < |s.threads| ensures PcOk(c, s.threads[t], s.clock + dt) {
        assert PcOk(c, s.threads[t], s.clock);
      }
    case Call(t, op) =>
      if t < |s.threads| {
        PendingUpdate(s.threads, t, ReadClock(op));
      }
    case Run(t, spurious) =>
      if t < |s.threads| {
        if s.threads[t].ClaimWindow? && s.threads[t].start == s.w.start {
          ClaimKeepsInv(c, origin, s, t);
        } else if s.threads[t].StoreZero? {
          StoreKeepsInv(c, origin, s, t, spurious);
        } else {
          OtherRunKeepsInv(c, origin, s, t, spurious);
        }
      }
  }

  lemma {:induction false} RunKeepsInv(c: Config, origin: nat, s: State, actions: seq<Action>)
    requires ValidConfig(c) && c.limit < U32_MAX && Inv(c, origin, s)
    ensures Inv(c, origin, Exec(c, s, actions))
    decreases |actions|
  {
    if actions != [] {
      StepKeepsInv(c, origin, s, actions[0]);
      RunKeepsInv(c, origin, Apply(c, s, actions[0]), actions[1..]);
    }
  }

  /** The start stays on its grid and behind the clock, the count is what was granted since the last
      store of zero, and the total is one limit for each window begun. */
  predicate Bounded(c: Config, origin: nat, s: State)
    requires c.window > 0
  {
    && origin <= s.w.start <= s.clock && (s.w.start - origin) % c.window == 0
    && s.w.count == s.sinceStore <= c.limit
    && s.granted <= c.limit * (1 + Windows(c, origin, s.w.start))
  }

  lemma InvBounded(c: Config, origin: nat, s: State)
    requires ValidConfig(c) && Inv(c, origin, s)
    ensures Bounded(c, origin, s)
  {
    var n, pending := Windows(c, origin, s.w.start), PendingStores(s.threads);
    assert c.limit * (1 + n) == c.limit * (n - pending) + c.limit * (1 + pending);
    assert c.limit * (1 + pending) == c.limit + c.limit * pending;
  }

  ghost predicate BoundedOnEveryRun(c: Config)
    requires c.window > 0
  {
    forall origin: nat, threads: nat, actions: seq<Action> ::
      Bounded(c, origin, Exec(c, Init(origin, threads), actions))
  }

  lemma {:induction false} ExecConcat(c: Config, s: State, a: seq<Action>, b: seq<Action>)
    requires c.window > 0
    ensures Exec(c, s, a + b) == Exec(c, Exec(c, s, a), b)
    decreases |a|
  {
    if a == [] {
      assert a + b == b;
    } else {
      assert (a + b)[1..] == a[1..] + b;
      ExecConcat(c, Apply(c, s, a[0]), a[1..], b);
    }
  }

  /** One undisturbed call of thread `t`. */
  function CallAlone(t: nat, weight: nat): seq<Action> {
    [Call(t, TryAcquire(weight)), Run(t, false), Run(t, false), Run(t, false), Run(t, false)]
  }

  lemma CallAloneInWindow(c: Config, s: State, t: nat, weight: nat)
    requires ValidConfig(c) && t < |s.threads| && s.threads[t] == Idle && weight > 0
    requires s.clock < s.w.start + c.window
    requires SaturatingAddU32(s.w.count, weight) <= c.limit
    ensures Exec(c, s, CallAlone(t, weight))
         == s.(w := s.w.(count := SaturatingAddU32(s.w.count, weight)), granted := s.granted + weight,
               sinceStore := s.sinceStore + weight, sinceClaim := s.sinceClaim + weight)
  {
    var op := TryAcquire(weight);
    var r := Run(t, false);
    var s1 := Move(s, t, ReadClock(op));
    var s2 := Move(s, t, LoadStart(op, s.clock));
    var s3 := Move(s, t, LoadCount(op));
    var s4 := Move(s, t, AddWeight(weight, s.w.count));
    assert RunThread(c, s1, t, false) == s2;
    assert RunThread(c, s2, t, false) == s3;
    assert RunThread(c, s3, t, false) == s4;
    assert CallAlone(t, weight)[1..] == [r, r, r, r];
    assert [r, r, r, r][1..] == [r, r, r] && [r, r, r][1..] == [r, r] && [r, r][1..] == [r] && [r][1..] == [];
    assert Exec(c, s, CallAlone(t, weight)) == Exec(c, s1, [r, r, r, r]) == Exec(c, s2, [r, r, r]);
    assert Exec(c, s2, [r, r, r]) == Exec(c, s3, [r, r]) == Exec(c, s4, [r]);
    assert s4.threads[t := Idle] == s.threads;
    var s5 := s.(w := s.w.(count := SaturatingAddU32(s.w.count, weight)), granted := s.granted + weight,
                 sinceStore := s.sinceStore + weight, sinceClaim := s.sinceClaim + weight);
    assert RunThread(c, s4, t, false) == s5;
    assert Apply(c, s4, r) == s5;
    assert Exec(c, s4, [r]) == Exec(c, s5, []) == s5;
  }

  /** At the largest u32 limit the saturated sum never exceeds it, so every call is admitted. */
  lemma SaturationDisarmsLargestLimit(c: Config, threads: nat) returns (run: seq<Action>)
    requires ValidConfig(c) && c.limit == U32_MAX && threads > 0
    ensures !Bounded(c, 0, Exec(c, Init(0, threads), run))
    ensures Exec(c, Init(0, threads), run).sinceClaim == 2 * c.limit
  {
    var s := Init(0, threads);
    var s1 := s.(w := Window(U32_MAX, 0), granted := U32_MAX, sinceStore := U32_MAX, sinceClaim := U32_MAX);
    run := CallAlone(0, U32_MAX) + CallAlone(0, U32_MAX);
    CallAloneInWindow(c, s, 0, U32_MAX);
    CallAloneInWindow(c, s1, 0, U32_MAX);
    ExecConcat(c, s, CallAlone(0, U32_MAX), CallAlone(0, U32_MAX));
  }

  /** Exactly which limits are enforced: all below the largest u32. */
  lemma BoundHoldsExactly(c: Config)
    requires ValidConfig(c)
    ensures BoundedOnEveryRun(c) <==> c.limit < U32_MAX
  {
    if c.limit < U32_MAX {
      forall origin: nat, threads: nat, actions: seq<Action>
        ensures Bounded(c, origin, Exec(c, Init(origin, threads), actions))
      {
        InitInv(c, origin, threads);
        RunKeepsInv(c, origin, Init(origin, threads), actions);
        InvBounded(c, origin, Exec(c, Init(origin, threads), actions));
      }
    } else {
      var run := SaturationDisarmsLargestLimit(c, 1);
    }
  }

  // The limit of a single window. A zero stored late forgets what the window has granted so far, so
  // every thread that has claimed a window and not yet stored its zero can cost one limit more.

  lemma {:induction false} PendingAtMost(threads: seq<Pc>)
    ensures PendingStores(threads) <= |threads|
    ensures PendingStores(threads) == |threads| ==> forall t :: 0 <= t < |threads| ==> threads[t].StoreZero?
  {
    if threads != [] {
      PendingAtMost(threads[1..]);
    }
  }

  /** The window in progress has granted its count, and one limit for each thread without a pending store
      apart from one; nothing while every thread has one. */
  predicate WindowInv(c: Config, s: State) {
    var n, p := |s.threads|, PendingStores(s.threads);
    && p <= n && s.w.count <= c.limit
    && (p == n ==> s.sinceClaim == 0)
    && (p < n ==> s.sinceClaim <= s.w.count + c.limit * (n - 1 - p))
    && forall t :: 0 <= t < n ==> s.threads[t].AddWeight? ==>
         SaturatingAddU32(s.threads[t].current, s.threads[t].weight) <= c.limit
  }

  lemma OneStoreFewer(limit: nat, free: int)
    ensures limit * (free + 1) == limit * free + limit
  {
  }

  lemma ClaimKeepsWindowInv(c: Config, s: State, t: nat)
    requires ValidConfig(c) && WindowInv(c, s) && t < |s.threads|
    requires s.threads[t].ClaimWindow? && s.threads[t].start == s.w.start
    ensures WindowInv(c, RunThread(c, s, t, false))
  {
    var s' := RunThread(c, s, t, false);
    PendingUpdate(s.threads, t, s'.threads[t]);
    PendingAtMost(s'.threads);
    if PendingStores(s'.threads) < |s.threads| {
      BudgetGrows(c.limit, 0, |s.threads| - 1 - PendingStores(s'.threads));
    }
  }

  lemma StoreKeepsWindowInv(c: Config, s: State, t: nat, spurious: bool)
    requires ValidConfig(c) && WindowInv(c, s) && t < |s.threads| && s.threads[t].StoreZero?
    ensures WindowInv(c, RunThread(c, s, t, spurious))
  {
    var n, p := |s.threads|, PendingStores(s.threads);
    var s' := RunThread(c, s, t, spurious);
    PendingUpdate(s.threads, t, s'.threads[t]);
    PendingAtMost(s'.threads);
    OneStoreFewer(c.limit, n - 1 - p);
  }

  lemma OtherRunKeepsWindowInv(c: Config, s: State, t: nat, spurious: bool)
    requires ValidConfig(c) && c.limit < U32_MAX && WindowInv(c, s) && t < |s.threads|
    requires !s.threads[t].StoreZero?
    requires !(s.threads[t].ClaimWindow? && s.threads[t].start == s.w.start)
    ensures WindowInv(c, RunThread(c, s, t, spurious))
  {
    PendingUpdate(s.threads, t, RunThread(c, s, t, spurious).threads[t]);
    PendingAtMost(s.threads);
  }

  lemma StepKeepsWindowInv(c: Config, s: State, a: Action)
    requires ValidConfig(c) && c.limit < U32_MAX && WindowInv(c, s)
    ensures WindowInv(c, Apply(c, s, a)) && |Apply(c, s, a).threads| == |s.threads|
  {
    match a
    case Tick(_) =>
    case Call(t, op) =>
      if t < |s.threads| {
        PendingUpdate(s.threads, t, ReadClock(op));
      }
    case Run(t, spurious) =>
      if t < |s.threads| {
        if s.threads[t].ClaimWindow? && s.threads[t].start == s.w.start {
          ClaimKeepsWindowInv(c, s, t);
        } else if s.threads[t].StoreZero? {
          StoreKeepsWindowInv(c, s, t, spurious);
        } else {
          OtherRunKeepsWindowInv(c, s, t, spurious);
        }
      }
  }

  lemma {:induction false} RunKeepsWindowInv(c: Config, s: State, actions: seq<Action>)
    requires ValidConfig(c) && c.limit < U32_MAX && WindowInv(c, s)
    ensures WindowInv(c, Exec(c, s, actions)) && |Exec(c, s, actions).threads| == |s.threads|
    decreases |actions|
  {
    if actions != [] {
      StepKeepsWindowInv(c, s, actions[0]);
      RunKeepsWindowInv(c, Apply(c, s, actions[0]), actions[1..]);
    }
  }

  lemma InitWindowInv(c: Config, origin: nat, threads: nat)
    requires ValidConfig(c)
    ensures WindowInv(c, Init(origin, threads))
  {
    PendingOfIdle(threads);
    if threads > 0 {
      BudgetGrows(c.limit, 0, threads - 1);
    }
  }

  lemma WindowInvBounds(c: Config, s: State)
    requires WindowInv(c, s)
    ensures s.sinceClaim <= |s.threads| * c.limit
  {
    var n, p := |s.threads|, PendingStores(s.threads);
    if p < n {
      BudgetGrows(c.limit, n - 1 - p, n - 1);
      OneStoreFewer(c.limit, n - 1);
    } else {
      BudgetGrows(c.limit, 0, n);
    }
  }

  /** No interleaving of n threads lets more than n limits through in one window. */
  lemma WindowBound(c: Config, origin: nat, threads: nat, actions: seq<Action>)
    requires ValidConfig(c) && c.limit < U32_MAX
    ensures Exec(c, Init(origin, threads), actions).sinceClaim <= threads * c.limit
  {
    InitWindowInv(c, origin, threads);
    RunKeepsWindowInv(c, Init(origin, threads), actions);
    WindowInvBounds(c, Exec(c, Init(origin, threads), actions));
  }

  /** Threads before `done` have stored their zero, the others before `claimed` have it pending. */
  function Stalled(n: nat, done: nat, claimed: nat): seq<Pc> {
    seq(n, i => if i < done then LoadCount(Available) else if i < claimed then StoreZero(Available) else Idle)
  }

  /** `claimed` threads have each claimed one window and stalled. */
  function AllStalled(c: Config, n: nat, claimed: nat): State {
    State(claimed * c.window, Window(0, claimed * c.window), Stalled(n, 0, claimed), 0, 0, 0)
  }

  /** The last thread has filled the window once, and once more after each of `done` late stores. */
  function FilledAgain(c: Config, n: nat, done: nat): State
    requires n > 0
  {
    State((n - 1) * c.window, Window(c.limit, (n - 1) * c.window), Stalled(n, done, n - 1),
          (done + 1) * c.limit, c.limit, (done + 1) * c.limit)
  }

  function ClaimAndStall(c: Config, t: nat): seq<Action> {
    [Tick(c.window), Call(t, Available), Run(t, false), Run(t, false), Run(t, false)]
  }

  lemma NextWindow(c: Config, start: nat)
    requires c.window > 0
    ensures NewStart(c, start, start + c.window) == start + c.window
  {
    DivModUnique(c.window, c.window, 1, 0);
  }

  lemma ClaimAndStallRuns(c: Config, s: State, t: nat)
    requires ValidConfig(c) && t < |s.threads| && s.threads[t] == Idle && s.clock == s.w.start
    ensures Exec(c, s, ClaimAndStall(c, t))
         == Move(s, t, StoreZero(Available)).(clock := s.clock + c.window, w := s.w.(start := s.clock + c.window),
                                               sinceClaim := 0)
  {
    var r := Run(t, false);
    var s1 := s.(clock := s.clock + c.window);
    var s2 := Move(s1, t, ReadClock(Available));
    var s3 := Move(s1, t, LoadStart(Available, s1.clock));
    var s4 := Move(s1, t, ClaimWindow(Available, s1.clock, s.w.start));
    NextWindow(c, s.w.start);
    var s5 := Move(s1, t, StoreZero(Available)).(w := s.w.(start := s1.clock), sinceClaim := 0);
    assert RunThread(c, s2, t, false) == s3;
    assert RunThread(c, s3, t, false) == s4;
    assert RunThread(c, s4, t, false) == s5;
    assert ClaimAndStall(c, t)[1..] == [Call(t, Available), r, r, r];
    assert [Call(t, Available), r, r, r][1..] == [r, r, r];
    assert [r, r, r][1..] == [r, r] && [r, r][1..] == [r] && [r][1..] == [];
    assert Exec(c, s, ClaimAndStall(c, t)) == Exec(c, s1, [Call(t, Available), r, r, r]) == Exec(c, s2, [r, r, r]);
    assert Exec(c, s2, [r, r, r]) == Exec(c, s3, [r, r]) == Exec(c, s4, [r]) == s5;
  }

  lemma {:induction false} StallAll(c: Config, n: nat, claimed: nat) returns (run: seq<Action>)
    requires ValidConfig(c) && claimed <= n
    ensures Exec(c, Init(0, n), run) == AllStalled(c, n, claimed)
  {
    if claimed == 0 {
      run := [];
      assert Stalled(n, 0, 0) == seq(n, _ => Idle);
    } else {
      var t := claimed - 1;
      var before := StallAll(c, n, t);
      run := before + ClaimAndStall(c, t);
      ExecConcat(c, Init(0, n), before, ClaimAndStall(c, t));
      ClaimAndStallRuns(c, AllStalled(c, n, t), t);
      assert Stalled(n, 0, t)[t := StoreZero(Available)] == Stalled(n, 0, claimed);
      assert t * c.window + c.window == claimed * c.window;
    }
  }

  /** A stalled store and another full window of grants. */
  lemma FillOnceMore(c: Config, n: nat, done: nat)
    requires ValidConfig(c) && c.limit < U32_MAX && done + 1 < n
    ensures Exec(c, FilledAgain(c, n, done), [Run(done, false)] + CallAlone(n - 1, c.limit))
         == FilledAgain(c, n, done + 1)
  {
    var s := FilledAgain(c, n, done);
    var r := [Run(done, false)];
    var s1 := Move(s, done, LoadCount(Available)).(w := s.w.(count := 0), sinceStore := 0);
    assert r[1..] == [];
    assert Exec(c, s, r) == Exec(c, s1, []) == s1;
    CallAloneInWindow(c, s1, n - 1, c.limit);
    ExecConcat(c, s, r, CallAlone(n - 1, c.limit));
    assert Stalled(n, done, n - 1)[done := LoadCount(Available)] == Stalled(n, done + 1, n - 1);
    OneStoreFewer(c.limit, done + 1);
  }

  lemma {:induction false} FillAll(c: Config, n: nat, done: nat) returns (run: seq<Action>)
    requires ValidConfig(c) && c.limit < U32_MAX && done < n
    ensures Exec(c, Init(0, n), run) == FilledAgain(c, n, done)
  {
    if done == 0 {
      var stall := StallAll(c, n, n - 1);
      run := stall + CallAlone(n - 1, c.limit);
      ExecConcat(c, Init(0, n), stall, CallAlone(n - 1, c.limit));
      CallAloneInWindow(c, AllStalled(c, n, n - 1), n - 1, c.limit);
    } else {
      var before := FillAll(c, n, done - 1);
      var more := [Run(done - 1, false)] + CallAlone(n - 1, c.limit);
      run := before + more;
      ExecConcat(c, Init(0, n), before, more);
      FillOnceMore(c, n, done - 1);
    }
  }

  /** The bound is reached by every number of threads: all but one claim a window each and stall, and
      the last fills the window once, and again after every late store. */
  lemma StalledResetsMultiplyAWindow(c: Config, threads: nat) returns (run: seq<Action>)
    requires ValidConfig(c) && c.limit < U32_MAX && threads > 0
    ensures Exec(c, Init(0, threads), run).sinceClaim == threads * c.limit
  {
    run := FillAll(c, threads, threads - 1);
  }

  ghost predicate EveryWindowRespected(c: Config, threads: nat)
    requires c.window > 0
  {
    forall origin: nat, actions: seq<Action> :: Exec(c, Init(origin, threads), actions).sinceClaim <= c.limit
  }

  lemma {:induction false} NoThreadsNoGrants(c: Config, s: State, actions: seq<Action>)
    requires c.window > 0 && s.threads == []
    ensures Exec(c, s, actions).sinceClaim == s.sinceClaim
    decreases |actions|
  {
    if actions != [] {
      NoThreadsNoGrants(c, Apply(c, s, actions[0]), actions[1..]);
    }
  }

  lemma TwoLimitsAreMore(limit: nat, threads: nat)
    requires limit > 0 && threads >= 2
    ensures threads * limit > limit
  {
    BudgetGrows(limit, 2, threads);
  }

  /** The limit holds for each single window on every run exactly for one thread, and not even then at the
      largest u32 limit. */
  lemma WindowRespectedExactly(c: Config, threads: nat)
    requires ValidConfig(c)
    ensures EveryWindowRespected(c, threads) <==> threads == 0 || (threads == 1 && c.limit < U32_MAX)
  {
    if threads == 0 {
      forall origin: nat, actions: seq<Action>
        ensures Exec(c, Init(origin, threads), actions).sinceClaim <= c.limit
      {
        NoThreadsNoGrants(c, Init(origin, threads), actions);
      }
    } else if c.limit == U32_MAX {
      var run := SaturationDisarmsLargestLimit(c, threads);
    } else if threads == 1 {
      forall origin: nat, actions: seq<Action>
        ensures Exec(c, Init(origin, threads), actions).sinceClaim <= c.limit
      {
        WindowBound(c, origin, threads, actions);
      }
    } else {
      var run := StalledResetsMultiplyAWindow(c, threads);
      TwoLimitsAreMore(c.limit, threads);
    }
  }

  // What a call comes to, contended or not.

  /** The thread is somewhere in a call of `op`. */
  predicate Serves(pc: Pc, op: Op) {
    match pc
    case Idle => false
    case ReadClock(o) => o == op
    case LoadStart(o, _) => o == op
    case ClaimWindow(o, _, _) => o == op
    case StoreZero(o) => o == op
    case LoadCount(o) => o == op
    case AddWeight(weight, _) => op == TryAcquire(weight)
  }

  /** Granted and counted, or refused at a moment when the saturated sum exceeded the limit. */
  predicate Settled(c: Config, s: State, s': State, weight: nat) {
    var sum := Min(s.w.count + weight, 4_294_967_295);
    || (sum <= c.limit && s'.w == s.w.(count := sum) && s'.granted == s.granted + weight)
    || (sum > c.limit && s'.w == s.w && s'.granted == s.granted)
  }

  /** A call goes on until it is settled; a lost or spuriously failed exchange does not end it. */
  lemma StepOfCall(c: Config, s: State, t: nat, spurious: bool, op: Op)
    requires c.window > 0 && t < |s.threads| && Serves(s.threads[t], op) && PcOk(c, s.threads[t], s.clock)
    ensures var s' := RunThread(c, s, t, spurious);
      if s'.threads[t] != Idle then Serves(s'.threads[t], op) && s'.granted == s.granted
      else if op.TryAcquire? then Settled(c, s, s', op.weight)
      else s'.w == s.w && s'.granted == s.granted
  {
  }

  lemma NextState(c: Config, s: State, actions: seq<Action>, k: nat)
    requires c.window > 0 && k < |actions|
    ensures Exec(c, s, actions[..k + 1]) == Apply(c, Exec(c, s, actions[..k]), actions[k])
  {
    assert actions[..k + 1] == actions[..k] + [actions[k]];
    ExecConcat(c, s, actions[..k], [actions[k]]);
    assert [actions[k]][1..] == [];
  }

  lemma OthersStay(c: Config, s: State, u: nat, spurious: bool, t: nat)
    requires c.window > 0 && u < |s.threads| && t < |s.threads| && u != t
    ensures |RunThread(c, s, u, spurious).threads| == |s.threads|
    ensures RunThread(c, s, u, spurious).threads[t] == s.threads[t]
  {
  }

  /** Over any run: whenever a call for a weight ends, it is granted and counted, or at that moment the count
      leaves no room for it. */
  lemma EveryCallIsSettled(c: Config, origin: nat, threads: nat, actions: seq<Action>, k: nat, t: nat, weight: nat)
    requires ValidConfig(c) && c.limit < U32_MAX && k < |actions|
    requires t < |Exec(c, Init(origin, threads), actions[..k]).threads|
    requires Serves(Exec(c, Init(origin, threads), actions[..k]).threads[t], TryAcquire(weight))
    requires t < |Exec(c, Init(origin, threads), actions[..k + 1]).threads|
    requires Exec(c, Init(origin, threads), actions[..k + 1]).threads[t] == Idle
    ensures var s := Init(origin, threads);
      Settled(c, Exec(c, s, actions[..k]), Exec(c, s, actions[..k + 1]), weight)
  {
    var s := Init(origin, threads);
    var before := Exec(c, s, actions[..k]);
    InitInv(c, origin, threads);
    RunKeepsInv(c, origin, s, actions[..k]);
    assert PcOk(c, before.threads[t], before.clock);
    NextState(c, s, actions, k);
    match actions[k]
    case Tick(_) =>
    case Call(_, _) =>
    case Run(u, spurious) =>
      if u == t {
        StepOfCall(c, before, t, spurious, TryAcquire(weight));
      } else if u < |before.threads| {
        OthersStay(c, before, u, spurious, t);
      }
  }

  /** A lost or spuriously failed exchange starts the call over, from the clock. */
  lemma LostExchangeStartsOver(c: Config, s: State, t: nat, spurious: bool)
    requires c.window > 0 && t < |s.threads| && s.threads[t].AddWeight? && s.threads[t].weight > 0
    requires spurious || s.w.count != s.threads[t].current
    ensures RunThread(c, s, t, spurious) == Apply(c, Move(s, t, Idle), Call(t, TryAcquire(s.threads[t].weight)))
  {
    assert s.threads[t := Idle][t := ReadClock(TryAcquire(s.threads[t].weight))]
        == s.threads[t := ReadClock(TryAcquire(s.threads[t].weight))];
  }

  /** A claimed reset does store its zero, whatever has been counted meanwhile. */
  lemma ClaimedZeroIsStored(c: Config, s: State, t: nat, spurious: bool)
    requires c.window > 0 && t < |s.threads| && s.threads[t].StoreZero?
    ensures RunThread(c, s, t, spurious).w == Window(0, s.w.start)
  {
  }

  /** Only a winning claim moves `window_start`, and it owes a zero. */
  lemma ClaimOwesZero(c: Config, s: State, t: nat, spurious: bool)
    requires c.window > 0 && t < |s.threads| && RunThread(c, s, t, spurious).w.start != s.w.start
    ensures RunThread(c, s, t, spurious).threads[t].StoreZero?
  {
  }

  /** Thread `t` makes up to `n` accesses that nobody contends; an idle thread makes none. */
  function Solo(c: Config, s: State, t: nat, n: nat): State
    requires c.window > 0 && t < |s.threads|
    decreases n
  {
    if n == 0 then s else Solo(c, RunThread(c, s, t, false), t, n - 1)
  }

  lemma {:induction false} SoloIdle(c: Config, s: State, t: nat, n: nat)
    requires c.window > 0 && t < |s.threads| && s.threads[t] == Idle
    ensures Solo(c, s, t, n) == s
    decreases n
  {
    if n > 0 {
      assert s.threads[t := Idle] == s.threads;
      SoloIdle(c, s, t, n - 1);
    }
  }

  /** The counters a state keeps beside its words, after `weight` more. */
  function Booked(s: State, w: Window, weight: nat): State {
    s.(w := w, granted := s.granted + weight, sinceStore := s.sinceStore + weight, sinceClaim := s.sinceClaim + weight)
  }

  lemma SoloCount(c: Config, s: State, t: nat, weight: nat, n: nat)
    requires c.window > 0 && t < |s.threads| && s.threads[t] == LoadCount(TryAcquire(weight)) && n >= 2
    ensures var sum := SaturatingAddU32(s.w.count, weight);
      Solo(c, s, t, n) == if sum > c.limit then Move(s, t, Idle)
                          else Booked(Move(s, t, Idle), s.w.(count := sum), weight)
  {
    var s1 := RunThread(c, s, t, false);
    if SaturatingAddU32(s.w.count, weight) > c.limit {
      SoloIdle(c, s1, t, n - 1);
    } else {
      assert s1.threads[t := Idle] == s.threads[t := Idle];
      SoloIdle(c, RunThread(c, s1, t, false), t, n - 2);
    }
  }

  /** The roll of a call, from the load of `window_start` to the load of the count. */
  lemma SoloRoll(c: Config, s: State, t: nat, op: Op, n: nat) returns (left: nat)
    requires c.window > 0 && t < |s.threads| && s.threads[t] == LoadStart(op, s.clock) && n >= 5
    ensures left >= 2
    ensures var rolled := if s.clock < s.w.start + c.window then s
                          else s.(w := Rolled(c, s.w, s.clock), sinceStore := 0, sinceClaim := 0);
      Solo(c, s, t, n) == Solo(c, Move(rolled, t, LoadCount(op)), t, left)
  {
    if s.clock < s.w.start + c.window {
      left := n - 1;
    } else {
      left := n - 3;
      var s1 := RunThread(c, s, t, false);
      var s2 := RunThread(c, s1, t, false);
      var s3 := RunThread(c, s2, t, false);
      assert s3.threads == s.threads[t := LoadCount(op)];
      assert Solo(c, s1, t, n - 1) == Solo(c, s2, t, n - 2) == Solo(c, s3, t, n - 3);
    }
  }

  /** The sequential limiter is what one thread does when nobody interleaves with it. */
  lemma SoloCallIsSequential(c: Config, s: State, t: nat, weight: nat, n: nat)
    requires c.window > 0 && t < |s.threads| && s.threads[t] == Idle && weight > 0 && n >= 6
    ensures var (w, ok) := Acquired(c, s.w, s.clock, weight);
      var s' := Solo(c, Apply(c, s, Call(t, TryAcquire(weight))), t, n);
      && s'.clock == s.clock && s'.w == w && s'.threads == s.threads
      && s'.granted == s.granted + if ok then weight else 0
  {
    var op := TryAcquire(weight);
    var s1 := Apply(c, s, Call(t, op));
    var s2 := RunThread(c, s1, t, false);
    assert s2.threads == s.threads[t := LoadStart(op, s.clock)];
    var left := SoloRoll(c, s2, t, op, n - 1);
    var rolled := if s2.clock < s2.w.start + c.window then s2
                  else s2.(w := Rolled(c, s2.w, s2.clock), sinceStore := 0, sinceClaim := 0);
    SoloCount(c, Move(rolled, t, LoadCount(op)), t, weight, left);
    assert s.threads[t := Idle] == s.threads;
    assert Move(rolled, t, LoadCount(op)).threads[t := Idle] == s.threads;
  }
}

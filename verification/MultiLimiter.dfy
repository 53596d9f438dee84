/** Several limiters consulted one after the other, without rollback. */
module MultiLimiter {
  import opened RustInt
  import LeakyBucket
  import FixedWindow
  import FixedWindowThreads
  import LeakyBucketThreads

  /** A member limiter with its configuration, its time of creation and its two atomics. */
  datatype Member =
    | Leaky(leaky: LeakyBucket.Config, origin: nat, bucket: LeakyBucket.Bucket)
    | Windowed(fixed: FixedWindow.Config, origin: nat, window: FixedWindow.Window)

  predicate ValidMember(m: Member) {
    m.Windowed? ==> FixedWindow.ValidConfig(m.fixed)
  }

  predicate ValidMembers(members: seq<Member>) {
    forall i :: 0 <= i < |members| ==> ValidMember(members[i])
  }

  /** One member's own try_acquire. */
  function Try(m: Member, now: nat, weight: nat): (Member, bool)
    requires ValidMember(m)
  {
    match m
    case Leaky(c, _, b) => var (b', ok) := LeakyBucket.Acquired(c, b, now, weight); (m.(bucket := b'), ok)
    case Windowed(c, _, w) => var (w', ok) := FixedWindow.Acquired(c, w, now, weight); (m.(window := w'), ok)
  }

  /** `charged` counts the members that granted; `members` is what the call leaves behind. */
  datatype Outcome = Outcome(members: seq<Member>, charged: nat)

  /** A call charges a prefix: members before the first refuser granted the weight, the refuser only
      caught up with its clock, and members after it were never asked. */
  ghost predicate PrefixCharged(members: seq<Member>, nows: seq<nat>, weight: nat, o: Outcome)
    requires ValidMembers(members) && |nows| == |members|
  {
    && |o.members| == |members| && o.charged <= |members|
    && (forall i :: 0 <= i < o.charged ==> (o.members[i], true) == Try(members[i], nows[i], weight))
    && (o.charged < |members| ==> (o.members[o.charged], false) == Try(members[o.charged], nows[o.charged], weight))
    && (forall i :: o.charged < i < |members| ==> o.members[i] == members[i])
  }

  lemma PrefixChargedUnique(members: seq<Member>, nows: seq<nat>, weight: nat, a: Outcome, b: Outcome)
    requires ValidMembers(members) && |nows| == |members|
    requires PrefixCharged(members, nows, weight, a) && PrefixCharged(members, nows, weight, b)
    ensures a == b
  {
    assert forall i :: 0 <= i < a.charged ==> Try(members[i], nows[i], weight).1;
    assert forall i :: 0 <= i < b.charged ==> Try(members[i], nows[i], weight).1;
    assert a.charged < |members| ==> !Try(members[a.charged], nows[a.charged], weight).1;
    assert b.charged < |members| ==> !Try(members[b.charged], nows[b.charged], weight).1;
    assert a.members == b.members;
  }

  /** A call charges all members or none exactly when the first refuses or every one would grant:
      the decision of each depends on that member alone, so a caller could ask beforehand. */
  lemma AllOrNothingExactly(members: seq<Member>, nows: seq<nat>, weight: nat, o: Outcome)
    requires ValidMembers(members) && |nows| == |members| && PrefixCharged(members, nows, weight, o)
    ensures o.charged == 0 || o.charged == |members| <==>
              || members == []
              || !Try(members[0], nows[0], weight).1
              || forall i :: 0 <= i < |members| ==> Try(members[i], nows[i], weight).1
  {
    if 0 < o.charged {
      assert (o.members[0], true) == Try(members[0], nows[0], weight);
    }
    if o.charged < |members| {
      assert !Try(members[o.charged], nows[o.charged], weight).1;
    } else {
      forall i | 0 <= i < |members| ensures Try(members[i], nows[i], weight).1 {
        assert (o.members[i], true) == Try(members[i], nows[i], weight);
      }
    }
  }

  class Composite {
    var members: seq<Member>

    constructor (members: seq<Member>)
      ensures this.members == members
    {
      this.members := members;
    }

    /** `nows[i]` is what member `i` reads from its clock if it is asked. */
    method TryAcquire(nows: seq<nat>, weight: nat) returns (ok: bool, ghost charged: nat)
      requires ValidMembers(members) && |nows| == |members|
      modifies this
      ensures PrefixCharged(old(members), nows, weight, Outcome(members, charged))
      ensures ok <==> charged == |members|
    {
      charged := 0;
      if |members| == 0 {
        return true, 0;
      }
      var i := 0;
      while i < |members|
        invariant |members| == |old(members)| && i == charged <= |members|
        invariant forall j :: 0 <= j < i ==> (members[j], true) == Try(old(members)[j], nows[j], weight)
        invariant forall j :: i <= j < |members| ==> members[j] == old(members)[j]
      {
        var (m, granted) := Try(members[i], nows[i], weight);
        members := members[i := m];
        if !granted {
          return false, charged;
        }
        i, charged := i + 1, charged + 1;
      }
      return true, charged;
    }

    method Available(nows: seq<nat>) returns (n: nat)
      requires ValidMembers(members) && |nows| == |members|
      modifies this
      ensures |members| == |old(members)|
      ensures forall i :: 0 <= i < |members| ==> members[i] == CaughtUp(old(members)[i], nows[i])
      ensures |members| == 0 ==> n == U32_MAX
      ensures |members| > 0 ==> exists i :: 0 <= i < |members| && n == Quota(members[i])
      ensures forall i :: 0 <= i < |members| ==> n <= Quota(members[i])
    {
      if |members| == 0 {
        return U32_MAX;
      }
      members := members[0 := CaughtUp(members[0], nows[0])];
      n := Quota(members[0]);
      var i := 1;
      while i < |members|
        invariant |members| == |old(members)| && 1 <= i <= |members|
        invariant forall j :: 0 <= j < i ==> members[j] == CaughtUp(old(members)[j], nows[j])
        invariant forall j :: i <= j < |members| ==> members[j] == old(members)[j]
        invariant exists j :: 0 <= j < i && n == Quota(members[j])
        invariant forall j :: 0 <= j < i ==> n <= Quota(members[j])
      {
        members := members[i := CaughtUp(members[i], nows[i])];
        n := Min(n, Quota(members[i]));
        i := i + 1;
      }
    }
  }

  /** A member after it has read its clock. */
  function CaughtUp(m: Member, now: nat): Member
    requires ValidMember(m)
  {
    match m
    case Leaky(c, _, b) => m.(bucket := LeakyBucket.Refilled(c, b, now))
    case Windowed(c, _, w) => m.(window := FixedWindow.Rolled(c, w, now))
  }

  function Quota(m: Member): nat {
    match m
    case Leaky(_, _, b) => b.tokens / LeakyBucket.TOKEN_SCALE
    case Windowed(c, _, w) => SaturatingSub(c.limit, w.count)
  }

  /** What a caller can read first: a member without wrapped weight or disarmed limit grants exactly the weights
      up to its quota after catching up with its clock. */
  lemma GrantsUpToQuota(m: Member, now: nat, weight: nat)
    requires ValidMember(m) && Enforceable(m, weight) && weight > 0
    ensures Try(m, now, weight).1 <==> weight <= Quota(CaughtUp(m, now))
  {
    if m.Leaky? {
      WholeTokens(weight, LeakyBucket.Refilled(m.leaky, m.bucket, now).tokens);
    }
  }

  lemma WholeTokens(weight: nat, tokens: nat)
    ensures LeakyBucket.TOKEN_SCALE * weight <= tokens <==> weight <= tokens / LeakyBucket.TOKEN_SCALE
  {
  }

  /** In terms of the quotas: with enforceable members a call is all-or-nothing exactly when the weight is zero,
      exceeds the first member's quota, or is within the quota of every member. */
  lemma AllOrNothingByQuota(members: seq<Member>, nows: seq<nat>, weight: nat, o: Outcome)
    requires ValidMembers(members) && |nows| == |members| && PrefixCharged(members, nows, weight, o)
    requires forall i :: 0 <= i < |members| ==> Enforceable(members[i], weight)
    ensures o.charged == 0 || o.charged == |members| <==>
              || members == [] || weight == 0
              || weight > Quota(CaughtUp(members[0], nows[0]))
              || forall i :: 0 <= i < |members| ==> weight <= Quota(CaughtUp(members[i], nows[i]))
  {
    AllOrNothingExactly(members, nows, weight, o);
    forall i | 0 <= i < |members|
      ensures Try(members[i], nows[i], weight).1 <==> weight == 0 || weight <= Quota(CaughtUp(members[i], nows[i]))
    {
      if weight > 0 {
        GrantsUpToQuota(members[i], nows[i], weight);
      }
    }
  }

  datatype Request = Request(nows: seq<nat>, weight: nat)

  /** A run of the composite: `granted[i]` is what member `i` granted, `total` what callers got. */
  datatype Ledger = Ledger(members: seq<Member>, granted: seq<nat>, total: nat)

  /** One call, booked: any outcome allowed by PrefixCharged. */
  ghost predicate Books(l: Ledger, r: Request, l': Ledger)
    requires ValidMembers(l.members)
  {
    |r.nows| == |l.members| == |l.granted| == |l'.granted| &&
    exists charged: nat :: BooksCharged(l, r, l', charged)
  }

  ghost predicate BooksCharged(l: Ledger, r: Request, l': Ledger, charged: nat)
    requires ValidMembers(l.members) && |r.nows| == |l.members| == |l.granted| == |l'.granted|
  {
    && PrefixCharged(l.members, r.nows, r.weight, Outcome(l'.members, charged))
    && (forall i :: 0 <= i < |l.granted| ==> l'.granted[i] == l.granted[i] + if i < charged then r.weight else 0)
    && l'.total == l.total + if charged == |l.members| then r.weight else 0
  }

  /** What a member may have granted by now, in thousandths. */
  predicate WithinOwnBound(m: Member, granted: nat)
    requires ValidMember(m)
  {
    match m
    case Leaky(c, origin, b) =>
      origin <= b.lastRefill &&
      b.tokens + LeakyBucket.TOKEN_SCALE * granted
        <= LeakyBucket.TOKEN_SCALE * c.capacity + LeakyBucket.Earned(c, origin, b.lastRefill)
    case Windowed(c, origin, w) =>
      && origin <= w.start && (w.start - origin) % c.window == 0 && w.count <= c.limit
      && granted <= c.limit * FixedWindowThreads.Windows(c, origin, w.start) + w.count
  }

  /** The members a run can hold to a bound: no wrapped weight, no disarmed limit. */
  predicate Enforceable(m: Member, weight: nat) {
    match m
    case Leaky(_, _, _) => weight <= LeakyBucketThreads.MAX_EXACT_WEIGHT
    case Windowed(c, _, _) => FixedWindow.ValidConfig(c) && c.limit < U32_MAX
  }

  lemma LeakyMemberKeepsBound(m: Member, now: nat, weight: nat, granted: nat)
    requires m.Leaky? && Enforceable(m, weight) && WithinOwnBound(m, granted)
    ensures WithinOwnBound(Try(m, now, weight).0, granted + if Try(m, now, weight).1 then weight else 0)
  {
    RefillKeepsBound(m.leaky, m.origin, m.bucket, now);
    SmallMod(weight * LeakyBucket.TOKEN_SCALE, TWO_32);
  }

  lemma RefillKeepsBound(c: LeakyBucket.Config, origin: nat, b: LeakyBucket.Bucket, now: nat)
    requires origin <= b.lastRefill
    ensures var r := LeakyBucket.Refilled(c, b, now);
      && b.lastRefill <= r.lastRefill
      && r.tokens + LeakyBucket.Earned(c, origin, b.lastRefill)
         <= b.tokens + LeakyBucket.Earned(c, origin, r.lastRefill)
  {
    if now > b.lastRefill {
      LeakyBucket.CreditAtMostEarned(c, b.lastRefill, now);
      LeakyBucket.EarnedAccumulates(c, origin, b.lastRefill, now);
    } else {
      assert LeakyBucket.TokensToAdd(c, 0) == 0;
    }
  }

  lemma WindowMemberKeepsBound(m: Member, now: nat, weight: nat, granted: nat)
    requires m.Windowed? && Enforceable(m, weight) && WithinOwnBound(m, granted)
    ensures WithinOwnBound(Try(m, now, weight).0, granted + if Try(m, now, weight).1 then weight else 0)
  {
    var c, w := m.fixed, m.window;
    if weight != 0 && SaturatingSub(now, w.start) >= c.window {
      FixedWindowThreads.WindowsGrow(c, m.origin, w.start, now);
      var before := FixedWindowThreads.Windows(c, m.origin, w.start);
      var after := FixedWindowThreads.Windows(c, m.origin, FixedWindow.NewStart(c, w.start, now));
      FixedWindowThreads.BudgetGrows(c.limit, before + 1, after);
      assert c.limit * (before + 1) == c.limit * before + c.limit;
    }
  }

  ghost predicate LedgerInv(l: Ledger, weight: nat) {
    && |l.granted| == |l.members|
    && forall i :: 0 <= i < |l.members| ==>
         Enforceable(l.members[i], weight) && WithinOwnBound(l.members[i], l.granted[i]) && l.total <= l.granted[i]
  }

  lemma CallKeepsLedger(l: Ledger, r: Request, l': Ledger, weight: nat)
    requires LedgerInv(l, weight) && r.weight <= weight && Books(l, r, l')
    ensures LedgerInv(l', weight)
  {
    var charged: nat :| BooksCharged(l, r, l', charged);
    forall i | 0 <= i < |l.members|
      ensures Enforceable(l'.members[i], weight) && WithinOwnBound(l'.members[i], l'.granted[i])
      ensures l'.total <= l'.granted[i]
    {
      var m := l.members[i];
      if i <= charged {
        assert l'.members[i] == Try(m, r.nows[i], r.weight).0;
        assert Try(m, r.nows[i], r.weight).1 <==> i < charged;
        if m.Leaky? {
          LeakyMemberKeepsBound(m, r.nows[i], r.weight, l.granted[i]);
        } else {
          WindowMemberKeepsBound(m, r.nows[i], r.weight, l.granted[i]);
        }
      } else {
        assert l'.members[i] == m;
      }
    }
  }

  /** A sequence of ledgers, each booked from the one before. */
  ghost predicate IsRun(ledgers: seq<Ledger>, requests: seq<Request>) {
    && |ledgers| == |requests| + 1
    && forall i :: 0 <= i < |requests| ==>
         ValidMembers(ledgers[i].members) && Books(ledgers[i], requests[i], ledgers[i + 1])
  }

  /** Over any run of calls the composite grants at most what each member granted, and every member
      stays within its own bound, so the composite is within all of them. */
  lemma {:induction false} CompositeWithinEveryBound(ledgers: seq<Ledger>, requests: seq<Request>, weight: nat, n: nat)
    requires IsRun(ledgers, requests) && n <= |requests|
    requires LedgerInv(ledgers[0], weight)
    requires forall i :: 0 <= i < |requests| ==> requests[i].weight <= weight
    ensures LedgerInv(ledgers[n], weight)
    ensures forall i :: 0 <= i < |ledgers[n].members| ==>
              ledgers[n].total <= ledgers[n].granted[i] && WithinOwnBound(ledgers[n].members[i], ledgers[n].granted[i])
    decreases n
  {
    if n > 0 {
      CompositeWithinEveryBound(ledgers, requests, weight, n - 1);
      CallKeepsLedger(ledgers[n - 1], requests[n - 1], ledgers[n], weight);
    }
  }

  /** A call outside that condition: it is refused and leaves an earlier member charged. */
  lemma RefusalKeepsCharge()
    ensures exists members: seq<Member>, nows: seq<nat>, weight: nat, o: Outcome ::
              && ValidMembers(members) && |nows| == |members|
              && PrefixCharged(members, nows, weight, o)
              && o.charged < |members| && o.members[0] != members[0]
  {
    var roomy, tight := FixedWindow.Config(10, 1), FixedWindow.Config(1, 1);
    var members := [Windowed(roomy, 0, FixedWindow.Window(0, 0)), Windowed(tight, 0, FixedWindow.Window(0, 0))];
    var o := Outcome([members[0].(window := FixedWindow.Window(5, 0)), members[1]], 1);
    assert PrefixCharged(members, [0, 0], 5, o);
  }
}

/** The HTTP circuit breaker under sequential calls, judged by the history of events it produces. */
module CircuitBreaker {
  import opened RustInt
  import opened Reals

  datatype CircuitState = Closed | Open | HalfOpen

  datatype Config = Config(
    failureThreshold: real,
    minimumRequests: nat,
    openTimeout: nat,
    successThreshold: nat,
    windowDuration: nat)

  datatype Event =
    | Started(at: nat)
    | WindowReset(at: nat)
    | Refused(at: nat)
    | Admitted(at: nat)
    | Ran(from: nat, at: nat, ok: bool)
    | Tripped(at: nat)
    | Probing(at: nat)
    | Recovered(at: nat)

  /** One call: the clock when it enters, when the state is checked, when the wrapped
      function has returned, and when the outcome is recorded. */
  datatype Call = Call(enter: nat, check: nat, done: nat, settled: nat, ok: bool)

  predicate Ordered(call: Call) {
    call.enter <= call.check <= call.done <= call.settled
  }

  // What a history says, independently of the breaker's fields. Histories start with Started.

  predicate Begun(log: seq<Event>) {
    log != [] && log[0].Started?
  }

  function Last(log: seq<Event>): Event
    requires log != []
  {
    log[|log| - 1]
  }

  function Before(log: seq<Event>): seq<Event>
    requires log != []
  {
    log[..|log| - 1]
  }

  function Phase(log: seq<Event>): CircuitState {
    if log == [] then Closed
    else
      match Last(log)
      case Started(_) => Closed
      case Recovered(_) => Closed
      case Tripped(_) => Open
      case Probing(_) => HalfOpen
      case _ => Phase(Before(log))
  }

  /** When the circuit last opened, 0 if never. */
  function OpenedAt(log: seq<Event>): nat {
    if log == [] then 0
    else match Last(log) case Tripped(at) => at case _ => OpenedAt(Before(log))
  }

  function WindowStart(log: seq<Event>): nat {
    if log == [] then 0
    else
      match Last(log)
      case Started(at) => at
      case WindowReset(at) => at
      case Recovered(at) => at
      case _ => WindowStart(Before(log))
  }

  /** Calls admitted since the last window reset or recovery. */
  function Admissions(log: seq<Event>): nat {
    if log == [] then 0
    else
      match Last(log)
      case Started(_) => 0
      case WindowReset(_) => 0
      case Recovered(_) => 0
      case Admitted(_) => 1 + Admissions(Before(log))
      case _ => Admissions(Before(log))
  }

  /** Runs that failed since the last window reset or recovery. */
  function Failures(log: seq<Event>): nat {
    if log == [] then 0
    else
      match Last(log)
      case Started(_) => 0
      case WindowReset(_) => 0
      case Recovered(_) => 0
      case Ran(_, _, ok) => Failures(Before(log)) + if ok then 0 else 1
      case _ => Failures(Before(log))
  }

  /** Those of them that failed while the circuit was closed, which is what the breaker counts. */
  function CountedFailures(log: seq<Event>): nat {
    if log == [] then 0
    else
      match Last(log)
      case Started(_) => 0
      case WindowReset(_) => 0
      case Recovered(_) => 0
      case Ran(_, _, ok) => CountedFailures(Before(log)) + if !ok && Phase(log) == Closed then 1 else 0
      case _ => CountedFailures(Before(log))
  }

  /** Successful runs since the breaker last began probing. */
  function Successes(log: seq<Event>): nat {
    if log == [] then 0
    else
      match Last(log)
      case Probing(_) => 0
      case Ran(_, _, ok) => Successes(Before(log)) + if ok then 1 else 0
      case _ => Successes(Before(log))
  }

  predicate TooManyFailures(c: Config, log: seq<Event>) {
    && Admissions(log) >= c.minimumRequests
    && Admissions(log) > 0
    && Failures(log) as real / Admissions(log) as real >= c.failureThreshold
  }

  predicate MustTrip(c: Config, log: seq<Event>) {
    && log != [] && Last(log).Ran? && !Last(log).ok
    && (Phase(log) == HalfOpen || (Phase(log) == Closed && TooManyFailures(c, log)))
  }

  predicate MustRecover(c: Config, log: seq<Event>) {
    && log != [] && Last(log).Ran? && Last(log).ok
    && Phase(log) == HalfOpen && Successes(log) >= c.successThreshold
  }

  /** Between calls: nothing is running and nothing is left to record. */
  predicate Idle(c: Config, log: seq<Event>) {
    Begun(log) && !Last(log).Admitted? && !MustTrip(c, log) && !MustRecover(c, log)
  }

  /** The rules of the breaker: which event may follow a history. */
  predicate MayFollow(c: Config, log: seq<Event>, e: Event) {
    && Begun(log)
    && Last(log).at <= e.at
    && match e
       case Started(_) => false
       case WindowReset(at) => Idle(c, log) && at >= WindowStart(log) + c.windowDuration
       case Refused(at) => Idle(c, log) && Phase(log) == Open && at < OpenedAt(log) + c.openTimeout
       case Probing(at) => Idle(c, log) && Phase(log) == Open && at >= OpenedAt(log) + c.openTimeout
       case Admitted(_) => Idle(c, log) && Phase(log) != Open
       case Ran(from, at, _) => Last(log).Admitted? && Last(log).at <= from <= at
       case Tripped(_) => MustTrip(c, log)
       case Recovered(_) => MustRecover(c, log)
  }

  predicate Legal(c: Config, log: seq<Event>) {
    Begun(log) && (|log| == 1 || (Legal(c, Before(log)) && MayFollow(c, Before(log), Last(log))))
  }

  // One call, as it extends a history.

  function Entered(c: Config, log: seq<Event>, now: nat): seq<Event> {
    if now >= WindowStart(log) + c.windowDuration then log + [WindowReset(now)] else log
  }

  function Checked(c: Config, log: seq<Event>, now: nat): seq<Event> {
    if Phase(log) != Open then log + [Admitted(now)]
    else if now >= OpenedAt(log) + c.openTimeout then log + [Probing(now)] + [Admitted(now)]
    else log + [Refused(now)]
  }

  function Settled(c: Config, log: seq<Event>, now: nat): seq<Event> {
    if MustTrip(c, log) then log + [Tripped(now)]
    else if MustRecover(c, log) then log + [Recovered(now)]
    else log
  }

  function AfterCall(c: Config, log: seq<Event>, call: Call): seq<Event> {
    var checked := Checked(c, Entered(c, log, call.enter), call.check);
    if checked != [] && Last(checked).Admitted? then
      Settled(c, checked + [Ran(call.check, call.done, call.ok)], call.settled)
    else checked
  }

  function History(c: Config, start: nat, calls: seq<Call>): seq<Event> {
    if calls == [] then [Started(start)]
    else AfterCall(c, History(c, start, calls[..|calls| - 1]), calls[|calls| - 1])
  }

  /** Sequential calls on a clock that never goes back. */
  predicate Sequential(start: nat, calls: seq<Call>) {
    && (forall i :: 0 <= i < |calls| ==> Ordered(calls[i]) && start <= calls[i].enter)
    && (forall i :: 0 < i < |calls| ==> calls[i - 1].settled <= calls[i].enter)
  }

  lemma Grow(c: Config, log: seq<Event>, e: Event)
    requires Legal(c, log) && MayFollow(c, log, e)
    ensures Legal(c, log + [e]) && Last(log + [e]) == e && Before(log + [e]) == log
  {
  }

  lemma EnteredIsLegal(c: Config, log: seq<Event>, now: nat)
    requires Legal(c, log) && Idle(c, log) && Last(log).at <= now
    ensures var grown := Entered(c, log, now); Legal(c, grown) && Idle(c, grown) && Last(grown).at <= now
  {
    if now >= WindowStart(log) + c.windowDuration {
      Grow(c, log, WindowReset(now));
    }
  }

  lemma CheckedIsLegal(c: Config, log: seq<Event>, now: nat)
    requires Legal(c, log) && Idle(c, log) && Last(log).at <= now
    ensures var grown := Checked(c, log, now); Legal(c, grown) && Last(grown).at <= now
    ensures var grown := Checked(c, log, now);
      (Last(grown) == Admitted(now) && Phase(grown) != Open) || (Last(grown) == Refused(now) && Idle(c, grown))
  {
    if Phase(log) != Open {
      Grow(c, log, Admitted(now));
    } else if now >= OpenedAt(log) + c.openTimeout {
      Grow(c, log, Probing(now));
      Grow(c, log + [Probing(now)], Admitted(now));
    } else {
      Grow(c, log, Refused(now));
    }
  }

  lemma SettledIsLegal(c: Config, log: seq<Event>, now: nat)
    requires Legal(c, log) && Last(log).Ran? && Last(log).at <= now
    ensures var grown := Settled(c, log, now); Legal(c, grown) && Idle(c, grown) && Last(grown).at <= now
  {
    if MustTrip(c, log) {
      Grow(c, log, Tripped(now));
    } else if MustRecover(c, log) {
      Grow(c, log, Recovered(now));
    }
  }

  /** A call keeps the rules. */
  lemma CallIsLegal(c: Config, log: seq<Event>, call: Call)
    requires Legal(c, log) && Idle(c, log) && Ordered(call) && Last(log).at <= call.enter
    ensures var now := AfterCall(c, log, call); Legal(c, now) && Idle(c, now) && Last(now).at <= call.settled
  {
    EnteredIsLegal(c, log, call.enter);
    var entered := Entered(c, log, call.enter);
    CheckedIsLegal(c, entered, call.check);
    var checked := Checked(c, entered, call.check);
    if Last(checked).Admitted? {
      var ran := Ran(call.check, call.done, call.ok);
      Grow(c, checked, ran);
      SettledIsLegal(c, checked + [ran], call.settled);
    }
  }

  /** Every run of sequential calls keeps the rules. */
  lemma {:induction false} HistoryIsLegal(c: Config, start: nat, calls: seq<Call>)
    requires Sequential(start, calls)
    ensures var log := History(c, start, calls);
      Legal(c, log) && Idle(c, log) && Last(log).at <= if calls == [] then start else calls[|calls| - 1].settled
  {
    if calls != [] {
      var n := |calls| - 1;
      HistoryIsLegal(c, start, calls[..n]);
      CallIsLegal(c, History(c, start, calls[..n]), calls[n]);
    }
  }

  // What the rules imply for any legal history.

  lemma {:induction false} PrefixIsLegal(c: Config, log: seq<Event>, n: nat)
    requires Legal(c, log) && 0 < n <= |log|
    ensures Legal(c, log[..n])
    ensures n < |log| ==> MayFollow(c, log[..n], log[n])
    decreases |log|
  {
    if n == |log| {
      assert log[..n] == log;
    } else if n < |log| - 1 {
      PrefixIsLegal(c, Before(log), n);
      assert Before(log)[..n] == log[..n];
    }
  }

  /** After a trip at t the circuit is still open, or at least the open timeout has passed. */
  lemma {:induction false} OpenUntilTimeout(c: Config, log: seq<Event>, i: nat)
    requires Legal(c, log) && i < |log| && log[i].Tripped?
    ensures log[i].at <= OpenedAt(log) && log[i].at <= Last(log).at
    ensures Phase(log) == Open || Last(log).at >= log[i].at + c.openTimeout
    decreases |log|
  {
    if i < |log| - 1 {
      OpenUntilTimeout(c, Before(log), i);
    }
  }

  lemma QuietAfterTrip(c: Config, log: seq<Event>, i: nat, j: nat)
    requires Legal(c, log) && i < j < |log| && log[i].Tripped? && log[j].Ran?
    ensures log[j].from >= log[i].at + c.openTimeout
  {
    PrefixIsLegal(c, log, j);
    OpenUntilTimeout(c, log[..j], i);
    AdmittedMeansNotOpen(c, log[..j]);
  }

  lemma AdmittedMeansNotOpen(c: Config, log: seq<Event>)
    requires Legal(c, log) && Last(log).Admitted?
    ensures Phase(log) != Open
  {
  }

  lemma {:induction false} FailuresWithinAdmissions(c: Config, log: seq<Event>)
    requires Legal(c, log)
    ensures Failures(log) + (if Last(log).Admitted? then 1 else 0) <= Admissions(log)
  {
    if |log| > 1 {
      FailuresWithinAdmissions(c, Before(log));
    }
  }

  /** While the circuit is closed, every failure of the window has been counted. */
  lemma {:induction false} ClosedCountsAll(c: Config, log: seq<Event>)
    requires Legal(c, log) && Phase(log) == Closed
    ensures CountedFailures(log) == Failures(log)
  {
    if |log| > 1 && !Last(log).Recovered? {
      ClosedCountsAll(c, Before(log));
    }
  }

  /** Successful runs in a row, back to the last failed run or the start of probing. */
  function Streak(log: seq<Event>): nat {
    if log == [] then 0
    else
      match Last(log)
      case Probing(_) => 0
      case Ran(_, _, ok) => if ok then 1 + Streak(Before(log)) else 0
      case _ => Streak(Before(log))
  }

  /** While probing, every run so far succeeded, and there have been too few to recover. */
  lemma {:induction false} ProbingSoFar(c: Config, log: seq<Event>)
    requires Legal(c, log) && Phase(log) == HalfOpen
    ensures !MustTrip(c, log) ==> Streak(log) == Successes(log)
    ensures !MustTrip(c, log) && !MustRecover(c, log) ==> Successes(log) < Max(1, c.successThreshold)
    ensures !MustTrip(c, log) && MustRecover(c, log) ==> Successes(log) == Max(1, c.successThreshold)
  {
    if |log| > 1 && !Last(log).Probing? {
      ProbingSoFar(c, Before(log));
    }
  }

  // The same for every run of sequential calls.

  /** No wrapped function starts between a trip and the end of the open timeout. */
  lemma NoRunWhileOpen(c: Config, start: nat, calls: seq<Call>, i: nat, j: nat)
    requires Sequential(start, calls)
    requires var log := History(c, start, calls); i < j < |log| && log[i].Tripped? && log[j].Ran?
    ensures var log := History(c, start, calls); log[j].from >= log[i].at + c.openTimeout
  {
    HistoryIsLegal(c, start, calls);
    QuietAfterTrip(c, History(c, start, calls), i, j);
  }

  /** The circuit trips directly after a run that failed while probing, or that failed while closed
      with enough calls and a high enough share of failures in the window, and at no other time. */
  lemma TripsExactly(c: Config, start: nat, calls: seq<Call>, k: nat)
    requires Sequential(start, calls) && k < |History(c, start, calls)|
    ensures var log := History(c, start, calls); var past := log[..k + 1];
      (k + 1 < |log| && log[k + 1].Tripped?)
      <==> log[k].Ran? && !log[k].ok && (Phase(past) == HalfOpen || (Phase(past) == Closed && TooManyFailures(c, past)))
  {
    var log := History(c, start, calls);
    HistoryIsLegal(c, start, calls);
    PrefixIsLegal(c, log, k + 1);
    if k + 1 == |log| {
      assert log[..k + 1] == log;
    }
  }

  /** The circuit closes again directly after the run that completes max(1, success_threshold)
      successes in a row since probing began, and at no other time. */
  lemma RecoversExactly(c: Config, start: nat, calls: seq<Call>, k: nat)
    requires Sequential(start, calls) && k < |History(c, start, calls)|
    ensures var log := History(c, start, calls); var past := log[..k + 1];
      (k + 1 < |log| && log[k + 1].Recovered?)
      <==> log[k].Ran? && log[k].ok && Phase(past) == HalfOpen && Streak(past) == Max(1, c.successThreshold)
  {
    var log := History(c, start, calls);
    HistoryIsLegal(c, start, calls);
    PrefixIsLegal(c, log, k + 1);
    if k + 1 == |log| {
      assert log[..k + 1] == log;
    }
    if Phase(log[..k + 1]) == HalfOpen {
      ProbingSoFar(c, log[..k + 1]);
    }
  }

  /** With the circuit closed, the failures counted are those of the window, at most one for each call admitted. */
  lemma ClosedCountsAreExact(c: Config, start: nat, calls: seq<Call>)
    requires Sequential(start, calls)
    ensures var log := History(c, start, calls);
      Failures(log) <= Admissions(log) && (Phase(log) == Closed ==> CountedFailures(log) == Failures(log))
  {
    HistoryIsLegal(c, start, calls);
    FailuresWithinAdmissions(c, History(c, start, calls));
    if Phase(History(c, start, calls)) == Closed {
      ClosedCountsAll(c, History(c, start, calls));
    }
  }

  /** What a call appends after a possible window reset: no other reset, and an admission first or right after the
      start of probing. */
  lemma CallGrows(c: Config, log: seq<Event>, call: Call) returns (more: seq<Event>)
    requires log != []
    ensures AfterCall(c, log, call) == Entered(c, log, call.enter) + more && more != []
    ensures forall j :: 0 <= j < |more| ==> !more[j].WindowReset?
    ensures forall j :: 0 <= j < |more| && more[j].Admitted? ==> j == 0 || (j == 1 && more[0].Probing?)
  {
    var entered := Entered(c, log, call.enter);
    var now, ran := call.check, Ran(call.check, call.done, call.ok);
    var checked := Checked(c, entered, now);
    more := if Phase(entered) != Open then [Admitted(now)]
            else if now >= OpenedAt(entered) + c.openTimeout then [Probing(now), Admitted(now)] else [Refused(now)];
    assert checked == entered + more;
    if Last(checked).Admitted? {
      var tail := if MustTrip(c, checked + [ran]) then [Tripped(call.settled)]
                  else if MustRecover(c, checked + [ran]) then [Recovered(call.settled)] else [];
      assert Settled(c, checked + [ran], call.settled) == entered + (more + [ran] + tail);
      more := more + [ran] + tail;
    }
  }

  lemma WindowSurvives(log: seq<Event>, at: nat)
    ensures WindowStart(log + [Probing(at)]) == WindowStart(log)
  {
    assert Before(log + [Probing(at)]) == log;
  }

  /** A call that enters when the window has run out starts a new window first, and no call starts one otherwise;
      so no call is counted in a window that had run out when it entered. */
  lemma ResetsExactly(c: Config, start: nat, calls: seq<Call>, n: nat)
    requires n < |calls|
    ensures var before, after := History(c, start, calls[..n]), History(c, start, calls[..n + 1]);
      && |before| < |after| && after[..|before|] == before
      && (after[|before|] == WindowReset(calls[n].enter)
          <==> calls[n].enter >= WindowStart(before) + c.windowDuration)
      && (forall j :: |before| < j < |after| ==> !after[j].WindowReset?)
      && (after[|before|].WindowReset? ==> after[|before|].at == calls[n].enter)
      && (forall j :: |before| <= j < |after| && after[j].Admitted? ==>
            calls[n].enter < WindowStart(after[..j]) + Max(1, c.windowDuration))
  {
    var before, after := History(c, start, calls[..n]), History(c, start, calls[..n + 1]);
    var call := calls[n];
    assert calls[..n + 1][..n] == calls[..n];
    HistoryBegins(c, start, calls[..n]);
    var more := CallGrows(c, before, call);
    EnteredWindow(c, before, call.enter);
    ShapeOfCall(c, before, Entered(c, before, call.enter), more, call.enter);
  }

  lemma ShapeOfCall(c: Config, before: seq<Event>, entered: seq<Event>, more: seq<Event>, enter: nat)
    requires before != [] && more != [] && forall j :: 0 <= j < |more| ==> !more[j].WindowReset?
    requires forall j :: 0 <= j < |more| && more[j].Admitted? ==> j == 0 || (j == 1 && more[0].Probing?)
    requires enter < WindowStart(entered) + Max(1, c.windowDuration)
    requires entered == before || entered == before + [WindowReset(enter)]
    ensures var after := entered + more;
      && |before| < |after| && after[..|before|] == before
      && (after[|before|].WindowReset? <==> entered != before)
      && (after[|before|].WindowReset? ==> after[|before|] == WindowReset(enter))
      && (forall j :: |before| < j < |after| ==> !after[j].WindowReset?)
      && (forall j :: |before| <= j < |after| && after[j].Admitted? ==>
            enter < WindowStart(after[..j]) + Max(1, c.windowDuration))
  {
    var after := entered + more;
    assert entered != before ==> after[|before|] == WindowReset(enter);
    forall j | |before| <= j < |after| && after[j].Admitted?
      ensures enter < WindowStart(after[..j]) + Max(1, c.windowDuration)
    {
      AdmittedWindow(entered, more, j);
    }
    if entered == before {
      assert after[|before|] == more[0];
    } else {
      assert after[|before|] == entered[|before|];
    }
    forall j | |before| < j < |after| ensures !after[j].WindowReset? {
      assert after[j] == more[j - |entered|];
    }
  }

  lemma AdmittedWindow(entered: seq<Event>, more: seq<Event>, j: nat)
    requires |entered| <= j < |entered + more| && (entered + more)[j].Admitted?
    requires forall j :: 0 <= j < |more| && more[j].Admitted? ==> j == 0 || (j == 1 && more[0].Probing?)
    ensures WindowStart((entered + more)[..j]) == WindowStart(entered)
  {
    var after := entered + more;
    assert after[j] == more[j - |entered|];
    if j == |entered| {
      assert after[..j] == entered;
    } else {
      assert after[..j] == entered + [more[0]];
      WindowSurvives(entered, more[0].at);
    }
  }

  lemma {:induction false} HistoryBegins(c: Config, start: nat, calls: seq<Call>)
    ensures History(c, start, calls) != []
    decreases |calls|
  {
    if calls != [] {
      HistoryBegins(c, start, calls[..|calls| - 1]);
      var more := CallGrows(c, History(c, start, calls[..|calls| - 1]), calls[|calls| - 1]);
    }
  }

  lemma EnteredWindow(c: Config, log: seq<Event>, now: nat)
    requires log != []
    ensures var entered := Entered(c, log, now);
      && now < WindowStart(entered) + Max(1, c.windowDuration) && entered[..|log|] == log
      && if now >= WindowStart(log) + c.windowDuration then entered == log + [WindowReset(now)] else entered == log
  {
  }

  /** Exactly which calls run: all while the circuit is closed or probing, and while it is open those whose check finds
      the open timeout over; the run starts at the check. */
  lemma RunsExactly(c: Config, start: nat, calls: seq<Call>, n: nat)
    requires n < |calls|
    ensures var before, after := History(c, start, calls[..n]), History(c, start, calls[..n + 1]);
      && |before| <= |after|
      && ((exists j :: |before| <= j < |after| && after[j].Ran?)
          <==> Phase(before) != Open || calls[n].check >= OpenedAt(before) + c.openTimeout)
      && (forall j :: |before| <= j < |after| && after[j].Ran? ==>
            after[j] == Ran(calls[n].check, calls[n].done, calls[n].ok))
  {
    var before, after := History(c, start, calls[..n]), History(c, start, calls[..n + 1]);
    var call := calls[n];
    assert calls[..n + 1][..n] == calls[..n];
    HistoryBegins(c, start, calls[..n]);
    RunOfCall(c, before, call);
  }

  lemma RunOfCall(c: Config, before: seq<Event>, call: Call)
    requires before != []
    ensures var after := AfterCall(c, before, call);
      && |before| <= |after|
      && ((exists j :: |before| <= j < |after| && after[j].Ran?)
          <==> Phase(before) != Open || call.check >= OpenedAt(before) + c.openTimeout)
      && (forall j :: |before| <= j < |after| && after[j].Ran? ==> after[j] == Ran(call.check, call.done, call.ok))
  {
    var entered, ran := Entered(c, before, call.enter), Ran(call.check, call.done, call.ok);
    EnteredKeeps(c, before, call.enter);
    var checked := Checked(c, entered, call.check);
    CheckedShape(c, entered, call.check);
    NoRunYet(before, entered, checked);
    if Last(checked).Admitted? {
      SettledShape(c, checked + [ran], call.settled);
      RunThenSettled(before, checked, ran, Settled(c, checked + [ran], call.settled));
    }
  }

  lemma NoRunYet(before: seq<Event>, entered: seq<Event>, checked: seq<Event>)
    requires |before| <= |entered| < |checked| && checked[..|entered|] == entered
    requires forall j :: |before| <= j < |entered| ==> !entered[j].Ran?
    requires forall j :: |entered| <= j < |checked| ==> !checked[j].Ran?
    ensures forall j :: |before| <= j < |checked| ==> !checked[j].Ran?
  {
    assert forall j :: 0 <= j < |entered| ==> checked[j] == entered[j];
  }

  lemma RunThenSettled(before: seq<Event>, checked: seq<Event>, ran: Event, settled: seq<Event>)
    requires |before| <= |checked| && ran.Ran? && |checked| < |settled| && settled[..|checked| + 1] == checked + [ran]
    requires forall j :: |before| <= j < |checked| ==> !checked[j].Ran?
    requires forall j :: |checked| < j < |settled| ==> !settled[j].Ran?
    ensures settled[|checked|] == ran && forall j :: |before| <= j < |settled| && settled[j].Ran? ==> settled[j] == ran
  {
    assert forall j :: 0 <= j <= |checked| ==> settled[j] == (checked + [ran])[j];
  }

  lemma EnteredKeeps(c: Config, log: seq<Event>, now: nat)
    requires log != []
    ensures var entered := Entered(c, log, now);
      && Phase(entered) == Phase(log) && OpenedAt(entered) == OpenedAt(log)
      && |log| <= |entered| && forall j :: |log| <= j < |entered| ==> !entered[j].Ran?
  {
    assert Before(log + [WindowReset(now)]) == log;
  }

  lemma CheckedShape(c: Config, log: seq<Event>, now: nat)
    requires log != []
    ensures var checked := Checked(c, log, now);
      && |log| < |checked| && checked[..|log|] == log && (forall j :: |log| <= j < |checked| ==> !checked[j].Ran?)
      && (Last(checked).Admitted? <==> Phase(log) != Open || now >= OpenedAt(log) + c.openTimeout)
  {
  }

  lemma SettledShape(c: Config, log: seq<Event>, now: nat)
    requires log != []
    ensures var settled := Settled(c, log, now);
      |log| <= |settled| && settled[..|log|] == log && forall j :: |log| <= j < |settled| ==> !settled[j].Ran?
  {
  }

  // The counts by position.

  predicate StartsWindow(e: Event) {
    e.Started? || e.WindowReset? || e.Recovered?
  }

  function AdmittedAfter(log: seq<Event>, k: nat): set<int> {
    set j | k < j < |log| && log[j].Admitted?
  }

  function FailedAfter(log: seq<Event>, k: nat): set<int> {
    set j | k < j < |log| && log[j].Ran? && !log[j].ok
  }

  /** The window counts what happened since the last event that starts one, and starts when that happened. */
  lemma {:induction false} CountsByPosition(log: seq<Event>, k: nat)
    requires k < |log| && StartsWindow(log[k]) && forall j :: k < j < |log| ==> !StartsWindow(log[j])
    ensures WindowStart(log) == log[k].at
    ensures Admissions(log) == |AdmittedAfter(log, k)| && Failures(log) == |FailedAfter(log, k)|
    decreases |log|
  {
    if k == |log| - 1 {
      NothingAfter(AdmittedAfter(log, k), k);
      NothingAfter(FailedAfter(log, k), k);
    } else {
      CountsByPosition(Before(log), k);
      LastAdmission(log, k);
      LastFailure(log, k);
    }
  }

  lemma NothingAfter(s: set<int>, k: int)
    requires forall j :: j in s ==> k < j < k + 1
    ensures |s| == 0
  {
    if s != {} && forall j :: j !in s {
      assert false;
    }
  }

  lemma LastAdmission(log: seq<Event>, k: nat)
    requires k < |log| - 1
    ensures |AdmittedAfter(log, k)| == |AdmittedAfter(Before(log), k)| + if Last(log).Admitted? then 1 else 0
  {
    var n, admitted := |log| - 1, AdmittedAfter(Before(log), k);
    assert AdmittedAfter(log, k) == if Last(log).Admitted? then admitted + {n} else admitted;
  }

  lemma LastFailure(log: seq<Event>, k: nat)
    requires k < |log| - 1
    ensures |FailedAfter(log, k)| == |FailedAfter(Before(log), k)| + if Last(log).Ran? && !Last(log).ok then 1 else 0
  {
    var n, failed := |log| - 1, FailedAfter(Before(log), k);
    assert FailedAfter(log, k) == if Last(log).Ran? && !Last(log).ok then failed + {n} else failed;
  }

  /** The circuit is as the last event that changes it says: open since a trip, half open since probing began. */
  lemma {:induction false} PhaseByPosition(log: seq<Event>, k: nat)
    requires k < |log| && (log[k].Started? || log[k].Recovered? || log[k].Tripped? || log[k].Probing?)
    requires forall j :: k < j < |log| ==>
               !log[j].Started? && !log[j].Recovered? && !log[j].Tripped? && !log[j].Probing?
    ensures Phase(log) == if log[k].Tripped? then Open else if log[k].Probing? then HalfOpen else Closed
    ensures log[k].Tripped? ==> OpenedAt(log) == log[k].at
    decreases |log|
  {
    if k < |log| - 1 {
      PhaseByPosition(Before(log), k);
    }
  }

  /** The trip condition in plain terms: a share of failures of at least the threshold, among enough admitted calls. */
  lemma TooManyExactly(c: Config, log: seq<Event>)
    requires Admissions(log) > 0
    ensures TooManyFailures(c, log)
       <==> Admissions(log) >= c.minimumRequests
            && Failures(log) as real >= c.failureThreshold * Admissions(log) as real
  {
    QuotientCompare(Failures(log) as real, Admissions(log) as real, c.failureThreshold);
  }

  // The breaker itself.

  class CircuitBreaker {
    const config: Config
    var state: CircuitState
    var openedAt: nat
    var totalRequests: nat
    var failedRequests: nat
    var halfOpenSuccesses: nat
    var windowStart: nat
    ghost var log: seq<Event>

    /** The fields are what the history so far says they should be. */
    ghost predicate Agrees()
      reads this
    {
      && state == Phase(log) && openedAt == OpenedAt(log) && windowStart == WindowStart(log)
      && totalRequests == Admissions(log) && failedRequests == CountedFailures(log)
      && (state == HalfOpen ==> halfOpenSuccesses == Successes(log))
    }

    ghost predicate Valid()
      reads this
    {
      Agrees() && Legal(config, log)
    }

    constructor (config: Config, now: nat)
      ensures this.config == config && Valid() && Idle(config, log) && log == [Started(now)]
    {
      this.config := config;
      state, openedAt, windowStart := Closed, 0, now;
      totalRequests, failedRequests, halfOpenSuccesses := 0, 0, 0;
      log := [Started(now)];
    }

    method ResetWindowIfNeeded(now: nat)
      requires Valid() && Idle(config, log) && Last(log).at <= now
      modifies this
      ensures Valid() && log == Entered(config, old(log), now)
    {
      EnteredIsLegal(config, log, now);
      var elapsed := now - windowStart;
      if elapsed >= config.windowDuration {
        windowStart := now;
        totalRequests := 0;
        failedRequests := 0;
        log := log + [WindowReset(now)];
      }
    }

    /** check_allow: two clock readings, one for the window and one for the open timeout. */
    method CheckAllow(enter: nat, check: nat) returns (allowed: bool)
      requires Valid() && Idle(config, log) && Last(log).at <= enter <= check
      modifies this
      ensures Valid() && log != [] && log == Checked(config, Entered(config, old(log), enter), check)
      ensures allowed <==> Last(log).Admitted?
      ensures allowed ==> Last(log) == Admitted(check)
      ensures Last(log).at <= check && (!allowed ==> Idle(config, log))
    {
      EnteredIsLegal(config, log, enter);
      ResetWindowIfNeeded(enter);
      CheckedIsLegal(config, log, check);
      match state {
        case Closed =>
          totalRequests := totalRequests + 1;
        case Open =>
          var elapsed := check - openedAt;
          if elapsed < config.openTimeout {
            log := log + [Refused(check)];
            return false;
          }
          state := HalfOpen;
          halfOpenSuccesses := 0;
          log := log + [Probing(check)];
          totalRequests := totalRequests + 1;
        case HalfOpen =>
          totalRequests := totalRequests + 1;
      }
      log := log + [Admitted(check)];
      allowed := true;
    }

    /** A run that succeeded, started at `from` and done at `done`, is recorded at `now`. */
    method RecordSuccess(ghost from: nat, ghost done: nat, now: nat)
      requires Valid() && Last(log).Admitted? && Last(log).at <= from <= done <= now
      modifies this
      ensures Valid() && log == Settled(config, old(log) + [Ran(from, done, true)], now)
      ensures Idle(config, log) && Last(log).at <= now
    {
      Grow(config, log, Ran(from, done, true));
      log := log + [Ran(from, done, true)];
      SettledIsLegal(config, log, now);
      if state == HalfOpen {
        halfOpenSuccesses := halfOpenSuccesses + 1;
        if halfOpenSuccesses >= config.successThreshold {
          state := Closed;
          ResetStatistics(now);
          log := log + [Recovered(now)];
        }
      }
    }

    method ResetStatistics(now: nat)
      modifies this`totalRequests, this`failedRequests, this`halfOpenSuccesses, this`windowStart
      ensures totalRequests == 0 && failedRequests == 0 && halfOpenSuccesses == 0 && windowStart == now
    {
      totalRequests := 0;
      failedRequests := 0;
      halfOpenSuccesses := 0;
      windowStart := now;
    }

    method OpenCircuit(now: nat)
      modifies this`state, this`openedAt, this`log
      ensures state == Open && openedAt == now && log == old(log) + [Tripped(now)]
    {
      state := Open;
      openedAt := now;
      log := log + [Tripped(now)];
    }

    /** A run that failed. The rate is compared only once there are enough requests. */
    method RecordFailure(ghost from: nat, ghost done: nat, now: nat)
      requires Valid() && Last(log).Admitted? && Last(log).at <= from <= done <= now
      modifies this
      ensures Valid() && log == Settled(config, old(log) + [Ran(from, done, false)], now)
      ensures Idle(config, log) && Last(log).at <= now
    {
      Grow(config, log, Ran(from, done, false));
      log := log + [Ran(from, done, false)];
      SettledIsLegal(config, log, now);
      if state == Closed { ClosedCountsAll(config, log); }
      match state {
        case Closed =>
          failedRequests := failedRequests + 1;
          if totalRequests >= config.minimumRequests {
            var failureRate := failedRequests as real / totalRequests as real;
            if failureRate >= config.failureThreshold {
              OpenCircuit(now);
            }
          }
        case HalfOpen =>
          OpenCircuit(now);
        case Open =>
      }
    }

    /** call in the source: the wrapped function runs only if check_allow admits it. */
    method Run(call: Call) returns (ran: bool)
      requires Valid() && Idle(config, log) && Ordered(call) && Last(log).at <= call.enter
      modifies this
      ensures Valid() && Idle(config, log) && Last(log).at <= call.settled
      ensures log == AfterCall(config, old(log), call)
    {
      ran := CheckAllow(call.enter, call.check);
      if ran {
        if call.ok {
          RecordSuccess(call.check, call.done, call.settled);
        } else {
          RecordFailure(call.check, call.done, call.settled);
        }
      }
    }
  }
}

/** The fixed-window limiter as one thread drives it. */
module FixedWindow {
  import opened RustInt

  /** `limit` is a u32, `window` the window length in nanoseconds. */
  datatype Config = Config(limit: nat, window: nat)

  /** The two atomics. */
  datatype Window = Window(count: nat, start: nat)

  predicate ValidConfig(c: Config) {
    0 < c.limit <= U32_MAX && 0 < c.window
  }

  function Fresh(now: nat): Window {
    Window(0, now)
  }

  /** Where the window that contains `now` starts, on the grid that `start` belongs to. */
  function NewStart(c: Config, start: nat, now: nat): nat
    requires c.window > 0
  {
    start + SaturatingSub(now, start) / c.window * c.window
  }

  function Rolled(c: Config, w: Window, now: nat): Window
    requires c.window > 0
  {
    if SaturatingSub(now, w.start) < c.window then w else Window(0, NewStart(c, w.start, now))
  }

  function Acquired(c: Config, w: Window, now: nat, weight: nat): (Window, bool)
    requires c.window > 0
  {
    if weight == 0 then (w, true)
    else
      var r := Rolled(c, w, now);
      var newCount := SaturatingAddU32(r.count, weight);
      if newCount > c.limit then (r, false) else (r.(count := newCount), true)
  }

  lemma DivAtLeastOne(x: nat, d: nat)
    requires 0 < d <= x
    ensures x / d >= 1
  {
    assert x == (x / d) * d + x % d;
  }

  /** A claimed start lies on the same grid, at least one window on, and not in the future. */
  lemma NewStartOnGrid(c: Config, start: nat, now: nat)
    requires c.window > 0 && SaturatingSub(now, start) >= c.window
    ensures start + c.window <= NewStart(c, start, now) <= now < NewStart(c, start, now) + c.window
    ensures (NewStart(c, start, now) - start) % c.window == 0
    ensures (NewStart(c, start, now) - start) / c.window >= 1
  {
    var k := (now - start) / c.window;
    assert now - start == k * c.window + (now - start) % c.window;
    DivAtLeastOne(now - start, c.window);
    Scale(k, c.window);
    DivModUnique(k * c.window, c.window, k, 0);
  }

  /** The limiter as one thread drives it. */
  class Limiter {
    const config: Config
    var count: nat
    var windowStart: nat

    function Abstract(): Window
      reads this
    {
      Window(count, windowStart)
    }

    constructor (config: Config, now: nat)
      requires ValidConfig(config)
      ensures this.config == config && Abstract() == Fresh(now)
    {
      this.config := config;
      count := 0;
      windowStart := now;
    }

    method CheckAndResetWindow(now: nat) returns (reset: bool)
      requires ValidConfig(config)
      modifies this
      ensures Abstract() == Rolled(config, old(Abstract()), now)
      ensures reset <==> SaturatingSub(now, old(windowStart)) >= config.window
    {
      var elapsed := SaturatingSub(now, windowStart);
      if elapsed < config.window {
        return false;
      }
      var windowsElapsed := elapsed / config.window;
      windowStart := windowStart + windowsElapsed * config.window;
      count := 0;
      return true;
    }

    method TryAcquire(now: nat, weight: nat) returns (ok: bool)
      requires ValidConfig(config)
      modifies this
      ensures (Abstract(), ok) == Acquired(config, old(Abstract()), now, weight)
    {
      if weight == 0 {
        return true;
      }
      var _ := CheckAndResetWindow(now);
      var newCount := SaturatingAddU32(count, weight);
      if newCount > config.limit {
        return false;
      }
      count := newCount;
      return true;
    }

    method Available(now: nat) returns (n: nat)
      requires ValidConfig(config)
      modifies this
      ensures Abstract() == Rolled(config, old(Abstract()), now)
      ensures n == SaturatingSub(config.limit, count)
    {
      var _ := CheckAndResetWindow(now);
      n := SaturatingSub(config.limit, count);
    }

    method Reset(now: nat)
      modifies this
      ensures Abstract() == Fresh(now)
    {
      count := 0;
      windowStart := now;
    }
  }

  datatype Request = Request(now: nat, weight: nat)

  /** Sequential calls, with the weight granted since the window last rolled. */
  function ExecCalls(c: Config, w: Window, inWindow: nat, calls: seq<Request>): (Window, nat)
    requires c.window > 0
    decreases |calls|
  {
    if calls == [] then (w, inWindow)
    else
      var (w', ok) := Acquired(c, w, calls[0].now, calls[0].weight);
      var before := if w'.start == w.start then inWindow else 0;
      ExecCalls(c, w', before + (if ok then calls[0].weight else 0), calls[1..])
  }

  /** With one thread no window admits more than the limit, and the count is what it admitted. */
  lemma {:induction false} OneThreadRespectsEveryWindow(c: Config, w: Window, calls: seq<Request>)
    requires ValidConfig(c) && c.limit < U32_MAX && w.count <= c.limit
    ensures var (w', inWindow) := ExecCalls(c, w, w.count, calls);
            inWindow == w'.count <= c.limit
    decreases |calls|
  {
    if calls != [] {
      var call := calls[0];
      if call.weight != 0 && SaturatingSub(call.now, w.start) >= c.window {
        NewStartOnGrid(c, w.start, call.now);
      }
      OneThreadRespectsEveryWindow(c, Acquired(c, w, call.now, call.weight).0, calls[1..]);
    }
  }

  // Exactly which calls are granted.

  /** A window that has run out serves again: the next call starts a new one that contains it. */
  lemma SpentWindowServesAgain(c: Config, w: Window, now: nat, weight: nat)
    requires ValidConfig(c) && c.limit < U32_MAX && now >= w.start + c.window && 0 < weight <= c.limit
    ensures var (w', ok) := Acquired(c, w, now, weight);
      ok && w'.count == weight && w'.start <= now < w'.start + c.window
  {
    NewStartOnGrid(c, w.start, now);
  }

  /** The clock never goes back. */
  predicate Monotone(origin: nat, calls: seq<Request>) {
    && (forall i :: 0 <= i < |calls| ==> origin <= calls[i].now)
    && (forall i, j :: 0 <= i < j < |calls| ==> calls[i].now <= calls[j].now)
  }

  /** Windows are numbered from the creation of the limiter. */
  function WindowNumber(c: Config, origin: nat, now: nat): nat
    requires c.window > 0 && origin <= now
  {
    (now - origin) / c.window
  }

  /** The limiter after these calls, made one after the other from its creation. */
  function After(c: Config, origin: nat, calls: seq<Request>): Window
    requires c.window > 0
  {
    if calls == [] then Fresh(origin)
    else
      var n := |calls| - 1;
      Acquired(c, After(c, origin, calls[..n]), calls[n].now, calls[n].weight).0
  }

  predicate Granted(c: Config, origin: nat, calls: seq<Request>, i: nat)
    requires c.window > 0 && i < |calls|
  {
    Acquired(c, After(c, origin, calls[..i]), calls[i].now, calls[i].weight).1
  }

  /** The weight granted to the calls that fall into window `k`. */
  function GrantedIn(c: Config, origin: nat, calls: seq<Request>, k: nat): nat
    requires c.window > 0 && Monotone(origin, calls)
  {
    if calls == [] then 0
    else
      var n := |calls| - 1;
      GrantedIn(c, origin, calls[..n], k)
      + if Granted(c, origin, calls, n) && WindowNumber(c, origin, calls[n].now) == k then calls[n].weight else 0
  }

  /** The stored window is window `k`, its count is what was granted in it, and nothing is granted later yet. */
  ghost predicate InWindow(c: Config, origin: nat, calls: seq<Request>, k: nat)
    requires c.window > 0 && Monotone(origin, calls)
  {
    var w := After(c, origin, calls);
    && w.start == origin + k * c.window && (calls != [] ==> w.start <= calls[|calls| - 1].now)
    && (calls == [] ==> k == 0)
    && w.count == GrantedIn(c, origin, calls, k) <= c.limit
    && forall i: nat :: i > k ==> GrantedIn(c, origin, calls, i) == 0
  }

  lemma NumberFrom(origin: nat, k: nat, window: nat, now: nat)
    requires window > 0 && origin + k * window <= now
    ensures (now - origin) / window == k + (now - (origin + k * window)) / window
  {
    var rest := now - (origin + k * window);
    assert rest == (rest / window) * window + rest % window;
    assert (k + rest / window) * window == k * window + (rest / window) * window;
    DivModUnique(now - origin, window, k + rest / window, rest % window);
  }

  /** The window a call at `now` is decided in: the one that contains it. */
  lemma RolledContains(c: Config, origin: nat, w: Window, k: nat, now: nat)
    requires ValidConfig(c) && w.start == origin + k * c.window <= now
    ensures var r := Rolled(c, w, now); var n := WindowNumber(c, origin, now);
      && n >= k && r.start == origin + n * c.window <= now
      && (n == k ==> r == w) && (n > k ==> r.count == 0)
  {
    NumberFrom(origin, k, c.window, now);
    var q := (now - w.start) / c.window;
    assert (k + q) * c.window == k * c.window + q * c.window;
    if now - w.start < c.window {
      DivModUnique(now - w.start, c.window, 0, now - w.start);
    } else {
      NewStartOnGrid(c, w.start, now);
      DivAtLeastOne(now - w.start, c.window);
    }
  }

  lemma MonotonePrefix(origin: nat, calls: seq<Request>, n: nat)
    requires Monotone(origin, calls) && n <= |calls|
    ensures Monotone(origin, calls[..n])
  {
  }

  lemma CallStaysInWindow(c: Config, origin: nat, calls: seq<Request>, k: nat)
    requires ValidConfig(c) && c.limit < U32_MAX && Monotone(origin, calls) && calls != []
    requires InWindow(c, origin, calls[..|calls| - 1], k)
    ensures var call := calls[|calls| - 1];
      InWindow(c, origin, calls, if call.weight == 0 then k else WindowNumber(c, origin, call.now))
  {
    var n := |calls| - 1;
    var call := calls[n];
    var w := After(c, origin, calls[..n]);
    assert w.start <= call.now by {
      if n > 0 {
        assert calls[..n][n - 1] == calls[n - 1];
      }
    }
    RolledContains(c, origin, w, k, call.now);
  }

  lemma {:induction false} AlwaysInWindow(c: Config, origin: nat, calls: seq<Request>) returns (k: nat)
    requires ValidConfig(c) && c.limit < U32_MAX && Monotone(origin, calls)
    ensures InWindow(c, origin, calls, k)
    decreases |calls|
  {
    if calls == [] {
      k := 0;
    } else {
      var n := |calls| - 1;
      MonotonePrefix(origin, calls, n);
      k := AlwaysInWindow(c, origin, calls[..n]);
      CallStaysInWindow(c, origin, calls, k);
      k := if calls[n].weight == 0 then k else WindowNumber(c, origin, calls[n].now);
    }
  }

  /** After any calls a further one is granted exactly when its weight fits what the window it falls into has left. */
  lemma GrantedExactlyWhenRoom(c: Config, origin: nat, calls: seq<Request>, now: nat, weight: nat)
    requires ValidConfig(c) && c.limit < U32_MAX && Monotone(origin, calls)
    requires origin <= now && (calls != [] ==> calls[|calls| - 1].now <= now)
    ensures Acquired(c, After(c, origin, calls), now, weight).1
       <==> GrantedIn(c, origin, calls, WindowNumber(c, origin, now)) + weight <= c.limit
    ensures Rolled(c, After(c, origin, calls), now).count == GrantedIn(c, origin, calls, WindowNumber(c, origin, now))
  {
    var k := AlwaysInWindow(c, origin, calls);
    RolledContains(c, origin, After(c, origin, calls), k, now);
  }
}

/** The leaky bucket: its fixed-point arithmetic, and the limiter used by one thread. */
module LeakyBucket {
  import opened RustInt

  const TOKEN_SCALE: int := 1000
  const RATE_SCALE: int := 1_000_000_000

  /** `capacity` is a u32; `ratePerNano` a u64, in milli-tokens per RATE_SCALE nanoseconds. */
  datatype Config = Config(capacity: nat, ratePerNano: nat)

  /** The two atomics. */
  datatype Bucket = Bucket(tokens: nat, lastRefill: nat)

  function CapacityScaled(c: Config): nat {
    WrapU32(c.capacity * TOKEN_SCALE)
  }

  function Required(weight: nat): nat {
    WrapU32(weight * TOKEN_SCALE)
  }

  /** Milli-tokens earned in `elapsed` nanoseconds, as the u64 product computes them. */
  function TokensToAdd(c: Config, elapsed: nat): nat {
    WrapU64(elapsed * c.ratePerNano) / RATE_SCALE
  }

  /** What `current` becomes when a credit is added, saturating and then capped. */
  function Topped(c: Config, current: nat, toAdd: nat): nat {
    Min(SaturatingAddU32(current, WrapU32(toAdd)), CapacityScaled(c))
  }

  function Fresh(c: Config, now: nat): Bucket {
    Bucket(CapacityScaled(c), now)
  }

  function Refilled(c: Config, b: Bucket, now: nat): Bucket {
    var toAdd := TokensToAdd(c, SaturatingSub(now, b.lastRefill));
    if toAdd == 0 then b else Bucket(Topped(c, b.tokens, toAdd), now)
  }

  function Acquired(c: Config, b: Bucket, now: nat, weight: nat): (Bucket, bool) {
    if weight == 0 then (b, true)
    else
      var r := Refilled(c, b, now);
      if r.tokens < Required(weight) then (r, false)
      else (r.(tokens := r.tokens - Required(weight)), true)
  }

  /** Exact milli-tokens earned between two instants, rounded down. */
  function Earned(c: Config, from: nat, to: nat): nat
    requires from <= to
  {
    c.ratePerNano * (to - from) / RATE_SCALE
  }

  /** However the product wraps or the cast truncates, a credit is never more than was earned. */
  lemma CreditAtMostEarned(c: Config, from: nat, to: nat)
    requires from <= to
    ensures WrapU32(TokensToAdd(c, to - from)) <= TokensToAdd(c, to - from) <= Earned(c, from, to)
  {
    var product := (to - from) * c.ratePerNano;
    assert product == c.ratePerNano * (to - from);
    assert WrapU64(product) <= product by { RemainderAtMost(product, TWO_64); }
    DivMonotone(WrapU64(product), product, RATE_SCALE);
    RemainderAtMost(TokensToAdd(c, to - from), TWO_32);
  }

  lemma EarnedAccumulates(c: Config, from: nat, mid: nat, to: nat)
    requires from <= mid <= to
    ensures Earned(c, from, mid) + Earned(c, mid, to) <= Earned(c, from, to)
  {
    ProductOfSum(c.ratePerNano, mid - from, to - mid);
    QuotientsAdd(c.ratePerNano * (mid - from), c.ratePerNano * (to - mid));
  }

  lemma ProductOfSum(r: nat, x: nat, y: nat)
    ensures r * x + r * y == r * (x + y)
  {
  }

  lemma QuotientsAdd(a: nat, b: nat)
    ensures a / RATE_SCALE + b / RATE_SCALE <= (a + b) / RATE_SCALE
  {
  }

  /** The limiter as one thread drives it: no compare-and-exchange meets contention. */
  class Limiter {
    const config: Config
    var tokens: nat
    var lastRefill: nat

    function Abstract(): Bucket
      reads this
    {
      Bucket(tokens, lastRefill)
    }

    constructor (config: Config, now: nat)
      ensures this.config == config && Abstract() == Fresh(config, now)
    {
      this.config := config;
      tokens := WrapU32(config.capacity * TOKEN_SCALE);
      lastRefill := now;
    }

    method Refill(now: nat)
      modifies this
      ensures Abstract() == Refilled(config, old(Abstract()), now)
    {
      var elapsed := SaturatingSub(now, lastRefill);
      if elapsed == 0 {
        assert TokensToAdd(config, 0) == 0;
        return;
      }
      var toAdd := WrapU64(elapsed * config.ratePerNano) / RATE_SCALE;
      if toAdd == 0 {
        return;
      }
      lastRefill := now;
      var capacityScaled := WrapU32(config.capacity * TOKEN_SCALE);
      var newTokens := Min(SaturatingAddU32(tokens, WrapU32(toAdd)), capacityScaled);
      if tokens != newTokens {
        tokens := newTokens;
      }
    }

    method TryAcquire(now: nat, weight: nat) returns (ok: bool)
      modifies this
      ensures (Abstract(), ok) == Acquired(config, old(Abstract()), now, weight)
    {
      if weight == 0 {
        return true;
      }
      Refill(now);
      var required := WrapU32(weight * TOKEN_SCALE);
      if tokens < required {
        return false;
      }
      tokens := tokens - required;
      return true;
    }

    method Available(now: nat) returns (n: nat)
      modifies this
      ensures Abstract() == Refilled(config, old(Abstract()), now)
      ensures n == tokens / TOKEN_SCALE
    {
      Refill(now);
      n := tokens / TOKEN_SCALE;
    }

    method Reset(now: nat)
      modifies this
      ensures Abstract() == Fresh(config, now)
    {
      tokens := WrapU32(config.capacity * TOKEN_SCALE);
      lastRefill := now;
    }
  }
}

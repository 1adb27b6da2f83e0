/** Delays between connection attempts: the reconnection loop, and the jittered backoff beside it. */
module Backoff {
  const U64_MAX: nat := 0xFFFF_FFFF_FFFF_FFFF

  type u64 = n: int | 0 <= n <= 0xFFFF_FFFF_FFFF_FFFF

  datatype Config = Config(initialDelay: u64, maxDelay: u64, multiplier: real, maxAttempts: nat)

  /** A float to integer cast: it drops the fraction and stops at the ends of the range. */
  function Truncate(x: real): (n: u64) {
    if x < 0.0 then 0 else if x.Floor > U64_MAX then U64_MAX else x.Floor
  }

  function Min(a: u64, b: u64): (m: u64) {
    if a <= b then a else b
  }

  // ---- Products and truncation ----

  function Times(a: real, b: real): (p: real) {
    a * b
  }

  function Power(x: real, n: nat): (p: real) {
    if n == 0 then 1.0 else Times(x, Power(x, n - 1))
  }

  lemma TimesMonotone(a: real, b: real, m: real)
    requires a <= b && m >= 0.0
    ensures Times(a, m) <= Times(b, m) && Times(m, a) <= Times(m, b)
    ensures Times(m, 1.0) == m == Times(1.0, m) && Times(0.0, m) == 0.0 == Times(m, 0.0)
  {
    var d := b - a;
    assert d * m >= 0.0;
    assert d * m == b * m - a * m;
  }

  lemma TimesWhole(a: nat, b: nat)
    ensures Times(a as real, b as real) == (a * b) as real
  {
  }

  lemma TimesAssociate(a: real, b: real, c: real)
    ensures Times(a, Times(b, c)) == Times(Times(a, c), b)
  {
  }

  /** The two ends of the jitter range. */
  lemma Quarters(x: real)
    ensures Times(x, 1.25) == x + x / 4.0 && Times(x, 0.75) == x - x / 4.0 && Times(x, 2.0) == x + x
  {
  }

  lemma TruncateBelow(x: real)
    requires x >= 0.0
    ensures Truncate(x) as real <= x
  {
  }

  lemma TruncateAbove(x: real, d: u64)
    requires x >= d as real
    ensures Truncate(x) >= d
  {
  }

  lemma TruncateMonotone(x: real, y: real)
    requires x <= y
    ensures Truncate(x) <= Truncate(y)
  {
  }

  lemma TruncateStrict(x: real, y: real)
    requires 0.0 <= x < U64_MAX as real && x + 1.0 <= y
    ensures Truncate(x) < Truncate(y)
  {
  }

  lemma TruncateWithin(x: real, limit: u64)
    requires x >= 0.0
    ensures Truncate(x) <= limit <==> limit == U64_MAX || x < limit as real + 1.0
  {
  }

  lemma TruncateWhole(n: nat, limit: u64)
    ensures Min(Truncate(n as real), limit) as int == if n <= limit then n else limit
  {
    assert (n as real).Floor == n;
  }

  // ---- The reconnection loop ----

  /** The delay after the failed attempt `n`, counted from zero. */
  function Delay(c: Config, n: nat): (d: u64) {
    if n == 0 then c.initialDelay else NextDelay(c, Delay(c, n - 1))
  }

  function NextDelay(c: Config, d: u64): (r: u64) {
    Min(Truncate(Times(d as real, c.multiplier)), c.maxDelay)
  }

  function Delays(c: Config, n: nat): (ds: seq<u64>)
    ensures |ds| == n && forall i :: 0 <= i < n ==> ds[i] == Delay(c, i)
  {
    if n == 0 then [] else Delays(c, n - 1) + [Delay(c, n - 1)]
  }

  datatype End = Connected | GaveUp | Stopped

  /** Attempts fail and no shutdown is seen before position `n`. */
  ghost predicate KeepsTrying(succeeds: nat -> bool, shutdown: nat -> bool, n: nat) {
    forall i: nat :: i < n ==> !succeeds(i) && !shutdown(i)
  }

  /** How the attempts from `n` on end, and how many fail in all. */
  function Attempts(c: Config, succeeds: nat -> bool, shutdown: nat -> bool, n: nat): (r: (End, nat))
    requires n <= c.maxAttempts
    decreases c.maxAttempts - n
  {
    if shutdown(n) then (Stopped, n)
    else if n == c.maxAttempts then (GaveUp, n)
    else if succeeds(n) then (Connected, n)
    else Attempts(c, succeeds, shutdown, n + 1)
  }

  /**
   * The reconnection task. `succeeds(i)` tells whether attempt `i` connects and `shutdown(i)` whether the flag is set
   * before it; `delays` are the sleeps, one after every failed attempt.
   */
  method Reconnect(c: Config, succeeds: nat -> bool, shutdown: nat -> bool)
    returns (end: End, failed: nat, delays: seq<u64>)
    ensures (end, failed) == Attempts(c, succeeds, shutdown, 0)
    ensures delays == Delays(c, failed)
  {
    hide NextDelay;
    failed := 0;
    delays := [];
    var attempt := 1;
    var delay := c.initialDelay;
    while true
      invariant attempt == failed + 1 <= c.maxAttempts + 1
      invariant Attempts(c, succeeds, shutdown, failed) == Attempts(c, succeeds, shutdown, 0)
      invariant delays == Delays(c, failed) && delay == Delay(c, failed)
      decreases c.maxAttempts + 1 - attempt
    {
      if shutdown(failed) {
        return Stopped, failed, delays;
      }
      if attempt > c.maxAttempts {
        return GaveUp, failed, delays;
      }
      if succeeds(failed) {
        return Connected, failed, delays;
      }
      delays := delays + [delay];
      failed := failed + 1;
      attempt := attempt + 1;
      delay := NextDelay(c, delay);
    }
  }

  /**
   * How the task ends: after at most the maximum number of attempts, all earlier ones having failed without a shutdown;
   * connected exactly when the next one succeeds, stopped exactly when a shutdown is seen, given up otherwise.
   */
  lemma {:induction false} TaskEnds(c: Config, succeeds: nat -> bool, shutdown: nat -> bool, n: nat)
    requires n <= c.maxAttempts && KeepsTrying(succeeds, shutdown, n)
    ensures var (end, failed) := Attempts(c, succeeds, shutdown, n);
            && failed <= c.maxAttempts && KeepsTrying(succeeds, shutdown, failed)
            && (end == Connected <==> failed < c.maxAttempts && !shutdown(failed) && succeeds(failed))
            && (end == Stopped <==> shutdown(failed))
            && (end == GaveUp <==> failed == c.maxAttempts && !shutdown(failed))
    decreases c.maxAttempts - n
  {
    if !shutdown(n) && n < c.maxAttempts && !succeeds(n) {
      TaskEnds(c, succeeds, shutdown, n + 1);
    }
  }

  /** No delay exceeds the maximum, if and only if the initial one does not. */
  lemma WithinMaximum(c: Config)
    ensures (forall n: nat :: Delay(c, n) <= c.maxDelay) <==> c.initialDelay <= c.maxDelay
  {
    hide Truncate, Times;
    assert Delay(c, 0) == c.initialDelay;
  }

  /** With a multiplier of at least one the delays never shrink, if and only if the initial one is within the maximum. */
  lemma NeverShrinks(c: Config)
    requires c.multiplier >= 1.0
    ensures (forall n: nat :: Delay(c, n) <= Delay(c, n + 1)) <==> c.initialDelay <= c.maxDelay
  {
    hide Truncate, Times;
    WithinMaximum(c);
    if c.initialDelay <= c.maxDelay {
      forall n: nat
        ensures Delay(c, n) <= Delay(c, n + 1)
      {
        var d := Delay(c, n);
        TimesMonotone(1.0, c.multiplier, d as real);
        TruncateAbove(Times(d as real, c.multiplier), d);
      }
    } else {
      assert Delay(c, 0) > c.maxDelay >= Delay(c, 0 + 1);
    }
  }

  /** The exponential a delay follows. */
  function Exponential(c: Config, n: nat): (d: real) {
    Times(c.initialDelay as real, Power(c.multiplier, n))
  }

  lemma ExponentialStep(c: Config, n: nat)
    ensures Exponential(c, n + 1) == Times(Exponential(c, n), c.multiplier)
    ensures Exponential(c, 0) == c.initialDelay as real
  {
    hide Times;
    TimesAssociate(c.initialDelay as real, c.multiplier, Power(c.multiplier, n));
    TimesMonotone(1.0, 1.0, c.initialDelay as real);
  }

  /** A delay never exceeds the exponential. */
  lemma {:induction false} BelowExponential(c: Config, n: nat)
    requires c.multiplier >= 0.0
    ensures Delay(c, n) as real <= Exponential(c, n)
  {
    hide Truncate, Exponential, Times;
    if n == 0 {
      ExponentialStep(c, 0);
    } else {
      BelowExponential(c, n - 1);
      ExponentialStep(c, n - 1);
      var d := Delay(c, n - 1) as real;
      TimesMonotone(0.0, c.multiplier, d);
      TimesMonotone(d, Exponential(c, n - 1), c.multiplier);
      TruncateBelow(Times(d, c.multiplier));
    }
  }

  function WholePower(m: nat, n: nat): (p: nat) {
    if n == 0 then 1 else m * WholePower(m, n - 1)
  }

  lemma {:induction false} PowerIsWhole(m: nat, n: nat)
    ensures Power(m as real, n) == WholePower(m, n) as real
  {
    hide Times;
    if n > 0 {
      PowerIsWhole(m, n - 1);
      TimesWhole(m, WholePower(m, n - 1));
    }
  }

  /** The exponential for a whole multiplier, capped. */
  function Capped(c: Config, m: nat, n: nat): (d: int) {
    var e := WholeExponential(c, m, n);
    if e <= c.maxDelay then e else c.maxDelay
  }

  function WholeExponential(c: Config, m: nat, n: nat): (d: nat) {
    c.initialDelay * WholePower(m, n)
  }

  lemma WholeStep(c: Config, m: nat, n: nat)
    requires n > 0
    ensures WholeExponential(c, m, n) == WholeExponential(c, m, n - 1) * m
    ensures WholeExponential(c, m, 0) == c.initialDelay
  {
    assert c.initialDelay * (m * WholePower(m, n - 1)) == (c.initialDelay * WholePower(m, n - 1)) * m;
  }

  lemma CapThenScale(e: nat, m: nat, limit: nat)
    ensures e > limit && m > 0 ==> e * m > limit && limit * m >= limit
  {
    if e > limit && m > 0 {
      assert e * m >= e && limit * m >= limit;
    }
  }

  /** With a whole multiplier every later delay is exactly the capped exponential. */
  lemma {:induction false} WholeMultiplier(c: Config, m: nat, n: nat)
    requires c.multiplier == m as real && n > 0
    ensures Delay(c, n) as int == Capped(c, m, n)
  {
    hide Truncate, WholeExponential, Times;
    var d: nat, e := Delay(c, n - 1), WholeExponential(c, m, n - 1);
    WholeStep(c, m, n);
    TimesWhole(d, m);
    TruncateWhole(d * m, c.maxDelay);
    CapThenScale(e, m, c.maxDelay);
    if n > 1 {
      WholeMultiplier(c, m, n - 1);
    }
  }

  // ---- Jittered backoff ----

  /** The delay of an attempt, counted from one, before the jitter. */
  function Base(c: Config, attempt: nat): (d: real)
    requires attempt > 0
  {
    var base := Exponential(c, attempt - 1);
    if base <= c.maxDelay as real then base else c.maxDelay as real
  }

  predicate IsJitter(j: real) {
    0.75 <= j <= 1.25
  }

  function Jittered(c: Config, attempt: nat, jitter: real): (d: u64)
    requires attempt > 0
  {
    Truncate(Times(Base(c, attempt), jitter))
  }

  /** With a whole multiplier and an initial delay within the maximum both backoffs follow the same delays. */
  lemma SameDelays(c: Config, m: nat, n: nat)
    requires c.multiplier == m as real && c.initialDelay <= c.maxDelay
    ensures Base(c, n + 1) == Delay(c, n) as real
  {
    hide NextDelay, WholePower, Power, Times;
    PowerIsWhole(m, n);
    TimesWhole(c.initialDelay, WholePower(m, n));
    if n > 0 {
      WholeMultiplier(c, m, n);
    } else {
      ExponentialStep(c, 0);
    }
  }

  lemma BaseBounds(c: Config, attempt: nat)
    requires c.multiplier >= 0.0 && attempt > 0
    ensures 0.0 <= Base(c, attempt) <= c.maxDelay as real
  {
    hide Times;
    PowerNotNegative(c.multiplier, attempt - 1);
    TimesMonotone(0.0, Power(c.multiplier, attempt - 1), c.initialDelay as real);
  }

  lemma {:induction false} PowerNotNegative(x: real, n: nat)
    requires x >= 0.0
    ensures Power(x, n) >= 0.0
  {
    hide Times;
    if n > 0 {
      PowerNotNegative(x, n - 1);
      TimesMonotone(0.0, Power(x, n - 1), x);
    }
  }

  /** Every jitter keeps a delay within the maximum, if and only if a quarter more than the base would truncate to it. */
  lemma JitterWithinMaximum(c: Config, attempt: nat)
    requires c.multiplier >= 0.0 && attempt > 0
    ensures (forall j :: IsJitter(j) ==> Jittered(c, attempt, j) <= c.maxDelay)
            <==> c.maxDelay == U64_MAX || 5.0 * Base(c, attempt) < 4.0 * (c.maxDelay as real + 1.0)
  {
    hide Truncate, Base, Times;
    BaseBounds(c, attempt);
    var b := Base(c, attempt);
    assert IsJitter(1.25) && Jittered(c, attempt, 1.25) == Truncate(Times(b, 1.25));
    Quarters(b);
    TruncateWithin(b + b / 4.0, c.maxDelay);
    forall j | IsJitter(j)
      ensures Jittered(c, attempt, j) <= Jittered(c, attempt, 1.25)
    {
      TimesMonotone(j, 1.25, Base(c, attempt));
      TruncateMonotone(Times(Base(c, attempt), j), Times(Base(c, attempt), 1.25));
    }
  }

  /** At the cap the largest jitter does exceed the maximum. */
  lemma JitterExceedsMaximum(c: Config, attempt: nat)
    requires attempt > 0 && Base(c, attempt) == c.maxDelay as real && 4 <= c.maxDelay < U64_MAX
    ensures IsJitter(1.25) && Jittered(c, attempt, 1.25) > c.maxDelay
  {
    hide Base, Truncate, Times;
    Quarters(c.maxDelay as real);
    TruncateAbove(Times(c.maxDelay as real, 1.25), c.maxDelay + 1);
  }

  /** While uncapped, delays that at least double grow in spite of any jitter. */
  lemma GrowsDespiteJitter(c: Config, attempt: nat, j: real, k: real)
    requires c.multiplier >= 2.0 && attempt > 0 && IsJitter(j) && IsJitter(k)
    requires Base(c, attempt) >= 4.0 && Exponential(c, attempt) <= c.maxDelay as real
    ensures Jittered(c, attempt, j) < Jittered(c, attempt + 1, k)
  {
    hide Truncate, Exponential, Times, Power;
    ExponentialStep(c, attempt - 1);
    var b, e := Base(c, attempt), Exponential(c, attempt - 1);
    var next := Base(c, attempt + 1);
    TimesMonotone(2.0, c.multiplier, e);
    Quarters(e);
    Quarters(b);
    Quarters(next);
    TimesMonotone(0.75, j, b);
    TimesMonotone(j, 1.25, b);
    TimesMonotone(0.75, k, next);
    TruncateStrict(Times(b, j), Times(next, k));
  }

  class JitteredBackoff {
    const config: Config
    var attempt: nat

    constructor (config: Config)
      ensures this.config == config && attempt == 0
    {
      this.config := config;
      attempt := 0;
    }

    method Next(jitter: real) returns (d: u64)
      modifies this`attempt
      ensures attempt == old(attempt) + 1 && d == Jittered(config, attempt, jitter)
    {
      hide Truncate, Power, Times;
      attempt := attempt + 1;
      var base := Exponential(config, attempt - 1);
      var capped := if base <= config.maxDelay as real then base else config.maxDelay as real;
      return Truncate(Times(capped, jitter));
    }

    method Reset()
      modifies this`attempt
      ensures attempt == 0
    {
      attempt := 0;
    }
  }
}

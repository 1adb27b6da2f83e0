/** The token bucket that paces outgoing telegrams. Times are seconds on a clock that does not run backwards. */
module RateLimit {
  const U32_LIMIT: nat := 0x1_0000_0000

  datatype Limiter = Limiter(rate: nat, burst: nat, tokens: real, lastRefill: real)

  function New(rate: nat, burst: nat, now: real): (l: Limiter) {
    Limiter(rate, burst, burst as real, now)
  }

  /** The most tokens a refill leaves; the sum is taken in 32 bits. */
  function Cap(l: Limiter): (c: real) {
    ((l.rate + l.burst) % U32_LIMIT) as real
  }

  function Min(a: real, b: real): (m: real) {
    if a > b then b else a
  }

  /** Tokens that accrue between two times. */
  function Accrued(rate: nat, a: real, b: real): (t: real) {
    rate as real * (b - a)
  }

  function Refill(l: Limiter, now: real): (r: Limiter) {
    var since := if now < l.lastRefill then now else l.lastRefill;
    l.(tokens := Min(l.tokens + Accrued(l.rate, since, now), Cap(l)), lastRefill := now)
  }

  function TryAcquire(l: Limiter, now: real): (r: (Limiter, bool)) {
    var full := Refill(l, now);
    if full.tokens >= 1.0 then (full.(tokens := full.tokens - 1.0), true) else (full, false)
  }

  // ---- Runs ----

  /** The calls come at times that do not run backwards. */
  predicate Ordered(l: Limiter, times: seq<real>) {
    && (times != [] ==> l.lastRefill <= times[0])
    && (forall i :: 0 < i < |times| ==> times[i - 1] <= times[i])
  }

  /** The limiter after the first `n` calls. */
  function After(l: Limiter, times: seq<real>, n: nat): (r: Limiter)
    requires n <= |times|
  {
    if n == 0 then l else TryAcquire(After(l, times, n - 1), times[n - 1]).0
  }

  predicate Granted(l: Limiter, times: seq<real>, k: nat)
    requires k < |times|
  {
    TryAcquire(After(l, times, k), times[k]).1
  }

  /** Tokens in the bucket when call `k` decides. */
  function Level(l: Limiter, times: seq<real>, k: nat): (t: real)
    requires k < |times|
  {
    Refill(After(l, times, k), times[k]).tokens
  }

  /** Calls granted among those from `i` up to but not including `k`. */
  function Grants(l: Limiter, times: seq<real>, i: nat, k: nat): (n: nat)
    requires i <= k <= |times|
    decreases k - i
  {
    if i == k then 0 else Grants(l, times, i, k - 1) + (if Granted(l, times, k - 1) then 1 else 0)
  }

  /** What the whole run allows call `k`, and what a window that starts at call `i` allows it. */
  function Allowance(l: Limiter, times: seq<real>, k: nat): (t: real)
    requires k < |times|
  {
    l.tokens + Accrued(l.rate, l.lastRefill, times[k]) - Grants(l, times, 0, k) as real
  }

  function WindowAllowance(l: Limiter, times: seq<real>, i: nat, k: nat): (t: real)
    requires i <= k < |times|
  {
    Cap(l) + Accrued(l.rate, times[i], times[k]) - Grants(l, times, i, k) as real
  }

  lemma AccruedSplit(rate: nat, a: real, b: real, c: real)
    ensures Accrued(rate, a, c) == Accrued(rate, a, b) + Accrued(rate, b, c)
    ensures Accrued(rate, a, a) == 0.0
    ensures b <= c ==> Accrued(rate, a, b) <= Accrued(rate, a, c)
  {
  }

  lemma {:induction false} AfterKeepsConfig(l: Limiter, times: seq<real>, n: nat)
    requires n <= |times|
    ensures var a := After(l, times, n);
            && a.rate == l.rate && a.burst == l.burst && Cap(a) == Cap(l)
            && a.lastRefill == if n == 0 then l.lastRefill else times[n - 1]
  {
    hide Accrued;
    if n > 0 {
      AfterKeepsConfig(l, times, n - 1);
    }
  }

  /** Between two calls the bucket loses what was granted and gains what accrued, up to the cap. */
  function Change(l: Limiter, times: seq<real>, k: nat): (t: real)
    requires k + 1 < |times|
  {
    Accrued(l.rate, times[k], times[k + 1]) - (if Granted(l, times, k) then 1.0 else 0.0)
  }

  lemma NextLevel(l: Limiter, times: seq<real>, k: nat)
    requires Ordered(l, times) && k + 1 < |times|
    ensures Level(l, times, k + 1) == Min(Level(l, times, k) + Change(l, times, k), Cap(l))
  {
    hide Accrued, Cap, Ordered;
    AfterKeepsConfig(l, times, k);
    AfterKeepsConfig(l, times, k + 1);
    InOrder(l, times, k);
  }

  lemma InOrder(l: Limiter, times: seq<real>, k: nat)
    requires Ordered(l, times) && k + 1 < |times|
    ensures times[k] <= times[k + 1]
  {
  }

  lemma NextAllowance(l: Limiter, times: seq<real>, k: nat)
    requires k + 1 < |times|
    ensures Allowance(l, times, k + 1) == Allowance(l, times, k) + Change(l, times, k)
  {
    hide Accrued, Granted;
    AccruedSplit(l.rate, l.lastRefill, times[k], times[k + 1]);
  }

  lemma NextWindowAllowance(l: Limiter, times: seq<real>, i: nat, k: nat)
    requires i <= k && k + 1 < |times|
    ensures WindowAllowance(l, times, i, k + 1) == WindowAllowance(l, times, i, k) + Change(l, times, k)
  {
    hide Accrued, Granted, Cap;
    AccruedSplit(l.rate, times[i], times[k], times[k + 1]);
  }

  lemma OwnWindow(l: Limiter, times: seq<real>, k: nat)
    requires k < |times|
    ensures WindowAllowance(l, times, k, k) == Cap(l)
  {
    hide Cap;
  }

  lemma FirstLevel(l: Limiter, times: seq<real>)
    requires Ordered(l, times) && times != []
    ensures Level(l, times, 0) == Min(Allowance(l, times, 0), Cap(l))
  {
    hide Accrued, Cap;
  }

  /** The level is the least of all the allowances. */
  lemma {:induction false} LevelIsLeastAllowance(l: Limiter, times: seq<real>, k: nat)
    requires Ordered(l, times) && k < |times|
    ensures Level(l, times, k) <= Allowance(l, times, k)
    ensures forall i :: 0 <= i <= k ==> Level(l, times, k) <= WindowAllowance(l, times, i, k)
    ensures || Level(l, times, k) == Allowance(l, times, k)
            || exists i :: 0 <= i <= k && Level(l, times, k) == WindowAllowance(l, times, i, k)
  {
    hide Level, Allowance, WindowAllowance, Change, Cap, Ordered;
    OwnWindow(l, times, k);
    if k == 0 {
      FirstLevel(l, times);
    } else {
      LevelIsLeastAllowance(l, times, k - 1);
      NextLevel(l, times, k - 1);
      NextAllowance(l, times, k - 1);
      forall i | 0 <= i < k
        ensures WindowAllowance(l, times, i, k) == WindowAllowance(l, times, i, k - 1) + Change(l, times, k - 1)
      {
        NextWindowAllowance(l, times, i, k - 1);
      }
      LeastMoves(l, times, k - 1, k);
    }
  }

  lemma LeastMoves(l: Limiter, times: seq<real>, j: nat, k: nat)
    requires j + 1 == k < |times|
    requires Level(l, times, k) == Min(Level(l, times, j) + Change(l, times, j), Cap(l))
    requires Allowance(l, times, k) == Allowance(l, times, j) + Change(l, times, j)
    requires forall i :: 0 <= i <= j ==>
               WindowAllowance(l, times, i, k) == WindowAllowance(l, times, i, j) + Change(l, times, j)
    requires WindowAllowance(l, times, k, k) == Cap(l)
    requires || Level(l, times, j) == Allowance(l, times, j)
             || exists i :: 0 <= i <= j && Level(l, times, j) == WindowAllowance(l, times, i, j)
    ensures || Level(l, times, k) == Allowance(l, times, k)
            || exists i :: 0 <= i <= k && Level(l, times, k) == WindowAllowance(l, times, i, k)
  {
    hide Level, Allowance, WindowAllowance, Change, Cap;
    if Level(l, times, k) != Cap(l) && Level(l, times, j) != Allowance(l, times, j) {
      var i :| 0 <= i <= j && Level(l, times, j) == WindowAllowance(l, times, i, j);
      assert Level(l, times, k) == WindowAllowance(l, times, i, k);
    }
  }

  /**
   * A call is granted exactly when neither the whole run so far nor any window ending at it would exceed its limit:
   * the initial tokens plus what accrued since creation, and the cap plus what accrued in the window.
   */
  lemma GrantedIffWithinEveryLimit(l: Limiter, times: seq<real>, k: nat)
    requires Ordered(l, times) && k < |times|
    ensures Granted(l, times, k) <==>
            && Grants(l, times, 0, k) as real + 1.0 <= l.tokens + Accrued(l.rate, l.lastRefill, times[k])
            && forall i :: 0 <= i <= k ==>
                 Grants(l, times, i, k) as real + 1.0 <= Cap(l) + Accrued(l.rate, times[i], times[k])
  {
    hide After, Refill, Grants, Accrued, Cap, Level, Ordered, Granted, WindowAllowance;
    LevelIsLeastAllowance(l, times, k);
    GrantedByLevel(l, times, k);
    forall i | 0 <= i <= k
      ensures WindowAllowance(l, times, i, k)
              == Cap(l) + Accrued(l.rate, times[i], times[k]) - Grants(l, times, i, k) as real
    {
      WindowAllowanceIs(l, times, i, k);
    }
  }

  lemma GrantedByLevel(l: Limiter, times: seq<real>, k: nat)
    requires k < |times|
    ensures Granted(l, times, k) <==> Level(l, times, k) >= 1.0
  {
    hide Refill;
  }

  lemma WindowAllowanceIs(l: Limiter, times: seq<real>, i: nat, k: nat)
    requires i <= k < |times|
    ensures WindowAllowance(l, times, i, k)
            == Cap(l) + Accrued(l.rate, times[i], times[k]) - Grants(l, times, i, k) as real
  {
  }

  /** Over any window of calls: never more grants than the cap plus what accrued in the window. */
  lemma {:induction false} WindowBound(l: Limiter, times: seq<real>, i: nat, k: nat)
    requires Ordered(l, times) && i <= k < |times|
    ensures Grants(l, times, i, k + 1) as real <= Cap(l) + Accrued(l.rate, times[i], times[k])
    decreases k - i
  {
    hide After, Granted, Refill, Accrued, Cap, Ordered;
    AccruedSplit(l.rate, times[i], times[i], times[i]);
    CapNotNegative(l);
    if Granted(l, times, k) {
      GrantedIffWithinEveryLimit(l, times, k);
    } else if i < k {
      WindowBound(l, times, i, k - 1);
      InOrder(l, times, k - 1);
      AccruedSplit(l.rate, times[i], times[k - 1], times[k]);
    }
  }

  lemma CapNotNegative(l: Limiter)
    ensures Cap(l) >= 0.0
  {
  }

  /** From creation on: never more grants than the burst plus what accrued since. */
  lemma {:induction false} TotalBound(rate: nat, burst: nat, start: real, times: seq<real>, k: nat)
    requires Ordered(New(rate, burst, start), times) && k < |times|
    ensures Grants(New(rate, burst, start), times, 0, k + 1) as real <= burst as real + Accrued(rate, start, times[k])
    decreases k
  {
    hide After, Granted, Refill, Accrued;
    var l := New(rate, burst, start);
    AccruedSplit(rate, start, start, times[0]);
    if Granted(l, times, k) {
      GrantedIffWithinEveryLimit(l, times, k);
    } else if k > 0 {
      TotalBound(rate, burst, start, times, k - 1);
      AccruedSplit(rate, start, times[k - 1], times[k]);
    }
  }

  /** In numbers, when the sum fits 32 bits: rate plus burst, and the rate for every second of the window. */
  lemma WindowBoundInNumbers(l: Limiter, times: seq<real>, i: nat, k: nat)
    requires Ordered(l, times) && i <= k < |times| && l.rate + l.burst < 0x1_0000_0000
    ensures Grants(l, times, i, k + 1) as real
            <= l.rate as real + l.burst as real + l.rate as real * (times[k] - times[i])
  {
    hide Grants, Ordered, Cap;
    WindowBound(l, times, i, k);
    CapInNumbers(l);
    AccruedSpan(l.rate, times[i], times[k] - times[i]);
  }

  lemma CapInNumbers(l: Limiter)
    ensures Cap(l) == ((l.rate + l.burst) % 0x1_0000_0000) as real
    ensures l.rate + l.burst < 0x1_0000_0000 ==> Cap(l) == l.rate as real + l.burst as real
    ensures Cap(l) <= l.rate as real + l.burst as real
  {
  }

  // ---- Bursts ----

  ghost predicate AllAt(times: seq<real>, t: real) {
    forall i :: 0 <= i < |times| ==> times[i] == t
  }

  /** Calls at one instant take the tokens one by one: what the bucket held and gained, up to the cap. */
  lemma {:induction false} LevelInBurst(l: Limiter, times: seq<real>, t: real, k: nat)
    requires AllAt(times, t) && l.lastRefill <= t && k < |times|
    ensures var full := Min(l.tokens + Accrued(l.rate, l.lastRefill, t), Cap(l));
            && (k as real <= full ==> Level(l, times, k) == full - k as real)
            && (k as real > full ==> Level(l, times, k) < 1.0)
  {
    hide Accrued, Cap;
    if k == 0 {
      FirstLevel(l, times);
    } else {
      LevelInBurst(l, times, t, k - 1);
      NextLevel(l, times, k - 1);
      hide Level, Granted;
      GrantedByLevel(l, times, k - 1);
      AccruedSplit(l.rate, t, t, t);
    }
  }

  /** Call `k` of a burst is granted exactly when the bucket had a whole token for it and for all before it. */
  lemma BurstAtOnce(l: Limiter, times: seq<real>, t: real, k: nat)
    requires AllAt(times, t) && l.lastRefill <= t && k < |times|
    ensures Granted(l, times, k) <==>
            k as real + 1.0 <= Min(l.tokens + Accrued(l.rate, l.lastRefill, t), Cap(l))
  {
    hide Accrued, Cap, Level, Granted;
    LevelInBurst(l, times, t, k);
    GrantedByLevel(l, times, k);
  }

  /** A full bucket grants a burst of exactly rate plus burst calls (in 32 bits), and no more. */
  lemma FullBurst(l: Limiter, times: seq<real>, t: real, k: nat)
    requires AllAt(times, t) && l.lastRefill <= t && k < |times|
    requires l.tokens + Accrued(l.rate, l.lastRefill, t) >= ((l.rate + l.burst) % 0x1_0000_0000) as real
    ensures Granted(l, times, k) <==> k < (l.rate + l.burst) % 0x1_0000_0000
  {
    hide Granted, Cap, Accrued;
    BurstAtOnce(l, times, t, k);
    CapInNumbers(l);
  }

  /** One idle second after its creation a limiter is full. */
  lemma BurstAfterIdle(rate: nat, burst: nat, start: real, times: seq<real>, t: real, k: nat)
    requires AllAt(times, t) && t >= start + 1.0 && k < |times|
    ensures Granted(New(rate, burst, start), times, k) <==> k < (rate + burst) % 0x1_0000_0000
  {
    hide Granted, Cap, Accrued;
    var l := New(rate, burst, start);
    CapInNumbers(l);
    AccruedInSecond(rate, start, t);
    FullBurst(l, times, t, k);
  }

  lemma AccruedInSecond(rate: nat, since: real, t: real)
    requires t >= since + 1.0
    ensures Accrued(rate, since, t) >= rate as real
  {
    hide Accrued;
    AccruedSplit(rate, since, since + 1.0, t);
    AccruedSpan(rate, since, 1.0);
  }

  // ---- Waiting for a token ----

  /** Refilling twice is refilling once at the later time. */
  lemma RefillTwice(l: Limiter, t: real, u: real)
    requires l.lastRefill <= t <= u
    ensures Refill(Refill(l, t), u) == Refill(l, u)
  {
    hide Accrued, Cap;
    AccruedSplit(l.rate, l.lastRefill, t, u);
    AccruedSplit(l.rate, t, t, u);
    CapIs(l, Refill(l, t));
  }

  /** When the clock reads an earlier time nothing accrues and nothing is taken away, except what exceeds the cap. */
  lemma RefillEarlier(l: Limiter, now: real)
    requires now <= l.lastRefill
    ensures Refill(l, now) == l.(tokens := Min(l.tokens, Cap(l)), lastRefill := now)
  {
    hide Accrued, Cap;
    AccruedSplit(l.rate, now, now, now);
  }

  lemma CapIs(l: Limiter, m: Limiter)
    requires l.rate == m.rate && l.burst == m.burst
    ensures Cap(l) == Cap(m)
  {
  }

  /** Milliseconds slept when the bucket does not hold a whole token. */
  function WaitMillis(l: Limiter): (ms: int)
    requires l.rate > 0
  {
    var exact := (1.0 - l.tokens) / l.rate as real * 1000.0;
    if exact.Floor < 1 then 1 else exact.Floor
  }

  /** After one sleep less than a millisecond's worth of tokens is missing; if less was missing before, none is. */
  lemma SleepHelps(l: Limiter, now: real)
    requires l.rate > 0 && Cap(l) >= 1.0 && l.tokens < 1.0
    requires now >= l.lastRefill + WaitMillis(l) as real / 1000.0
    ensures 1.0 - Refill(l, now).tokens < l.rate as real / 1000.0
    ensures 1.0 - l.tokens <= l.rate as real / 1000.0 ==> Refill(l, now).tokens >= 1.0
  {
    var ms := WaitMillis(l) as real;
    AccruedSplit(l.rate, l.lastRefill, l.lastRefill + ms / 1000.0, now);
    Gained(l, ms);
    hide Accrued, Cap, WaitMillis;
  }

  /** What accrues while sleeping. */
  lemma Gained(l: Limiter, ms: real)
    requires l.rate > 0 && l.tokens < 1.0 && ms == WaitMillis(l) as real
    ensures var gained := Accrued(l.rate, l.lastRefill, l.lastRefill + ms / 1000.0);
            gained > (1.0 - l.tokens) - l.rate as real / 1000.0 && gained >= l.rate as real / 1000.0
  {
    var r, missing := l.rate as real, 1.0 - l.tokens;
    ExactMillis(r, missing);
    WaitIsClose(l);
    hide WaitMillis, Accrued;
    AccruedSpan(l.rate, l.lastRefill, ms / 1000.0);
    Millis(r, ms, missing / r * 1000.0, missing);
  }

  lemma AccruedSpan(rate: nat, since: real, span: real)
    ensures Accrued(rate, since, since + span) == rate as real * span
  {
    assert since + span - since == span;
  }

  lemma ExactMillis(r: real, missing: real)
    requires r > 0.0
    ensures r * (missing / r * 1000.0) == missing * 1000.0
  {
    var share := missing / r;
    assert r * share == missing;
    Regroup(r, share);
  }

  lemma Regroup(r: real, share: real)
    ensures r * (share * 1000.0) == (r * share) * 1000.0
  {
  }

  lemma WaitIsClose(l: Limiter)
    requires l.rate > 0
    ensures WaitMillis(l) as real > (1.0 - l.tokens) / l.rate as real * 1000.0 - 1.0 && WaitMillis(l) >= 1
  {
  }

  lemma Millis(r: real, ms: real, exact: real, missing: real)
    requires r > 0.0 && r * exact == missing * 1000.0 && ms > exact - 1.0 && ms >= 1.0
    ensures r * (ms / 1000.0) > missing - r / 1000.0
    ensures r * (ms / 1000.0) >= r / 1000.0
  {
    Thousandth(r, ms);
    Surplus(r, ms + 1.0, exact);
    Surplus(r, ms, 1.0);
    OneMore(r, ms);
    Weigh(r * (ms / 1000.0), r * ms, missing, r);
  }

  lemma OneMore(r: real, x: real)
    ensures r * (x + 1.0) == r * x + r && r * 1.0 == r
  {
  }

  lemma Weigh(gained: real, product: real, missing: real, r: real)
    requires gained == product / 1000.0 && product + r - missing * 1000.0 > 0.0 && product - r >= 0.0
    ensures gained > missing - r / 1000.0 && gained >= r / 1000.0
  {
  }

  lemma Surplus(r: real, a: real, b: real)
    requires r > 0.0
    ensures a > b ==> r * a - r * b > 0.0
    ensures a >= b ==> r * a - r * b >= 0.0
  {
    assert r * (a - b) == r * a - r * b;
  }

  lemma Thousandth(r: real, ms: real)
    ensures r * (ms / 1000.0) == (r * ms) / 1000.0
  {
    var k := ms / 1000.0;
    assert ms == k * 1000.0;
    assert r * ms == (r * k) * 1000.0;
  }

  lemma NothingAccrues(l: Limiter, a: real, b: real)
    ensures l.rate == 0 ==> Accrued(l.rate, a, b) == 0.0 && Accrued(l.rate, b, b) == 0.0
  {
  }

  /** Without a rate a bucket that holds less than a token never grants again. */
  lemma {:induction false} NoRateNoGrant(l: Limiter, times: seq<real>, k: nat)
    requires (l.rate == 0 && l.tokens < 1.0) || Cap(l) < 1.0
    requires k < |times|
    ensures !Granted(l, times, k)
    ensures var a := After(l, times, k); a.rate == l.rate && a.burst == l.burst && (Cap(l) >= 1.0 ==> a.tokens < 1.0)
  {
    hide Accrued, Cap;
    AfterKeepsConfig(l, times, k);
    if k > 0 {
      NoRateNoGrant(l, times, k - 1);
      AfterKeepsConfig(l, times, k - 1);
      NothingAccrues(l, After(l, times, k - 1).lastRefill, times[k - 1]);
    }
    NothingAccrues(l, After(l, times, k).lastRefill, times[k]);
  }

  class RateLimiter {
    const rate: nat
    const burst: nat
    var tokens: real
    var lastRefill: real

    function Value(): (l: Limiter)
      reads this
    {
      Limiter(rate, burst, tokens, lastRefill)
    }

    constructor (rate: nat, burst: nat, now: real)
      ensures Value() == New(rate, burst, now)
    {
      this.rate, this.burst := rate, burst;
      tokens, lastRefill := burst as real, now;
    }

    method RefillAt(now: real)
      modifies this
      ensures Value() == Refill(old(Value()), now) && lastRefill == now
    {
      var elapsed := if now < lastRefill then 0.0 else now - lastRefill;
      tokens := tokens + rate as real * elapsed;
      var most := ((rate + burst) % U32_LIMIT) as real;
      if tokens > most {
        tokens := most;
      }
      lastRefill := now;
    }

    method TryAcquireAt(now: real) returns (granted: bool)
      modifies this
      ensures (Value(), granted) == TryAcquire(old(Value()), now)
    {
      RefillAt(now);
      if tokens >= 1.0 {
        tokens := tokens - 1.0;
        return true;
      }
      return false;
    }

    /**
     * `acquire`, with `late(n)` the time by which sleep `n` overshoots. It ends after at most two sleeps, holding the
     * token the bucket has at that time. With no rate and no token, or a cap below one, the source never returns.
     */
    method Acquire(start: real, late: nat -> real) returns (now: real, sleeps: nat)
      requires start >= lastRefill && forall n :: late(n) >= 0.0
      requires Cap(Value()) >= 1.0 && (rate > 0 || Refill(Value(), start).tokens >= 1.0)
      modifies this
      ensures sleeps <= 2 && now >= start
      ensures (Value(), true) == TryAcquire(old(Value()), now)
      ensures sleeps > 0 ==> Refill(old(Value()), start).tokens < 1.0
    {
      hide WaitMillis, Cap, Accrued, Refill;
      now, sleeps := start, 0;
      ghost var first := Value();
      while true
        invariant sleeps <= 2 && start <= now && lastRefill <= now
        invariant first.lastRefill <= now && (sleeps == 0 ==> now == start)
        invariant Value().rate == first.rate && Value().burst == first.burst
        invariant Refill(Value(), now) == Refill(first, now)
        invariant sleeps > 0 ==> Refill(first, start).tokens < 1.0 && rate > 0
        invariant sleeps == 1 ==> 1.0 - Refill(first, now).tokens < rate as real / 1000.0
        invariant sleeps == 2 ==> Refill(first, now).tokens >= 1.0
        decreases 2 - sleeps
      {
        RefillAt(now);
        if tokens >= 1.0 {
          tokens := tokens - 1.0;
          return;
        }
        assert Value() == Refill(first, now);
        var wake := now + WaitMillis(Value()) as real / 1000.0 + late(sleeps);
        Wake(first, now, wake);
        now := wake;
        sleeps := sleeps + 1;
      }
    }
  }

  lemma Wake(l: Limiter, now: real, wake: real)
    requires l.rate > 0 && Cap(l) >= 1.0 && l.lastRefill <= now && Refill(l, now).tokens < 1.0
    requires wake >= now + WaitMillis(Refill(l, now)) as real / 1000.0
    ensures wake >= now && Refill(Refill(l, now), wake) == Refill(l, wake)
    ensures 1.0 - Refill(l, wake).tokens < l.rate as real / 1000.0
    ensures 1.0 - Refill(l, now).tokens < l.rate as real / 1000.0 ==> Refill(l, wake).tokens >= 1.0
  {
    RefillTwice(l, now, wake);
    SleepHelps(Refill(l, now), wake);
  }
}

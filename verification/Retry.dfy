/** The retry policy of retry.go; delays are nanoseconds, float64 arithmetic is over exact reals. */
module Retry {
  import opened Bytes

  datatype Retryer = Retryer(
    maxRetries: int, baseDelay: int, maxDelay: int, multiplier: real, jitter: bool, codes: set<int>)

  /** How the error helpers classify an error. */
  datatype Failure = Failure(retryable: bool, timeout: bool, connectionLevel: bool)

  /** What one attempt left behind for the wait before the next. */
  datatype Trace = Trace(status: int, hint: Option<int>, err: Option<Failure>)

  const SECOND: int := 1_000_000_000

  /** No retryer at all without a positive number of retries. */
  method NewRetryer(maxRetries: int, baseDelay: int, maxDelay: int, multiplier: real, jitter: bool, codes: seq<int>)
    returns (r: Option<Retryer>)
    ensures r.None? <==> maxRetries <= 0
    ensures r.Some? ==> r.value.maxRetries == maxRetries && forall c :: c in r.value.codes <==> c in codes
    ensures r.Some? ==> r.value == Retryer(maxRetries, baseDelay, maxDelay, multiplier, jitter, r.value.codes)
  {
    if maxRetries <= 0 { return None; }
    var known: set<int> := {};
    for i := 0 to |codes|
      invariant forall c :: c in known <==> c in codes[..i]
    {
      known := known + {codes[i]};
    }
    return Some(Retryer(maxRetries, baseDelay, maxDelay, multiplier, jitter, known));
  }

  predicate ShouldRetry(r: Retryer, attempt: nat, status: Option<int>, err: Option<Failure>) {
    && attempt < r.maxRetries
    && ((err.Some? && err.value.retryable) || (status.Some? && status.value in r.codes))
  }

  // ---------------------------------------------------------------- backoff

  function Power(m: real, k: nat): real { if k == 0 then 1.0 else Power(m, k - 1) * m }

  /** Exponential growth from the base delay, capped. */
  function Capped(r: Retryer, attempt: nat): real {
    var d := r.baseDelay as real * Power(r.multiplier, attempt);
    if d > r.maxDelay as real then r.maxDelay as real else d
  }

  /** Conversion to an integer duration drops the fraction. */
  function Truncate(x: real): int { if x >= 0.0 then x.Floor else -((-x).Floor) }

  /** Half the delay, and a random share of the other half. */
  function Jittered(d: real, u: real): real { d / 2.0 + u * (d / 2.0) }

  function Backoff(r: Retryer, attempt: nat, u: real): int {
    var d := Capped(r, attempt);
    Truncate(if r.jitter then Jittered(d, u) else d)
  }

  /** Backoff with its multiplication loop; u is the random draw. */
  method ComputeBackoff(r: Retryer, attempt: nat, u: real) returns (d: int)
    ensures d == Backoff(r, attempt, u)
  {
    hide Jittered, Power;
    assert Power(r.multiplier, 0) == 1.0 by { PowerZero(r.multiplier); }
    var delay := r.baseDelay as real;
    for i := 0 to attempt
      invariant delay == r.baseDelay as real * Power(r.multiplier, i)
    {
      PowerStep(r.baseDelay as real, r.multiplier, i);
      delay := delay * r.multiplier;
    }
    if delay > r.maxDelay as real {
      delay := r.maxDelay as real;
    }
    if r.jitter {
      delay := Jittered(delay, u);
    }
    assert !r.jitter ==> delay == Capped(r, attempt);
    assert r.jitter ==> delay == Jittered(Capped(r, attempt), u);
    return Truncate(delay);
  }

  lemma PowerZero(m: real)
    ensures Power(m, 0) == 1.0
  {}

  lemma PowerStep(b: real, m: real, k: nat)
    ensures b * Power(m, k) * m == b * Power(m, k + 1)
  {}

  lemma TruncateBounds(x: real, n: int)
    ensures x <= n as real && 0 <= n ==> Truncate(x) <= n
    ensures n as real <= x && 0 <= n ==> n <= Truncate(x)
  {}

  /** Jitter never takes a delay above the plain one, nor below half of it. */
  lemma JitterRange(d: real, u: real)
    requires 0.0 <= u < 1.0
    ensures var j := Jittered(d, u);
      (0.0 <= d ==> d / 2.0 <= j <= d) && (d <= 0.0 ==> d <= j <= d / 2.0)
  {
    var h := d / 2.0;
    Share(u, h);
    var part := u * h;
    assert Jittered(d, u) == h + part && d == h + h;
  }

  lemma Share(u: real, h: real)
    requires 0.0 <= u < 1.0
    ensures if 0.0 <= h then 0.0 <= u * h <= h else h <= u * h <= 0.0
  {
    if 0.0 <= h {
      Multiply(0.0, u, h);
      Multiply(u, 1.0, h);
    } else {
      Multiply(0.0, u, -h);
      Multiply(u, 1.0, -h);
      assert u * -h == -(u * h);
    }
  }

  /** And every delay from half of it up is drawn by some jitter. */
  lemma JitterReaches(d: real, x: real) returns (u: real)
    requires 0.0 < d / 2.0 <= x < d
    ensures 0.0 <= u < 1.0 && Jittered(d, u) == x
  {
    var h := d / 2.0;
    u := (x - h) / h;
    assert u * h == x - h;
    if u >= 1.0 { Multiply(1.0, u, h); }
    if u < 0.0 { Multiply(u, 0.0, h); }
  }

  lemma Multiply(a: real, b: real, x: real)
    requires a <= b && 0.0 <= x
    ensures a * x <= b * x
  {}

  /** The longest a caller ever sleeps between two attempts. */
  function Cap(r: Retryer): nat { if r.maxDelay > 0 then r.maxDelay else 0 }

  lemma CappedBounded(r: Retryer, attempt: nat)
    ensures Capped(r, attempt) <= r.maxDelay as real <= Cap(r) as real
  {
    hide Power;
  }

  lemma BackoffBounded(r: Retryer, attempt: nat, u: real)
    requires 0.0 <= u < 1.0
    ensures Backoff(r, attempt, u) <= Cap(r)
  {
    var d := Capped(r, attempt);
    CappedBounded(r, attempt);
    hide Capped, Jittered, Truncate;
    JitterRange(d, u);
    TruncateBounds(d, Cap(r));
    TruncateBounds(Jittered(d, u), Cap(r));
  }

  lemma {:induction false} PowerGrows(m: real, i: nat, k: nat)
    requires 1.0 <= m && i <= k
    ensures 1.0 <= Power(m, i) <= Power(m, k)
    decreases k
  {
    if k > 0 {
      if i == k {
        PowerGrows(m, i - 1, k - 1);
        Multiply(1.0, m, Power(m, k - 1));
      } else {
        PowerGrows(m, i, k - 1);
        Multiply(1.0, m, Power(m, k - 1));
      }
    }
  }

  lemma CappedGrows(r: Retryer, i: nat, k: nat)
    requires 1.0 <= r.multiplier && 0 <= r.baseDelay && i <= k
    ensures Capped(r, i) <= Capped(r, k) <= r.maxDelay as real
    ensures Capped(r, 0) == Min(r.baseDelay, r.maxDelay) as real
  {
    PowerGrows(r.multiplier, i, k);
    Multiply(Power(r.multiplier, i), Power(r.multiplier, k), r.baseDelay as real);
    assert Power(r.multiplier, 0) == 1.0;
  }

  function IntPower(m: nat, k: nat): nat { if k == 0 then 1 else IntPower(m, k - 1) * m }

  lemma {:induction false} PowerIs(m: nat, k: nat)
    ensures Power(m as real, k) == IntPower(m, k) as real
  {
    if k > 0 {
      PowerIs(m, k - 1);
      ProductIs(IntPower(m, k - 1), m);
    }
  }

  lemma ProductIs(a: int, b: int)
    ensures a as real * b as real == (a * b) as real
  {}

  /** With a whole multiplier and no jitter, the backoff is the base delay times its powers, up to the cap. */
  lemma BackoffIs(r: Retryer, m: nat, i: nat, u: real)
    requires r.multiplier == m as real && !r.jitter && 0 <= r.baseDelay && 0 <= r.maxDelay
    ensures Backoff(r, i, u) == Min(r.baseDelay * IntPower(m, i), r.maxDelay)
  {
    PowerIs(m, i);
    ProductIs(r.baseDelay, IntPower(m, i));
    WholeTruncates(Min(r.baseDelay * IntPower(m, i), r.maxDelay));
    hide Power, IntPower, Truncate;
    assert Capped(r, i) == Min(r.baseDelay * IntPower(m, i), r.maxDelay) as real;
  }

  lemma WholeTruncates(n: int)
    ensures Truncate(n as real) == n
  {}

  lemma TruncateGrows(x: real, y: real)
    requires x <= y
    ensures Truncate(x) <= Truncate(y)
  {}

  lemma TruncateHalf(x: real)
    requires x >= 0.0
    ensures Truncate(x) <= 2 * Truncate(x / 2.0) + 1
  {}

  /**
   * With a multiplier of at least one and no negative delays, backoff without jitter never shrinks from one attempt to
   * a later one, and starts at the base delay or the cap; with jitter it never falls below half of what an earlier
   * attempt waited, up to a nanosecond.
   */
  lemma BackoffGrows(r: Retryer, i: nat, k: nat, u: real, v: real)
    requires 1.0 <= r.multiplier && 0 <= r.baseDelay && 0 <= r.maxDelay && i <= k && 0.0 <= u < 1.0 && 0.0 <= v < 1.0
    ensures !r.jitter ==> Backoff(r, i, u) <= Backoff(r, k, v) && Backoff(r, 0, u) == Min(r.baseDelay, r.maxDelay)
    ensures r.jitter ==> Backoff(r, i, u) <= 2 * Backoff(r, k, v) + 1
  {
    CappedGrows(r, i, k);
    CappedGrows(r, 0, i);
    var d, e := Capped(r, i), Capped(r, k);
    hide Capped, Jittered, Truncate;
    if r.jitter {
      JitterRange(d, u);
      JitterRange(e, v);
      TruncateGrows(Jittered(d, u), e);
      TruncateHalf(e);
      TruncateGrows(e / 2.0, Jittered(e, v));
    } else {
      TruncateGrows(d, e);
      TruncateBounds(Capped(r, 0), Min(r.baseDelay, r.maxDelay));
    }
  }

  // ---------------------------------------------------------------- adaptive delay

  /** A Retry-After of n seconds as a 64-bit duration. */
  function Seconds(n: nat): int { Wrap64(n * SECOND) }

  /** adaptiveDelay; the hint is the parsed Retry-After value. */
  function Delay(r: Retryer, attempt: nat, t: Trace, u: real): int {
    if t.status == 429 && t.hint.Some? then Min(t.hint.value, r.maxDelay)
    else if t.err.Some? && (t.err.value.timeout || t.err.value.connectionLevel) then 0
    else Backoff(r, attempt, u)
  }

  /** WaitAdaptive does not sleep for a delay that is not positive. */
  function Sleep(r: Retryer, attempt: nat, t: Trace, u: real): nat {
    var d := Delay(r, attempt, t, u);
    if d <= 0 then 0 else d
  }

  lemma SleepBounded(r: Retryer, attempt: nat, t: Trace, u: real)
    requires 0.0 <= u < 1.0
    ensures Sleep(r, attempt, t, u) <= Cap(r)
  {
    BackoffBounded(r, attempt, u);
    hide Backoff;
  }

  /**
   * A Retry-After of n seconds on a 429 is honoured, up to the cap, exactly when n seconds fit a 64-bit duration or
   * what they wrap to is still at least the cap.
   */
  lemma HintHonoured(r: Retryer, attempt: nat, n: nat, err: Option<Failure>, u: real)
    requires 0 < r.maxDelay < TWO63
    ensures Sleep(r, attempt, Trace(429, Some(Seconds(n)), err), u) == Min(n * SECOND, r.maxDelay)
      <==> n * SECOND < TWO63 || Seconds(n) >= r.maxDelay
  {
    hide Backoff;
  }

  /** 9223372037 seconds wrap to a negative duration, so the caller retries at once. */
  lemma HintWraps(r: Retryer, attempt: nat, err: Option<Failure>, u: real)
    requires 0 < r.maxDelay < TWO63
    ensures Sleep(r, attempt, Trace(429, Some(Seconds(9_223_372_037)), err), u) == 0
  {
    hide Backoff;
  }

  // ---------------------------------------------------------------- sums

  function Total(xs: seq<nat>): nat { if xs == [] then 0 else Total(xs[..|xs| - 1]) + xs[|xs| - 1] }

  lemma {:induction false} TotalBounded(xs: seq<nat>, cap: nat)
    requires forall i :: 0 <= i < |xs| ==> xs[i] <= cap
    ensures Total(xs) <= |xs| * cap
  {
    if xs != [] {
      TotalBounded(xs[..|xs| - 1], cap);
    }
  }
}

/** The retry loop of Client.DoWithContext (client.go) and what happens to each Response it acquires. */
module Client {
  import opened Bytes
  import opened Retry

  /** How one attempt goes: no connection from the pool, or what Connection.Do gives. */
  datatype Attempt =
    | NoConnection(err: Failure)
    | Transferred
    | Broken(err: Failure)
    | BrokenWithStatus(err: Failure, status: int, hint: Option<int>)
    | Answered(status: int, hint: Option<int>)

  datatype Result =
    | Delivered(attempt: nat, err: Option<Failure>)
    | Failed(attempt: nat)
    | CancelledRequest(attempt: nat)
    | CancelledWait(attempt: nat)

  function Budget(r: Option<Retryer>): nat
    requires r.Some? ==> r.value.maxRetries > 0
  {
    if r.Some? then 1 + r.value.maxRetries else 1
  }

  /** What an attempt tells the wait before the next. */
  function TraceOf(a: Attempt): Trace {
    match a
    case NoConnection(e) => Trace(0, None, Some(e))
    case Broken(e) => Trace(0, None, Some(e))
    case BrokenWithStatus(e, status, hint) => Trace(status, hint, Some(e))
    case Answered(status, hint) => Trace(status, hint, None)
    case Transferred => Trace(0, None, None)
  }

  function StatusOf(a: Attempt): Option<int> {
    if a.BrokenWithStatus? || a.Answered? then Some(a.status) else None
  }

  predicate Retries(r: Option<Retryer>, i: nat, a: Attempt) {
    r.Some? && !a.Transferred? && ShouldRetry(r.value, i, StatusOf(a), TraceOf(a).err)
  }

  /**
   * Which attempts are worth another one: an error that may be retried, or a status the retryer was given. A request
   * whose response now belongs to the connection is not.
   */
  predicate WorthRetrying(codes: set<int>, a: Attempt) {
    match a
    case NoConnection(e) => e.retryable
    case Broken(e) => e.retryable
    case BrokenWithStatus(e, status, _) => e.retryable || status in codes
    case Answered(status, _) => status in codes
    case Transferred => false
  }

  lemma RetriesExactly(r: Option<Retryer>, i: nat, a: Attempt)
    ensures Retries(r, i, a) <==> r.Some? && i < r.value.maxRetries && WorthRetrying(r.value.codes, a)
  {}

  /** How the call ends on an attempt it does not retry. */
  function Ending(i: nat, a: Attempt): Result {
    match a
    case Transferred => CancelledRequest(i)
    case BrokenWithStatus(e, _, _) => Delivered(i, Some(e))
    case Answered(_, _) => Delivered(i, None)
    case _ => Failed(i)
  }

  /** What the caller is told of the attempt the call ended on. */
  predicate Reported(a: Attempt, result: Result) {
    && (result.Delivered? <==> a.Answered? || a.BrokenWithStatus?)
    && (a.Answered? ==> result.Delivered? && result.err == None)
    && (a.BrokenWithStatus? ==> result.Delivered? && result.err == Some(a.err))
    && (result.Failed? <==> a.Broken? || a.NoConnection?)
    && (result.CancelledRequest? <==> a.Transferred?)
  }

  /** The call ended on an attempt that was not to be retried, in the way that attempt calls for. */
  predicate Concludes(r: Option<Retryer>, script: seq<Attempt>, result: Result)
    requires result.attempt < |script|
  {
    var a := script[result.attempt];
    !Retries(r, result.attempt, a) && result == Ending(result.attempt, a)
  }

  /** How often a Response handed out for an attempt goes back to the pool before the call returns. */
  function Releases(r: Option<Retryer>, i: nat, a: Attempt): nat {
    if Retries(r, i, a) || a.NoConnection? || a.Broken? then 1 else 0
  }

  /** The client's response pool: how often each acquired Response was released. */
  class ResponsePool {
    var releases: seq<nat>

    method Acquire() returns (id: nat)
      modifies this
      ensures id == |old(releases)| && releases == old(releases) + [0]
    {
      id := |releases|;
      releases := releases + [0];
    }

    method Release(id: nat)
      requires id < |releases|
      modifies this
      ensures releases == old(releases)[id := old(releases)[id] + 1]
    {
      releases := releases[id := releases[id] + 1];
    }
  }

  /** One attempt, from acquiring a Response to deciding whether to go on. */
  method RunAttempt(pool: ResponsePool, r: Option<Retryer>, i: nat, a: Attempt)
    returns (result: Option<Result>, trace: Trace)
    requires r.Some? ==> r.value.maxRetries > 0
    modifies pool
    ensures pool.releases == old(pool.releases) + [Releases(r, i, a)]
    ensures Retries(r, i, a) ==> result == None && trace == TraceOf(a)
    ensures !Retries(r, i, a) ==> result == Some(Ending(i, a))
  {
    trace := Trace(0, None, None);
    var resp := pool.Acquire();
    match a {
      case NoConnection(e) =>
        pool.Release(resp);
        if r.Some? && ShouldRetry(r.value, i, None, Some(e)) {
          return None, trace.(err := Some(e));
        }
        return Some(Failed(i)), trace;
      case Transferred =>
        return Some(CancelledRequest(i)), trace;
      case BrokenWithStatus(e, status, hint) =>
        if r.Some? && ShouldRetry(r.value, i, Some(status), Some(e)) {
          pool.Release(resp);
          return None, Trace(status, hint, Some(e));
        }
        return Some(Delivered(i, Some(e))), trace;
      case Broken(e) =>
        pool.Release(resp);
        if r.Some? && ShouldRetry(r.value, i, None, Some(e)) {
          return None, trace.(err := Some(e));
        }
        return Some(Failed(i)), trace;
      case Answered(status, hint) =>
        if r.Some? && ShouldRetry(r.value, i, Some(status), None) {
          pool.Release(resp);
          return None, Trace(status, hint, None);
        }
        return Some(Delivered(i, None)), trace;
    }
  }

  /**
   * The loop. It makes at most 1 + maxRetries attempts and always ends inside the loop, on the first attempt that is
   * not to be retried or in a cancelled wait; each wait depends only on the attempt just before it and all waits
   * together take at most maxRetries times the longest delay; every Response acquired goes back to the pool once,
   * except the one handed to the caller or to the connection.
   */
  method DoWithContext(pool: ResponsePool, r: Option<Retryer>, script: seq<Attempt>, cancelled: seq<bool>,
                       draws: seq<real>)
    returns (result: Result, slept: seq<nat>)
    requires r.Some? ==> r.value.maxRetries > 0
    requires |script| >= Budget(r) && |cancelled| >= Budget(r) && |draws| >= Budget(r)
    requires forall i :: 0 <= i < |draws| ==> 0.0 <= draws[i] < 1.0
    modifies pool
    ensures result.attempt < Budget(r)
    ensures forall i :: 0 <= i < result.attempt ==> Retries(r, i, script[i])
    ensures forall i :: 0 <= i < result.attempt ==> r.Some? && WorthRetrying(r.value.codes, script[i])
    ensures !result.CancelledWait? ==>
      r.None? || result.attempt == r.value.maxRetries || !WorthRetrying(r.value.codes, script[result.attempt])
    ensures !result.CancelledWait? ==> Reported(script[result.attempt], result)
    ensures forall i :: 0 <= i < result.attempt - 1 && i < |slept| && slept[i] > 0 ==> !cancelled[i]
    ensures !result.CancelledWait? ==> Concludes(r, script, result)
    ensures result.CancelledWait? ==>
      0 < result.attempt == |slept| && cancelled[result.attempt - 1] && slept[result.attempt - 1] > 0
    ensures |slept| == result.attempt
    ensures forall i :: 0 <= i < |slept| ==> slept[i] == Sleep(r.value, i, TraceOf(script[i]), draws[i])
    ensures r.Some? ==> Total(slept) <= r.value.maxRetries * Cap(r.value)
    ensures r.None? ==> slept == []
    ensures pool.releases == old(pool.releases) + Ledger(r, script, result)
  {
    hide Retries, TraceOf, Releases, Sleep, Total, Cap, WorthRetrying;
    ghost var before := pool.releases;
    assert Total([]) == 0 by { NothingSlept(); }
    var maxAttempts := 1;
    if r.Some? { maxAttempts := 1 + r.value.maxRetries; }
    slept := [];
    result := Failed(0);
    var trace := Trace(0, None, None);
    var attempt := 0;
    while attempt < maxAttempts
      invariant attempt < maxAttempts && |slept| == (if attempt == 0 then 0 else attempt - 1)
      invariant attempt > 0 ==> r.Some? && trace == TraceOf(script[attempt - 1])
      invariant forall i :: 0 <= i < attempt ==> Retries(r, i, script[i])
      invariant forall i :: 0 <= i < attempt ==> r.Some? && WorthRetrying(r.value.codes, script[i])
      invariant forall i :: 0 <= i < attempt - 1 && slept[i] > 0 ==> !cancelled[i]
      invariant forall i :: 0 <= i < |slept| ==> slept[i] == Sleep(r.value, i, TraceOf(script[i]), draws[i])
      invariant pool.releases == before + AllReleased(attempt)
    {
      if attempt > 0 {
        var d := AdaptiveDelay(r.value, attempt - 1, trace, draws[attempt - 1]);
        slept := slept + [d];
        SleepsBounded(r.value, script, draws, slept);
        if d > 0 && cancelled[attempt - 1] { return CancelledWait(attempt), slept; }
        trace := Trace(0, None, None);
      }
      var done;
      done, trace := RunAttempt(pool, r, attempt, script[attempt]);
      RetryAllowed(r, attempt, script[attempt]);
      RetriesExactly(r, attempt, script[attempt]);
      if done.Some? { return done.value, slept; }
      attempt := attempt + 1;
    }
    assert false;
  }

  lemma NothingSlept()
    ensures Total([]) == 0
  {}

  /** Only a call with a retryer that has retries left goes on, and then the Response was released. */
  lemma RetryAllowed(r: Option<Retryer>, i: nat, a: Attempt)
    ensures Retries(r, i, a) ==> r.Some? && i < r.value.maxRetries && Releases(r, i, a) == 1
  {}

  function AllReleased(n: nat): seq<nat> { seq(n, _ => 1) }

  /** The releases of the attempts a call made. */
  function Ledger(r: Option<Retryer>, script: seq<Attempt>, result: Result): seq<nat>
    requires result.attempt < |script|
  {
    AllReleased(result.attempt)
    + if result.CancelledWait? then [] else [Releases(r, result.attempt, script[result.attempt])]
  }

  method AdaptiveDelay(r: Retryer, attempt: nat, t: Trace, u: real) returns (d: nat)
    ensures d == Sleep(r, attempt, t, u)
  {
    if t.status == 429 && t.hint.Some? {
      var hint := t.hint.value;
      if hint > r.maxDelay { hint := r.maxDelay; }
      return if hint <= 0 then 0 else hint;
    }
    if t.err.Some? && (t.err.value.timeout || t.err.value.connectionLevel) { return 0; }
    var b := ComputeBackoff(r, attempt, u);
    return if b <= 0 then 0 else b;
  }

  /** The error of an attempt, if it had one, says to try again at once. */
  predicate AtOnce(a: Attempt) {
    (a.NoConnection? || a.Broken? || a.BrokenWithStatus?) && (a.err.timeout || a.err.connectionLevel)
  }

  /** The hint of a 429. */
  function Hint(a: Attempt): Option<int> {
    if (a.Answered? || a.BrokenWithStatus?) && a.status == 429 then a.hint else None
  }

  /** How long the wait after an attempt is: the hint of a 429 up to the cap, none after a timeout, else the backoff. */
  lemma SleepAfter(r: Retryer, i: nat, a: Attempt, u: real)
    ensures var s := Sleep(r, i, TraceOf(a), u);
      && (Hint(a).Some? ==> s == Max(0, Min(Hint(a).value, r.maxDelay)))
      && (Hint(a).None? && AtOnce(a) ==> s == 0)
      && (Hint(a).None? && !AtOnce(a) ==> s == Max(0, Backoff(r, i, u)))
  {
    hide Backoff;
  }

  lemma SleepsBounded(r: Retryer, script: seq<Attempt>, draws: seq<real>, slept: seq<nat>)
    requires |slept| <= r.maxRetries && |slept| <= |script| && |slept| <= |draws|
    requires forall i :: 0 <= i < |draws| ==> 0.0 <= draws[i] < 1.0
    requires forall i :: 0 <= i < |slept| ==> slept[i] == Sleep(r, i, TraceOf(script[i]), draws[i])
    ensures Total(slept) <= r.maxRetries * Cap(r)
  {
    forall i | 0 <= i < |slept| ensures slept[i] <= Cap(r) {
      SleepBounded(r, i, TraceOf(script[i]), draws[i]);
    }
    TotalBounded(slept, Cap(r));
    Scale(|slept|, r.maxRetries, Cap(r));
  }

  /** Each Response ends in exactly one way: released once, or kept by the caller, or left to the connection. */
  lemma OneFatePerResponse(r: Option<Retryer>, script: seq<Attempt>, result: Result)
    requires result.attempt < |script|
    requires !result.CancelledWait? ==> Concludes(r, script, result)
    ensures var led := Ledger(r, script, result);
      && (forall i :: 0 <= i < |led| ==> led[i] <= 1)
      && (forall i :: 0 <= i < |led| ==>
            (led[i] == 0 <==> i == result.attempt && (result.Delivered? || result.CancelledRequest?)))
      && |led| == result.attempt + (if result.CancelledWait? then 0 else 1)
  {}
}

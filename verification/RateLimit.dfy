/** The token bucket of ratelimit.go, over exact reals. */
module RateLimit {

  datatype Bucket = Bucket(tokens: real, capacity: real, rate: real, lastTick: int)

  /** What newTokenBucket establishes and every poll keeps. */
  predicate Sound(b: Bucket) {
    1.0 <= b.capacity && 0.0 < b.rate && 0.0 <= b.tokens <= b.capacity
  }

  function Earned(b: Bucket, now: int): real {
    if now > b.lastTick then (now - b.lastTick) as real * b.rate else 0.0
  }

  /** The part of the earnings that does not fit. */
  function Spilled(b: Bucket, now: int): real {
    var t := b.tokens + Earned(b, now);
    if now > b.lastTick && t > b.capacity then t - b.capacity else 0.0
  }

  function Refill(b: Bucket, now: int): Bucket {
    if now > b.lastTick then b.(tokens := b.tokens + Earned(b, now) - Spilled(b, now), lastTick := now) else b
  }

  predicate Granted(b: Bucket, now: int) { Refill(b, now).tokens >= 1.0 }

  /** One pass through the critical section of Wait. */
  function Poll(b: Bucket, now: int): Bucket {
    var r := Refill(b, now);
    if r.tokens >= 1.0 then r.(tokens := r.tokens - 1.0) else r
  }

  /** How long a refused caller sleeps, in nanoseconds. */
  function WaitNs(b: Bucket): int
    requires b.rate > 0.0
  {
    ((1.0 - b.tokens) / b.rate).Floor
  }

  // ---------------------------------------------------------------- whole runs

  /** The critical sections of all callers, in the order the mutex admits them, at the clock readings they take. */
  function Run(b: Bucket, times: seq<int>): Bucket
    decreases |times|
  {
    if times == [] then b else Run(Poll(b, times[0]), times[1..])
  }

  function Grants(b: Bucket, times: seq<int>): nat
    decreases |times|
  {
    if times == [] then 0 else (if Granted(b, times[0]) then 1 else 0) + Grants(Poll(b, times[0]), times[1..])
  }

  function Waste(b: Bucket, times: seq<int>): real
    decreases |times|
  {
    if times == [] then 0.0 else Spilled(b, times[0]) + Waste(Poll(b, times[0]), times[1..])
  }

  lemma PollKeeps(b: Bucket, now: int)
    requires Sound(b)
    ensures Sound(Poll(b, now)) && Poll(b, now).capacity == b.capacity && Poll(b, now).rate == b.rate
    ensures b.lastTick <= Poll(b, now).lastTick && now <= Poll(b, now).lastTick
    ensures Spilled(b, now) >= 0.0
  {
    if now > b.lastTick { Positive((now - b.lastTick) as real, b.rate); }
  }

  lemma Positive(x: real, y: real)
    requires x >= 0.0 && y >= 0.0
    ensures x * y >= 0.0
  {}

  lemma {:induction false} RunKeeps(b: Bucket, times: seq<int>)
    requires Sound(b)
    ensures Sound(Run(b, times)) && Run(b, times).capacity == b.capacity && Run(b, times).rate == b.rate
    ensures b.lastTick <= Run(b, times).lastTick
    ensures Waste(b, times) >= 0.0
    decreases |times|
  {
    hide Poll, Spilled;
    if times != [] {
      PollKeeps(b, times[0]);
      RunKeeps(Poll(b, times[0]), times[1..]);
    }
  }

  lemma {:induction false} RunConcat(b: Bucket, a: seq<int>, c: seq<int>)
    ensures Run(b, a + c) == Run(Run(b, a), c)
    ensures Grants(b, a + c) == Grants(b, a) + Grants(Run(b, a), c)
    decreases |a|
  {
    hide Poll, Granted;
    if a == [] {
      assert a + c == c;
    } else {
      assert (a + c)[0] == a[0] && (a + c)[1..] == a[1..] + c;
      RunConcat(Poll(b, a[0]), a[1..], c);
    }
  }

  lemma PollAccounted(b: Bucket, now: int)
    ensures (if Granted(b, now) then 1.0 else 0.0) + Poll(b, now).tokens + Spilled(b, now)
         == b.tokens + (Poll(b, now).lastTick - b.lastTick) as real * b.rate
    ensures Poll(b, now).rate == b.rate
  {}

  lemma Distribute(x: int, y: int, r: real)
    ensures x as real * r + y as real * r == (x + y) as real * r
  {}

  /**
   * Every token is accounted for: what was granted, what is left and what overflowed add up to what the bucket
   * started with and earned, whatever the clock does.
   */
  lemma {:induction false} TokensConserved(b: Bucket, times: seq<int>)
    ensures Grants(b, times) as real + Run(b, times).tokens + Waste(b, times)
         == b.tokens + (Run(b, times).lastTick - b.lastTick) as real * b.rate
    decreases |times|
  {
    hide Poll, Spilled, Granted;
    if times != [] {
      var p := Poll(b, times[0]);
      PollAccounted(b, times[0]);
      TokensConserved(p, times[1..]);
      Distribute(p.lastTick - b.lastTick, Run(p, times[1..]).lastTick - p.lastTick, b.rate);
    } else {
      assert (b.lastTick - b.lastTick) as real * b.rate == 0.0;
    }
  }

  /** In any window of any run, however polls interleave, at most capacity + rate * elapsed requests pass. */
  lemma RateRespected(b: Bucket, before: seq<int>, during: seq<int>)
    requires Sound(b)
    ensures var s, e := Run(b, before), Run(b, before + during);
      (Grants(b, before + during) - Grants(b, before)) as real
        <= b.capacity + (e.lastTick - s.lastTick) as real * b.rate
  {
    hide Run, Grants, Waste;
    RunConcat(b, before, during);
    RunKeeps(b, before);
    var s := Run(b, before);
    RunKeeps(s, during);
    TokensConserved(s, during);
  }

  /** A refusal means the budget is spent: less than one token of what was earned and kept is left. */
  lemma RefusedOnlyWhenSpent(b: Bucket, times: seq<int>, now: int)
    requires Sound(b) && !Granted(Run(b, times), now)
    ensures var e := Run(b, times + [now]);
      Grants(b, times + [now]) as real + Waste(b, times + [now])
        > b.tokens + (e.lastTick - b.lastTick) as real * b.rate - 1.0
  {
    TokensConserved(b, times + [now]);
    RunConcat(b, times, [now]);
    assert Run(Run(b, times), [now]) == Poll(Run(b, times), now);
  }

  // ---------------------------------------------------------------- progress

  /** With nobody else polling, the poll d nanoseconds after the last refill passes exactly when d covers the deficit. */
  lemma GrantedAfter(b: Bucket, d: nat)
    requires Sound(b) && b.tokens < 1.0
    ensures Granted(b, b.lastTick + d) <==> d as real * b.rate >= 1.0 - b.tokens
  {}

  lemma FloorBounds(x: real)
    requires x >= 0.0
    ensures 0 <= x.Floor && x.Floor as real <= x < (x.Floor + 1) as real
  {}

  lemma DivideBack(a: real, r: real, d: real)
    requires r > 0.0
    ensures d >= a / r <==> d * r >= a
  {
    var q := a / r;
    assert q * r == a;
    if d >= q { Positive(d - q, r); } else { Positive(q - d, r); assert (q - d) * r > 0.0; }
  }

  lemma SleepFromTick(b: Bucket, d: nat)
    requires Sound(b) && b.tokens < 1.0
    ensures WaitNs(b) >= 0
    ensures d >= WaitNs(b) + 1 ==> Granted(b, b.lastTick + d)
    ensures d < WaitNs(b) ==> !Granted(b, b.lastTick + d)
  {
    var need := (1.0 - b.tokens) / b.rate;
    DivideBack(1.0 - b.tokens, b.rate, 0.0);
    FloorBounds(need);
    GrantedAfter(b, d);
    DivideBack(1.0 - b.tokens, b.rate, d as real);
  }

  /** How far the clock is behind the last refill when a caller reads it. */
  function Behind(b: Bucket, now: int): nat { if now < b.lastTick then b.lastTick - now else 0 }

  /**
   * A caller refused at `now` that polls again d nanoseconds later, with nobody else polling: its sleep is never too
   * long, and too short by what the clock is behind the last refill, up to one nanosecond. A clock that has not stepped
   * back makes it exact up to that nanosecond.
   */
  lemma SleepIsEnough(b: Bucket, now: int, d: int)
    requires Sound(b) && !Granted(b, now)
    ensures var e := Poll(b, now);
      && e.rate > 0.0 && WaitNs(e) >= 0
      && (d >= WaitNs(e) + Behind(b, now) + 1 ==> Granted(e, now + d))
      && (d < WaitNs(e) + Behind(b, now) ==> !Granted(e, now + d))
  {
    var e := Poll(b, now);
    assert Sound(e) && e.tokens < 1.0 && e.lastTick == now + Behind(b, now);
    SleepFromTick(e, if d >= Behind(b, now) then d - Behind(b, now) else 0);
  }

  // ---------------------------------------------------------------- the object

  datatype Outcome = Passed | Cancelled | Waiting

  /** The polls up to a caller's k-th: before each of its own, those other callers make while it sleeps. */
  function History(rivals: seq<seq<int>>, clock: seq<int>, k: nat): seq<int>
    requires k <= |clock| <= |rivals|
  {
    if k == 0 then [] else History(rivals, clock, k - 1) + rivals[k - 1] + [clock[k - 1]]
  }

  /** Whether the caller's own i-th poll passes. */
  predicate PassesAt(b: Bucket, rivals: seq<seq<int>>, clock: seq<int>, i: nat)
    requires i < |clock| <= |rivals|
  {
    Granted(Run(b, History(rivals, clock, i) + rivals[i]), clock[i])
  }

  class TokenBucket {
    var tokens: real
    var capacity: real
    var rate: real
    var lastTick: int

    function View(): Bucket
      reads this
    {
      Bucket(tokens, capacity, rate, lastTick)
    }

    constructor (rps: real, burst: int, now: int)
      requires rps > 0.0 && burst > 0
      ensures View() == Bucket(burst as real, burst as real, rps / 1000000000.0, now) && Sound(View())
    {
      tokens, capacity, rate, lastTick := burst as real, burst as real, rps / 1000000000.0, now;
    }

    /** The critical section: refill, then take a token or compute the sleep. */
    method PollOnce(now: int) returns (ok: bool, waitNs: int)
      requires Sound(View())
      modifies this
      ensures View() == Poll(old(View()), now) && Sound(View())
      ensures ok == Granted(old(View()), now)
      ensures !ok ==> waitNs == WaitNs(View())
    {
      PollKeeps(View(), now);
      waitNs := 0;
      var elapsed := now - lastTick;
      if elapsed > 0 {
        lastTick := now;
        tokens := tokens + elapsed as real * rate;
        if tokens > capacity {
          tokens := capacity;
        }
      }
      if tokens >= 1.0 {
        tokens := tokens - 1.0;
        return true, waitNs;
      }
      return false, ((1.0 - tokens) / rate).Floor;
    }

    method PollAll(times: seq<int>)
      requires Sound(View())
      modifies this
      ensures View() == Run(old(View()), times) && Sound(View())
    {
      ghost var start := View();
      assert times[..0] == [];
      for i := 0 to |times|
        invariant Sound(View()) && View() == Run(start, times[..i])
      {
        RunConcat(start, times[..i], [times[i]]);
        assert times[..i + 1] == times[..i] + [times[i]];
        var _, _ := PollOnce(times[i]);
      }
      assert times[..|times|] == times;
    }

    /**
     * Wait, with other callers interfering: it passes at its first poll that finds a token, a cancelled caller has
     * taken none, and the bucket is left as the polls of everybody leave it.
     */
    method Wait(clock: seq<int>, rivals: seq<seq<int>>, done: seq<bool>) returns (out: Outcome, polls: nat)
      requires Sound(View()) && |clock| <= |rivals| && |clock| <= |done|
      modifies this
      ensures polls <= |clock| && View() == Run(old(View()), History(rivals, clock, polls)) && Sound(View())
      ensures out.Passed? ==> polls > 0 && PassesAt(old(View()), rivals, clock, polls - 1)
      ensures out.Cancelled? ==> polls > 0 && done[polls - 1] && !PassesAt(old(View()), rivals, clock, polls - 1)
      ensures forall i :: 0 <= i < polls - 1 ==> !done[i] && !PassesAt(old(View()), rivals, clock, i)
      ensures out.Waiting? <==> (polls == |clock| &&
        forall i :: 0 <= i < polls ==> !done[i] && !PassesAt(old(View()), rivals, clock, i))
    {
      ghost var start := View();
      polls := 0;
      while polls < |clock|
        invariant polls <= |clock| && Sound(View())
        invariant View() == Run(start, History(rivals, clock, polls))
        invariant forall i :: 0 <= i < polls ==> !done[i] && !PassesAt(start, rivals, clock, i)
      {
        ghost var seen := History(rivals, clock, polls);
        RunConcat(start, seen, rivals[polls]);
        PollAll(rivals[polls]);
        RunConcat(start, seen + rivals[polls], [clock[polls]]);
        var ok, _ := PollOnce(clock[polls]);
        polls := polls + 1;
        if ok { return Passed, polls; }
        if done[polls - 1] { return Cancelled, polls; }
      }
      return Waiting, polls;
    }
  }

  method NewTokenBucket(rps: real, burst: int, now: int) returns (tb: TokenBucket?)
    ensures tb == null <==> rps <= 0.0 || burst <= 0
    ensures tb != null ==> fresh(tb) && Sound(tb.View()) && tb.tokens == tb.capacity == burst as real
    ensures tb != null ==> tb.lastTick == now && tb.rate == rps / 1000000000.0
  {
    if rps <= 0.0 || burst <= 0 { return null; }
    tb := new TokenBucket(rps, burst, now);
  }
}

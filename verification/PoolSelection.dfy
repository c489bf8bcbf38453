/** Choosing a connection: getIdleConnection, getAnyConnection and removeUnhealthyConnections, without interference. */
module PoolSelection {
  import opened Bytes

  // ---------------------------------------------------------------- slots of the rotating scan

  /** Index visited i steps after `start`, in 32-bit unsigned arithmetic. */
  function Slot(start: nat, i: nat, n: nat): (r: nat)
    requires n > 0
    ensures r < n
  {
    (start + i) % TWO32 % n
  }

  lemma MulAtLeast(n: nat, d: int)
    ensures d >= 1 ==> n * d >= n
    ensures d <= -1 ==> n * d + n <= 0
  {}

  lemma ModUnique(a: int, n: nat, q: int, r: nat)
    requires n > 0 && a == n * q + r && r < n
    ensures a % n == r
  {
    var q', r' := a / n, a % n;
    var d := q - q';
    assert a == n * q' + r' && 0 <= r' < n;
    assert n * d == r' - r by { assert n * d == n * q - n * q'; }
    MulAtLeast(n, d);
    assert d == 0;
  }

  /** Every slot of the list is visited within n steps. */
  lemma SlotCovers(start: nat, n: nat, j: nat) returns (i: nat)
    requires 0 < n < TWO31 && start < TWO31 && j < n
    ensures i < n && Slot(start, i, n) == j
  {
    var s := start % n;
    var q := start / n;
    i := if j >= s then j - s else j - s + n;
    var total := start + i;
    assert start == n * q + s;
    if j >= s {
      assert total == n * q + j;
      ModUnique(total, n, q, j);
    } else {
      assert total == n * (q + 1) + j;
      ModUnique(total, n, q + 1, j);
    }
    assert total % TWO32 == total;
  }

  // ---------------------------------------------------------------- connections

  class Conn {
    var healthy: bool
    var stopped: bool
    var active: int            // activeReqs
    var claimed: bool          // poolClaimed
    var depth: int             // pipelineDepth
    var healthScore: int
    var latency: int           // latencyEWMA
    const pipelining: bool

    predicate IsHealthy()
      reads this
    {
      healthy && !stopped
    }

    predicate CanAccept()
      reads this
    {
      IsHealthy() && if pipelining then active < (if depth <= 0 then 10 else depth) else active == 0
    }

    /** HealthScore: a connection with no history counts as perfect. */
    function Score(): int
      reads this
    {
      if healthScore == 0 && latency == 0 then 100 else healthScore
    }

    method Stop()
      modifies this`stopped, this`healthy
      ensures stopped && (old(stopped) ==> healthy == old(healthy)) && (!old(stopped) ==> !healthy)
    {
      if stopped { return; }
      stopped := true;
      healthy := false;
    }
  }

  ghost predicate ScoresOk(cs: seq<Conn>)
    reads cs
  {
    forall c :: c in cs ==> 0 <= c.healthScore <= 100
  }

  // ---------------------------------------------------------------- the two scans

  /** Some slot among the first `n` visited can accept a request. */
  ghost predicate SomeAccepts(cs: seq<Conn>, start: nat, lo: nat, hi: nat)
    requires cs != [] || hi == 0
    reads cs
  {
    exists i :: lo <= i < hi && cs[Slot(start, i, |cs|)].CanAccept()
  }

  /** `best` accepts and no accepting slot in the window scores higher. */
  ghost predicate BestOf(best: Conn, cs: seq<Conn>, start: nat, window: nat)
    requires cs != []
    reads cs, best
  {
    && best.CanAccept()
    && (exists i :: 0 <= i < window && cs[Slot(start, i, |cs|)] == best)
    && (forall i :: 0 <= i < window && cs[Slot(start, i, |cs|)].CanAccept() ==>
          cs[Slot(start, i, |cs|)].Score() <= best.Score())
  }

  /** First window: the highest score wins, and a perfect score ends the scan early. */
  method ScanWindow(cs: seq<Conn>, start: nat, window: nat)
    returns (best: Conn?, bestIdx: nat, bad: seq<Conn>)
    requires cs != [] && ScoresOk(cs)
    ensures best == null <==> !SomeAccepts(cs, start, 0, window)
    ensures best != null ==> bestIdx < |cs| && cs[bestIdx] == best && BestOf(best, cs, start, window)
    ensures forall c :: c in bad ==> c in cs && !c.IsHealthy()
  {
    best, bestIdx, bad := null, 0, [];
    var bestScore := -1;
    var i := 0;
    while i < window
      invariant i <= window
      invariant best == null <==> !SomeAccepts(cs, start, 0, i)
      invariant best != null ==> bestIdx < |cs| && cs[bestIdx] == best && BestOf(best, cs, start, i)
      invariant best != null ==> bestScore == best.Score()
      invariant forall c :: c in bad ==> c in cs && !c.IsHealthy()
    {
      var idx := Slot(start, i, |cs|);
      var c := cs[idx];
      if !c.IsHealthy() {
        bad := bad + [c];
        i := i + 1;
        continue;
      }
      if !c.CanAccept() {
        i := i + 1;
        continue;
      }
      var score := c.Score();
      if best == null || score > bestScore {
        best, bestScore, bestIdx := c, score, idx;
      }
      assert BestOf(best, cs, start, i + 1);
      if score == 100 {
        assert best.Score() == 100;
        PerfectIsBest(best, cs, start, i + 1, window);
        break;
      }
      i := i + 1;
    }
  }

  /** No score exceeds 100, so stopping at 100 loses nothing. */
  lemma PerfectIsBest(best: Conn, cs: seq<Conn>, start: nat, seen: nat, window: nat)
    requires cs != [] && ScoresOk(cs) && seen <= window
    requires BestOf(best, cs, start, seen) && best.Score() == 100
    ensures BestOf(best, cs, start, window) && SomeAccepts(cs, start, 0, window)
  {}

  /** Past the window: the first connection that accepts. */
  method ScanRest(cs: seq<Conn>, start: nat, from: nat)
    returns (found: Conn?, idx: nat, bad: seq<Conn>)
    requires cs != [] && from <= |cs|
    ensures found == null <==> !SomeAccepts(cs, start, from, |cs|)
    ensures found != null ==> idx < |cs| && cs[idx] == found && found.CanAccept()
    ensures forall c :: c in bad ==> c in cs && !c.IsHealthy()
  {
    found, idx, bad := null, 0, [];
    var i := from;
    while i < |cs|
      invariant from <= i <= |cs|
      invariant !SomeAccepts(cs, start, from, i)
      invariant forall c :: c in bad ==> c in cs && !c.IsHealthy()
    {
      idx := Slot(start, i, |cs|);
      var c := cs[idx];
      if !c.IsHealthy() {
        bad := bad + [c];
      } else if c.CanAccept() {
        return c, idx, bad;
      }
      i := i + 1;
    }
    found := null;
  }

  predicate InWindow(c: Conn, cs: seq<Conn>, start: nat) {
    cs != [] && exists i :: 0 <= i < Min(16, |cs|) && cs[Slot(start, i, |cs|)] == c
  }

  /** The connection is in one of the sixteen slots from the start index on, around the end of the list. */
  predicate InSlot(c: Conn, cs: seq<Conn>, start: nat, i: int) {
    0 <= i < 16 && i < |cs| && cs[(start + i) % |cs|] == c
  }

  lemma SlotIs(start: nat, i: nat, n: nat)
    requires 0 < n && start + i < TWO32
    ensures Slot(start, i, n) == (start + i) % n
  {}

  lemma WindowIs(c: Conn, cs: seq<Conn>, start: nat)
    requires cs != [] && |cs| < TWO31 && start < TWO31
    ensures InWindow(c, cs, start) <==> exists i :: InSlot(c, cs, start, i)
  {
    hide Slot;
    if InWindow(c, cs, start) {
      var i :| 0 <= i < Min(16, |cs|) && cs[Slot(start, i, |cs|)] == c;
      SlotIs(start, i, |cs|);
      assert InSlot(c, cs, start, i);
    }
    if i :| InSlot(c, cs, start, i) {
      SlotIs(start, i, |cs|);
      assert cs[Slot(start, i, |cs|)] == c;
    }
  }

  /** One scan of getIdleConnection over a loaded list: what it picks, what it found broken, whether it must rescan. */
  method Pick(cs: seq<Conn>, start: nat) returns (r: Conn?, idx: nat, bad: seq<Conn>, again: bool)
    requires cs != [] && ScoresOk(cs) && |cs| < TWO31 && start < TWO31
    ensures again ==> r == null && bad != []
    ensures !again ==> (r == null <==> forall c :: c in cs ==> !c.CanAccept())
    ensures r != null ==> idx < |cs| && cs[idx] == r && r.CanAccept()
    ensures r != null ==> forall c :: c in cs && c.CanAccept() && InWindow(c, cs, start) ==>
      c.Score() <= r.Score() && InWindow(r, cs, start)
    ensures forall c :: c in bad ==> c in cs && !c.IsHealthy()
  {
    var maxScan := Min(16, |cs|);
    r, idx, bad := ScanWindow(cs, start, maxScan);
    again := false;
    if r != null {
      assert r.CanAccept() && cs[idx] == r;
      return;
    }
    if |bad| > 0 {
      again := true;
      return;
    }
    if maxScan < |cs| {
      r, idx, bad := ScanRest(cs, start, maxScan);
    }
    if r == null {
      NobodyAccepts(cs, start, maxScan);
    }
  }

  /** Window and rest together visit every slot. */
  lemma NobodyAccepts(cs: seq<Conn>, start: nat, window: nat)
    requires cs != [] && |cs| < TWO31 && start < TWO31 && window <= |cs|
    requires !SomeAccepts(cs, start, 0, window) && !SomeAccepts(cs, start, window, |cs|)
    ensures forall c :: c in cs ==> !c.CanAccept()
  {
    forall c | c in cs
      ensures !c.CanAccept()
    {
      var j :| 0 <= j < |cs| && cs[j] == c;
      var i := SlotCovers(start, |cs|, j);
      assert i < window || i >= window;
    }
  }

  // ---------------------------------------------------------------- the host pool

  function Without(cs: seq<Conn>, bad: seq<Conn>): seq<Conn> {
    if cs == [] then []
    else if cs[0] in bad then Without(cs[1..], bad)
    else [cs[0]] + Without(cs[1..], bad)
  }

  lemma {:induction false} WithoutMembers(cs: seq<Conn>, bad: seq<Conn>)
    ensures forall c :: c in Without(cs, bad) <==> c in cs && c !in bad
  {
    if cs != [] {
      WithoutMembers(cs[1..], bad);
      assert cs == [cs[0]] + cs[1..];
    }
  }

  lemma {:induction false} WithoutLength(cs: seq<Conn>, bad: seq<Conn>)
    ensures var r := Without(cs, bad); |r| <= |cs| && (|r| == |cs| ==> r == cs)
    ensures |Without(cs, bad)| == |cs| <==> forall c :: c in cs ==> c !in bad
  {
    if cs != [] {
      WithoutLength(cs[1..], bad);
      assert cs == [cs[0]] + cs[1..];
    }
  }

  lemma {:induction false} WithoutDistinct(cs: seq<Conn>, bad: seq<Conn>)
    requires Distinct(cs)
    ensures Distinct(Without(cs, bad))
  {
    if cs != [] {
      WithoutDistinct(cs[1..], bad);
      WithoutMembers(cs[1..], bad);
    }
  }

  lemma WithoutFacts(cs: seq<Conn>, bad: seq<Conn>)
    ensures var r := Without(cs, bad);
      && (forall c :: c in r ==> c in cs && c !in bad)
      && (forall c :: c in cs && c !in bad ==> c in r)
      && |r| <= |cs| && (|r| == |cs| ==> r == cs)
      && (|r| == |cs| <==> forall c :: c in cs ==> c !in bad)
      && (Distinct(cs) ==> Distinct(r))
  {
    WithoutMembers(cs, bad);
    WithoutLength(cs, bad);
    if Distinct(cs) { WithoutDistinct(cs, bad); }
  }

  method Filter(cs: seq<Conn>, bad: seq<Conn>) returns (kept: seq<Conn>, removed: nat)
    ensures kept == Without(cs, bad) && removed == |cs| - |kept|
  {
    kept, removed := [], 0;
    for i := 0 to |cs|
      invariant kept + Without(cs[i..], bad) == Without(cs, bad)
      invariant removed == i - |kept|
    {
      assert cs[i..][1..] == cs[i + 1..];
      if cs[i] in bad { removed := removed + 1; } else { kept := kept + [cs[i]]; }
    }
  }

  method StopAll(bad: seq<Conn>)
    modifies (set c | c in bad)`stopped, (set c | c in bad)`healthy
    ensures forall c :: c in bad ==> c.stopped
  {
    for i := 0 to |bad|
      invariant forall j :: 0 <= j < i ==> bad[j].stopped
    {
      bad[i].Stop();
    }
  }

  class HostPool {
    var conns: seq<Conn>
    var index: nat
    var activeCount: int
    var idleCount: int

    ghost predicate Valid()
      reads this, conns
    {
      Distinct(conns) && index < TWO31 && |conns| < TWO31 && ScoresOk(conns)
    }

    /** removeUnhealthyConnections; when none of them is listed (any more) it does nothing at all. */
    method RemoveUnhealthy(bad: seq<Conn>)
      requires Valid()
      modifies this`conns, this`activeCount, this`idleCount
      modifies (set c | c in bad)`stopped, (set c | c in bad)`healthy
      ensures Valid() && conns == Without(old(conns), bad)
      ensures activeCount == old(activeCount) - (|old(conns)| - |conns|)
      ensures idleCount == old(idleCount) - (|old(conns)| - |conns|)
      ensures |conns| < |old(conns)| ==> forall c :: c in bad ==> c.stopped
      ensures |conns| == |old(conns)| ==>
        forall c :: c in bad ==> c.healthy == old(c.healthy) && c.stopped == old(c.stopped)
    {
      var kept, removed := Filter(conns, bad);
      WithoutFacts(conns, bad);
      if removed == 0 { return; }
      conns := kept;
      StopAll(bad);
      activeCount := activeCount - removed;
      idleCount := idleCount - removed;
    }

    /** The compare-and-swap of activeReqs and the claim flag that sequential connections get. */
    method Claim(c: Conn) returns (ok: bool)
      modifies c`active, c`claimed
      ensures ok == (c.pipelining || old(c.active) == 0)
      ensures if c.pipelining || !ok then unchanged(c) else c.active == 1 && c.claimed
    {
      if !c.pipelining {
        if c.active != 0 { return false; }
        c.active := 1;
        c.claimed := true;
      }
      return true;
    }

    /**
     * getIdleConnection. Returns null exactly when no listed connection can accept a request; otherwise one that can,
     * the best of the scan window when the window has any. `scanned` is the list the deciding scan ran over: the list
     * at the call, less unhealthy connections removed by earlier scans.
     */
    method GetIdle() returns (r: Conn?, ghost scanned: seq<Conn>)
      requires Valid()
      modifies this, conns
      ensures Valid()
      ensures r == null <==> forall c :: c in old(conns) ==> !old(c.CanAccept())
      ensures r != null ==> r in old(conns) && old(r.CanAccept())
      ensures r != null ==> old(r.healthy) && !old(r.stopped)
      ensures r != null && !r.pipelining ==> old(r.active) == 0
      ensures r != null && r.pipelining ==> old(r.active) < old(r.depth) || (old(r.depth) <= 0 && old(r.active) < 10)
      ensures r == null ==> forall c :: c in old(conns) && old(c.healthy) && !old(c.stopped) ==>
        if c.pipelining then old(c.active) >= old(c.depth) && (old(c.depth) <= 0 ==> old(c.active) >= 10)
        else old(c.active) != 0
      ensures forall c :: c in scanned ==> c in old(conns)
      ensures forall c :: c in old(conns) && old(c.IsHealthy()) ==> c in scanned && c in conns
      ensures r != null ==> forall c :: c in old(conns) && old(c.CanAccept()) && InWindow(c, scanned, old(index)) ==>
        old(c.Score()) <= old(r.Score()) && InWindow(r, scanned, old(index))
      ensures r != null ==> forall c :: c in old(conns) && old(c.CanAccept()) && InWindow(c, scanned, old(index)) ==>
        || (old(r.healthScore) == 0 && old(r.latency) == 0) || old(r.healthScore) == 100
        || (old(c.healthScore) <= old(r.healthScore) && (old(c.healthScore) == 0 ==> old(c.latency) != 0))
      ensures r != null && !r.pipelining ==> r.active == 1 && r.claimed
      ensures r == null ==> index == old(index)
      ensures r != null ==> exists i :: 0 <= i < |scanned| && scanned[i] == r && index == (i + 1) % |scanned|
      ensures forall c :: c in old(conns) && old(c.IsHealthy()) && (c != r || c.pipelining) ==> unchanged(c)
    {
      hide Without, InWindow;
      while true
        invariant Valid() && index == old(index)
        invariant forall c :: c in conns ==> c in old(conns)
        invariant forall c :: c in old(conns) && old(c.IsHealthy()) ==> c in conns && unchanged(c)
        invariant forall c :: c in old(conns) && !old(c.IsHealthy()) ==> !c.IsHealthy()
        decreases |conns|
      {
        var cs := conns;
        scanned := cs;
        if |cs| == 0 { return null, scanned; }
        var idx, bad, again;
        r, idx, bad, again := Pick(cs, index);
        WithoutFacts(cs, bad);
        RemoveUnhealthy(bad);
        if again {
          assert bad[0] in cs;
          continue;
        }
        if r != null {
          var claimed := Claim(r);
          assert claimed;
          index := (idx + 1) % |cs|;
        }
        return r, scanned;
      }
    }

    /**
     * getAnyConnection: null exactly when the list has no healthy connection. Healthy connections stay listed and
     * untouched; each rescan has removed at least the first connection it looked at.
     */
    method GetAny() returns (r: Conn?)
      requires Valid()
      modifies this, conns
      ensures Valid()
      ensures r == null <==> forall c :: c in old(conns) ==> !old(c.IsHealthy())
      ensures r == null <==> forall c :: c in old(conns) ==> !old(c.healthy) || old(c.stopped)
      ensures r != null ==> r in old(conns) && old(r.IsHealthy())
      ensures r != null ==> old(r.healthy) && !old(r.stopped)
      ensures r == null ==> conns == [] && index == old(index)
      ensures forall c :: c in old(conns) && old(c.IsHealthy()) ==> c in conns && unchanged(c)
    {
      while true
        invariant Valid() && index == old(index)
        invariant forall c :: c in conns ==> c in old(conns)
        invariant forall c :: c in old(conns) && old(c.IsHealthy()) ==> c in conns && unchanged(c)
        invariant forall c :: c in old(conns) && !old(c.IsHealthy()) ==> !c.IsHealthy()
        decreases |conns|
      {
        var cs := conns;
        if |cs| == 0 { return null; }
        var idx, bad;
        r, idx, bad := FirstHealthy(cs, index);
        if r != null { index := (idx + 1) % |cs|; }
        WithoutFacts(cs, bad);
        RemoveUnhealthy(bad);
        if r != null { return r; }
        assert bad[0] in cs;
      }
    }
  }

  /** The scan of getAnyConnection: the slot at the index, then up to seven more. */
  method FirstHealthy(cs: seq<Conn>, start: nat) returns (r: Conn?, idx: nat, bad: seq<Conn>)
    requires cs != [] && start < TWO31
    ensures r != null ==> idx < |cs| && cs[idx] == r && r.IsHealthy()
    ensures r == null ==> bad != [] && forall i :: 0 <= i < Min(8, |cs|) ==> !cs[Slot(start, i, |cs|)].IsHealthy()
    ensures forall c :: c in bad ==> c in cs && !c.IsHealthy()
  {
    idx, bad := start % |cs|, [];
    if cs[idx].IsHealthy() { return cs[idx], idx, bad; }
    bad := [cs[idx]];
    var maxScan := Min(8, |cs|);
    for i := 1 to maxScan
      invariant bad != [] && forall c :: c in bad ==> c in cs && !c.IsHealthy()
      invariant forall j :: 0 <= j < i ==> !cs[Slot(start, j, |cs|)].IsHealthy()
    {
      idx := Slot(start, i, |cs|);
      if cs[idx].IsHealthy() { return cs[idx], idx, bad; }
      bad := bad + [cs[idx]];
    }
    r := null;
  }
}

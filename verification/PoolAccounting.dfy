/**
 * The per-host pool under arbitrary interleaving: createConnection, removeUnhealthyConnections and Stop as atomic
 * steps of any number of goroutines over a CAS pointer and two counters.
 */
module PoolAccounting {
  import opened Bytes

  type Cid = nat

  /** The value behind hp.connections: an immutable slice, told apart from every other by its address. */
  datatype Snapshot = Snapshot(address: nat, conns: seq<Cid>)

  datatype Thread =
    | Idle
    // createConnection
    | Creating                                         // top of the reservation loop
    | SawCount(cur: int)                               // loaded activeCount
    | Reserved                                         // incremented activeCount, dialing
    | Dialed(c: Cid)                                   // top of the publication loop
    | SawList(c: Cid, seen: Snapshot)                  // loaded the list
    | Published(c: Cid)                                // CAS done, idleCount not yet incremented
    | Undoing                                          // about to give the reservation back
    // removeUnhealthyConnections
    | Removing(victims: set<Cid>)                      // top of the removal loop
    | SawVictims(victims: set<Cid>, seen: Snapshot)
    | Removed(victims: set<Cid>, k: nat)               // CAS done, victims not yet stopped
    | Stopped(k: nat)                                  // victims stopped, activeCount not yet reduced
    | Reduced(k: nat)                                  // activeCount reduced, idleCount not yet
    // Pool.Stop on this host
    | Closing(conns: seq<Cid>)                         // swapped the list out, connections not yet stopped

  datatype Pool = Pool(
    list: Option<Snapshot>,        // None after Stop
    nextAddr: nat,                 // no snapshot has this address yet
    active: int,                   // activeCount
    idle: int,                     // idleCount
    threads: seq<Thread>,
    conns: nat,                    // connections created so far are 0..conns
    stopped: set<Cid>,
    // history
    published: set<Cid>,           // ever in the list
    gone: set<Cid>,                // taken out of the list
    lost: set<Cid>,                // dialed, and then given up because Stop had swapped the list out
    dropped: nat)                  // how many Stop took out

  function Init(): Pool { Pool(Some(Snapshot(0, [])), 1, 0, 0, [], 0, {}, {}, {}, {}, 0) }

  function Listed(p: Pool): seq<Cid> { if p.list.Some? then p.list.value.conns else [] }

  datatype Action =
    | Spawn
    | Create(t: nat) | LoadCount(t: nat) | Reserve(t: nat, limit: int) | DialOk(t: nat) | DialFail(t: nat)
    | LoadList(t: nat)
    | Publish(t: nat) | CountIdle(t: nat) | Undo(t: nat)
    | Remove(t: nat, victims: set<Cid>)                // connections some goroutine found in a list it loaded
    | LoadVictims(t: nat) | Cut(t: nat) | StopVictims(t: nat)
    | Reduce(t: nat) | ReduceIdle(t: nat)
    | StopPool(t: nat) | StopConns(t: nat)

  predicate In(p: Pool, t: nat) { t < |p.threads| }

  predicate Enabled(p: Pool, a: Action) {
    match a
    case Spawn => true
    case Create(t) => In(p, t) && p.threads[t].Idle?
    case LoadCount(t) => In(p, t) && p.threads[t].Creating?
    case Reserve(t, _) => In(p, t) && p.threads[t].SawCount?
    case DialOk(t) => In(p, t) && p.threads[t].Reserved?
    case DialFail(t) => In(p, t) && p.threads[t].Reserved?
    case LoadList(t) => In(p, t) && p.threads[t].Dialed?
    case Publish(t) => In(p, t) && p.threads[t].SawList?
    case CountIdle(t) => In(p, t) && p.threads[t].Published?
    case Undo(t) => In(p, t) && p.threads[t].Undoing?
    case Remove(t, victims) => In(p, t) && p.threads[t].Idle? && victims <= p.published
    case LoadVictims(t) => In(p, t) && p.threads[t].Removing?
    case Cut(t) => In(p, t) && p.threads[t].SawVictims?
    case StopVictims(t) => In(p, t) && p.threads[t].Removed?
    case Reduce(t) => In(p, t) && p.threads[t].Stopped?
    case ReduceIdle(t) => In(p, t) && p.threads[t].Reduced?
    case StopPool(t) => In(p, t) && p.threads[t].Idle?
    case StopConns(t) => In(p, t) && p.threads[t].Closing?
  }

  // ---------------------------------------------------------------- steps

  function At(p: Pool, t: nat, x: Thread): Pool
    requires In(p, t)
  {
    p.(threads := p.threads[t := x])
  }

  /** The compare-and-swap that reserves a slot; a value at the limit ends the call. */
  function DoReserve(p: Pool, t: nat, cur: int, limit: int): Pool
    requires In(p, t)
  {
    if cur >= limit then At(p, t, Idle)
    else if p.active == cur then p.(active := cur + 1, threads := p.threads[t := Reserved])
    else At(p, t, Creating)
  }

  function DoDial(p: Pool, t: nat): Pool
    requires In(p, t)
  {
    p.(conns := p.conns + 1, threads := p.threads[t := Dialed(p.conns)])
  }

  function DoLoadList(p: Pool, t: nat, c: Cid): Pool
    requires In(p, t)
  {
    if p.list.None? then p.(lost := p.lost + {c}, threads := p.threads[t := Undoing])
    else At(p, t, SawList(c, p.list.value))
  }

  /** Publication: the list must still be the one loaded. */
  function DoPublish(p: Pool, t: nat, c: Cid, seen: Snapshot): Pool
    requires In(p, t)
  {
    if p.list.Some? && p.list.value.address == seen.address then
      p.(list := Some(Snapshot(p.nextAddr, seen.conns + [c])), nextAddr := p.nextAddr + 1, published := p.published + {c},
         threads := p.threads[t := Published(c)])
    else At(p, t, Dialed(c))
  }

  function Keep(cs: seq<Cid>, victims: set<Cid>): (r: seq<Cid>)
    ensures |r| <= |cs|
  {
    if cs == [] then []
    else (if cs[0] in victims then [] else [cs[0]]) + Keep(cs[1..], victims)
  }

  function DoLoadVictims(p: Pool, t: nat, victims: set<Cid>): Pool
    requires In(p, t)
  {
    At(p, t, if p.list.None? || Keep(p.list.value.conns, victims) == p.list.value.conns then Idle
             else SawVictims(victims, p.list.value))
  }

  function DoCut(p: Pool, t: nat, victims: set<Cid>, seen: Snapshot): Pool
    requires In(p, t)
  {
    var rest := Keep(seen.conns, victims);
    if p.list.Some? && p.list.value.address == seen.address then
      p.(list := Some(Snapshot(p.nextAddr, rest)), nextAddr := p.nextAddr + 1,
         gone := p.gone + (set c | c in seen.conns && c in victims),
         threads := p.threads[t := Removed(victims, |seen.conns| - |rest|)])
    else At(p, t, Removing(victims))
  }

  function DoStopVictims(p: Pool, t: nat, victims: set<Cid>, k: nat): Pool
    requires In(p, t)
  {
    p.(stopped := p.stopped + victims, threads := p.threads[t := Stopped(k)])
  }

  function DoReduce(p: Pool, t: nat, k: nat): Pool
    requires In(p, t)
  {
    p.(active := p.active - k, threads := p.threads[t := Reduced(k)])
  }

  function DoReduceIdle(p: Pool, t: nat, k: nat): Pool
    requires In(p, t)
  {
    p.(idle := p.idle - k, threads := p.threads[t := Idle])
  }

  function DoStopPool(p: Pool, t: nat): Pool
    requires In(p, t)
  {
    p.(list := None, gone := p.gone + (set c | c in Listed(p)), dropped := p.dropped + |Listed(p)|,
       threads := p.threads[t := Closing(Listed(p))])
  }

  function DoStopConns(p: Pool, t: nat, cs: seq<Cid>): Pool
    requires In(p, t)
  {
    p.(stopped := p.stopped + (set c | c in cs), threads := p.threads[t := Idle])
  }

  function Next(p: Pool, a: Action): Pool
    requires Enabled(p, a)
  {
    match a
    case Spawn => p.(threads := p.threads + [Idle])
    case Create(t) => At(p, t, Creating)
    case LoadCount(t) => At(p, t, SawCount(p.active))
    case Reserve(t, limit) => DoReserve(p, t, p.threads[t].cur, limit)
    case DialOk(t) => DoDial(p, t)
    case DialFail(t) => At(p, t, Undoing)
    case LoadList(t) => DoLoadList(p, t, p.threads[t].c)
    case Publish(t) => DoPublish(p, t, p.threads[t].c, p.threads[t].seen)
    case CountIdle(t) => p.(idle := p.idle + 1, threads := p.threads[t := Idle])
    case Undo(t) => p.(active := p.active - 1, threads := p.threads[t := Idle])
    case Remove(t, victims) => At(p, t, Removing(victims))
    case LoadVictims(t) => DoLoadVictims(p, t, p.threads[t].victims)
    case Cut(t) => DoCut(p, t, p.threads[t].victims, p.threads[t].seen)
    case StopVictims(t) => DoStopVictims(p, t, p.threads[t].victims, p.threads[t].k)
    case Reduce(t) => DoReduce(p, t, p.threads[t].k)
    case ReduceIdle(t) => DoReduceIdle(p, t, p.threads[t].k)
    case StopPool(t) => DoStopPool(p, t)
    case StopConns(t) => DoStopConns(p, t, p.threads[t].conns)
  }

  /** Runs in which createConnection reads its limit, maxIdle, from the host pool. */
  function Run(maxIdle: nat, acts: seq<Action>): Option<Pool> {
    if acts == [] then Some(Init())
    else
      match Run(maxIdle, acts[..|acts| - 1])
      case None => None
      case Some(p) =>
        var a := acts[|acts| - 1];
        if Enabled(p, a) && (a.Reserve? ==> a.limit == maxIdle) then Some(Next(p, a)) else None
  }

  // ---------------------------------------------------------------- accounting

  /** What a goroutine still owes activeCount: a reservation not yet published, or removals not yet subtracted. */
  function Debt(t: Thread): int {
    match t
    case Reserved => 1
    case Dialed(_) => 1
    case SawList(_, _) => 1
    case Undoing => 1
    case Removed(_, k) => k
    case Stopped(k) => k
    case _ => 0
  }

  /** The same for idleCount, which is incremented after publication. */
  function IdleDebt(t: Thread): int {
    match t
    case Published(_) => -1
    case Removed(_, k) => k
    case Stopped(k) => k
    case Reduced(k) => k
    case _ => 0
  }

  function Debts(ts: seq<Thread>): int {
    if ts == [] then 0 else Debt(ts[0]) + Debts(ts[1..])
  }

  function IdleDebts(ts: seq<Thread>): int {
    if ts == [] then 0 else IdleDebt(ts[0]) + IdleDebts(ts[1..])
  }

  lemma {:induction false} DebtsUpdate(ts: seq<Thread>, i: nat, x: Thread)
    requires i < |ts|
    ensures Debts(ts[i := x]) == Debts(ts) - Debt(ts[i]) + Debt(x)
    ensures IdleDebts(ts[i := x]) == IdleDebts(ts) - IdleDebt(ts[i]) + IdleDebt(x)
  {
    if i > 0 {
      DebtsUpdate(ts[1..], i - 1, x);
      assert ts[i := x][1..] == ts[1..][i - 1 := x];
    } else {
      assert ts[i := x][1..] == ts[1..];
    }
  }

  lemma {:induction false} DebtsSpawn(ts: seq<Thread>)
    ensures Debts(ts + [Idle]) == Debts(ts) && IdleDebts(ts + [Idle]) == IdleDebts(ts)
  {
    if ts == [] {
      assert ts + [Idle] == [Idle];
    } else {
      DebtsSpawn(ts[1..]);
      assert (ts + [Idle])[1..] == ts[1..] + [Idle];
    }
  }

  /** A snapshot a goroutine holds is the current list if the addresses agree. */
  ghost predicate SeenInv(p: Pool) {
    && (p.list.Some? ==> p.list.value.address < p.nextAddr)
    && (forall t :: 0 <= t < |p.threads| && p.threads[t].SawList? ==> Current(p, p.threads[t].seen))
    && (forall t :: 0 <= t < |p.threads| && p.threads[t].SawVictims? ==> Current(p, p.threads[t].seen))
  }

  predicate Current(p: Pool, seen: Snapshot) {
    seen.address < p.nextAddr && (p.list.Some? && p.list.value.address == seen.address ==> p.list.value == seen)
  }

  /** activeCount and idleCount are the list plus what is owed, plus what Stop took out without subtracting. */
  ghost predicate SumInv(p: Pool) {
    && p.active == |Listed(p)| + Debts(p.threads) + p.dropped
    && p.idle == |Listed(p)| + IdleDebts(p.threads) + p.dropped
  }

  ghost predicate LimitInv(p: Pool, maxIdle: nat) { p.active <= maxIdle }

  lemma KeepSeen(p: Pool, a: Action)
    requires SeenInv(p) && Enabled(p, a)
    ensures SeenInv(Next(p, a))
  {
    ListMoves(p, a);
    if !a.Spawn? { ThreadMoves(p, a); }
    hide Enabled;
    if a.Spawn? {
      assert Next(p, a).list == p.list;
    } else {
      hide Next;
      assert forall t :: 0 <= t < |p.threads| && t != a.t ==> Next(p, a).threads[t] == p.threads[t];
    }
  }

  /** The list stays, goes, or is replaced by one at a new address. */
  lemma ListMoves(p: Pool, a: Action)
    requires Enabled(p, a)
    ensures var q := Next(p, a);
      && p.nextAddr <= q.nextAddr
      && (q.list == p.list || q.list.None? || q.list.value.address == p.nextAddr < q.nextAddr)
  {
    hide Keep;
  }

  /** Only the moving goroutine changes, and what it has just loaded is the list as it is. */
  lemma ThreadMoves(p: Pool, a: Action)
    requires Enabled(p, a) && !a.Spawn?
    ensures var q := Next(p, a);
      && a.t < |p.threads| == |q.threads| && q.threads == p.threads[a.t := q.threads[a.t]]
      && (q.threads[a.t].SawList? ==> p.list == q.list == Some(q.threads[a.t].seen))
      && (q.threads[a.t].SawVictims? ==> p.list == q.list == Some(q.threads[a.t].seen))
  {
    hide Keep;
  }

  /** One goroutine moves, and the counters move by what it owes and what the list gains. */
  lemma StepDelta(p: Pool, a: Action)
    requires SeenInv(p) && Enabled(p, a) && !a.Spawn?
    ensures var q := Next(p, a);
      && |q.threads| == |p.threads| && q.threads == p.threads[a.t := q.threads[a.t]]
      && q.active - p.active ==
           |Listed(q)| - |Listed(p)| + Debt(q.threads[a.t]) - Debt(p.threads[a.t]) + q.dropped - p.dropped
      && q.idle - p.idle ==
           |Listed(q)| - |Listed(p)| + IdleDebt(q.threads[a.t]) - IdleDebt(p.threads[a.t]) + q.dropped - p.dropped
  {
    hide Keep;
  }

  lemma KeepSum(p: Pool, a: Action)
    requires SeenInv(p) && SumInv(p) && Enabled(p, a)
    ensures SumInv(Next(p, a))
  {
    if a.Spawn? {
      DebtsSpawn(p.threads);
    } else {
      StepDelta(p, a);
      hide Next, Debts, IdleDebts, Debt, IdleDebt, Enabled, SeenInv;
      DebtsUpdate(p.threads, a.t, Next(p, a).threads[a.t]);
    }
  }

  lemma KeepLimit(p: Pool, a: Action, maxIdle: nat)
    requires LimitInv(p, maxIdle) && Enabled(p, a) && (a.Reserve? ==> a.limit == maxIdle)
    ensures LimitInv(Next(p, a), maxIdle)
  {}

  // ---------------------------------------------------------------- identity

  predicate Carries(t: Thread) { t.Dialed? || t.SawList? }

  /** A connection is published at most once: by the goroutine that dialed it, before which nobody knows it. */
  ghost predicate IdInv(p: Pool) {
    && Distinct(Listed(p))
    && (forall c: Cid :: c in Listed(p) ==> c in p.published && c !in p.gone)
    && (forall c: Cid :: c in p.published ==> c < p.conns)
    && p.gone <= p.published
    && (forall t :: 0 <= t < |p.threads| && Carries(p.threads[t]) ==>
          p.threads[t].c < p.conns && p.threads[t].c !in p.published)
    && (forall t, u :: 0 <= t < u < |p.threads| && Carries(p.threads[t]) && Carries(p.threads[u]) ==>
          p.threads[t].c != p.threads[u].c)
  }

  predicate WillStop(t: Thread, c: Cid) { (t.Removed? && c in t.victims) || (t.Closing? && c in t.conns) }

  /** A connection out of the list is stopped, or the goroutine that took it out is about to stop it. */
  ghost predicate StopInv(p: Pool) {
    forall c: Cid :: c in p.gone ==> c in p.stopped || exists t :: 0 <= t < |p.threads| && WillStop(p.threads[t], c)
  }

  lemma {:induction false} KeepSubset(cs: seq<Cid>, victims: set<Cid>)
    ensures forall c :: c in Keep(cs, victims) <==> c in cs && c !in victims
    ensures Distinct(cs) ==> Distinct(Keep(cs, victims))
  {
    if cs != [] {
      KeepSubset(cs[1..], victims);
      assert forall c :: c in cs <==> c == cs[0] || c in cs[1..];
    }
  }

  lemma KeepIds(p: Pool, a: Action)
    requires SeenInv(p) && IdInv(p) && Enabled(p, a)
    ensures IdInv(Next(p, a))
  {
    if a.Publish? {
      KeepIdsPublish(p, a.t);
    } else if a.Cut? {
      KeepIdsCut(p, a.t);
    } else if a.DialOk? {
      KeepIdsDial(p, a.t);
    } else {
      IdFrame(p, Next(p, a));
    }
  }

  /** IdInv survives any step that publishes and removes nothing and lets nobody carry a connection anew. */
  lemma IdFrame(p: Pool, q: Pool)
    requires IdInv(p) && q.published == p.published && q.conns == p.conns
    requires (q.list == p.list && q.gone == p.gone) || (q.list.None? && q.gone == p.gone + (set c | c in Listed(p)))
    requires |p.threads| <= |q.threads|
    requires forall t :: 0 <= t < |q.threads| && Carries(q.threads[t]) ==>
      t < |p.threads| && Carries(p.threads[t]) && q.threads[t].c == p.threads[t].c
    ensures IdInv(q)
  {}

  lemma KeepIdsPublish(p: Pool, t: nat)
    requires SeenInv(p) && IdInv(p) && In(p, t) && p.threads[t].SawList?
    ensures IdInv(DoPublish(p, t, p.threads[t].c, p.threads[t].seen))
  {
    var c, seen := p.threads[t].c, p.threads[t].seen;
    var q := DoPublish(p, t, c, seen);
    assert Carries(p.threads[t]);
    if p.list.Some? && p.list.value.address == seen.address {
      assert Listed(q) == Listed(p) + [c] && c !in Listed(p);
    } else {
      IdFrame(p, q);
    }
  }

  lemma KeepIdsCut(p: Pool, t: nat)
    requires SeenInv(p) && IdInv(p) && In(p, t) && p.threads[t].SawVictims?
    ensures IdInv(DoCut(p, t, p.threads[t].victims, p.threads[t].seen))
  {
    var victims, seen := p.threads[t].victims, p.threads[t].seen;
    var q := DoCut(p, t, victims, seen);
    KeepSubset(seen.conns, victims);
  }

  lemma KeepIdsDial(p: Pool, t: nat)
    requires IdInv(p) && In(p, t) && p.threads[t].Reserved?
    ensures IdInv(DoDial(p, t))
  {}

  lemma KeepStops(p: Pool, a: Action)
    requires SeenInv(p) && StopInv(p) && Enabled(p, a)
    ensures StopInv(Next(p, a))
  {
    hide Keep;
    var q := Next(p, a);
    forall c: Cid | c in q.gone
      ensures c in q.stopped || exists t :: 0 <= t < |q.threads| && WillStop(q.threads[t], c)
    {
      if c in p.gone && c !in p.stopped {
        var t :| 0 <= t < |p.threads| && WillStop(p.threads[t], c);
        assert c in q.stopped || WillStop(q.threads[t], c);
      } else if c !in p.gone {
        assert WillStop(q.threads[a.t], c);
      }
    }
  }

  ghost predicate Inv(p: Pool, maxIdle: nat) {
    SeenInv(p) && SumInv(p) && LimitInv(p, maxIdle) && IdInv(p) && StopInv(p)
  }

  /** Every reachable state of the pool satisfies all of it. */
  lemma {:induction false} RunsAreAccounted(maxIdle: nat, acts: seq<Action>)
    requires Run(maxIdle, acts).Some?
    ensures Inv(Run(maxIdle, acts).value, maxIdle)
    decreases |acts|
  {
    hide Next, Enabled;
    if acts != [] {
      var before := acts[..|acts| - 1];
      RunsAreAccounted(maxIdle, before);
      var p, a := Run(maxIdle, before).value, acts[|acts| - 1];
      hide SeenInv, SumInv, LimitInv, IdInv, StopInv;
      KeepSeen(p, a);
      KeepSum(p, a);
      KeepLimit(p, a, maxIdle);
      KeepIds(p, a);
      KeepStops(p, a);
    }
  }

  lemma {:induction false} DebtsNonNegative(ts: seq<Thread>)
    ensures Debts(ts) >= 0
  {
    if ts != [] { DebtsNonNegative(ts[1..]); }
  }

  /**
   * Pool accounting over every run: activeCount is exactly the listed connections plus outstanding reservations plus
   * removals not yet subtracted, plus what Stop swapped out; it stays within [0, maxIdle], and so does the list.
   */
  lemma PoolAccounted(maxIdle: nat, acts: seq<Action>)
    requires Run(maxIdle, acts).Some?
    ensures var p := Run(maxIdle, acts).value;
      && p.active == |Listed(p)| + Debts(p.threads) + p.dropped
      && p.idle == |Listed(p)| + IdleDebts(p.threads) + p.dropped
      && 0 <= p.active <= maxIdle && |Listed(p)| <= maxIdle
      && Distinct(Listed(p))
  {
    RunsAreAccounted(maxIdle, acts);
    DebtsNonNegative(Run(maxIdle, acts).value.threads);
    hide Run;
  }

  lemma GoneGrows(p: Pool, a: Action)
    requires Enabled(p, a)
    ensures p.gone <= Next(p, a).gone
  {
    hide Keep;
  }

  /** A connection taken out of the list never comes back, and is stopped or about to be. */
  lemma {:induction false} RemovedStaysOut(maxIdle: nat, acts: seq<Action>, more: seq<Action>, c: Cid)
    requires Run(maxIdle, acts).Some? && c in Run(maxIdle, acts).value.gone
    requires Run(maxIdle, acts + more).Some?
    ensures var q := Run(maxIdle, acts + more).value;
      && c in q.gone && c !in Listed(q)
      && (c in q.stopped || exists t :: 0 <= t < |q.threads| && WillStop(q.threads[t], c))
    decreases |more|
  {
    hide Next, Enabled, Listed;
    RunsAreAccounted(maxIdle, acts + more);
    if more == [] {
      assert acts + more == acts;
    } else {
      assert (acts + more)[..|acts + more| - 1] == acts + more[..|more| - 1];
      RemovedStaysOut(maxIdle, acts, more[..|more| - 1], c);
      GoneGrows(Run(maxIdle, acts + more[..|more| - 1]).value, (acts + more)[|acts + more| - 1]);
    }
  }

  // ---------------------------------------------------------------- every connection is accounted for

  /** Every connection ever dialed was published, is still in its creator's hands, or was given up after Stop. */
  ghost predicate FateInv(p: Pool) {
    && (forall c: Cid :: c < p.conns ==> c in p.published || c in p.lost || Carried(p, c))
    && (forall c: Cid :: c in p.published ==> c in Listed(p) || c in p.gone)
    && (forall c: Cid :: c in p.lost ==> c < p.conns && c !in p.published && !Carried(p, c) && p.list.None?)
  }

  ghost predicate Carried(p: Pool, c: Cid) {
    exists t :: 0 <= t < |p.threads| && Carries(p.threads[t]) && p.threads[t].c == c
  }

  /** How one step moves connections between the three. */
  lemma FateStep(p: Pool, a: Action)
    requires SeenInv(p) && IdInv(p) && FateInv(p) && Enabled(p, a)
    ensures FateInv(Next(p, a))
  {
    hide Keep;
    var q := Next(p, a);
    forall c: Cid | c in q.published ensures c in Listed(q) || c in q.gone { PublishedStep(p, a, c); }
    hide Next, Enabled, SeenInv, IdInv, Carried, Listed;
    forall c: Cid | c < q.conns ensures c in q.published || c in q.lost || Carried(q, c) { CreatedStep(p, a, c); }
    forall c: Cid | c in q.lost ensures c < q.conns && c !in q.published && !Carried(q, c) && q.list.None? {
      LostStep(p, a, c);
    }
  }

  lemma CreatedStep(p: Pool, a: Action, c: Cid)
    requires FateInv(p) && Enabled(p, a) && c < Next(p, a).conns
    ensures var q := Next(p, a); c in q.published || c in q.lost || Carried(q, c)
  {
    hide Keep;
    var q := Next(p, a);
    if c == p.conns {
      assert Carries(q.threads[a.t]);
    } else if c !in p.published && c !in p.lost {
      var t :| 0 <= t < |p.threads| && Carries(p.threads[t]) && p.threads[t].c == c;
      assert c in q.published || c in q.lost || (Carries(q.threads[t]) && q.threads[t].c == c);
    }
  }

  lemma PublishedStep(p: Pool, a: Action, c: Cid)
    requires SeenInv(p) && FateInv(p) && Enabled(p, a) && c in Next(p, a).published
    ensures c in Listed(Next(p, a)) || c in Next(p, a).gone
  {
    hide Keep;
    if a.Cut? { KeepSubset(p.threads[a.t].seen.conns, p.threads[a.t].victims); }
  }

  lemma LostStep(p: Pool, a: Action, c: Cid)
    requires IdInv(p) && FateInv(p) && Enabled(p, a) && c in Next(p, a).lost
    ensures var q := Next(p, a); c < q.conns && c !in q.published && !Carried(q, c) && q.list.None?
  {
    hide Keep;
    var q := Next(p, a);
    if c in p.lost {
      assert forall t :: 0 <= t < |p.threads| && Carries(p.threads[t]) ==> p.threads[t].c != c;
    } else {
      assert a.LoadList? && p.threads[a.t].c == c && Carries(p.threads[a.t]);
    }
    assert forall t :: 0 <= t < |q.threads| && Carries(q.threads[t]) ==> q.threads[t].c != c;
  }

  lemma {:induction false} RunsKeepFate(maxIdle: nat, acts: seq<Action>)
    requires Run(maxIdle, acts).Some?
    ensures FateInv(Run(maxIdle, acts).value)
    decreases |acts|
  {
    hide Next, Enabled;
    if acts != [] {
      var before := acts[..|acts| - 1];
      RunsKeepFate(maxIdle, before);
      RunsAreAccounted(maxIdle, before);
      hide FateInv, SeenInv, SumInv, LimitInv, IdInv, StopInv;
      FateStep(Run(maxIdle, before).value, acts[|acts| - 1]);
    }
  }

  /** The connections a goroutine stops, or has set out to remove. */
  function Targets(t: Thread): set<Cid> {
    match t
    case Removing(victims) => victims
    case SawVictims(victims, _) => victims
    case Removed(victims, _) => victims
    case Closing(conns) => set c | c in conns
    case _ => {}
  }

  /** Only connections that were in the list are ever stopped. */
  ghost predicate TargetInv(p: Pool) {
    p.stopped <= p.published && forall t :: 0 <= t < |p.threads| ==> Targets(p.threads[t]) <= p.published
  }

  lemma TargetStep(p: Pool, a: Action)
    requires IdInv(p) && TargetInv(p) && Enabled(p, a)
    ensures TargetInv(Next(p, a))
  {
    hide Keep;
  }

  lemma {:induction false} RunsKeepTargets(maxIdle: nat, acts: seq<Action>)
    requires Run(maxIdle, acts).Some?
    ensures TargetInv(Run(maxIdle, acts).value)
    decreases |acts|
  {
    hide Next, Enabled;
    if acts != [] {
      var before := acts[..|acts| - 1];
      RunsKeepTargets(maxIdle, before);
      RunsAreAccounted(maxIdle, before);
      hide TargetInv, SeenInv, SumInv, LimitInv, IdInv, StopInv;
      TargetStep(Run(maxIdle, before).value, acts[|acts| - 1]);
    }
  }

  ghost predicate StopDue(p: Pool, c: Cid) { exists t :: 0 <= t < |p.threads| && WillStop(p.threads[t], c) }

  /**
   * In every run a connection that was dialed is lost, that is, its creator found the list swapped out by Stop and gave
   * the connection up, if and only if it is not listed, not with the goroutine that dialed it, not stopped and not about
   * to be.
   */
  lemma EveryConnectionAccounted(maxIdle: nat, acts: seq<Action>, c: Cid)
    requires Run(maxIdle, acts).Some? && c < Run(maxIdle, acts).value.conns
    ensures var p := Run(maxIdle, acts).value;
      && (c in p.lost <==> c !in Listed(p) && !Carried(p, c) && c !in p.stopped && !StopDue(p, c))
      && (c in p.lost ==> p.list.None?)
  {
    RunsAreAccounted(maxIdle, acts);
    RunsKeepFate(maxIdle, acts);
    RunsKeepTargets(maxIdle, acts);
    var p := Run(maxIdle, acts).value;
    hide Run, SeenInv, SumInv, LimitInv;
    assert forall t :: 0 <= t < |p.threads| && WillStop(p.threads[t], c) ==> c in Targets(p.threads[t]);
  }

  lemma LostGrows(p: Pool, a: Action)
    requires Enabled(p, a)
    ensures p.lost <= Next(p, a).lost && p.conns <= Next(p, a).conns
  {
    hide Keep;
  }

  /** A lost connection is never stopped, whatever happens next. */
  lemma {:induction false} LostForGood(maxIdle: nat, acts: seq<Action>, more: seq<Action>, c: Cid)
    requires Run(maxIdle, acts).Some? && c < Run(maxIdle, acts).value.conns && c in Run(maxIdle, acts).value.lost
    requires Run(maxIdle, acts + more).Some?
    ensures var q := Run(maxIdle, acts + more).value;
      c < q.conns && c in q.lost && c !in Listed(q) && c !in q.stopped && !StopDue(q, c)
    decreases |more|
  {
    hide Next, Enabled, Listed, StopDue, Carried;
    if more == [] {
      assert acts + more == acts;
    } else {
      assert (acts + more)[..|acts + more| - 1] == acts + more[..|more| - 1];
      LostForGood(maxIdle, acts, more[..|more| - 1], c);
      LostGrows(Run(maxIdle, acts + more[..|more| - 1]).value, (acts + more)[|acts + more| - 1]);
    }
    EveryConnectionAccounted(maxIdle, acts + more, c);
  }

  lemma RunSnoc(maxIdle: nat, acts: seq<Action>, a: Action, p: Pool)
    requires Run(maxIdle, acts) == Some(p) && Enabled(p, a) && (a.Reserve? ==> a.limit == maxIdle)
    ensures Run(maxIdle, acts + [a]) == Some(Next(p, a))
  {
    assert (acts + [a])[..|acts|] == acts;
  }

  /** And one can be lost: nobody lists it, holds it or will ever stop it. */
  lemma ConnectionLost(maxIdle: nat) returns (acts: seq<Action>)
    requires maxIdle > 0
    ensures Run(maxIdle, acts).Some?
    ensures var p := Run(maxIdle, acts).value;
      p.conns == 1 && p.lost == {0} && p.stopped == {} && Listed(p) == [] && p.threads == [Undoing, Idle] && p.active == 1
  {
    hide Keep, Run;
    var p;
    acts, p := FirstDialed(maxIdle);
    acts, p := Take(maxIdle, acts, StopPool(1), p);
    acts, p := Take(maxIdle, acts, StopConns(1), p);
    acts, p := Take(maxIdle, acts, LoadList(0), p);
  }

  lemma FirstDialed(maxIdle: nat) returns (acts: seq<Action>, p: Pool)
    requires maxIdle > 0
    ensures Run(maxIdle, acts) == Some(p) && p.threads == [Dialed(0), Idle] && p.conns == 1 && p.active == 1
    ensures Listed(p) == [] && p.stopped == {} && p.lost == {}
  {
    acts, p := [], Init();
    acts, p := Take(maxIdle, acts, Spawn, p);
    acts, p := Take(maxIdle, acts, Spawn, p);
    hide Run, Keep;
    acts, p := Take(maxIdle, acts, Create(0), p);
    acts, p := Take(maxIdle, acts, LoadCount(0), p);
    acts, p := Take(maxIdle, acts, Reserve(0, maxIdle), p);
    acts, p := Take(maxIdle, acts, DialOk(0), p);
  }

  lemma Take(maxIdle: nat, acts: seq<Action>, a: Action, p: Pool) returns (acts': seq<Action>, p': Pool)
    requires Run(maxIdle, acts) == Some(p) && Enabled(p, a) && (a.Reserve? ==> a.limit == maxIdle)
    ensures acts' == acts + [a] && p' == Next(p, a) && Run(maxIdle, acts') == Some(p')
  {
    RunSnoc(maxIdle, acts, a, p);
    acts', p' := acts + [a], Next(p, a);
  }
}

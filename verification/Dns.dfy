/** The DNS cache of dns.go for one host: atomic sections of LookupHost, backgroundRefresh and the evictions. */
module Dns {
  import opened Bytes

  type Addr = nat
  type Tid = nat

  datatype Config = Config(ttl: int, negativeTtl: int)

  /** One resolver call; a success holds at least one address. */
  datatype Flight = Pending | Errored | Answered(addrs: seq<Addr>)

  /** A cache entry: it expires at stored + ttl. `flight` says which resolver call its addresses came from. */
  datatype Entry = Entry(addrs: seq<Addr>, stored: int, idx: int, flight: nat)

  /** A negative entry, and the failed resolver call behind it. */
  datatype Negative = Negative(until: int, flight: nat)

  /** The registered lookup and the caller that registered it. */
  datatype Ticket = Ticket(flight: nat, owner: Tid)

  datatype Purpose = Lookup(stale: Option<Entry>) | Refresh

  datatype Outcome =
    | Hit(entry: Entry, at: int, addr: Addr)
    | Refused(negative: Negative, at: int)
    | Served(flight: nat, addrs: seq<Addr>)
    | ServedStale(flight: nat, entry: Entry)
    | Failed(flight: nat)
    | Skipped
    | Refreshed(flight: nat)

  datatype Phase =
    | Idle
    | Missed(stale: Option<Entry>)
    | Waiting(flight: nat, stale: Option<Entry>)
    | Resolving(flight: nat, why: Purpose)
    | Closing(flight: nat, why: Purpose)
    | Storing(flight: nat, why: Purpose)
    | Done(out: Outcome)

  /** One cache hit: the counter value it drew and the list it drew from. */
  datatype Draw = Draw(epoch: nat, idx: int, addrs: seq<Addr>, addr: Addr)

  datatype State = State(
    now: int,
    entry: Option<Entry>,
    negative: Option<Negative>,
    inflight: Option<Ticket>,
    flights: seq<Flight>,
    threads: map<Tid, Phase>,
    draws: seq<Draw>,
    epoch: nat)

  datatype Action =
    | Read(t: Tid, at: int)
    | Join(t: Tid)
    | Wake(t: Tid)
    | StartRefresh(t: Tid)
    | Resolve(t: Tid, answer: Flight)
    | Unregister(t: Tid)
    | Store(t: Tid, at: int)
    | Force(at: int, answer: Flight)
    | Evict
    | EvictNegative

  function PhaseOf(s: State, t: Tid): Phase { if t in s.threads then s.threads[t] else Idle }

  function To(s: State, t: Tid, p: Phase): State { s.(threads := s.threads[t := p]) }

  const START := State(0, None, None, None, [], map[], [], 0)

  // ---------------------------------------------------------------- the atomic sections

  /** The read-locked part of LookupHost: negative entry, fresh entry, or a miss that may keep a stale list. */
  function DoRead(cfg: Config, s: State, t: Tid, at: int): State {
    var s := s.(now := at);
    if s.negative.Some? && at < s.negative.value.until then To(s, t, Done(Refused(s.negative.value, at)))
    else if s.entry.Some? && at < s.entry.value.stored + cfg.ttl && s.entry.value.addrs != [] then DoHit(s, t, at)
    else To(s, t, Missed(s.entry))
  }

  function DoHit(s: State, t: Tid, at: int): State
    requires s.entry.Some? && s.entry.value.addrs != []
  {
    var e := s.entry.value;
    var addr := e.addrs[e.idx % |e.addrs|];
    To(s.(entry := Some(e.(idx := (e.idx + 1) % TWO32)), draws := s.draws + [Draw(s.epoch, e.idx, e.addrs, addr)]),
       t, Done(Hit(e, at, addr)))
  }

  function Register(s: State, t: Tid, why: Purpose): State {
    To(s.(inflight := Some(Ticket(|s.flights|, t)), flights := s.flights + [Pending]), t, Resolving(|s.flights|, why))
  }

  /** Wait on the registered lookup, or become it. */
  function DoJoin(s: State, t: Tid): State {
    var stale := if PhaseOf(s, t).Missed? then PhaseOf(s, t).stale else None;
    if s.inflight.Some? then To(s, t, Waiting(s.inflight.value.flight, stale)) else Register(s, t, Lookup(stale))
  }

  function DoStartRefresh(s: State, t: Tid): State {
    if s.inflight.Some? then To(s, t, Done(Skipped)) else Register(s, t, Refresh)
  }

  /** What a finished lookup gives whoever waited on it or made it. */
  function Verdict(s: State, flight: nat, stale: Option<Entry>): Outcome {
    if flight < |s.flights| && s.flights[flight].Answered? && s.flights[flight].addrs != []
    then Served(flight, s.flights[flight].addrs[..1])
    else if stale.Some? then ServedStale(flight, stale.value)
    else Failed(flight)
  }

  function DoWake(s: State, t: Tid): State {
    match PhaseOf(s, t)
    case Waiting(f, stale) => To(s, t, Done(Verdict(s, f, stale)))
    case _ => s
  }

  /** The resolver returns, and closing the channel publishes its answer. */
  function DoResolve(s: State, t: Tid, answer: Flight): State {
    match PhaseOf(s, t)
    case Resolving(f, why) =>
      To(s.(flights := if f < |s.flights| then s.flights[f := answer] else s.flights), t, Closing(f, why))
    case _ => s
  }

  function DoUnregister(s: State, t: Tid): State {
    match PhaseOf(s, t)
    case Closing(f, why) => To(s.(inflight := None), t, Storing(f, why))
    case _ => s
  }

  /** The write-locked end of LookupHost and backgroundRefresh. */
  function DoStore(cfg: Config, s: State, t: Tid, at: int): State {
    var s := s.(now := at);
    match PhaseOf(s, t)
    case Storing(f, why) =>
      if f < |s.flights| && s.flights[f].Answered? then
        var keep := why.Refresh? && s.entry.Some?;
        var e := Entry(s.flights[f].addrs, at, if keep then s.entry.value.idx else 0, f);
        To(s.(entry := Some(e), negative := None, epoch := if keep then s.epoch else s.epoch + 1),
           t, Done(if why.Refresh? then Refreshed(f) else Verdict(s, f, why.stale)))
      else if why.Refresh? then To(s, t, Done(Refreshed(f)))
      else if why.stale.Some? then To(s, t, Done(ServedStale(f, why.stale.value)))
      else To(s.(negative := Some(Negative(at + cfg.negativeTtl, f))), t, Done(Failed(f)))
    case _ => s
  }

  /** Refresh: a lookup outside the table; an answer replaces the entry, and the negative entry stays. */
  function DoForce(s: State, at: int, answer: Flight): State {
    var s := s.(now := at, flights := s.flights + [answer]);
    if answer.Answered? then s.(entry := Some(Entry(answer.addrs, at, 0, |s.flights| - 1)), epoch := s.epoch + 1) else s
  }

  predicate Enabled(s: State, a: Action) {
    match a
    case Read(t, at) => PhaseOf(s, t).Idle? && s.now <= at
    case Join(t) => PhaseOf(s, t).Missed?
    case Wake(t) => PhaseOf(s, t).Waiting? && Settled(s, PhaseOf(s, t).flight)
    case StartRefresh(t) => PhaseOf(s, t).Idle?
    case Resolve(t, answer) => PhaseOf(s, t).Resolving? && !answer.Pending? && (answer.Answered? ==> answer.addrs != [])
    case Unregister(t) => PhaseOf(s, t).Closing?
    case Store(t, at) => PhaseOf(s, t).Storing? && s.now <= at
    case Force(at, answer) => s.now <= at && !answer.Pending? && (answer.Answered? ==> answer.addrs != [])
    case Evict => true
    case EvictNegative => true
  }

  function Next(cfg: Config, s: State, a: Action): State {
    match a
    case Read(t, at) => DoRead(cfg, s, t, at)
    case Join(t) => DoJoin(s, t)
    case Wake(t) => DoWake(s, t)
    case StartRefresh(t) => DoStartRefresh(s, t)
    case Resolve(t, answer) => DoResolve(s, t, answer)
    case Unregister(t) => DoUnregister(s, t)
    case Store(t, at) => DoStore(cfg, s, t, at)
    case Force(at, answer) => DoForce(s, at, answer)
    case Evict => s.(entry := None)
    case EvictNegative => s.(negative := None)
  }

  /** The state after a run, or None when a step was not enabled. */
  function Run(cfg: Config, acts: seq<Action>): Option<State> {
    if acts == [] then Some(START)
    else
      var r := Run(cfg, acts[..|acts| - 1]);
      if r.Some? && Enabled(r.value, acts[|acts| - 1]) then Some(Next(cfg, r.value, acts[|acts| - 1])) else None
  }

  // ---------------------------------------------------------------- invariant

  /** The entry holds what a resolver call returned. */
  predicate Sourced(s: State, e: Entry) {
    && e.flight < |s.flights| && s.flights[e.flight] == Answered(e.addrs)
    && e.addrs != [] && e.stored <= s.now && 0 <= e.idx < TWO32
  }

  predicate StaleOk(s: State, stale: Option<Entry>) { stale.Some? ==> Sourced(s, stale.value) }

  predicate PurposeOk(s: State, why: Purpose) { why.Lookup? ==> StaleOk(s, why.stale) }

  predicate Settled(s: State, f: nat) { f < |s.flights| && !s.flights[f].Pending? }

  /** A negative entry stands for a resolver call that failed at most negativeTtl before it lapses. */
  predicate Justified(cfg: Config, s: State, n: Negative) {
    Settled(s, n.flight) && s.flights[n.flight].Errored? && n.until <= s.now + cfg.negativeTtl
  }

  predicate OutcomeOk(cfg: Config, s: State, out: Outcome) {
    match out
    case Hit(e, at, addr) => Sourced(s, e) && e.stored <= at < e.stored + cfg.ttl && addr in e.addrs
    case Served(f, addrs) =>
      Settled(s, f) && s.flights[f].Answered? && s.flights[f].addrs != [] && addrs == [s.flights[f].addrs[0]]
    case ServedStale(f, e) => Settled(s, f) && s.flights[f].Errored? && Sourced(s, e)
    case Failed(f) => Settled(s, f) && s.flights[f].Errored?
    case Refreshed(f) => Settled(s, f)
    case Refused(n, at) => Justified(cfg, s, n) && at < n.until
    case Skipped => true
  }

  predicate PhaseOk(cfg: Config, s: State, t: Tid, p: Phase) {
    match p
    case Idle => true
    case Missed(stale) => StaleOk(s, stale)
    case Waiting(f, stale) => f < |s.flights| && StaleOk(s, stale)
    case Resolving(f, why) =>
      f < |s.flights| && s.flights[f].Pending? && s.inflight == Some(Ticket(f, t)) && PurposeOk(s, why)
    case Closing(f, why) => Settled(s, f) && s.inflight == Some(Ticket(f, t)) && PurposeOk(s, why)
    case Storing(f, why) => Settled(s, f) && PurposeOk(s, why)
    case Done(out) => OutcomeOk(cfg, s, out)
  }

  ghost predicate ThreadInv(cfg: Config, s: State) {
    forall t :: t in s.threads ==> PhaseOk(cfg, s, t, s.threads[t])
  }

  /** The registered lookup is somebody's, and every unfinished lookup is registered. */
  ghost predicate TableInv(s: State) {
    && (s.inflight.Some? ==> InFlight(PhaseOf(s, s.inflight.value.owner), s.inflight.value.flight))
    && (forall f :: 0 <= f < |s.flights| && s.flights[f].Pending? ==>
          s.inflight.Some? && s.inflight.value.flight == f && PhaseOf(s, s.inflight.value.owner).Resolving?)
    && (forall f :: 0 <= f < |s.flights| && s.flights[f].Answered? ==> s.flights[f].addrs != [])
  }

  predicate InFlight(p: Phase, f: nat) { (p.Resolving? && p.flight == f) || (p.Closing? && p.flight == f) }

  ghost predicate CacheInv(cfg: Config, s: State) {
    && (s.entry.Some? ==> Sourced(s, s.entry.value))
    && (s.negative.Some? ==> Justified(cfg, s, s.negative.value))
  }

  ghost predicate Inv(cfg: Config, s: State) { ThreadInv(cfg, s) && TableInv(s) && CacheInv(cfg, s) }

  // ---------------------------------------------------------------- steps keep it

  /** Finished lookups keep their answers and time does not go back. */
  ghost predicate Extends(s: State, s': State) {
    && s.now <= s'.now && |s.flights| <= |s'.flights|
    && forall f :: 0 <= f < |s.flights| && !s.flights[f].Pending? ==> s'.flights[f] == s.flights[f]
  }

  lemma OutcomeKept(cfg: Config, s: State, s': State, out: Outcome)
    requires Extends(s, s') && OutcomeOk(cfg, s, out)
    ensures OutcomeOk(cfg, s', out)
  {}

  /** A thread that does not move and is not the registered one keeps its phase condition. */
  lemma PhaseKept(cfg: Config, s: State, s': State, t: Tid, p: Phase)
    requires Extends(s, s') && PhaseOk(cfg, s, t, p)
    requires p.Resolving? || p.Closing? ==> s'.inflight == s.inflight && s'.flights[p.flight] == s.flights[p.flight]
    ensures PhaseOk(cfg, s', t, p)
  {
    if p.Done? { OutcomeKept(cfg, s, s', p.out); }
  }

  /** One thread moves to a good phase and nothing registered changes under the others. */
  lemma OthersKept(cfg: Config, s: State, s': State, t: Tid)
    requires ThreadInv(cfg, s) && Extends(s, s') && t in s'.threads && s'.threads == s.threads[t := s'.threads[t]]
    requires PhaseOk(cfg, s', t, s'.threads[t])
    requires forall u :: u in s.threads && u != t && (s.threads[u].Resolving? || s.threads[u].Closing?) ==>
      s'.inflight == s.inflight && s'.flights[s.threads[u].flight] == s.flights[s.threads[u].flight]
    ensures ThreadInv(cfg, s')
  {
    forall u | u in s'.threads ensures PhaseOk(cfg, s', u, s'.threads[u]) {
      if u != t { PhaseKept(cfg, s, s', u, s.threads[u]); }
    }
  }

  lemma KeepRead(cfg: Config, s: State, t: Tid, at: int)
    requires Inv(cfg, s) && Enabled(s, Read(t, at))
    ensures Inv(cfg, DoRead(cfg, s, t, at))
  {
    var s' := DoRead(cfg, s, t, at);
    assert s'.flights == s.flights && s'.inflight == s.inflight;
    OthersKept(cfg, s, s', t);
  }

  lemma KeepJoin(cfg: Config, s: State, t: Tid)
    requires Inv(cfg, s) && Enabled(s, Join(t))
    ensures Inv(cfg, DoJoin(s, t))
  {
    OthersKept(cfg, s, DoJoin(s, t), t);
  }

  lemma KeepStartRefresh(cfg: Config, s: State, t: Tid)
    requires Inv(cfg, s) && Enabled(s, StartRefresh(t))
    ensures Inv(cfg, DoStartRefresh(s, t))
  {
    OthersKept(cfg, s, DoStartRefresh(s, t), t);
  }

  lemma KeepWake(cfg: Config, s: State, t: Tid)
    requires Inv(cfg, s) && Enabled(s, Wake(t))
    ensures Inv(cfg, DoWake(s, t))
  {
    OthersKept(cfg, s, DoWake(s, t), t);
  }

  lemma KeepResolve(cfg: Config, s: State, t: Tid, answer: Flight)
    requires Inv(cfg, s) && Enabled(s, Resolve(t, answer))
    ensures Inv(cfg, DoResolve(s, t, answer))
  {
    OthersKept(cfg, s, DoResolve(s, t, answer), t);
  }

  lemma KeepUnregister(cfg: Config, s: State, t: Tid)
    requires Inv(cfg, s) && Enabled(s, Unregister(t))
    ensures Inv(cfg, DoUnregister(s, t))
  {
    OthersKept(cfg, s, DoUnregister(s, t), t);
  }

  lemma KeepStore(cfg: Config, s: State, t: Tid, at: int)
    requires Inv(cfg, s) && Enabled(s, Store(t, at))
    ensures Inv(cfg, DoStore(cfg, s, t, at))
  {
    var s' := DoStore(cfg, s, t, at);
    StoreCache(cfg, s, t, at);
    hide DoStore, TableInv, CacheInv, PhaseOk;
    OthersKept(cfg, s, s', t);
  }

  lemma StoreCache(cfg: Config, s: State, t: Tid, at: int)
    requires Inv(cfg, s) && Enabled(s, Store(t, at))
    ensures var s' := DoStore(cfg, s, t, at);
      && s'.flights == s.flights && s'.inflight == s.inflight && s.now <= s'.now
      && t in s'.threads && s'.threads == s.threads[t := s'.threads[t]] && PhaseOk(cfg, s', t, s'.threads[t])
      && TableInv(s') && CacheInv(cfg, s')
  {
    assert PhaseOk(cfg, s, t, s.threads[t]);
    hide ThreadInv;
  }

  lemma KeepForce(cfg: Config, s: State, at: int, answer: Flight)
    requires Inv(cfg, s) && Enabled(s, Force(at, answer))
    ensures Inv(cfg, DoForce(s, at, answer))
  {
    var s' := DoForce(s, at, answer);
    forall t | t in s'.threads ensures PhaseOk(cfg, s', t, s'.threads[t]) { PhaseKept(cfg, s, s', t, s.threads[t]); }
  }

  lemma KeepEvict(cfg: Config, s: State)
    requires Inv(cfg, s)
    ensures Inv(cfg, s.(entry := None)) && Inv(cfg, s.(negative := None))
  {
    forall t | t in s.threads
      ensures PhaseOk(cfg, s.(entry := None), t, s.threads[t]) && PhaseOk(cfg, s.(negative := None), t, s.threads[t])
    {
      PhaseKept(cfg, s, s.(entry := None), t, s.threads[t]);
      PhaseKept(cfg, s, s.(negative := None), t, s.threads[t]);
    }
  }

  lemma StepKeeps(cfg: Config, s: State, a: Action)
    requires Inv(cfg, s) && Enabled(s, a)
    ensures Inv(cfg, Next(cfg, s, a))
  {
    hide Inv, DoRead, DoJoin, DoWake, DoStartRefresh, DoResolve, DoUnregister, DoStore, DoForce;
    match a
    case Read(t, at) => KeepRead(cfg, s, t, at);
    case Join(t) => KeepJoin(cfg, s, t);
    case Wake(t) => KeepWake(cfg, s, t);
    case StartRefresh(t) => KeepStartRefresh(cfg, s, t);
    case Resolve(t, answer) => KeepResolve(cfg, s, t, answer);
    case Unregister(t) => KeepUnregister(cfg, s, t);
    case Store(t, at) => KeepStore(cfg, s, t, at);
    case Force(at, answer) => KeepForce(cfg, s, at, answer);
    case Evict => KeepEvict(cfg, s);
    case EvictNegative => KeepEvict(cfg, s);
  }

  lemma {:induction false} RunsKeep(cfg: Config, acts: seq<Action>)
    requires Run(cfg, acts).Some?
    ensures Inv(cfg, Run(cfg, acts).value)
    decreases |acts|
  {
    if acts != [] {
      RunsKeep(cfg, acts[..|acts| - 1]);
      StepKeeps(cfg, Run(cfg, acts[..|acts| - 1]).value, acts[|acts| - 1]);
    }
  }

  // ---------------------------------------------------------------- what callers can rely on

  /**
   * In every interleaving at most one caller is between registering a lookup and unregistering it, the table holds
   * exactly that lookup, and so unregistering never removes somebody else's.
   */
  lemma SingleFlight(cfg: Config, acts: seq<Action>, t: Tid, u: Tid)
    requires Run(cfg, acts).Some?
    ensures var s := Run(cfg, acts).value;
      var p, q := PhaseOf(s, t), PhaseOf(s, u);
      && ((p.Resolving? || p.Closing?) && (q.Resolving? || q.Closing?) ==> t == u)
      && ((p.Resolving? || p.Closing?) ==> s.inflight == Some(Ticket(p.flight, t)))
      && (s.inflight.Some? ==> InFlight(PhaseOf(s, s.inflight.value.owner), s.inflight.value.flight))
  {
    RunsKeep(cfg, acts);
  }

  /** A waiter is never stranded: the lookup it waits on is finished, or some caller is still resolving it. */
  lemma NoStrandedWaiter(cfg: Config, acts: seq<Action>, t: Tid)
    requires Run(cfg, acts).Some? && PhaseOf(Run(cfg, acts).value, t).Waiting?
    ensures var s := Run(cfg, acts).value;
      var f := PhaseOf(s, t).flight;
      Enabled(s, Wake(t)) || exists u :: PhaseOf(s, u).Resolving? && PhaseOf(s, u).flight == f
  {
    RunsKeep(cfg, acts);
    var s := Run(cfg, acts).value;
    var f := PhaseOf(s, t).flight;
    if s.flights[f].Pending? {
      assert PhaseOf(s, s.inflight.value.owner).Resolving?;
    }
  }

  lemma Extend(cfg: Config, acts: seq<Action>, a: Action)
    requires Run(cfg, acts).Some? && Enabled(Run(cfg, acts).value, a)
    ensures Run(cfg, acts + [a]) == Some(Next(cfg, Run(cfg, acts).value, a))
  {
    assert (acts + [a])[..|acts|] == acts;
  }

  /** One caller, whose lookup fails. */
  lemma FirstFails(cfg: Config) returns (acts: seq<Action>)
    ensures var r := Run(cfg, acts);
      && r.Some? && r.value.now == 0 && |r.value.flights| == 1 && PhaseOf(r.value, 1).Idle?
      && r.value.negative == Some(Negative(cfg.negativeTtl, 0))
  {
    acts := [];
    assert Run(cfg, acts) == Some(START);
    hide Run;
    Extend(cfg, acts, Read(0, 0));
    acts := acts + [Read(0, 0)];
    Extend(cfg, acts, Join(0));
    acts := acts + [Join(0)];
    Extend(cfg, acts, Resolve(0, Errored));
    acts := acts + [Resolve(0, Errored)];
    Extend(cfg, acts, Unregister(0));
    acts := acts + [Unregister(0)];
    Extend(cfg, acts, Store(0, 0));
    acts := acts + [Store(0, 0)];
  }

  /**
   * A forced refresh does not lift a refusal: while the negative entry of an earlier failure lasts, callers are still
   * refused, although the refresh has just put a good list in the cache.
   */
  lemma RefusedAfterRefresh(cfg: Config, addr: Addr) returns (acts: seq<Action>)
    requires 0 < cfg.negativeTtl && 0 < cfg.ttl
    ensures var r := Run(cfg, acts);
      && r.Some? && r.value.entry == Some(Entry([addr], 0, 0, 1))
      && Enabled(r.value, Read(1, 0)) && PhaseOf(Next(cfg, r.value, Read(1, 0)), 1).Done?
      && PhaseOf(Next(cfg, r.value, Read(1, 0)), 1).out == Refused(Negative(cfg.negativeTtl, 0), 0)
  {
    acts := FirstFails(cfg);
    hide Run;
    Extend(cfg, acts, Force(0, Answered([addr])));
    acts := acts + [Force(0, Answered([addr]))];
  }

  // ---------------------------------------------------------------- refusals, exactly

  /** The step writes a negative entry: the store of a failed lookup whose caller found no list. */
  predicate Fails(s: State, a: Action) {
    a.Store? && PhaseOf(s, a.t).Storing? && PhaseOf(s, a.t).why == Lookup(None)
    && !(PhaseOf(s, a.t).flight < |s.flights| && s.flights[PhaseOf(s, a.t).flight].Answered?)
  }

  /** The step drops the negative entry: its eviction, or the store of a lookup or background refresh that answered. */
  predicate Lifts(s: State, a: Action) {
    || a.EvictNegative?
    || (a.Store? && PhaseOf(s, a.t).Storing?
        && PhaseOf(s, a.t).flight < |s.flights| && s.flights[PhaseOf(s, a.t).flight].Answered?)
  }

  ghost predicate FailsAt(cfg: Config, acts: seq<Action>, k: nat) {
    k < |acts| && Run(cfg, acts[..k]).Some? && Fails(Run(cfg, acts[..k]).value, acts[k])
  }

  ghost predicate LiftsAt(cfg: Config, acts: seq<Action>, k: nat) {
    k < |acts| && Run(cfg, acts[..k]).Some? && Lifts(Run(cfg, acts[..k]).value, acts[k])
  }

  /** Step k stored a failure, and no later step stored another one or lifted it. */
  ghost predicate LastFailure(cfg: Config, acts: seq<Action>, k: nat) {
    && FailsAt(cfg, acts, k)
    && forall j :: k < j < |acts| ==> !FailsAt(cfg, acts, j) && !LiftsAt(cfg, acts, j)
  }

  /** How a step moves the negative entry. */
  lemma NegativeStep(cfg: Config, s: State, a: Action)
    requires Enabled(s, a)
    ensures var n := Next(cfg, s, a).negative;
      && (Fails(s, a) ==> a.Store? && n.Some? && n.value.until == a.at + cfg.negativeTtl)
      && (Lifts(s, a) ==> n.None?)
      && (!Fails(s, a) && !Lifts(s, a) ==> n == s.negative)
  {}

  lemma PrefixSame(cfg: Config, acts: seq<Action>, k: nat)
    requires acts != [] && k < |acts| - 1
    ensures FailsAt(cfg, acts, k) <==> FailsAt(cfg, acts[..|acts| - 1], k)
    ensures LiftsAt(cfg, acts, k) <==> LiftsAt(cfg, acts[..|acts| - 1], k)
  {
    hide Run, Fails, Lifts;
    assert acts[..|acts| - 1][..k] == acts[..k];
  }

  lemma LastStep(cfg: Config, acts: seq<Action>)
    requires acts != [] && Run(cfg, acts).Some?
    ensures var n := |acts| - 1;
      var s := Run(cfg, acts[..n]).value;
      FailsAt(cfg, acts, n) == Fails(s, acts[n]) && LiftsAt(cfg, acts, n) == Lifts(s, acts[n])
  {
    hide Fails, Lifts, Next, Enabled;
  }

  lemma LastEarlier(cfg: Config, acts: seq<Action>, k: nat)
    requires acts != [] && k < |acts| - 1 && LastFailure(cfg, acts, k)
    ensures LastFailure(cfg, acts[..|acts| - 1], k)
  {
    hide FailsAt, LiftsAt, Run;
    var before := acts[..|acts| - 1];
    PrefixSame(cfg, acts, k);
    forall j | k < j < |before| ensures !FailsAt(cfg, before, j) && !LiftsAt(cfg, before, j) {
      PrefixSame(cfg, acts, j);
    }
  }

  lemma LastStill(cfg: Config, acts: seq<Action>, k: nat)
    requires acts != [] && k < |acts| - 1 && LastFailure(cfg, acts[..|acts| - 1], k)
    requires !FailsAt(cfg, acts, |acts| - 1) && !LiftsAt(cfg, acts, |acts| - 1)
    ensures LastFailure(cfg, acts, k)
  {
    hide FailsAt, LiftsAt, Run;
    PrefixSame(cfg, acts, k);
    forall j | k < j < |acts| ensures !FailsAt(cfg, acts, j) && !LiftsAt(cfg, acts, j) {
      if j < |acts| - 1 { PrefixSame(cfg, acts, j); }
    }
  }

  /** The negative entry is that of the last failure stored and not lifted since. */
  lemma {:induction false} FailureStands(cfg: Config, acts: seq<Action>, k: nat)
    requires Run(cfg, acts).Some? && LastFailure(cfg, acts, k)
    ensures k < |acts| && acts[k].Store? && Run(cfg, acts).value.negative.Some?
    ensures Run(cfg, acts).value.negative.value.until == acts[k].at + cfg.negativeTtl
    decreases |acts|
  {
    var n := |acts| - 1;
    var s := Run(cfg, acts[..n]).value;
    NegativeStep(cfg, s, acts[n]);
    assert acts[..n] == acts[..|acts| - 1];
    LastStep(cfg, acts);
    hide Fails, Lifts, Next, Enabled, FailsAt, LiftsAt;
    if k < n {
      LastEarlier(cfg, acts, k);
      FailureStands(cfg, acts[..n], k);
    }
  }

  lemma {:induction false} NegativeHasCause(cfg: Config, acts: seq<Action>) returns (k: nat)
    requires Run(cfg, acts).Some? && Run(cfg, acts).value.negative.Some?
    ensures LastFailure(cfg, acts, k)
    decreases |acts|
  {
    var n := |acts| - 1;
    var s := Run(cfg, acts[..n]).value;
    NegativeStep(cfg, s, acts[n]);
    hide Fails, Lifts, Next, Enabled;
    LastStep(cfg, acts);
    if Fails(s, acts[n]) {
      k := n;
    } else {
      k := NegativeHasCause(cfg, acts[..n]);
      LastStill(cfg, acts, k);
    }
  }

  /** Some failure stored earlier still stands at time `at`. */
  ghost predicate FailureStill(cfg: Config, acts: seq<Action>, at: int) {
    exists k: nat ::
      LastFailure(cfg, acts, k) && k < |acts| && acts[k].Store? && at < acts[k].at + cfg.negativeTtl
  }

  lemma NegativeExactly(cfg: Config, acts: seq<Action>, at: int)
    requires Run(cfg, acts).Some?
    ensures var n := Run(cfg, acts).value.negative; n.Some? && at < n.value.until <==> FailureStill(cfg, acts, at)
  {
    hide Run, LastFailure;
    if Run(cfg, acts).value.negative.Some? {
      var k := NegativeHasCause(cfg, acts);
      FailureStands(cfg, acts, k);
    }
    if FailureStill(cfg, acts, at) {
      var k: nat :| LastFailure(cfg, acts, k) && k < |acts| && acts[k].Store? && at < acts[k].at + cfg.negativeTtl;
      FailureStands(cfg, acts, k);
    }
  }

  lemma {:induction false} AnswersStay(cfg: Config, acts: seq<Action>, i: nat, f: nat)
    requires i <= |acts| && Run(cfg, acts).Some? && Run(cfg, acts[..i]).Some?
    requires f < |Run(cfg, acts[..i]).value.flights| && !Run(cfg, acts[..i]).value.flights[f].Pending?
    ensures f < |Run(cfg, acts).value.flights|
    ensures Run(cfg, acts).value.flights[f] == Run(cfg, acts[..i]).value.flights[f]
    decreases |acts|
  {
    var n := |acts| - 1;
    if i <= n {
      assert acts[..n][..i] == acts[..i];
      AnswersStay(cfg, acts[..n], i, f);
      RunsKeep(cfg, acts[..n]);
      hide Inv, Enabled, Next, TableInv, CacheInv;
      FlightStays(cfg, Run(cfg, acts[..n]).value, acts[n], f);
    } else {
      assert acts[..i] == acts;
    }
  }

  lemma FlightStays(cfg: Config, s: State, a: Action, f: nat)
    requires Inv(cfg, s) && Enabled(s, a) && f < |s.flights| && !s.flights[f].Pending?
    ensures f < |Next(cfg, s, a).flights| && Next(cfg, s, a).flights[f] == s.flights[f]
  {
    if a.Resolve? { assert PhaseOk(cfg, s, a.t, s.threads[a.t]); }
  }

  /** The lookup number a forced refresh at step i gets. */
  function ForcedFlight(cfg: Config, acts: seq<Action>, i: nat): nat
    requires i < |acts| && Run(cfg, acts[..i]).Some?
  {
    |Run(cfg, acts[..i]).value.flights|
  }

  /**
   * What a forced refresh is good for, exactly. While the list it brought is cached and fresh, a caller that reads at
   * time `at` is refused if and only if some failed lookup without a stale list was stored less than negativeTtl before
   * `at`, before or after the refresh, and since then no other failure was stored, no answered lookup or background
   * refresh was stored, and the negative entry was not evicted. Otherwise the caller gets one of the addresses the
   * refresh brought.
   */
  lemma ForcedListServes(cfg: Config, acts: seq<Action>, i: nat, addrs: seq<Addr>, t: Tid, at: int)
    requires Run(cfg, acts + [Read(t, at)]).Some? && Run(cfg, acts).Some?
    requires i < |acts| && Run(cfg, acts[..i]).Some? && acts[i].Force? && acts[i].answer == Answered(addrs)
    requires var e := Run(cfg, acts).value.entry;
      e.Some? && e.value.flight == ForcedFlight(cfg, acts, i) && at < e.value.stored + cfg.ttl
    ensures PhaseOf(Run(cfg, acts + [Read(t, at)]).value, t).Done?
    ensures var out := PhaseOf(Run(cfg, acts + [Read(t, at)]).value, t).out;
      && (out.Refused? <==> FailureStill(cfg, acts, at))
      && (!out.Refused? ==> out.Hit? && out.addr in addrs)
  {
    var f := ForcedFlight(cfg, acts, i);
    ForcedAnswer(cfg, acts, i, addrs);
    RunsKeep(cfg, acts);
    NegativeExactly(cfg, acts, at);
    var s := Run(cfg, acts).value;
    assert (acts + [Read(t, at)])[..|acts|] == acts;
    assert Run(cfg, acts + [Read(t, at)]) == Some(DoRead(cfg, s, t, at));
    hide Run, FailureStill, ThreadInv, TableInv;
    assert Sourced(s, s.entry.value) && s.entry.value.addrs == addrs;
  }

  lemma ForcedAnswer(cfg: Config, acts: seq<Action>, i: nat, addrs: seq<Addr>)
    requires Run(cfg, acts).Some? && i < |acts| && Run(cfg, acts[..i]).Some?
    requires acts[i].Force? && acts[i].answer == Answered(addrs)
    ensures var f := ForcedFlight(cfg, acts, i);
      f < |Run(cfg, acts).value.flights| && Run(cfg, acts).value.flights[f] == Answered(addrs)
  {
    PrefixRuns(cfg, acts, i + 1);
    assert acts[..i + 1][..i] == acts[..i];
    ForceAdds(cfg, Run(cfg, acts[..i]).value, acts[i]);
    hide Next, Enabled;
    assert Run(cfg, acts[..i + 1]).value == Next(cfg, Run(cfg, acts[..i]).value, acts[i]);
    AnswersStay(cfg, acts, i + 1, ForcedFlight(cfg, acts, i));
  }

  lemma ForceAdds(cfg: Config, s: State, a: Action)
    requires a.Force?
    ensures Next(cfg, s, a).flights == s.flights + [a.answer]
  {}

  lemma {:induction false} PrefixRuns(cfg: Config, acts: seq<Action>, k: nat)
    requires Run(cfg, acts).Some? && k <= |acts|
    ensures Run(cfg, acts[..k]).Some?
    decreases |acts|
  {
    if k < |acts| {
      var before := acts[..|acts| - 1];
      PrefixRuns(cfg, before, k);
      assert before[..k] == acts[..k];
    } else {
      assert acts[..k] == acts;
    }
  }

  // ---------------------------------------------------------------- whose answer a caller gets

  /** Step i is t's own read and finds `entry` in the cache, at time `at`. */
  predicate ReadsAt(cfg: Config, acts: seq<Action>, i: nat, t: Tid, at: int, entry: Option<Entry>) {
    i < |acts| && acts[i] == Read(t, at) && Run(cfg, acts[..i]).Some? && Run(cfg, acts[..i]).value.entry == entry
  }

  /** Step i is t's own read and finds the negative entry `n`, at time `at`. */
  predicate RefusedAt(cfg: Config, acts: seq<Action>, i: nat, t: Tid, at: int, n: Negative) {
    i < |acts| && acts[i] == Read(t, at) && Run(cfg, acts[..i]).Some? && Run(cfg, acts[..i]).value.negative == Some(n)
  }

  /** The lookup a caller that finds no fresh entry ends up with: the registered one, or its own. */
  function Available(s: State): nat { if s.inflight.Some? then s.inflight.value.flight else |s.flights| }

  /** Step i puts t on lookup f. */
  predicate JoinsAt(cfg: Config, acts: seq<Action>, i: nat, t: Tid, f: nat) {
    i < |acts| && acts[i] == Join(t) && Run(cfg, acts[..i]).Some? && f == Available(Run(cfg, acts[..i]).value)
  }

  /** t read the cache and found `stale` there, expired, or nothing. */
  ghost predicate HasMissed(cfg: Config, acts: seq<Action>, t: Tid, stale: Option<Entry>) {
    exists i, at ::
      ReadsAt(cfg, acts, i, t, at, stale) && (stale.Some? ==> stale.value.stored + cfg.ttl <= at)
  }

  ghost predicate HasHit(cfg: Config, acts: seq<Action>, t: Tid, at: int, e: Entry) {
    exists i :: ReadsAt(cfg, acts, i, t, at, Some(e))
  }

  ghost predicate WasRefused(cfg: Config, acts: seq<Action>, t: Tid, at: int, n: Negative) {
    exists i :: RefusedAt(cfg, acts, i, t, at, n)
  }

  ghost predicate HasJoined(cfg: Config, acts: seq<Action>, t: Tid, f: nat) { exists i :: JoinsAt(cfg, acts, i, t, f) }

  /** What t's phase says of the steps t took. */
  ghost predicate Remembers(cfg: Config, acts: seq<Action>, t: Tid, p: Phase) {
    match p
    case Idle => true
    case Missed(stale) => HasMissed(cfg, acts, t, stale)
    case Waiting(f, stale) => HasMissed(cfg, acts, t, stale) && HasJoined(cfg, acts, t, f)
    case Resolving(f, why) => why.Lookup? ==> HasMissed(cfg, acts, t, why.stale) && HasJoined(cfg, acts, t, f)
    case Closing(f, why) => why.Lookup? ==> HasMissed(cfg, acts, t, why.stale) && HasJoined(cfg, acts, t, f)
    case Storing(f, why) => why.Lookup? ==> HasMissed(cfg, acts, t, why.stale) && HasJoined(cfg, acts, t, f)
    case Done(Hit(e, at, _)) => HasHit(cfg, acts, t, at, e)
    case Done(Refused(n, at)) => WasRefused(cfg, acts, t, at, n)
    case Done(Served(f, _)) => HasJoined(cfg, acts, t, f)
    case Done(ServedStale(f, e)) => HasJoined(cfg, acts, t, f) && HasMissed(cfg, acts, t, Some(e))
    case Done(Failed(f)) => HasJoined(cfg, acts, t, f) && HasMissed(cfg, acts, t, None)
    case Done(_) => true
  }

  lemma StillRemembers(cfg: Config, acts: seq<Action>, t: Tid, p: Phase)
    requires acts != [] && Remembers(cfg, acts[..|acts| - 1], t, p)
    ensures Remembers(cfg, acts, t, p)
  {
    var past := acts[..|acts| - 1];
    hide Run;
    assert forall i :: 0 <= i < |past| ==> past[..i] == acts[..i];
    forall i: nat, at, e | ReadsAt(cfg, past, i, t, at, e) ensures ReadsAt(cfg, acts, i, t, at, e) {}
    forall i: nat, at, n | RefusedAt(cfg, past, i, t, at, n) ensures RefusedAt(cfg, acts, i, t, at, n) {}
    forall i: nat, f | JoinsAt(cfg, past, i, t, f) ensures JoinsAt(cfg, acts, i, t, f) {}
  }

  lemma StoredLists(cfg: Config, acts: seq<Action>)
    requires Run(cfg, acts).Some?
    ensures var e := Run(cfg, acts).value.entry; e.Some? ==> e.value.addrs != []
  {
    RunsKeep(cfg, acts);
  }

  /** A caller's later steps ask for nothing it has not done. */
  lemma PhaseMoves(cfg: Config, acts: seq<Action>, s: State, a: Action, t: Tid)
    requires Enabled(s, a) && !a.Read? && !a.Join? && Remembers(cfg, acts, t, PhaseOf(s, t))
    ensures Remembers(cfg, acts, t, PhaseOf(Next(cfg, s, a), t))
  {
    hide HasMissed, HasHit, WasRefused, HasJoined;
  }

  lemma {:induction false} RunsRemember(cfg: Config, acts: seq<Action>, t: Tid)
    requires Run(cfg, acts).Some?
    ensures Remembers(cfg, acts, t, PhaseOf(Run(cfg, acts).value, t))
    decreases |acts|
  {
    if acts != [] {
      var n := |acts| - 1;
      var s, p := Run(cfg, acts[..n]).value, PhaseOf(Run(cfg, acts[..n]).value, t);
      RunsRemember(cfg, acts[..n], t);
      StillRemembers(cfg, acts, t, p);
      StoredLists(cfg, acts[..n]);
      match acts[n]
      case Read(_, at) =>
        assert acts[n] == Read(t, at) ==> ReadsAt(cfg, acts, n, t, at, s.entry);
        assert acts[n] == Read(t, at) && s.negative.Some? ==> RefusedAt(cfg, acts, n, t, at, s.negative.value);
      case Join(_) => assert acts[n] == Join(t) ==> JoinsAt(cfg, acts, n, t, Available(s));
      case _ =>
        hide Next, Enabled, Remembers;
        PhaseMoves(cfg, acts, s, acts[n], t);
    }
  }

  /** A caller that joined lookup f is on it until it is done, and done because of it. */
  predicate On(p: Phase, f: nat) {
    match p
    case Idle => false
    case Missed(_) => false
    case Waiting(g, _) => g == f
    case Resolving(g, why) => g == f && why.Lookup?
    case Closing(g, why) => g == f && why.Lookup?
    case Storing(g, why) => g == f && why.Lookup?
    case Done(Served(g, _)) => g == f
    case Done(ServedStale(g, _)) => g == f
    case Done(Failed(g)) => g == f
    case Done(_) => false
  }

  /** A caller whose read found `stale` keeps it, or has been answered from the cache. */
  predicate Holds(p: Phase, stale: Option<Entry>) {
    match p
    case Idle => false
    case Missed(e) => e == stale
    case Waiting(_, e) => e == stale
    case Resolving(_, why) => why == Lookup(stale)
    case Closing(_, why) => why == Lookup(stale)
    case Storing(_, why) => why == Lookup(stale)
    case Done(ServedStale(_, e)) => Some(e) == stale
    case Done(Failed(_)) => stale == None
    case Done(_) => true
  }

  lemma StepSticks(cfg: Config, s: State, a: Action, t: Tid, f: nat, stale: Option<Entry>)
    requires Enabled(s, a)
    ensures On(PhaseOf(s, t), f) ==> On(PhaseOf(Next(cfg, s, a), t), f)
    ensures Holds(PhaseOf(s, t), stale) ==> Holds(PhaseOf(Next(cfg, s, a), t), stale)
  {}

  lemma {:induction false} JoinSticks(cfg: Config, acts: seq<Action>, i: nat, t: Tid, f: nat)
    requires Run(cfg, acts).Some? && JoinsAt(cfg, acts, i, t, f)
    ensures On(PhaseOf(Run(cfg, acts).value, t), f)
    decreases |acts|
  {
    var n := |acts| - 1;
    if i < n {
      hide Next, Enabled, On, Available;
      assert acts[..n][..i] == acts[..i];
      JoinSticks(cfg, acts[..n], i, t, f);
      StepSticks(cfg, Run(cfg, acts[..n]).value, acts[n], t, f, None);
    }
  }

  lemma {:induction false} ReadSticks(cfg: Config, acts: seq<Action>, i: nat, t: Tid, at: int, stale: Option<Entry>)
    requires Run(cfg, acts).Some? && ReadsAt(cfg, acts, i, t, at, stale)
    ensures Holds(PhaseOf(Run(cfg, acts).value, t), stale)
    decreases |acts|
  {
    var n := |acts| - 1;
    if i < n {
      hide Next, Enabled, Holds;
      assert acts[..n][..i] == acts[..i];
      ReadSticks(cfg, acts[..n], i, t, at, stale);
      StepSticks(cfg, Run(cfg, acts[..n]).value, acts[n], t, 0, stale);
    }
  }

  /**
   * Every answer a caller gets has a source among its own steps. A hit is one address of the list its own read found,
   * a list a resolver call returned less than ttl before; a refusal is the negative entry its own read found, due to
   * a lookup that failed at most negativeTtl before the entry lapses; otherwise it is the first address of the lookup
   * it made or waited on, or, if that lookup failed, the expired list its own read found, or the failure.
   */
  lemma AnswersAreSourced(cfg: Config, acts: seq<Action>, t: Tid)
    requires Run(cfg, acts).Some? && PhaseOf(Run(cfg, acts).value, t).Done?
    ensures var s := Run(cfg, acts).value;
      var out := PhaseOf(s, t).out;
      && OutcomeOk(cfg, s, out)
      && (out.Hit? ==> HasHit(cfg, acts, t, out.at, out.entry))
      && (out.Refused? ==> WasRefused(cfg, acts, t, out.at, out.negative))
      && (out.Served? || out.ServedStale? || out.Failed? ==> HasJoined(cfg, acts, t, out.flight))
      && (out.ServedStale? ==> HasMissed(cfg, acts, t, Some(out.entry)))
      && (out.Failed? ==> HasMissed(cfg, acts, t, None))
  {
    RunsKeep(cfg, acts);
    RunsRemember(cfg, acts, t);
  }

  /**
   * And conversely: once a caller that joined lookup f is done, f is finished and decides what it got, whether the
   * caller made f or waited on it, whatever others stored or evicted meanwhile: f's first address, or, if f failed,
   * the list its own read found, or, without one, the failure.
   */
  lemma OwnLookupDecides(cfg: Config, acts: seq<Action>, t: Tid, i: nat, f: nat, k: nat, at: int, stale: Option<Entry>)
    requires Run(cfg, acts).Some? && PhaseOf(Run(cfg, acts).value, t).Done?
    requires JoinsAt(cfg, acts, i, t, f) && ReadsAt(cfg, acts, k, t, at, stale)
    ensures var s := Run(cfg, acts).value;
      var out := PhaseOf(s, t).out;
      && Settled(s, f)
      && (s.flights[f].Answered? ==> s.flights[f].addrs != [] && out == Served(f, [s.flights[f].addrs[0]]))
      && (s.flights[f].Errored? ==> out == if stale.Some? then ServedStale(f, stale.value) else Failed(f))
  {
    RunsKeep(cfg, acts);
    JoinSticks(cfg, acts, i, t, f);
    ReadSticks(cfg, acts, k, t, at, stale);
  }

  // ---------------------------------------------------------------- rotation

  predicate DrawOk(d: Draw) {
    0 <= d.idx < TWO32 && d.addrs != [] && d.addr == d.addrs[d.idx % |d.addrs|]
  }

  /** The counter value the next draw of the current epoch takes. */
  function NextIdx(draws: seq<Draw>, epoch: nat): int {
    if draws == [] || draws[|draws| - 1].epoch != epoch then 0 else (draws[|draws| - 1].idx + 1) % TWO32
  }

  ghost predicate Follows(d: Draw, e: Draw) {
    d.epoch <= e.epoch && e.idx == if d.epoch == e.epoch then (d.idx + 1) % TWO32 else 0
  }

  /** Draws of one epoch count up by one, whatever lists they draw from. */
  ghost predicate DrawInv(s: State) {
    && (forall i :: 0 <= i < |s.draws| ==> DrawOk(s.draws[i]) && s.draws[i].epoch <= s.epoch)
    && (forall i :: 0 <= i < |s.draws| - 1 ==> Follows(s.draws[i], s.draws[i + 1]))
    && (s.entry.Some? ==> s.entry.value.idx == NextIdx(s.draws, s.epoch))
  }

  lemma NothingNew(s: State, s': State)
    requires DrawInv(s) && s'.draws == s.draws && s.epoch <= s'.epoch
    requires s'.entry.Some? ==>
      if s'.epoch == s.epoch then s.entry.Some? && s'.entry.value.idx == s.entry.value.idx else s'.entry.value.idx == 0
    ensures DrawInv(s')
  {}

  lemma NewDraw(s: State, s': State, d: Draw)
    requires DrawInv(s) && s.entry.Some? && s'.entry.Some? && DrawOk(d) && s'.draws == s.draws + [d]
    requires d.epoch == s.epoch == s'.epoch && d.idx == s.entry.value.idx
    requires s'.entry.value.idx == (d.idx + 1) % TWO32
    ensures DrawInv(s')
  {
    assert s.draws != [] ==> Follows(s.draws[|s.draws| - 1], d);
  }

  lemma DrawStep(cfg: Config, s: State, a: Action)
    requires Inv(cfg, s) && DrawInv(s) && Enabled(s, a)
    ensures DrawInv(Next(cfg, s, a))
  {
    var s' := Next(cfg, s, a);
    hide DrawInv;
    if s'.draws == s.draws {
      NothingNew(s, s');
    } else {
      NewDraw(s, s', s'.draws[|s.draws|]);
    }
  }

  lemma {:induction false} RunsDraw(cfg: Config, acts: seq<Action>)
    requires Run(cfg, acts).Some?
    ensures DrawInv(Run(cfg, acts).value)
    decreases |acts|
  {
    hide Next, Enabled, Inv, DrawInv;
    if acts == [] {
      NothingDrawn();
    } else {
      RunsDraw(cfg, acts[..|acts| - 1]);
      RunsKeep(cfg, acts[..|acts| - 1]);
      DrawStep(cfg, Run(cfg, acts[..|acts| - 1]).value, acts[|acts| - 1]);
    }
  }

  lemma NothingDrawn()
    ensures DrawInv(START)
  {}

  /** k draws of one epoch starting at i, all from one list. */
  ghost predicate Window(draws: seq<Draw>, i: nat, k: nat) {
    && i + k <= |draws| && 0 < k
    && forall j :: i <= j < i + k ==> draws[j].epoch == draws[i].epoch && draws[j].addrs == draws[i].addrs
  }

  lemma NextResidue(n: int)
    ensures (n % TWO32 + 1) % TWO32 == (n + 1) % TWO32
  {}

  lemma DrawFollows(s: State, i: nat)
    requires DrawInv(s) && i + 1 < |s.draws|
    ensures Follows(s.draws[i], s.draws[i + 1])
  {}

  lemma DrawRange(s: State, i: nat)
    requires DrawInv(s) && i < |s.draws|
    ensures s.draws[i].idx % TWO32 == s.draws[i].idx
  {
    assert DrawOk(s.draws[i]);
    hide DrawInv;
  }

  lemma {:induction false} CountsUp(s: State, i: nat, k: nat, j: nat)
    requires DrawInv(s) && Window(s.draws, i, k) && j < k
    ensures s.draws[i + j].idx == (s.draws[i].idx + j) % TWO32
    decreases j
  {
    hide DrawInv, DrawOk;
    if j > 0 {
      CountsUp(s, i, k, j - 1);
      DrawFollows(s, i + j - 1);
      NextResidue(s.draws[i].idx + j - 1);
    } else {
      DrawRange(s, i);
    }
  }

  lemma RemainderIs(n: nat, k: nat, d: nat, r: nat)
    requires r < k && n == d * k + r
    ensures n % k == r
  {
    var q, m := n / k, n % k;
    assert n == q * k + m;
    if d < q {
      Scale(d + 1, q, k);
    } else if q < d {
      Scale(q + 1, d, k);
    }
  }

  /** Some step short of k takes x to the residue m. */
  lemma Residue(x: nat, m: nat, k: nat) returns (j: nat)
    requires m < k
    ensures j < k && (x + j) % k == m
  {
    var q, r := x / k, x % k;
    assert x == q * k + r;
    if r <= m {
      j := m - r;
      RemainderIs(x + j, k, q, m);
    } else {
      j := m + k - r;
      assert x + j == (q + 1) * k + m;
      RemainderIs(x + j, k, q + 1, m);
    }
  }

  lemma Apart(a: nat, b: nat, k: nat)
    requires a < b < a + k
    ensures a % k != b % k
  {
    var p, r := a / k, a % k;
    assert a == p * k + r;
    var d := b - a;
    if r + d < k {
      RemainderIs(b, k, p, r + d);
    } else {
      assert b == (p + 1) * k + (r + d - k);
      RemainderIs(b, k, p + 1, r + d - k);
    }
  }

  /** Counting k steps from x stays in 32 bits, or the k residues are the same before and after wrapping. */
  predicate Seamless(x: nat, k: nat) { 0 < k && (x + k <= TWO32 || TWO32 % k == 0) }

  lemma SeamlessResidue(x: nat, k: nat, j: nat)
    requires x < TWO32 && Seamless(x, k) && j < k
    ensures (x + j) % TWO32 % k == (x + j) % k
  {
    if x + j >= TWO32 {
      DivisorFits(k);
      WrapOnce(x + j);
      LessMultiple(x + j, TWO32 / k, k);
    } else {
      WrapOnce(x + j);
    }
  }

  lemma DivisorFits(k: nat)
    requires 0 < k && TWO32 % k == 0
    ensures k <= TWO32
  {
    if k > TWO32 { RemainderIs(TWO32, k, 0, TWO32); }
  }

  lemma WrapOnce(n: nat)
    requires n < 2 * TWO32
    ensures n % TWO32 == if n < TWO32 then n else n - TWO32
  {}

  lemma LessMultiple(n: nat, q: nat, k: nat)
    requires 0 < k && q * k <= n
    ensures (n - q * k) % k == n % k
  {
    var d, r := (n - q * k) / k, (n - q * k) % k;
    assert n - q * k == d * k + r;
    assert n == (q + d) * k + r;
    RemainderIs(n, k, q + d, r);
  }

  /** Where counting wraps and k does not divide 2^32, two of k steps have the same residue. */
  lemma SeamRepeats(x: nat, k: nat) returns (a: nat, b: nat)
    requires x < TWO32 && 0 < k && !Seamless(x, k)
    ensures a < b < k && (x + a) % TWO32 % k == (x + b) % TWO32 % k
  {
    var r, w := TWO32 % k, TWO32 - x;
    Residual(k);
    a, b := if w <= r then 0 else w - r, if w <= r then r else w;
    WrapOnce(x + a);
    WrapOnce(x + b);
    LessMultiple(x + a, TWO32 / k, k);
  }

  lemma Residual(k: nat)
    requires 0 < k
    ensures 0 <= TWO32 % k < k && TWO32 % k <= TWO32 && TWO32 / k >= 0 && (TWO32 / k) * k == TWO32 - TWO32 % k
  {}

  /** The position in the list of draw i that draw j falls on. */
  function Position(draws: seq<Draw>, i: nat, j: nat): int
    requires i < |draws| && j < |draws|
  {
    if draws[i].addrs == [] then 0 else draws[j].idx % |draws[i].addrs|
  }

  predicate UsesPosition(draws: seq<Draw>, j: nat, addrs: seq<Addr>, m: nat) {
    j < |draws| && m < |addrs| && draws[j].idx % |addrs| == m && draws[j].addr == addrs[m]
  }

  ghost predicate PositionUsed(draws: seq<Draw>, i: nat, m: nat)
    requires i < |draws|
  {
    exists j :: i <= j < i + |draws[i].addrs| && UsesPosition(draws, j, draws[i].addrs, m)
  }

  ghost predicate Repeats(draws: seq<Draw>, i: nat)
    requires i < |draws| && i + |draws[i].addrs| <= |draws|
  {
    exists a, b :: i <= a < b < i + |draws[i].addrs| && Position(draws, i, a) == Position(draws, i, b)
  }

  lemma WindowRotates(s: State, i: nat, m: nat)
    requires DrawInv(s) && i < |s.draws| && m < |s.draws[i].addrs| && Window(s.draws, i, |s.draws[i].addrs|)
    requires s.draws[i].idx >= 0 && Seamless(s.draws[i].idx, |s.draws[i].addrs|)
    ensures PositionUsed(s.draws, i, m)
  {
    var k, x := |s.draws[i].addrs|, s.draws[i].idx;
    assert DrawOk(s.draws[i]);
    var j := Residue(x, m, k);
    CountsUp(s, i, k, j);
    SeamlessResidue(x, k, j);
    assert DrawOk(s.draws[i + j]);
    assert UsesPosition(s.draws, i + j, s.draws[i].addrs, m);
  }

  lemma WindowRepeatsNothing(s: State, i: nat, a: nat, b: nat)
    requires DrawInv(s) && i < |s.draws| && Window(s.draws, i, |s.draws[i].addrs|)
    requires s.draws[i].idx >= 0 && Seamless(s.draws[i].idx, |s.draws[i].addrs|)
    requires i <= a < b < i + |s.draws[i].addrs|
    ensures Position(s.draws, i, a) != Position(s.draws, i, b)
  {
    var k, x := |s.draws[i].addrs|, s.draws[i].idx;
    assert DrawOk(s.draws[i]);
    CountsUp(s, i, k, a - i);
    CountsUp(s, i, k, b - i);
    SeamlessResidue(x, k, a - i);
    SeamlessResidue(x, k, b - i);
    Apart(x + (a - i), x + (b - i), k);
  }

  lemma WindowRepeats(s: State, i: nat)
    requires DrawInv(s) && i < |s.draws| && s.draws[i].idx >= 0 && Window(s.draws, i, |s.draws[i].addrs|)
    requires !Seamless(s.draws[i].idx, |s.draws[i].addrs|)
    ensures Repeats(s.draws, i)
  {
    var k, x := |s.draws[i].addrs|, s.draws[i].idx;
    assert DrawOk(s.draws[i]);
    var a, b := SeamRepeats(x, k);
    CountsUp(s, i, k, a);
    CountsUp(s, i, k, b);
    assert Position(s.draws, i, i + a) == Position(s.draws, i, i + b);
  }

  /**
   * Hits rotate: as many consecutive hits on a list as it has addresses use each of its positions, and none twice,
   * through any number of background refreshes that return the same list, if and only if the 32-bit counter does not
   * wrap among them or the number of addresses divides 2^32.
   */
  lemma HitsRotate(cfg: Config, acts: seq<Action>, i: nat)
    requires Run(cfg, acts).Some? && i < |Run(cfg, acts).value.draws|
    requires Window(Run(cfg, acts).value.draws, i, |Run(cfg, acts).value.draws[i].addrs|)
    ensures var draws := Run(cfg, acts).value.draws;
      var k := |draws[i].addrs|;
      && 0 <= draws[i].idx
      && (Seamless(draws[i].idx, k) ==> forall m :: 0 <= m < k ==> PositionUsed(draws, i, m))
      && (Seamless(draws[i].idx, k) <==> !Repeats(draws, i))
  {
    RunsDraw(cfg, acts);
    var s := Run(cfg, acts).value;
    assert DrawOk(s.draws[i]);
    hide Run, DrawInv, Position, PositionUsed, Seamless;
    var k := |s.draws[i].addrs|;
    if Seamless(s.draws[i].idx, k) {
      forall m | 0 <= m < k ensures PositionUsed(s.draws, i, m) {
        WindowRotates(s, i, m);
      }
      forall a, b | i <= a < b < i + k ensures Position(s.draws, i, a) != Position(s.draws, i, b) {
        WindowRepeatsNothing(s, i, a, b);
      }
    } else {
      WindowRepeats(s, i);
    }
  }

  // ---------------------------------------------------------------- rotation through refreshes

  /** Neither drops the entry nor puts a caller's own answer in its place. */
  predicate Gentle(s: State, a: Action) {
    && !a.Evict?
    && (a.Force? ==> !a.answer.Answered?)
    && (a.Store? && PhaseOf(s, a.t).Storing? ==>
          var p := PhaseOf(s, a.t);
          p.why.Refresh? || !(p.flight < |s.flights| && s.flights[p.flight].Answered?))
  }

  ghost predicate GentleFrom(cfg: Config, acts: seq<Action>, n: nat) {
    forall i :: n <= i < |acts| ==> Run(cfg, acts[..i]).Some? && Gentle(Run(cfg, acts[..i]).value, acts[i])
  }

  /** The counter of s' is that of s, advanced by the hits between them, each of which drew the next value. */
  ghost predicate Continues(s: State, s': State) {
    && s.entry.Some? && s'.entry.Some? && s'.epoch == s.epoch && s.draws <= s'.draws
    && s'.entry.value.idx == (s.entry.value.idx + |s'.draws| - |s.draws|) % TWO32
    && forall i :: |s.draws| <= i < |s'.draws| ==>
         s'.draws[i].epoch == s.epoch && s'.draws[i].idx == (s.entry.value.idx + i - |s.draws|) % TWO32
  }

  lemma ContinuesItself(cfg: Config, s: State)
    requires Inv(cfg, s) && s.entry.Some?
    ensures Continues(s, s)
  {}

  lemma StepContinues(cfg: Config, s: State, m: State, a: Action)
    requires Continues(s, m) && Gentle(m, a) && Enabled(m, a)
    ensures Continues(s, Next(cfg, m, a))
  {
    var m' := Next(cfg, m, a);
    hide Continues;
    HasEntry(s, m);
    if m'.draws == m.draws {
      ContinuesQuiet(s, m, m');
    } else {
      ContinuesDraw(s, m, m');
    }
  }

  lemma HasEntry(s: State, m: State)
    requires Continues(s, m)
    ensures m.entry.Some?
  {}

  lemma ContinuesQuiet(s: State, m: State, m': State)
    requires Continues(s, m) && m'.draws == m.draws && m'.epoch == m.epoch
    requires m.entry.Some? && m'.entry.Some? && m'.entry.value.idx == m.entry.value.idx
    ensures Continues(s, m')
  {}

  lemma ContinuesDraw(s: State, m: State, m': State)
    requires Continues(s, m) && |m'.draws| == |m.draws| + 1 && m.draws <= m'.draws && m'.epoch == m.epoch
    requires m.entry.Some? && m'.entry.Some? && m'.entry.value.idx == (m.entry.value.idx + 1) % TWO32
    requires m'.draws[|m.draws|].epoch == m.epoch && m'.draws[|m.draws|].idx == m.entry.value.idx
    ensures Continues(s, m')
  {
    NextResidue(s.entry.value.idx + |m.draws| - |s.draws|);
  }

  /**
   * Background refreshes keep the rotation: as long as nothing drops the entry and no caller's own answer replaces
   * it, each hit takes the counter value after the one before it, through any number of refreshes, whatever lists
   * they bring, and whatever lookups fail meanwhile.
   */
  lemma {:induction false} RefreshesKeepRotation(cfg: Config, acts: seq<Action>, n: nat)
    requires n <= |acts| && Run(cfg, acts).Some? && Run(cfg, acts[..n]).Some?
    requires Run(cfg, acts[..n]).value.entry.Some? && GentleFrom(cfg, acts, n)
    ensures Continues(Run(cfg, acts[..n]).value, Run(cfg, acts).value)
    decreases |acts|
  {
    hide Next, Enabled, Gentle, Continues;
    var k := |acts| - 1;
    if n <= k {
      assert acts[..k][..n] == acts[..n];
      assert forall i :: n <= i < k ==> acts[..k][..i] == acts[..i];
      RefreshesKeepRotation(cfg, acts[..k], n);
      StepContinues(cfg, Run(cfg, acts[..n]).value, Run(cfg, acts[..k]).value, acts[k]);
    } else {
      assert acts[..n] == acts;
      RunsKeep(cfg, acts);
      ContinuesItself(cfg, Run(cfg, acts).value);
    }
  }

  lemma StoreThenRead(cfg: Config, s: State, t: Tid, at: int, next: Tid, later: int)
    requires PhaseOf(s, t).Storing? && PhaseOf(s, t).why.Lookup? && PhaseOf(s, next).Idle?
    requires PhaseOf(s, t).flight < |s.flights| && s.flights[PhaseOf(s, t).flight].Answered?
    requires s.flights[PhaseOf(s, t).flight].addrs != [] && at <= later < at + cfg.ttl
    ensures var f, m := PhaseOf(s, t).flight, DoStore(cfg, s, t, at);
      && m.now == at && PhaseOf(m, next).Idle?
      && PhaseOf(DoRead(cfg, m, next, later), next)
         == Done(Hit(Entry(s.flights[f].addrs, at, 0, f), later, s.flights[f].addrs[0]))
  {}

  lemma RunTwo(cfg: Config, acts: seq<Action>, a: Action, b: Action)
    requires Run(cfg, acts).Some? && Enabled(Run(cfg, acts).value, a)
    requires Enabled(Next(cfg, Run(cfg, acts).value, a), b)
    ensures Run(cfg, acts + [a, b]) == Some(Next(cfg, Next(cfg, Run(cfg, acts).value, a), b))
  {
    hide Next, Enabled;
    assert (acts + [a])[..|acts|] == acts && (acts + [a, b])[..|acts| + 1] == acts + [a];
    assert Run(cfg, acts + [a]) == Some(Next(cfg, Run(cfg, acts).value, a));
  }

  /**
   * The answer a lookup stores starts a rotation of its own: the next caller, if it comes before the entry expires,
   * gets the first address of it, whatever entry or failure was there before.
   */
  lemma AnswerStartsOver(cfg: Config, acts: seq<Action>, t: Tid, at: int, next: Tid, later: int)
    requires Run(cfg, acts).Some?
    requires var s := Run(cfg, acts).value;
      && PhaseOf(s, t).Storing? && PhaseOf(s, t).why.Lookup? && PhaseOf(s, next).Idle?
      && PhaseOf(s, t).flight < |s.flights| && s.flights[PhaseOf(s, t).flight].Answered?
      && s.now <= at <= later < at + cfg.ttl
    ensures var s := Run(cfg, acts).value;
      var f, end := PhaseOf(s, t).flight, Run(cfg, acts + [Store(t, at), Read(next, later)]);
      && s.flights[f].addrs != []
      && end.Some? && PhaseOf(end.value, next).Done? && PhaseOf(end.value, next).out.Hit?
      && PhaseOf(end.value, next).out.addr == s.flights[f].addrs[0]
      && PhaseOf(end.value, next).out.entry.addrs == s.flights[f].addrs
  {
    var s := Run(cfg, acts).value;
    RunsKeep(cfg, acts);
    assert s.flights[PhaseOf(s, t).flight].addrs != [];
    hide Inv, Run, DoStore, DoRead;
    StoreThenRead(cfg, s, t, at, next, later);
    RunTwo(cfg, acts, Store(t, at), Read(next, later));
  }
}

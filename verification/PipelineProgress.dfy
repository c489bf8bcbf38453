/** Why a pipelined epoch comes to rest, and why every written request is answered when it does. */
module PipelineProgress {
  import opened Bytes
  import opened Reader
  import opened Pipeline
  import opened PipelineSafety
  import opened PipelineOwnership

  // ---------------------------------------------------------------- what is left to do

  /** Bounds the steps a caller can still cause, its own and the reader's. */
  function Weight(p: Phase): nat {
    match p
    case Fresh => 26
    case Locked => 25
    case Writing => 21
    case Appended => 12
    case WriteFailed => 3
    case Waiting => 3
    case Cancelling => 2
    case Done(_) => 1
    case Settled(_) => 0
  }

  function Work(phase: seq<Phase>): nat {
    if phase == [] then 0 else Work(phase[..|phase| - 1]) + Weight(phase[|phase| - 1])
  }

  /** Steps to the reader's next stop, when nothing is queued. */
  function Distance(r: ReaderPhase): nat {
    match r
    case NoReader => 0
    case Exited => 0
    case Quitting => 1
    case LastWord(_) => 1
    case Parked => 2
    case Starting => 3
    case Counted(_, _, _) => 4
    case Judged(_, _, _) => 5
    case Parsed(_, _) => 6
    case Parsing(_) => 7
    case Holding(_) => 8
    case Looking => 9
    case Popped(_, _, _) => 10
  }

  /** Requests the reader still has to take: the queue, and the one in its hand if the sweep has emptied the queue. */
  function Load(s: State): nat { |s.queue| + if Unpopped(s.reader) && s.reader.p !in s.queue then 1 else 0 }

  function Rank(s: State): nat {
    Work(s.phase) + 8 * Load(s) + (if s.token then 8 else 0) + Distance(s.reader) + Max(4 - s.stage, 0)
  }

  lemma {:induction false} WorkMoves(phase: seq<Phase>, w: nat, p: Phase)
    requires w < |phase|
    ensures Work(phase[w := p]) + Weight(phase[w]) == Work(phase) + Weight(p)
  {
    var n := |phase| - 1;
    hide Weight;
    if w == n {
      assert phase[w := p][..n] == phase[..n];
    } else {
      WorkMoves(phase[..n], w, p);
      assert phase[w := p][..n] == phase[..n][w := p];
    }
  }

  lemma {:induction false} RemoveOne(q: seq<Rid>, p: Rid)
    ensures |Remove(q, p)| == if p in q then |q| - 1 else |q|
  {
    if q != [] && q[0] != p { RemoveOne(q[1..], p); }
  }

  // ---------------------------------------------------------------- every step leaves less to do

  lemma CallerRank(s: State, a: Action)
    requires Enabled(s, a) && ByCaller(a) && s.stage <= 4
    ensures var t := CallerStep(s, a); if a.Arrive? then Rank(t) == Rank(s) + Weight(Fresh) else Rank(t) < Rank(s)
  {
    hide Work;
    var t := CallerStep(s, a);
    if a.Arrive? {
      WorkOfArrival(s.phase);
    } else {
      CallerFrame(s, a);
      WorkMoves(s.phase, a.w, t.phase[a.w]);
      if a.WriteOk? { assert Load(t) <= Load(s) + 1; }
    }
  }

  lemma WorkOfArrival(phase: seq<Phase>)
    ensures Work(phase + [Fresh]) == Work(phase) + Weight(Fresh)
  {
    assert (phase + [Fresh])[..|phase|] == phase;
  }

  lemma CloserRank(s: State, a: Action)
    requires Enabled(s, a) && ByCloser(a) && s.stage <= 4
    ensures var t := CloserStep(s, a); if a.CallClose? then Rank(t) <= Rank(s) else Rank(t) < Rank(s)
  {
    hide Work, Distance;
    if a.Sweep? { assert Load(CloserStep(s, a)) <= Load(s); }
  }

  lemma ReaderRank(cfg: Config, s: State, a: Action)
    requires Enabled(s, a) && ByReader(a) && s.stage <= 4
    ensures Rank(ReaderStep(cfg, s, a)) < Rank(s)
  {
    hide Work, Remove, ReadOutcome;
    if a.ReaderRemove? {
      RemoveOne(s.queue, s.reader.p);
    } else if a.ReaderDeliver? {
      hide AfterPop;
      AfterPopRank(s, s.reader.p, s.reader.o, s.reader.cancelled);
    }
  }

  lemma AfterPopRank(s: State, p: Rid, o: Raw, cancelled: bool)
    requires s.reader.Popped? && s.stage <= 4
    ensures Rank(AfterPop(s, p, o, cancelled)) < Rank(s)
  {
    hide Work;
  }

  lemma StepRank(cfg: Config, s: State, a: Action)
    requires Enabled(s, a) && s.stage <= 4
    ensures var t := Next(cfg, s, a);
      && (a.Arrive? ==> Rank(t) == Rank(s) + Weight(Fresh))
      && (a.CallClose? ==> Rank(t) <= Rank(s))
      && (!a.Arrive? && !a.CallClose? ==> Rank(t) < Rank(s))
  {
    hide Rank, CallerStep, CloserStep, ReaderStep;
    if ByCaller(a) {
      CallerRank(s, a);
    } else if ByCloser(a) {
      CloserRank(s, a);
    } else {
      ReaderRank(cfg, s, a);
    }
  }

  /** How many callers arrive, and how many steps are neither arrivals nor calls of closeConn. */
  function Arrivals(acts: seq<Action>): nat {
    if acts == [] then 0 else Arrivals(acts[..|acts| - 1]) + if acts[|acts| - 1].Arrive? then 1 else 0
  }

  function Moves(acts: seq<Action>): nat {
    if acts == [] then 0
    else Moves(acts[..|acts| - 1]) + if acts[|acts| - 1].Arrive? || acts[|acts| - 1].CallClose? then 0 else 1
  }

  lemma {:induction false} MovesPaid(cfg: Config, acts: seq<Action>)
    requires Run(cfg, acts).Some?
    ensures Moves(acts) + Rank(Run(cfg, acts).value) <= 26 * Arrivals(acts) + 12
    decreases |acts|
  {
    if acts != [] {
      var before := acts[..|acts| - 1];
      MovesPaid(cfg, before);
      RunsAreSafe(cfg, before);
      StepRank(cfg, Run(cfg, before).value, acts[|acts| - 1]);
      hide Rank, Next, Enabled;
    }
  }

  /**
   * Every run comes to rest: callers, reader and closeConn together take at most 26 steps for each caller that
   * arrives and 12 more, however they interleave and whatever the peer sends.
   */
  lemma RunsAreBounded(cfg: Config, acts: seq<Action>)
    requires Run(cfg, acts).Some?
    ensures Moves(acts) <= 26 * Arrivals(acts) + 12
  {
    MovesPaid(cfg, acts);
  }

  // ---------------------------------------------------------------- somebody can always move

  /** A step its goroutine takes by itself: no new caller, no cancellation, no call of closeConn from outside. */
  predicate Driven(a: Action) {
    !a.Arrive? && !a.EarlyFail? && !a.Lock? && !a.ContextDone? && !a.CallClose?
  }

  /** The step the reader takes next, when pendingMu is free and it has not ended. */
  function ReaderMove(s: State): Action {
    match s.reader
    case Starting => ReaderStart
    case Parked => ReaderWake
    case Looking => ReaderLook
    case Holding(_) => ReaderCheck
    case Parsing(_) => ReaderRead(s.cursor)
    case Parsed(_, _) => ReaderJudge
    case Judged(_, _, _) => ReaderCount
    case Counted(_, _, _) => ReaderRemove
    case Popped(_, _, _) => ReaderDeliver
    case LastWord(_) => ReaderLastWord
    case _ => ReaderQuit
  }

  /** A request is queued, or off the queue and still in the reader's hand. */
  predicate Unserved(s: State) { s.queue != [] || s.reader.Popped? || s.reader.LastWord? }

  lemma SomebodyMoves(s: State) returns (a: Action)
    requires Inv(s) && Unserved(s)
    ensures Driven(a) && Enabled(s, a)
  {
    if s.reader.Popped? || s.reader.LastWord? {
      a := ReaderMove(s);
    } else if s.lock.Some? {
      var w := s.lock.value;
      a := if s.phase[w].Locked? then StartReader(w) else WriteOk(w);
    } else if s.stage == 1 {
      a := DropSocket;
    } else if s.stage == 2 {
      a := Sweep;
    } else if s.reader.Parked? && !s.token {
      var w :| 0 <= w < |s.phase| && s.phase[w].Appended?;
      a := Signal(w);
    } else {
      a := ReaderMove(s);
    }
  }

  /**
   * No deadlock: in every reachable state with a written request that has no outcome yet, the lock holder, a caller
   * about to signal, the reader or closeConn can take a step, without any help from outside.
   */
  lemma NeverStuck(cfg: Config, acts: seq<Action>, r: Rid)
    requires Run(cfg, acts).Some? && r in Run(cfg, acts).value.h.wire && !Answered(Run(cfg, acts).value, r)
    ensures exists a :: Driven(a) && Enabled(Run(cfg, acts).value, a)
  {
    RunsAreSafe(cfg, acts);
    RunsKeepOwnership(cfg, acts);
    var s := Run(cfg, acts).value;
    hide Run, Enabled, Inv;
    var a := SomebodyMoves(s);
  }

  ghost predicate AllDriven(acts: seq<Action>) { forall i :: 0 <= i < |acts| ==> Driven(acts[i]) }

  lemma {:induction false} DrivenPaid(cfg: Config, acts: seq<Action>, more: seq<Action>)
    requires Run(cfg, acts).Some? && Run(cfg, acts + more).Some? && AllDriven(more)
    ensures |more| + Rank(Run(cfg, acts + more).value) <= Rank(Run(cfg, acts).value)
    decreases |more|
  {
    hide Rank, Next, Enabled;
    if more == [] {
      assert acts + more == acts;
    } else {
      var n := |more| - 1;
      assert (acts + more)[..|acts + more| - 1] == acts + more[..n];
      DrivenPaid(cfg, acts, more[..n]);
      RunsAreSafe(cfg, acts + more[..n]);
      StepRank(cfg, Run(cfg, acts + more[..n]).value, more[n]);
    }
  }

  /**
   * Every schedule answers: left to themselves, from any reachable state, the goroutines take boundedly many steps in
   * whatever order, and when none of them can go on, every request ever written has its outcome.
   */
  lemma EveryScheduleAnswers(cfg: Config, acts: seq<Action>, more: seq<Action>, r: Rid)
    requires Run(cfg, acts).Some? && Run(cfg, acts + more).Some? && AllDriven(more)
    requires r in Run(cfg, acts + more).value.h.wire
    ensures |more| <= Rank(Run(cfg, acts).value)
    ensures Answered(Run(cfg, acts + more).value, r) || exists a :: Driven(a) && Enabled(Run(cfg, acts + more).value, a)
  {
    DrivenPaid(cfg, acts, more);
    if !Answered(Run(cfg, acts + more).value, r) { NeverStuck(cfg, acts + more, r); }
  }

  lemma WireStays(cfg: Config, s: State, a: Action, r: Rid)
    requires Enabled(s, a) && r in s.h.wire
    ensures r in Next(cfg, s, a).h.wire
  {
    hide CallerStep, CloserStep, ReaderStep;
    if ByCaller(a) {
      WireGrows(s, a);
    } else if ByCloser(a) {
      CloserFrame(s, a);
    } else {
      ReaderFrame(cfg, s, a);
    }
  }

  lemma WireGrows(s: State, a: Action)
    requires Enabled(s, a) && ByCaller(a)
    ensures s.h.wire <= CallerStep(s, a).h.wire
  {}

  lemma OneMore(cfg: Config, acts: seq<Action>, r: Rid) returns (a: Action)
    requires Run(cfg, acts).Some? && r in Run(cfg, acts).value.h.wire && !Answered(Run(cfg, acts).value, r)
    ensures Driven(a) && Run(cfg, acts + [a]).Some? && r in Run(cfg, acts + [a]).value.h.wire
    ensures Rank(Run(cfg, acts + [a]).value) < Rank(Run(cfg, acts).value)
  {
    hide Rank, Next, Enabled;
    NeverStuck(cfg, acts, r);
    a :| Driven(a) && Enabled(Run(cfg, acts).value, a);
    assert (acts + [a])[..|acts|] == acts;
    RunsAreSafe(cfg, acts);
    StepRank(cfg, Run(cfg, acts).value, a);
    WireStays(cfg, Run(cfg, acts).value, a, r);
  }

  /** And there is such a schedule: every written request can be answered without help from outside. */
  lemma {:induction false} CanBeAnswered(cfg: Config, acts: seq<Action>, r: Rid) returns (more: seq<Action>)
    requires Run(cfg, acts).Some? && r in Run(cfg, acts).value.h.wire
    ensures AllDriven(more) && Run(cfg, acts + more).Some? && Answered(Run(cfg, acts + more).value, r)
    decreases Rank(Run(cfg, acts).value)
  {
    hide Run, Rank, Answered, Driven;
    if Answered(Run(cfg, acts).value, r) {
      more := [];
      assert acts + more == acts;
    } else {
      var a := OneMore(cfg, acts, r);
      var rest := CanBeAnswered(cfg, acts + [a], r);
      more := [a] + rest;
      assert acts + more == acts + [a] + rest;
    }
  }
}

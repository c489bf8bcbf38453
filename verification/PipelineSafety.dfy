/** What every reachable state of a pipelined epoch satisfies. */
module PipelineSafety {
  import opened Bytes
  import opened Headers
  import opened Reader
  import opened Pipeline

  // ---------------------------------------------------------------- the invariant

  /** pendingMu is held by exactly the callers between Lock and the end of their write, and by none after the sweep. */
  ghost predicate LockInv(s: State) {
    && (forall w :: 0 <= w < |s.phase| ==> (s.phase[w].Locked? || s.phase[w].Writing? <==> s.lock == Some(w)))
    && (s.lock.Some? ==> s.lock.value < |s.phase|)
    && (s.stage >= 3 ==> s.lock == None)
    && s.stage <= 4
  }

  predicate PastWrite(p: Phase) { p.Appended? || p.Waiting? || p.Cancelling? || p.Done? || p.Settled? }

  /** Write order is queue order: what was written is what was served, what is queued and what was swept, in order. */
  ghost predicate WireInv(s: State) {
    && s.h.wire == s.h.served + s.queue + s.h.failed
    && (s.stage < 3 ==> s.h.failed == [])
    && (s.stage >= 3 ==> s.queue == [])
    && Distinct(s.h.wire)
    && (forall i :: 0 <= i < |s.h.wire| ==> s.h.wire[i] < |s.phase| && PastWrite(s.phase[s.h.wire[i]]))
  }

  predicate Unpopped(r: ReaderPhase) { r.Holding? || r.Parsing? || r.Parsed? || r.Judged? || r.Counted? }

  predicate InHand(r: ReaderPhase, p: Rid) { (Unpopped(r) || r.Popped? || r.LastWord?) && r.p == p }

  predicate PoppedHand(r: ReaderPhase, p: Rid) { (r.Popped? || r.LastWord?) && r.p == p }

  /** The request the reader works on is the first one written and not yet served. */
  ghost predicate HandInv(s: State) {
    && (Unpopped(s.reader) ==> |s.h.served| < |s.h.wire| && s.h.wire[|s.h.served|] == s.reader.p)
    && (s.reader.Popped? || s.reader.LastWord? ==> s.reader.p in s.h.wire && s.reader.p !in s.queue)
  }

  /** A signal is pending: its token is in the channel, or a caller is about to put it there. */
  ghost predicate SignalDue(s: State) {
    s.token || exists w :: 0 <= w < |s.phase| && s.phase[w].Appended?
  }

  predicate WriterActive(s: State) { s.lock.Some? && s.lock.value < |s.phase| && s.phase[s.lock.value].Writing? }

  /** No lost wakeup, and no request on the wire without a reader unless the connection is closing. */
  ghost predicate WakeInv(s: State) {
    && ((s.reader.Starting? || s.reader.Parked?) && s.queue != [] ==> SignalDue(s))
    && (s.stage == 0 ==> !s.reader.Exited?)
    && (s.stage == 0 && (s.h.wire != [] || WriterActive(s)) ==> !s.reader.NoReader?)
    && (s.reader.LastWord? ==> s.stage >= 1)
  }

  /**
   * Until the sweep, activeReqs counts what the epoch inherited, the queue and the active writer, less the request the
   * reader has counted off.
   */
  ghost predicate CountInv(s: State) {
    s.stage < 3 ==>
      s.active == s.carried + |s.queue| + (if WriterActive(s) then 1 else 0) - (if s.reader.Counted? then 1 else 0)
  }

  // ---------------------------------------------------------------- what each goroutine leaves alone

  predicate ByReader(a: Action) { !ByCaller(a) && !ByCloser(a) }

  /** Differs at most in the reader, in what was delivered or released, and in closeConn's first step. */
  predicate LetGo(s: State, t: State) {
    && t == s.(stage := t.stage, reader := t.reader, resps := t.resps,
               h := s.h.(delivered := t.h.delivered, releases := t.h.releases, readerReleased := t.h.readerReleased))
    && (t.stage == s.stage || (s.stage == 0 && t.stage == 1))
  }

  lemma DeliverFrame(s: State, p: Rid, o: Raw, next: ReaderPhase)
    ensures LetGo(s, DoDeliver(s, p, o, next))
  {}

  lemma ReleaseFrame(s: State, p: Rid, next: ReaderPhase)
    ensures LetGo(s, DoReaderRelease(s, p, next))
  {}

  lemma QuitFrame(s: State, next: ReaderPhase)
    ensures LetGo(s, ReaderAt(Close(s), next))
  {}

  lemma AfterPopFrame(s: State, p: Rid, o: Raw, cancelled: bool)
    ensures LetGo(s, AfterPop(s, p, o, cancelled))
  {
    hide LetGo, DoDeliver, DoReaderRelease, ReaderAt, Close, AsksToClose;
    var next := if HasStatus(o) && !AsksToClose(o.headers) then Looking else Quitting;
    DeliverFrame(s, p, o, next);
    ReleaseFrame(s, p, next);
    QuitFrame(s, LastWord(p));
  }

  /** The reader touches the queue only in ReaderRemove and activeReqs only in ReaderCount, and no caller's phase. */
  lemma ReaderFrame(cfg: Config, s: State, a: Action)
    requires Enabled(s, a) && ByReader(a)
    ensures var t := ReaderStep(cfg, s, a);
      && t.phase == s.phase && t.lock == s.lock && t.h.wire == s.h.wire && t.h.failed == s.h.failed
      && t.cancelled == s.cancelled && t.releaseFns == s.releaseFns && t.carried == s.carried
      && (t.stage == s.stage || (s.stage == 0 && t.stage == 1))
      && (!a.ReaderRemove? ==> t.queue == s.queue && t.h.served == s.h.served)
      && (!a.ReaderCount? ==> t.active == s.active)
      && (!a.ReaderWake? ==> t.token == s.token)
  {
    hide ReadOutcome, AfterPop, Remove;
    if a.ReaderDeliver? { AfterPopFrame(s, s.reader.p, s.reader.o, s.reader.cancelled); }
  }

  lemma ReaderHistoryFrame(cfg: Config, s: State, a: Action)
    requires Enabled(s, a) && ByReader(a)
    ensures var t := ReaderStep(cfg, s, a);
      && (!a.ReaderRead? && !a.ReaderTimeout? ==>
            t.h.parsed == s.h.parsed && t.h.clean == s.h.clean && t.cursor == s.cursor)
      && (!a.ReaderDeliver? ==> t.resps == s.resps && t.h.delivered == s.h.delivered)
      && (!a.ReaderDeliver? ==> t.h.readerReleased == s.h.readerReleased && t.h.releases == s.h.releases)
      && (!a.ReaderLastWord? ==> t.errs == s.errs)
  {
    hide ReadOutcome, AfterPop, Remove;
    if a.ReaderDeliver? { AfterPopFrame(s, s.reader.p, s.reader.o, s.reader.cancelled); }
  }

  /** A caller's step moves that caller only. */
  lemma CallerFrame(s: State, a: Action)
    requires Enabled(s, a) && ByCaller(a)
    ensures var t := CallerStep(s, a);
      && t.h.served == s.h.served && t.h.failed == s.h.failed && t.cursor == s.cursor
      && t.h.parsed == s.h.parsed && t.h.clean == s.h.clean && t.h.delivered == s.h.delivered
      && t.h.readerReleased == s.h.readerReleased
      && (t.stage == s.stage || (s.stage == 0 && t.stage == 1))
      && (!a.StartReader? ==> t.reader == s.reader)
      && (!a.WriteOk? ==> t.queue == s.queue && t.h.wire == s.h.wire)
      && (!a.Arrive? ==> |t.phase| == |s.phase| && a.w < |s.phase| && t.phase == s.phase[a.w := t.phase[a.w]])
      && (a.Arrive? ==> t == s.(phase := s.phase + [Fresh]))
  {}

  lemma CloserFrame(s: State, a: Action)
    requires Enabled(s, a) && ByCloser(a)
    ensures var t := CloserStep(s, a);
      && t.phase == s.phase && t.lock == s.lock && t.h.wire == s.h.wire && t.h.served == s.h.served
      && t.reader == s.reader && t.cancelled == s.cancelled && t.releaseFns == s.releaseFns && t.resps == s.resps
      && t.active == s.active && t.carried == s.carried
      && t.cursor == s.cursor && t.token == s.token && t.h.parsed == s.h.parsed && t.h.clean == s.h.clean
      && t.h.delivered == s.h.delivered && t.h.readerReleased == s.h.readerReleased && t.h.releases == s.h.releases
      && s.stage <= t.stage
      && (!a.Sweep? ==> t.queue == s.queue && t.h.failed == s.h.failed && t.errs == s.errs)
      && (!a.Sweep? ==> (s.stage < 3 <==> t.stage < 3) && (t.stage == 0 ==> s.stage == 0))
  {}

  // ---------------------------------------------------------------- every step keeps it

  lemma KeepLock(cfg: Config, s: State, a: Action)
    requires LockInv(s) && Enabled(s, a)
    ensures LockInv(Next(cfg, s, a))
  {
    hide ReaderStep;
    if ByCaller(a) {
      CallerFrame(s, a);
    } else if ByCloser(a) {
      CloserFrame(s, a);
    } else {
      ReaderFrame(cfg, s, a);
    }
  }

  lemma WireEdges(s: State)
    requires WireInv(s) && s.queue != []
    ensures |s.h.served| < |s.h.wire| && s.h.wire[|s.h.served|] == s.queue[0]
  {}

  lemma RemoveHead(q: seq<Rid>)
    requires q != []
    ensures Remove(q, q[0]) == q[1..]
  {}

  lemma KeepWire(cfg: Config, s: State, a: Action)
    requires LockInv(s) && WireInv(s) && HandInv(s) && Enabled(s, a)
    ensures WireInv(Next(cfg, s, a))
  {
    hide ReaderStep, CallerStep, CloserStep;
    if ByCaller(a) {
      KeepWireCaller(s, a);
    } else if ByCloser(a) {
      KeepWireCloser(s, a);
    } else if a.ReaderRemove? {
      KeepWireRemove(cfg, s, a);
    } else {
      ReaderFrame(cfg, s, a);
      WireFrame(s, ReaderStep(cfg, s, a));
    }
  }

  /** WireInv reads only the queue, the written order and which callers are past their write. */
  lemma WireFrame(s: State, t: State)
    requires WireInv(s)
    requires t.h.wire == s.h.wire && t.h.served == s.h.served && t.h.failed == s.h.failed && t.queue == s.queue
    requires (t.stage < 3 <==> s.stage < 3)
    requires |s.phase| <= |t.phase|
    requires forall w :: 0 <= w < |s.phase| && PastWrite(s.phase[w]) ==> PastWrite(t.phase[w])
    ensures WireInv(t)
  {}

  lemma KeepWireCaller(s: State, a: Action)
    requires LockInv(s) && WireInv(s) && Enabled(s, a) && ByCaller(a)
    ensures WireInv(CallerStep(s, a))
  {
    if a.WriteOk? {
      KeepWireAppend(s, a.w);
    } else {
      CallerFrame(s, a);
      WireFrame(s, CallerStep(s, a));
    }
  }

  lemma KeepWireAppend(s: State, w: Rid)
    requires LockInv(s) && WireInv(s) && At(s, w, Writing)
    ensures WireInv(DoWriteOk(s, w))
  {
    var t := DoWriteOk(s, w);
    assert s.h.failed == [];
    assert w !in s.h.wire;
    assert t.h.wire == s.h.served + (s.queue + [w]) + [];
  }

  lemma KeepWireCloser(s: State, a: Action)
    requires WireInv(s) && Enabled(s, a) && ByCloser(a)
    ensures WireInv(CloserStep(s, a))
  {
    CloserFrame(s, a);
    if a.Sweep? {
      assert s.h.served + s.queue + [] == s.h.served + [] + s.queue;
    } else {
      WireFrame(s, CloserStep(s, a));
    }
  }

  lemma KeepWireRemove(cfg: Config, s: State, a: Action)
    requires WireInv(s) && HandInv(s) && a.ReaderRemove? && Enabled(s, a)
    ensures WireInv(ReaderStep(cfg, s, a))
  {
    var t := DoRemove(s, s.reader.p, s.reader.o, s.reader.cancelled);
    if s.queue != [] {
      WireEdges(s);
      RemoveHead(s.queue);
      assert s.h.served + s.queue == (s.h.served + [s.queue[0]]) + s.queue[1..];
    }
    WireParts(s, t);
  }

  lemma WireParts(s: State, t: State)
    requires WireInv(s) && t.h.wire == s.h.wire && t.phase == s.phase && t.stage == s.stage
    requires t.h.failed == s.h.failed && t.h.served + t.queue == s.h.served + s.queue
    requires s.queue == [] ==> t.queue == []
    ensures WireInv(t)
  {}

  lemma KeepHand(cfg: Config, s: State, a: Action)
    requires LockInv(s) && WireInv(s) && HandInv(s) && Enabled(s, a)
    ensures HandInv(Next(cfg, s, a))
  {
    hide ReaderStep, CallerStep, CloserStep;
    if ByCaller(a) {
      KeepHandCaller(s, a);
    } else if ByCloser(a) {
      CloserFrame(s, a);
      if a.Sweep? { assert CloserStep(s, a).queue == [] by { SweepEmpties(s, a); } }
    } else {
      KeepHandReader(cfg, s, a);
    }
  }

  lemma SweepEmpties(s: State, a: Action)
    requires a.Sweep?
    ensures CloserStep(s, a).queue == []
  {}

  lemma KeepHandCaller(s: State, a: Action)
    requires LockInv(s) && WireInv(s) && HandInv(s) && Enabled(s, a) && ByCaller(a)
    ensures HandInv(CallerStep(s, a))
  {
    CallerFrame(s, a);
    if a.WriteOk? {
      assert a.w !in s.h.wire;
    }
  }

  lemma KeepHandReader(cfg: Config, s: State, a: Action)
    requires LockInv(s) && WireInv(s) && HandInv(s) && Enabled(s, a) && ByReader(a)
    ensures HandInv(ReaderStep(cfg, s, a))
  {
    if a.ReaderRemove? {
      KeepHandRemove(s);
    } else {
      ReaderFrame(cfg, s, a);
      ReaderKeepsHand(cfg, s, a);
      if a.ReaderLook? && s.queue != [] { WireEdges(s); }
      hide ReaderStep, Enabled;
    }
  }

  /** Only ReaderLook puts a new request in the reader's hand, and only ReaderRemove takes one off the queue. */
  lemma ReaderKeepsHand(cfg: Config, s: State, a: Action)
    requires Enabled(s, a) && ByReader(a) && !a.ReaderRemove?
    ensures var r := ReaderStep(cfg, s, a).reader;
      && (Unpopped(r) ==>
            (a.ReaderLook? && s.queue != [] && r.p == s.queue[0]) || (Unpopped(s.reader) && r.p == s.reader.p))
      && (r.Popped? || r.LastWord? ==> (s.reader.Popped? || s.reader.LastWord?) && r.p == s.reader.p)
  {
    hide ReadOutcome, AfterPop, Remove;
    if a.ReaderDeliver? { AfterPopHand(s, s.reader.p, s.reader.o, s.reader.cancelled); }
  }

  lemma KeepHandRemove(s: State)
    requires WireInv(s) && HandInv(s) && s.reader.Counted?
    ensures HandInv(DoRemove(s, s.reader.p, s.reader.o, s.reader.cancelled))
  {
    if s.queue != [] {
      WireEdges(s);
      RemoveHead(s.queue);
      HeadOnce(s);
    }
  }

  lemma AfterPopHand(s: State, p: Rid, o: Raw, cancelled: bool)
    ensures var r := AfterPop(s, p, o, cancelled).reader;
      r.Looking? || r.Quitting? || (r == LastWord(p) && AfterPop(s, p, o, cancelled).stage >= 1)
  {}

  /** The reader picks requests up from the queue and nowhere else. */
  lemma HandComesFromQueue(cfg: Config, s: State, a: Action)
    requires Enabled(s, a) && ByReader(a)
    ensures forall r :: InHand(ReaderStep(cfg, s, a).reader, r) ==>
      if a.ReaderLook? then r in s.queue else InHand(s.reader, r)
  {
    hide ReadOutcome, AfterPop, Remove;
    if a.ReaderDeliver? {
      AfterPopHand(s, s.reader.p, s.reader.o, s.reader.cancelled);
    }
  }

  lemma RemoveShrinks(q: seq<Rid>, p: Rid)
    ensures forall r :: r in Remove(q, p) ==> r in q
  {}

  lemma QueueShrinks(cfg: Config, s: State, a: Action)
    requires Enabled(s, a) && ByReader(a)
    ensures forall r :: r in ReaderStep(cfg, s, a).queue ==> r in s.queue
  {
    ReaderFrame(cfg, s, a);
    if a.ReaderRemove? { RemoveShrinks(s.queue, s.reader.p); }
  }

  lemma HeadOnce(s: State)
    requires WireInv(s) && s.queue != []
    ensures s.queue[0] !in s.queue[1..] && s.queue[0] in s.h.wire
  {
    var k := |s.h.served|;
    assert forall i :: 0 <= i < |s.queue| ==> s.h.wire[k + i] == s.queue[i];
  }

  lemma KeepWake(cfg: Config, s: State, a: Action)
    requires LockInv(s) && WireInv(s) && HandInv(s) && WakeInv(s) && Enabled(s, a)
    ensures WakeInv(Next(cfg, s, a))
  {
    hide ReaderStep, CallerStep, CloserStep;
    if ByCaller(a) {
      KeepWakeCaller(s, a);
    } else if ByCloser(a) {
      CloserFrame(s, a);
      if a.Sweep? { SweepEmpties(s, a); }
    } else {
      KeepWakeReader(cfg, s, a);
    }
  }

  lemma KeepWakeCaller(s: State, a: Action)
    requires LockInv(s) && WireInv(s) && WakeInv(s) && Enabled(s, a) && ByCaller(a)
    ensures WakeInv(CallerStep(s, a))
  {
    CallerFrame(s, a);
    var t := CallerStep(s, a);
    if a.WriteOk? {
      assert t.phase[a.w].Appended? && WriterActive(s);
    } else if a.Signal? {
      assert t.token;
    } else if SignalDue(s) && !s.token {
      var w :| 0 <= w < |s.phase| && s.phase[w].Appended?;
      assert t.phase[w].Appended?;
    }
  }

  lemma KeepWakeReader(cfg: Config, s: State, a: Action)
    requires WakeInv(s) && Enabled(s, a) && ByReader(a)
    ensures WakeInv(ReaderStep(cfg, s, a))
  {
    hide ReadOutcome, AfterPop, Remove;
    ReaderFrame(cfg, s, a);
    if a.ReaderDeliver? {
      AfterPopHand(s, s.reader.p, s.reader.o, s.reader.cancelled);
    }
  }

  lemma KeepCount(cfg: Config, s: State, a: Action)
    requires LockInv(s) && WireInv(s) && HandInv(s) && CountInv(s) && Enabled(s, a)
    ensures CountInv(Next(cfg, s, a))
  {
    hide ReaderStep, CallerStep, CloserStep;
    if ByCaller(a) {
      KeepCountCaller(s, a);
    } else if ByCloser(a) {
      CloserFrame(s, a);
      if a.Sweep? { SweepStage(s, a); }
    } else {
      KeepCountReader(cfg, s, a);
    }
  }

  lemma SweepStage(s: State, a: Action)
    requires a.Sweep?
    ensures CloserStep(s, a).stage == 3
  {}

  lemma KeepCountCaller(s: State, a: Action)
    requires LockInv(s) && CountInv(s) && Enabled(s, a) && ByCaller(a)
    ensures CountInv(CallerStep(s, a))
  {
    CallerFrame(s, a);
  }

  lemma KeepCountReader(cfg: Config, s: State, a: Action)
    requires WireInv(s) && HandInv(s) && CountInv(s) && Enabled(s, a) && ByReader(a)
    ensures CountInv(ReaderStep(cfg, s, a))
  {
    hide ReadOutcome, AfterPop;
    ReaderFrame(cfg, s, a);
    if a.ReaderRemove? {
      if s.stage < 3 {
        assert s.queue != [];
        WireEdges(s);
        RemoveHead(s.queue);
      }
    } else if a.ReaderDeliver? {
      AfterPopHand(s, s.reader.p, s.reader.o, s.reader.cancelled);
    }
  }

  // ---------------------------------------------------------------- over whole runs

  ghost predicate Inv(s: State) { LockInv(s) && WireInv(s) && HandInv(s) && WakeInv(s) && CountInv(s) }

  lemma {:induction false} RunsAreSafe(cfg: Config, acts: seq<Action>)
    requires Run(cfg, acts).Some?
    ensures Inv(Run(cfg, acts).value)
    decreases |acts|
  {
    hide Next, Enabled;
    if acts == [] {
      InitSafe(cfg);
    } else {
      RunsAreSafe(cfg, acts[..|acts| - 1]);
      StepSafe(cfg, Run(cfg, acts[..|acts| - 1]).value, acts[|acts| - 1]);
    }
  }

  lemma InitSafe(cfg: Config)
    ensures Inv(Init(cfg))
  {}

  lemma StepSafe(cfg: Config, s: State, a: Action)
    requires Inv(s) && Enabled(s, a)
    ensures Inv(Next(cfg, s, a))
  {
    hide Next, Enabled, LockInv, WireInv, HandInv, WakeInv, CountInv;
    KeepLock(cfg, s, a);
    KeepWire(cfg, s, a);
    KeepHand(cfg, s, a);
    KeepWake(cfg, s, a);
    KeepCount(cfg, s, a);
  }
}

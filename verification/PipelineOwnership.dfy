/** Who owns a Response, and why no caller is left waiting. */
module PipelineOwnership {
  import opened Reader
  import opened Pipeline
  import opened PipelineSafety
  import opened PipelineFifo

  // ---------------------------------------------------------------- the invariant

  /** The caller has its outcome, or one is waiting in its channels. */
  predicate Answered(s: State, r: Rid) {
    r in s.errs || r in s.resps
    || (r < |s.phase| && (s.phase[r].Cancelling? || s.phase[r].Done? || s.phase[r].Settled?))
  }

  /** A request on the wire is queued, just taken off the queue by the reader, or answered. */
  ghost predicate SettleInv(s: State) {
    forall r :: r in s.h.wire ==> r in s.queue || PoppedHand(s.reader, r) || Answered(s, r)
  }

  predicate Judgement(r: ReaderPhase) { r.Judged? || r.Counted? || r.Popped? }

  /** A set cancelled flag means the caller left with the release function stored; the reader's flag is never stale. */
  ghost predicate CancelInv(s: State) {
    && (forall w :: w in s.cancelled ==> At(s, w, Done(Transferred)))
    && (forall w :: 0 <= w < |s.phase| && (s.phase[w].Cancelling? || s.phase[w] == Done(Transferred)) ==>
          w in s.releaseFns)
    && (Judgement(s.reader) && s.reader.cancelled ==> s.reader.p in s.cancelled)
  }

  /** A response a caller has, or can take, was delivered by the reader. */
  ghost predicate HandoverInv(s: State) {
    && (forall r :: r in s.resps ==> r in s.h.delivered)
    && (forall w :: 0 <= w < |s.phase| && (s.phase[w] == Done(GotResponse) || s.phase[w] == Settled(Returned)) ==>
          w in s.h.delivered)
  }

  /** The reader releases only what was transferred to it, once, and then has nothing more to do with it. */
  ghost predicate ReaderReleaseInv(s: State) {
    forall r :: r in s.h.readerReleased ==>
      r in s.cancelled && r in s.h.wire && r !in s.queue && !InHand(s.reader, r)
  }

  predicate CallerReleased(s: State, w: Rid) { At(s, w, Settled(Released)) }

  /** Every release is accounted for by one side. */
  ghost predicate LedgerInv(s: State) {
    forall w: Rid :: s.h.releases[w] ==
      (if CallerReleased(s, w) then 1 else 0) + (if w in s.h.readerReleased then 1 else 0)
  }

  ghost predicate OwnInv(s: State) {
    SettleInv(s) && CancelInv(s) && HandoverInv(s) && ReaderReleaseInv(s) && LedgerInv(s)
  }

  // ---------------------------------------------------------------- callers

  lemma KeepSettleCaller(s: State, a: Action)
    requires LockInv(s) && WireInv(s) && SettleInv(s) && Enabled(s, a) && ByCaller(a)
    ensures SettleInv(CallerStep(s, a))
  {
    CallerFrame(s, a);
    StartReaderPhase(s, a);
  }

  lemma KeepCancelCaller(s: State, a: Action)
    requires CancelInv(s) && Enabled(s, a) && ByCaller(a)
    ensures CancelInv(CallerStep(s, a))
  {
    CallerFrame(s, a);
    StartReaderPhase(s, a);
  }

  lemma KeepHandoverCaller(s: State, a: Action)
    requires HandoverInv(s) && Enabled(s, a) && ByCaller(a)
    ensures HandoverInv(CallerStep(s, a))
  {
    CallerFrame(s, a);
  }

  lemma KeepReaderReleaseCaller(s: State, a: Action)
    requires LockInv(s) && WireInv(s) && CancelInv(s) && ReaderReleaseInv(s) && Enabled(s, a) && ByCaller(a)
    ensures ReaderReleaseInv(CallerStep(s, a))
  {
    CallerFrame(s, a);
    StartReaderPhase(s, a);
    if a.WriteOk? {
      assert a.w !in s.h.wire;
    }
  }

  lemma KeepLedgerCaller(s: State, a: Action)
    requires LedgerInv(s) && Enabled(s, a) && ByCaller(a)
    ensures LedgerInv(CallerStep(s, a))
  {
    CallerFrame(s, a);
    var t := CallerStep(s, a);
    forall w: Rid
      ensures t.h.releases[w] == (if CallerReleased(t, w) then 1 else 0) + (if w in t.h.readerReleased then 1 else 0)
    {
      assert s.h.releases[w] == (if CallerReleased(s, w) then 1 else 0) + (if w in s.h.readerReleased then 1 else 0);
    }
  }

  // ---------------------------------------------------------------- closeConn

  lemma KeepOwnCloser(s: State, a: Action)
    requires OwnInv(s) && Enabled(s, a) && ByCloser(a)
    ensures OwnInv(CloserStep(s, a))
  {
    CloserFrame(s, a);
    var t := CloserStep(s, a);
    assert SettleInv(t) by {
      if a.Sweep? { assert t.errs == s.errs + (set p | p in s.queue); }
    }
    assert LedgerInv(t) by { LedgerFrame(s, t); }
    if a.Sweep? { SweepEmpties(s, a); }
  }

  lemma LedgerFrame(s: State, t: State)
    requires LedgerInv(s) && t.phase == s.phase
    requires t.h.releases == s.h.releases && t.h.readerReleased == s.h.readerReleased
    ensures LedgerInv(t)
  {
    forall w: Rid
      ensures t.h.releases[w] == (if CallerReleased(t, w) then 1 else 0) + (if w in t.h.readerReleased then 1 else 0)
    {
      assert s.h.releases[w] == (if CallerReleased(s, w) then 1 else 0) + (if w in s.h.readerReleased then 1 else 0);
    }
  }

  // ---------------------------------------------------------------- the reader

  /** How the reader lets go of a request it took off the queue. */
  lemma AfterPopSettles(s: State, p: Rid, o: Raw, cancelled: bool)
    ensures var t := AfterPop(s, p, o, cancelled);
      && (forall r :: r in s.resps ==> r in t.resps)
      && (forall r :: r in t.resps ==> r in s.resps || (r == p && r in t.h.delivered))
      && (forall r :: r in s.h.delivered ==> r in t.h.delivered)
      && (!cancelled ==> p in t.resps || t.reader == LastWord(p))
      && (cancelled ==> t.resps == s.resps)
      && (if cancelled && p in s.releaseFns
          then t.h.releases == s.h.releases + multiset{p} && t.h.readerReleased == s.h.readerReleased + {p}
               && (t.reader.Looking? || t.reader.Quitting?)
          else t.h.releases == s.h.releases && t.h.readerReleased == s.h.readerReleased)
  {}

  lemma RemoveKeeps(q: seq<Rid>, p: Rid)
    ensures forall r :: r in q && r != p ==> r in Remove(q, p)
  {
    if q != [] && q[0] != p { RemoveKeeps(q[1..], p); }
  }

  lemma KeepSettleReader(cfg: Config, s: State, a: Action)
    requires SettleInv(s) && CancelInv(s) && Enabled(s, a) && ByReader(a)
    ensures SettleInv(ReaderStep(cfg, s, a))
  {
    hide AfterPop, Remove, ReadOutcome;
    ReaderFrame(cfg, s, a);
    ReaderHistoryFrame(cfg, s, a);
    if a.ReaderRemove? {
      RemoveKeeps(s.queue, s.reader.p);
    } else if a.ReaderDeliver? {
      AfterPopFrame(s, s.reader.p, s.reader.o, s.reader.cancelled);
      AfterPopSettles(s, s.reader.p, s.reader.o, s.reader.cancelled);
    }
  }

  lemma KeepCancelReader(cfg: Config, s: State, a: Action)
    requires CancelInv(s) && Enabled(s, a) && ByReader(a)
    ensures CancelInv(ReaderStep(cfg, s, a))
  {
    hide AfterPop, Remove, ReadOutcome;
    ReaderFrame(cfg, s, a);
    if a.ReaderDeliver? {
      AfterPopHand(s, s.reader.p, s.reader.o, s.reader.cancelled);
    }
  }

  lemma KeepHandoverReader(cfg: Config, s: State, a: Action)
    requires HandoverInv(s) && Enabled(s, a) && ByReader(a)
    ensures HandoverInv(ReaderStep(cfg, s, a))
  {
    hide AfterPop, Remove, ReadOutcome;
    ReaderFrame(cfg, s, a);
    ReaderHistoryFrame(cfg, s, a);
    if a.ReaderDeliver? {
      AfterPopSettles(s, s.reader.p, s.reader.o, s.reader.cancelled);
    }
  }

  lemma KeepReaderReleaseReader(cfg: Config, s: State, a: Action)
    requires HandInv(s) && CancelInv(s) && ReaderReleaseInv(s) && Enabled(s, a) && ByReader(a)
    ensures ReaderReleaseInv(ReaderStep(cfg, s, a))
  {
    ReaderFrame(cfg, s, a);
    ReaderHistoryFrame(cfg, s, a);
    HandComesFromQueue(cfg, s, a);
    QueueShrinks(cfg, s, a);
    if a.ReaderDeliver? {
      assert ReaderStep(cfg, s, a) == AfterPop(s, s.reader.p, s.reader.o, s.reader.cancelled);
      AfterPopSettles(s, s.reader.p, s.reader.o, s.reader.cancelled);
    }
    hide AfterPop, ReaderStep;
  }

  lemma KeepLedgerReader(cfg: Config, s: State, a: Action)
    requires CancelInv(s) && ReaderReleaseInv(s) && LedgerInv(s) && Enabled(s, a) && ByReader(a)
    ensures LedgerInv(ReaderStep(cfg, s, a))
  {
    ReaderFrame(cfg, s, a);
    ReaderHistoryFrame(cfg, s, a);
    if a.ReaderDeliver? {
      var p := s.reader.p;
      var t := AfterPop(s, p, s.reader.o, s.reader.cancelled);
      assert ReaderStep(cfg, s, a) == t;
      AfterPopSettles(s, p, s.reader.o, s.reader.cancelled);
      if t.h.releases == s.h.releases {
        LedgerFrame(s, t);
      } else {
        assert p in s.cancelled && !CallerReleased(s, p) && p !in s.h.readerReleased;
        LedgerAdd(s, t, p);
      }
    } else {
      LedgerFrame(s, ReaderStep(cfg, s, a));
    }
  }

  lemma LedgerAdd(s: State, t: State, p: Rid)
    requires LedgerInv(s) && t.phase == s.phase && p !in s.h.readerReleased
    requires t.h.releases == s.h.releases + multiset{p} && t.h.readerReleased == s.h.readerReleased + {p}
    ensures LedgerInv(t)
  {
    forall w: Rid
      ensures t.h.releases[w] == (if CallerReleased(t, w) then 1 else 0) + (if w in t.h.readerReleased then 1 else 0)
    {
      assert s.h.releases[w] == (if CallerReleased(s, w) then 1 else 0) + (if w in s.h.readerReleased then 1 else 0);
    }
  }

  // ---------------------------------------------------------------- over whole runs

  lemma StepOwn(cfg: Config, s: State, a: Action)
    requires Inv(s) && OwnInv(s) && Enabled(s, a)
    ensures OwnInv(Next(cfg, s, a))
  {
    hide Enabled, CallerStep, CloserStep, ReaderStep, WireInv, LockInv, HandInv, WakeInv, CountInv;
    if ByCaller(a) {
      hide SettleInv, CancelInv, HandoverInv, ReaderReleaseInv, LedgerInv;
      KeepSettleCaller(s, a);
      KeepCancelCaller(s, a);
      KeepHandoverCaller(s, a);
      KeepReaderReleaseCaller(s, a);
      KeepLedgerCaller(s, a);
    } else if ByCloser(a) {
      KeepOwnCloser(s, a);
    } else {
      hide SettleInv, CancelInv, HandoverInv, ReaderReleaseInv, LedgerInv;
      KeepSettleReader(cfg, s, a);
      KeepCancelReader(cfg, s, a);
      KeepHandoverReader(cfg, s, a);
      KeepReaderReleaseReader(cfg, s, a);
      KeepLedgerReader(cfg, s, a);
    }
  }

  lemma InitOwn(cfg: Config)
    ensures OwnInv(Init(cfg))
  {}

  lemma {:induction false} RunsKeepOwnership(cfg: Config, acts: seq<Action>)
    requires Run(cfg, acts).Some?
    ensures OwnInv(Run(cfg, acts).value)
    decreases |acts|
  {
    hide Next, Enabled, OwnInv, Inv, Init;
    if acts == [] {
      InitOwn(cfg);
    } else {
      var before := acts[..|acts| - 1];
      RunsKeepOwnership(cfg, before);
      RunsAreSafe(cfg, before);
      StepOwn(cfg, Run(cfg, before).value, acts[|acts| - 1]);
    }
  }

  /**
   * Response ownership: in every run each acquired Response is released at most once, and one that was returned to
   * the caller is never released by the client and never in the reader's hand.
   */
  lemma OwnershipSafe(cfg: Config, acts: seq<Action>, w: Rid)
    requires Run(cfg, acts).Some?
    ensures var s := Run(cfg, acts).value;
      && s.h.releases[w] <= 1
      && (At(s, w, Settled(Returned)) ==> s.h.releases[w] == 0 && !InHand(s.reader, w))
      && (At(s, w, Done(Transferred)) && s.h.releases[w] == 1 ==> w in s.h.readerReleased)
      && (s.reader.Popped? && s.reader.cancelled ==> s.reader.p in s.releaseFns)
  {
    RunsKeepOwnership(cfg, acts);
    RunsAreFifo(cfg, acts);
    var s := Run(cfg, acts).value;
    assert DeliveredInv(s) && OwnInv(s);
    hide Run, FifoInv;
    assert s.h.releases[w] == (if CallerReleased(s, w) then 1 else 0) + (if w in s.h.readerReleased then 1 else 0);
  }

  /**
   * No stranded caller: once closeConn has swept the queue, every request ever written has its outcome in a channel
   * or already taken, was cancelled, or is the one request the reader has taken off the queue and is about to answer.
   */
  lemma NoStrandedCaller(cfg: Config, acts: seq<Action>, r: Rid)
    requires Run(cfg, acts).Some? && Run(cfg, acts).value.stage >= 3
    requires r in Run(cfg, acts).value.h.wire
    ensures var s := Run(cfg, acts).value; Answered(s, r) || PoppedHand(s.reader, r)
  {
    RunsKeepOwnership(cfg, acts);
    RunsAreSafe(cfg, acts);
    hide Run;
  }

  /** Nothing is written or queued after the sweep, whatever happens next in the epoch. */
  lemma {:induction false} NothingAfterSweep(cfg: Config, acts: seq<Action>, more: seq<Action>)
    requires Run(cfg, acts).Some? && Run(cfg, acts).value.stage >= 3
    requires Run(cfg, acts + more).Some?
    ensures var s, t := Run(cfg, acts).value, Run(cfg, acts + more).value;
      t.stage >= 3 && t.h.wire == s.h.wire && t.queue == []
    decreases |more|
  {
    RunsAreSafe(cfg, acts + more);
    if more == [] {
      assert acts + more == acts;
    } else {
      var before := acts + more[..|more| - 1];
      assert (acts + more)[..|acts + more| - 1] == before;
      NothingAfterSweep(cfg, acts, more[..|more| - 1]);
      RunsAreSafe(cfg, before);
      var s := Run(cfg, before).value;
      var a := (acts + more)[|acts + more| - 1];
      SweptStays(cfg, s, a);
    }
  }

  lemma SweptStays(cfg: Config, s: State, a: Action)
    requires LockInv(s) && s.stage >= 3 && Enabled(s, a)
    ensures Next(cfg, s, a).stage >= 3 && Next(cfg, s, a).h.wire == s.h.wire
  {
    hide CallerStep, CloserStep, ReaderStep;
    if ByCaller(a) {
      CallerFrame(s, a);
      NoWriterLeft(s, a);
    } else if ByCloser(a) {
      CloserFrame(s, a);
    } else {
      ReaderFrame(cfg, s, a);
    }
  }

  lemma NoWriterLeft(s: State, a: Action)
    requires LockInv(s) && s.stage >= 3 && Enabled(s, a)
    ensures !a.WriteOk?
  {}

  /** No lost wakeup: while requests are queued and the reader sleeps, its signal is pending. */
  lemma NoLostWakeup(cfg: Config, acts: seq<Action>)
    requires Run(cfg, acts).Some?
    ensures var s := Run(cfg, acts).value;
      && (s.reader.Parked? && s.queue != [] ==> SignalDue(s))
      && (s.stage == 0 && s.h.wire != [] ==> !s.reader.NoReader? && !s.reader.Exited?)
  {
    RunsAreSafe(cfg, acts);
    hide Run, LockInv, WireInv, HandInv, CountInv;
  }

  // ---------------------------------------------------------------- taking a response empties its channel

  predicate Taken(s: State, w: Rid) { At(s, w, Done(GotResponse)) || At(s, w, Settled(Returned)) }

  ghost predicate TakenInv(s: State) { forall w :: w in s.resps ==> !Taken(s, w) }

  lemma TakenCaller(s: State, a: Action)
    requires TakenInv(s) && HandoverInv(s) && Enabled(s, a) && ByCaller(a)
    ensures TakenInv(CallerStep(s, a))
  {
    CallerFrame(s, a);
  }

  lemma TakenReader(cfg: Config, s: State, a: Action)
    requires TakenInv(s) && HandoverInv(s) && DeliveredInv(s) && Enabled(s, a) && ByReader(a)
    ensures TakenInv(ReaderStep(cfg, s, a))
  {
    hide AfterPop, Remove, ReadOutcome;
    ReaderFrame(cfg, s, a);
    ReaderHistoryFrame(cfg, s, a);
    if a.ReaderDeliver? {
      AfterPopSettles(s, s.reader.p, s.reader.o, s.reader.cancelled);
      assert InHand(s.reader, s.reader.p);
    }
  }

  lemma {:induction false} RunsKeepTaken(cfg: Config, acts: seq<Action>)
    requires Run(cfg, acts).Some?
    ensures TakenInv(Run(cfg, acts).value)
    decreases |acts|
  {
    if acts != [] {
      var before, a := acts[..|acts| - 1], acts[|acts| - 1];
      RunsKeepTaken(cfg, before);
      RunsKeepOwnership(cfg, before);
      RunsAreFifo(cfg, before);
      var s := Run(cfg, before).value;
      assert HandoverInv(s) && DeliveredInv(s);
      hide CallerStep, ReaderStep, Enabled, TakenInv, HandoverInv, DeliveredInv;
      if ByCaller(a) {
        TakenCaller(s, a);
      } else if ByCloser(a) {
        CloserFrame(s, a);
        TakenSame(s, CloserStep(s, a));
      } else {
        TakenReader(cfg, s, a);
      }
    }
  }

  lemma TakenSame(s: State, t: State)
    requires TakenInv(s) && t.phase == s.phase && t.resps == s.resps
    ensures TakenInv(t)
  {}

  /** A response is in one place: a caller that has it was sent it, and left nothing in the channel. */
  lemma TakenOnce(cfg: Config, acts: seq<Action>, w: Rid)
    requires Run(cfg, acts).Some?
    ensures var s := Run(cfg, acts).value;
      At(s, w, Done(GotResponse)) || At(s, w, Settled(Returned)) ==> w in s.h.delivered && w !in s.resps
  {
    RunsKeepTaken(cfg, acts);
    RunsKeepOwnership(cfg, acts);
    assert HandoverInv(Run(cfg, acts).value);
    hide Run;
  }
}

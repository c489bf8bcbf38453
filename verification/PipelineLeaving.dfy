/** What becomes of a Response whose caller left because its context ended. */
module PipelineLeaving {
  import opened Bytes
  import opened Reader
  import opened Pipeline
  import opened PipelineSafety
  import opened PipelineFifo
  import opened PipelineOwnership
  import opened PipelineProgress
  import opened PipelineClosing
  import PipelineUse

  // ---------------------------------------------------------------- nothing is left behind

  predicate Left(s: State, w: Rid) { w < |s.phase| && (s.phase[w].Cancelling? || s.phase[w] == Done(Transferred)) }

  /** The response of a caller that left is still to come, or was dealt with by the reader or the sweep. */
  ghost predicate LeftInv(s: State) {
    forall w :: w in s.h.wire && Left(s, w) ==>
      w in s.queue || PoppedHand(s.reader, w) || w in s.h.readerReleased || w in s.resps || w in s.errs
  }

  lemma LeftCaller(s: State, a: Action)
    requires LockInv(s) && WireInv(s) && SettleInv(s) && LeftInv(s) && Enabled(s, a) && ByCaller(a)
    ensures LeftInv(CallerStep(s, a))
  {
    CallerFrame(s, a);
    StartReaderPhase(s, a);
  }

  lemma LeftReader(cfg: Config, s: State, a: Action)
    requires CancelInv(s) && LeftInv(s) && Enabled(s, a) && ByReader(a)
    ensures LeftInv(ReaderStep(cfg, s, a))
  {
    hide AfterPop, Remove, ReadOutcome;
    ReaderFrame(cfg, s, a);
    ReaderHistoryFrame(cfg, s, a);
    if a.ReaderRemove? {
      RemoveKeeps(s.queue, s.reader.p);
    } else if a.ReaderDeliver? {
      AfterPopFrame(s, s.reader.p, s.reader.o, s.reader.cancelled);
      AfterPopSettles(s, s.reader.p, s.reader.o, s.reader.cancelled);
    }
  }

  lemma LeftCloser(s: State, a: Action)
    requires LeftInv(s) && Enabled(s, a) && ByCloser(a)
    ensures LeftInv(CloserStep(s, a))
  {
    CloserFrame(s, a);
  }

  lemma {:induction false} RunsKeepLeft(cfg: Config, acts: seq<Action>)
    requires Run(cfg, acts).Some?
    ensures LeftInv(Run(cfg, acts).value)
    decreases |acts|
  {
    if acts != [] {
      var before, a := acts[..|acts| - 1], acts[|acts| - 1];
      RunsKeepLeft(cfg, before);
      RunsAreSafe(cfg, before);
      RunsKeepOwnership(cfg, before);
      var s := Run(cfg, before).value;
      assert LockInv(s) && WireInv(s) && SettleInv(s) && CancelInv(s);
      hide CallerStep, CloserStep, ReaderStep, Enabled, LeftInv, LockInv, WireInv, SettleInv, CancelInv;
      if ByCaller(a) {
        LeftCaller(s, a);
      } else if ByCloser(a) {
        LeftCloser(s, a);
      } else {
        LeftReader(cfg, s, a);
      }
    }
  }

  /**
   * At rest nothing is queued, and the response of a caller that left was released by the reader, or is in the channel
   * nobody reads any more because the reader judged it before the caller left, or its error is.
   */
  lemma NothingLeftBehind(cfg: Config, acts: seq<Action>, w: Rid)
    requires Run(cfg, acts).Some? && AtRest(Run(cfg, acts).value)
    ensures var s := Run(cfg, acts).value;
      && !Unserved(s)
      && (w in s.h.wire && At(s, w, Done(Transferred)) ==>
            s.h.releases[w] == 1 || w in s.resps || w in s.errs)
  {
    RunsAreSafe(cfg, acts);
    RunsKeepOwnership(cfg, acts);
    RunsKeepLeft(cfg, acts);
    var s := Run(cfg, acts).value;
    hide Run, Inv;
    if Unserved(s) {
      var a := SomebodyMoves(s);
    }
    hide Enabled;
    assert s.h.releases[w] == (if CallerReleased(s, w) then 1 else 0) + (if w in s.h.readerReleased then 1 else 0);
  }

  // ---------------------------------------------------------------- leaving before the reader looks

  predicate Judging(r: ReaderPhase, w: Rid) { Judgement(r) && r.p == w }

  /** The reader will release w, unless the sweep answers it: its caller left before the reader looked. */
  ghost predicate Promised(s: State, w: Rid) {
    && w in s.cancelled && w !in s.resps && (Judging(s.reader, w) ==> s.reader.cancelled)
    && (w in s.queue || (s.reader.Popped? && s.reader.p == w) || w in s.h.readerReleased || w in s.errs)
  }

  lemma PromisedCaller(s: State, a: Action, w: Rid)
    requires CancelInv(s) && Promised(s, w) && Enabled(s, a) && ByCaller(a)
    ensures Promised(CallerStep(s, a), w)
  {
    CallerFrame(s, a);
    StartReaderPhase(s, a);
  }

  lemma PromisedReader(cfg: Config, s: State, a: Action, w: Rid)
    requires CancelInv(s) && Promised(s, w) && Enabled(s, a) && ByReader(a)
    ensures Promised(ReaderStep(cfg, s, a), w)
  {
    hide AfterPop, Remove, ReadOutcome;
    ReaderFrame(cfg, s, a);
    ReaderHistoryFrame(cfg, s, a);
    if a.ReaderRemove? {
      RemoveKeeps(s.queue, s.reader.p);
    } else if a.ReaderDeliver? {
      AfterPopFrame(s, s.reader.p, s.reader.o, s.reader.cancelled);
      AfterPopSettles(s, s.reader.p, s.reader.o, s.reader.cancelled);
      AfterPopHand(s, s.reader.p, s.reader.o, s.reader.cancelled);
    }
  }

  lemma {:induction false} PromiseKept(cfg: Config, acts: seq<Action>, more: seq<Action>, w: Rid)
    requires Run(cfg, acts).Some? && Run(cfg, acts + more).Some? && Promised(Run(cfg, acts).value, w)
    ensures Promised(Run(cfg, acts + more).value, w)
    decreases |more|
  {
    if more == [] {
      assert acts + more == acts;
    } else {
      var n := |more| - 1;
      var before, a := acts + more[..n], more[n];
      assert (acts + more)[..|acts + more| - 1] == before;
      PromiseKept(cfg, acts, more[..n], w);
      RunsKeepOwnership(cfg, before);
      var s := Run(cfg, before).value;
      assert CancelInv(s);
      hide CallerStep, ReaderStep, Enabled, CancelInv;
      if ByCaller(a) {
        PromisedCaller(s, a, w);
      } else if ByCloser(a) {
        CloserFrame(s, a);
      } else {
        PromisedReader(cfg, s, a, w);
      }
    }
  }

  /**
   * A caller that left before the reader looked at its cancelled flag leaves nothing behind: its response is never
   * sent, and by the time everything rests the reader has released it, unless closeConn failed the request.
   */
  lemma LeftInTime(cfg: Config, acts: seq<Action>, more: seq<Action>, w: Rid)
    requires Run(cfg, acts).Some? && Run(cfg, acts + more).Some?
    requires var s := Run(cfg, acts).value; w in s.cancelled && w in s.queue && !Judging(s.reader, w)
    ensures var t := Run(cfg, acts + more).value;
      w !in t.resps && (AtRest(t) ==> t.h.releases[w] == 1 || w in t.errs)
  {
    RunsAreFifo(cfg, acts);
    RunsKeepOwnership(cfg, acts);
    assert DeliveredInv(Run(cfg, acts).value) && HandoverInv(Run(cfg, acts).value);
    PromiseKept(cfg, acts, more, w);
    RunsKeepOwnership(cfg, acts + more);
    var t := Run(cfg, acts + more).value;
    if AtRest(t) {
      NothingLeftBehind(cfg, acts + more, w);
      RunsAreSafe(cfg, acts + more);
      assert CancelInv(t) && LedgerInv(t);
      hide Run, Inv, Enabled;
    }
  }

  // ---------------------------------------------------------------- who is released, exactly

  /** Step i is the reader loading the cancelled flag of w, and finding it set. */
  ghost predicate FoundLeftAt(cfg: Config, acts: seq<Action>, w: Rid, i: int) {
    && 0 <= i < |acts| && Run(cfg, acts[..i]).Some? && FindsLeft(Run(cfg, acts[..i]).value, acts[i], w)
  }

  predicate FindsLeft(s: State, a: Action, w: Rid) {
    a.ReaderJudge? && s.reader.Parsed? && s.reader.p == w && w in s.cancelled
  }

  ghost predicate FoundLeft(cfg: Config, acts: seq<Action>, w: Rid) { exists i :: FoundLeftAt(cfg, acts, w, i) }

  predicate Spared(s: State, w: Rid) { (Judging(s.reader, w) && s.reader.cancelled) || w in s.h.readerReleased }

  lemma SparedReader(cfg: Config, s: State, a: Action, w: Rid)
    requires CancelInv(s) && Enabled(s, a) && ByReader(a)
    ensures Spared(ReaderStep(cfg, s, a), w) <==> Spared(s, w) || FindsLeft(s, a, w)
  {
    hide AfterPop, Remove, ReadOutcome;
    ReaderHistoryFrame(cfg, s, a);
    if a.ReaderDeliver? {
      AfterPopSettles(s, s.reader.p, s.reader.o, s.reader.cancelled);
      AfterPopHand(s, s.reader.p, s.reader.o, s.reader.cancelled);
    }
  }

  lemma SparedStep(cfg: Config, s: State, a: Action, w: Rid)
    requires CancelInv(s) && Enabled(s, a)
    ensures Spared(Next(cfg, s, a), w) <==> Spared(s, w) || FindsLeft(s, a, w)
  {
    if ByCaller(a) {
      CallerFrame(s, a);
      StartReaderPhase(s, a);
    } else if ByCloser(a) {
      CloserFrame(s, a);
    } else {
      hide CallerStep, CloserStep, ReaderStep;
      SparedReader(cfg, s, a, w);
    }
  }

  lemma FoundLeftStep(cfg: Config, acts: seq<Action>, w: Rid)
    requires acts != [] && Run(cfg, acts[..|acts| - 1]).Some?
    ensures var before, a := acts[..|acts| - 1], acts[|acts| - 1];
      FoundLeft(cfg, acts, w) <==> FoundLeft(cfg, before, w) || FindsLeft(Run(cfg, before).value, a, w)
  {
    hide Run, FindsLeft;
    var n := |acts| - 1;
    assert forall i :: 0 <= i <= n ==> acts[..n][..i] == acts[..i];
    if i :| FoundLeftAt(cfg, acts, w, i) {
      assert i < n ==> FoundLeftAt(cfg, acts[..n], w, i);
    }
    if i :| FoundLeftAt(cfg, acts[..n], w, i) {
      assert FoundLeftAt(cfg, acts, w, i);
    }
    if FindsLeft(Run(cfg, acts[..n]).value, acts[n], w) {
      assert FoundLeftAt(cfg, acts, w, n);
    }
  }

  lemma {:induction false} SparedExactly(cfg: Config, acts: seq<Action>, w: Rid)
    requires Run(cfg, acts).Some?
    ensures Spared(Run(cfg, acts).value, w) <==> FoundLeft(cfg, acts, w)
    decreases |acts|
  {
    hide Next, Enabled, FoundLeft, Spared, FindsLeft;
    if acts == [] {
      NothingSpared(cfg, w);
    } else {
      var before, a := acts[..|acts| - 1], acts[|acts| - 1];
      SparedExactly(cfg, before, w);
      RunsKeepOwnership(cfg, before);
      assert CancelInv(Run(cfg, before).value);
      hide CancelInv;
      SparedStep(cfg, Run(cfg, before).value, a, w);
      FoundLeftStep(cfg, acts, w);
    }
  }

  lemma NothingSpared(cfg: Config, w: Rid)
    ensures !Spared(Init(cfg), w) && !FoundLeft(cfg, [], w)
  {}

  /**
   * Whose Response goes back to the pool, exactly: at rest, that of a caller that left has been released, once, if and
   * only if the reader found its cancelled flag set when it had read the response.
   */
  lemma LeftReleasedExactly(cfg: Config, acts: seq<Action>, w: Rid)
    requires Run(cfg, acts).Some? && AtRest(Run(cfg, acts).value) && At(Run(cfg, acts).value, w, Done(Transferred))
    ensures var s := Run(cfg, acts).value;
      s.h.releases[w] == if FoundLeft(cfg, acts, w) then 1 else 0
  {
    SparedExactly(cfg, acts, w);
    RunsKeepOwnership(cfg, acts);
    RunsAreSafe(cfg, acts);
    var s := Run(cfg, acts).value;
    hide Run, FoundLeft, Inv;
    assert LedgerInv(s);
    assert s.h.releases[w] == (if CallerReleased(s, w) then 1 else 0) + (if w in s.h.readerReleased then 1 else 0);
    ReaderRests(s);
  }

  // ---------------------------------------------------------------- leaving after the reader looked

  /** The outcome of the first read. */
  function FirstOutcome(cfg: Config): Raw {
    ParseMessage(cfg.inbound, cfg.call(0).head, cfg.call(0).env, cfg.inflate)
  }

  /** The first response read, and its caller not gone yet when the reader looks. */
  lemma JudgedFirst(cfg: Config) returns (acts: seq<Action>, s: State)
    requires Placed(FirstOutcome(cfg))
    ensures Run(cfg, acts) == Some(s)
    ensures s.reader == Judged(0, FirstOutcome(cfg), false) && s.phase == [Waiting] && s.queue == [0] && s.lock == None
    ensures s.resps == map[] && s.h.releases == multiset{}
  {
    acts, s := PipelineUse.ReadingFirst(cfg);
    assert ReadOutcome(cfg, s, 0) == FirstOutcome(cfg);
    hide ReadOutcome, FirstOutcome, Run;
    assert Suffix(s.cursor, s.cursor);
    PipelineUse.RunSnoc(cfg, acts, ReaderRead(s.cursor), s);
    acts, s := acts + [ReaderRead(s.cursor)], Next(cfg, s, ReaderRead(s.cursor));
    PipelineUse.RunSnoc(cfg, acts, ReaderJudge, s);
    acts, s := acts + [ReaderJudge], Next(cfg, s, ReaderJudge);
  }

  /** Then the caller leaves. */
  lemma LeavesAfterwards(cfg: Config) returns (acts: seq<Action>, s: State)
    requires Placed(FirstOutcome(cfg))
    ensures Run(cfg, acts) == Some(s)
    ensures s.reader == Judged(0, FirstOutcome(cfg), false) && s.phase == [Done(Transferred)] && s.queue == [0]
    ensures s.lock == None && s.resps == map[] && s.h.releases == multiset{}
  {
    hide FirstOutcome, Run;
    acts, s := JudgedFirst(cfg);
    PipelineUse.RunSnoc(cfg, acts, ContextDone(0), s);
    acts, s := acts + [ContextDone(0)], Next(cfg, s, ContextDone(0));
    PipelineUse.RunSnoc(cfg, acts, StoreCancelled(0), s);
    acts, s := acts + [StoreCancelled(0)], Next(cfg, s, StoreCancelled(0));
  }

  /**
   * A caller can leave between the reader's look at its cancelled flag and the delivery: for every first response with
   * a status there is such a run, and it leaves that response in a channel nobody reads, not released.
   */
  lemma LeftTooLate(cfg: Config) returns (acts: seq<Action>)
    requires Placed(FirstOutcome(cfg)) && HasStatus(FirstOutcome(cfg))
    ensures Run(cfg, acts).Some?
    ensures var s := Run(cfg, acts).value; At(s, 0, Done(Transferred)) && 0 in s.resps && s.h.releases[0] == 0
  {
    hide FirstOutcome, Run, HasStatus;
    var s;
    acts, s := LeavesAfterwards(cfg);
    PipelineUse.RunSnoc(cfg, acts, ReaderCount, s);
    acts, s := acts + [ReaderCount], Next(cfg, s, ReaderCount);
    PipelineUse.RunSnoc(cfg, acts, ReaderRemove, s);
    acts, s := acts + [ReaderRemove], Next(cfg, s, ReaderRemove);
    PipelineUse.RunSnoc(cfg, acts, ReaderDeliver, s);
    acts, s := acts + [ReaderDeliver], Next(cfg, s, ReaderDeliver);
  }

  predicate Stuck(s: State, w: Rid) {
    At(s, w, Done(Transferred)) && w in s.resps && w !in s.h.readerReleased
  }

  lemma StuckStep(cfg: Config, s: State, a: Action, w: Rid)
    requires HandoverInv(s) && DeliveredInv(s) && Stuck(s, w) && Enabled(s, a)
    ensures Stuck(Next(cfg, s, a), w)
  {
    if ByCaller(a) {
      CallerFrame(s, a);
    } else if ByCloser(a) {
      CloserFrame(s, a);
    } else {
      StuckReader(cfg, s, a, w);
    }
  }

  lemma StuckReader(cfg: Config, s: State, a: Action, w: Rid)
    requires HandoverInv(s) && DeliveredInv(s) && Stuck(s, w) && Enabled(s, a) && ByReader(a)
    ensures Stuck(ReaderStep(cfg, s, a), w)
  {
    hide AfterPop, Remove, ReadOutcome;
    ReaderFrame(cfg, s, a);
    ReaderHistoryFrame(cfg, s, a);
    if a.ReaderDeliver? {
      AfterPopSettles(s, s.reader.p, s.reader.o, s.reader.cancelled);
      assert InHand(s.reader, s.reader.p);
    }
  }

  /** And there it stays: in no continuation of such a run is that response taken or released. */
  lemma {:induction false} LeftForGood(cfg: Config, acts: seq<Action>, more: seq<Action>, w: Rid)
    requires Run(cfg, acts).Some? && Run(cfg, acts + more).Some?
    requires var s := Run(cfg, acts).value; At(s, w, Done(Transferred)) && w in s.resps && s.h.releases[w] == 0
    ensures var t := Run(cfg, acts + more).value;
      At(t, w, Done(Transferred)) && w in t.resps && t.h.releases[w] == 0
    decreases |more|
  {
    hide Next, Enabled;
    if more == [] {
      assert acts + more == acts;
    } else {
      var n := |more| - 1;
      var before := acts + more[..n];
      assert (acts + more)[..|acts + more| - 1] == before;
      LeftForGood(cfg, acts, more[..n], w);
      RunsKeepOwnership(cfg, before);
      RunsAreFifo(cfg, before);
      var s, t := Run(cfg, before).value, Run(cfg, acts + more).value;
      assert HandoverInv(s) && DeliveredInv(s) && LedgerInv(s);
      UnreleasedIs(s, w);
      hide HandoverInv, DeliveredInv, LedgerInv;
      StuckStep(cfg, s, more[n], w);
      RunsKeepOwnership(cfg, acts + more);
      assert LedgerInv(t);
      UnreleasedIs(t, w);
    }
  }

  lemma UnreleasedIs(s: State, w: Rid)
    requires LedgerInv(s) && At(s, w, Done(Transferred))
    ensures s.h.releases[w] == 0 <==> w !in s.h.readerReleased
  {
    assert s.h.releases[w] == (if CallerReleased(s, w) then 1 else 0) + (if w in s.h.readerReleased then 1 else 0);
  }
}

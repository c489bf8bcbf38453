/** When the reader may still be writing into a Response its caller has released. */
module PipelineUse {
  import opened Bytes
  import opened Reader
  import opened Pipeline
  import opened PipelineSafety
  import opened PipelineFifo
  import opened PipelineOwnership

  /** The caller has taken an outcome other than a transfer, or has an error to take. */
  predicate CallerDone(s: State, r: Rid) {
    r in s.errs
    || (r < |s.phase| && (s.phase[r] == Done(GotResponse) || s.phase[r] == Done(GotError) || s.phase[r].Settled?))
  }

  /** A request whose caller is done was swept, or is off the queue and out of the reader's hand. */
  ghost predicate UseInv(s: State) {
    && (forall r :: r in s.errs ==> r in s.h.wire)
    && (forall r :: r in s.h.wire && CallerDone(s, r) ==>
          r in s.h.failed || (r !in s.queue && !InHand(s.reader, r)))
  }

  lemma KeepUseCaller(s: State, a: Action)
    requires LockInv(s) && WireInv(s) && DeliveredInv(s) && HandoverInv(s) && UseInv(s) && Enabled(s, a) && ByCaller(a)
    ensures UseInv(CallerStep(s, a))
  {
    CallerFrame(s, a);
    StartReaderPhase(s, a);
    ErrorsShrink(s, a);
    if a.WriteOk? {
      assert a.w !in s.h.wire;
      assert !CallerDone(CallerStep(s, a), a.w);
      hide CallerStep;
    } else if !a.Arrive? {
      if a.w in s.h.wire && CallerDone(CallerStep(s, a), a.w) { DoneStep(s, a); }
      hide CallerStep, LockInv, WireInv, DeliveredInv, HandoverInv, Enabled;
    }
  }

  lemma ErrorsShrink(s: State, a: Action)
    requires Enabled(s, a) && ByCaller(a)
    ensures forall r :: r in CallerStep(s, a).errs ==> r in s.errs
  {}

  /** A caller that becomes done had left the queue and the reader's hand, or never was on the wire. */
  lemma DoneStep(s: State, a: Action)
    requires LockInv(s) && WireInv(s) && DeliveredInv(s) && HandoverInv(s) && Enabled(s, a) && ByCaller(a)
    requires !a.Arrive? && !a.WriteOk? && a.w in s.h.wire && CallerDone(CallerStep(s, a), a.w)
    ensures CallerDone(s, a.w) || (a.w !in s.queue && !InHand(s.reader, a.w))
  {}

  lemma KeepUseReader(cfg: Config, s: State, a: Action)
    requires HandInv(s) && UseInv(s) && Enabled(s, a) && ByReader(a)
    ensures UseInv(ReaderStep(cfg, s, a))
  {
    ReaderFrame(cfg, s, a);
    ReaderHistoryFrame(cfg, s, a);
    HandComesFromQueue(cfg, s, a);
    QueueShrinks(cfg, s, a);
    if a.ReaderLastWord? {
      assert ReaderStep(cfg, s, a) == DoLastWord(s, s.reader.p);
    }
    hide ReaderStep;
  }

  lemma KeepUseCloser(s: State, a: Action)
    requires WireInv(s) && UseInv(s) && Enabled(s, a) && ByCloser(a)
    ensures UseInv(CloserStep(s, a))
  {
    CloserFrame(s, a);
  }

  lemma StepUse(cfg: Config, s: State, a: Action)
    requires Inv(s) && FifoInv(cfg, s) && OwnInv(s) && UseInv(s) && Enabled(s, a)
    ensures UseInv(Next(cfg, s, a))
  {
    hide Enabled, CallerStep, CloserStep, ReaderStep, WireInv, LockInv, HandInv, WakeInv, CountInv, UseInv;
    hide ChainInv, PaceInv, ResultInv, DeliveredInv, MatchInv;
    hide SettleInv, CancelInv, HandoverInv, ReaderReleaseInv, LedgerInv;
    if ByCaller(a) {
      KeepUseCaller(s, a);
    } else if ByCloser(a) {
      KeepUseCloser(s, a);
    } else {
      KeepUseReader(cfg, s, a);
    }
  }

  lemma InitUse(cfg: Config)
    ensures UseInv(Init(cfg))
  {}

  lemma {:induction false} RunsKeepUse(cfg: Config, acts: seq<Action>)
    requires Run(cfg, acts).Some?
    ensures UseInv(Run(cfg, acts).value)
    decreases |acts|
  {
    hide Next, Enabled, OwnInv, Inv, FifoInv, Init, UseInv;
    if acts == [] {
      InitUse(cfg);
    } else {
      var before := acts[..|acts| - 1];
      RunsKeepUse(cfg, before);
      RunsAreSafe(cfg, before);
      RunsAreFifo(cfg, before);
      RunsKeepOwnership(cfg, before);
      StepUse(cfg, Run(cfg, before).value, acts[|acts| - 1]);
    }
  }

  /**
   * The reader works on a Response that has been released exactly when closeConn swept the request out of the queue
   * while the reader held it, and its caller has taken that error and released.
   */
  lemma UseAfterReleaseExactly(cfg: Config, acts: seq<Action>, w: Rid)
    requires Run(cfg, acts).Some? && InHand(Run(cfg, acts).value.reader, w)
    ensures var s := Run(cfg, acts).value;
      s.h.releases[w] > 0 <==> w in s.h.failed && At(s, w, Settled(Released))
  {
    RunsKeepUse(cfg, acts);
    RunsKeepOwnership(cfg, acts);
    RunsAreSafe(cfg, acts);
    var s := Run(cfg, acts).value;
    hide Run;
    assert s.h.releases[w] == (if CallerReleased(s, w) then 1 else 0) + (if w in s.h.readerReleased then 1 else 0);
    assert w in s.h.wire;
  }

  lemma RunSnoc(cfg: Config, acts: seq<Action>, a: Action, s: State)
    requires Run(cfg, acts) == Some(s) && Enabled(s, a)
    ensures Run(cfg, acts + [a]) == Some(Next(cfg, s, a))
  {
    assert (acts + [a])[..|acts|] == acts;
  }

  /** Nothing read, delivered or cancelled so far, and one request written. */
  predicate Untouched(cfg: Config, s: State) {
    && s.h.wire == [0] && s.cursor == cfg.inbound && s.cancelled == {} && s.resps == map[] && s.h.delivered == map[]
  }

  /** The first request written and queued. */
  lemma WrittenFirst(cfg: Config) returns (acts: seq<Action>, s: State)
    ensures Run(cfg, acts) == Some(s)
    ensures s.reader == Starting && s.phase == [Appended] && s.queue == [0] && s.stage == 0 && s.lock == None
    ensures s.errs == {} && s.h.releases == multiset{} && Untouched(cfg, s)
  {
    hide ParseMessage, Run;
    assert Run(cfg, []) == Some(Init(cfg)) by { RunEmpty(cfg); }
    acts, s := [], Init(cfg);
    RunSnoc(cfg, acts, Arrive, s);
    acts, s := acts + [Arrive], Next(cfg, s, Arrive);
    RunSnoc(cfg, acts, Lock(0), s);
    acts, s := acts + [Lock(0)], Next(cfg, s, Lock(0));
    RunSnoc(cfg, acts, StartReader(0), s);
    acts, s := acts + [StartReader(0)], Next(cfg, s, StartReader(0));
    RunSnoc(cfg, acts, WriteOk(0), s);
    acts, s := acts + [WriteOk(0)], Next(cfg, s, WriteOk(0));
  }

  /** The first request signalled to a reader that is up. */
  lemma SignalledFirst(cfg: Config) returns (acts: seq<Action>, s: State)
    ensures Run(cfg, acts) == Some(s)
    ensures s.reader == Parked && s.token && s.phase == [Waiting] && s.queue == [0] && s.stage == 0 && s.lock == None
    ensures s.errs == {} && s.h.releases == multiset{} && Untouched(cfg, s)
  {
    hide ParseMessage, Run;
    acts, s := WrittenFirst(cfg);
    RunSnoc(cfg, acts, Signal(0), s);
    acts, s := acts + [Signal(0)], Next(cfg, s, Signal(0));
    RunSnoc(cfg, acts, ReaderStart, s);
    acts, s := acts + [ReaderStart], Next(cfg, s, ReaderStart);
  }

  /** The first request picked up by the reader and being read. */
  lemma ReadingFirst(cfg: Config) returns (acts: seq<Action>, s: State)
    ensures Run(cfg, acts) == Some(s)
    ensures s.reader == Parsing(0) && s.phase == [Waiting] && s.queue == [0] && s.stage == 0 && s.lock == None
    ensures s.errs == {} && s.h.releases == multiset{} && Untouched(cfg, s)
  {
    hide ParseMessage, Run;
    acts, s := SignalledFirst(cfg);
    RunSnoc(cfg, acts, ReaderWake, s);
    acts, s := acts + [ReaderWake], Next(cfg, s, ReaderWake);
    RunSnoc(cfg, acts, ReaderLook, s);
    acts, s := acts + [ReaderLook], Next(cfg, s, ReaderLook);
    RunSnoc(cfg, acts, ReaderCheck, s);
    acts, s := acts + [ReaderCheck], Next(cfg, s, ReaderCheck);
  }

  lemma RunEmpty(cfg: Config)
    ensures Run(cfg, []) == Some(Init(cfg))
  {}

  /** After the sweep it can: the caller takes closeConn's error and releases while the read is still going on. */
  lemma ReleasedWhileRead(cfg: Config) returns (acts: seq<Action>)
    ensures Run(cfg, acts).Some?
    ensures var s := Run(cfg, acts).value; s.reader == Parsing(0) && s.h.releases[0] == 1
  {
    hide ParseMessage, Run;
    var s;
    acts, s := ReadingFirst(cfg);
    RunSnoc(cfg, acts, CallClose, s);
    acts, s := acts + [CallClose], Next(cfg, s, CallClose);
    RunSnoc(cfg, acts, DropSocket, s);
    acts, s := acts + [DropSocket], Next(cfg, s, DropSocket);
    RunSnoc(cfg, acts, Sweep, s);
    acts, s := acts + [Sweep], Next(cfg, s, Sweep);
    RunSnoc(cfg, acts, TakeError(0), s);
    acts, s := acts + [TakeError(0)], Next(cfg, s, TakeError(0));
    RunSnoc(cfg, acts, Release(0), s);
    acts, s := acts + [Release(0)], Next(cfg, s, Release(0));
  }
}

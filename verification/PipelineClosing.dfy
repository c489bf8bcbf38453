/** What closes a pipelined connection, and what happens on it after that. */
module PipelineClosing {
  import opened Bytes
  import opened Headers
  import opened Reader
  import opened Pipeline
  import opened PipelineSafety
  import opened PipelineFifo
  import opened PipelineProgress

  // ---------------------------------------------------------------- Connection: close

  /** The response carries the header Connection: close, in any letter case. */
  predicate LastResponse(o: Raw) {
    exists i :: 0 <= i < |o.headers|
      && EqualFold(o.headers[i].key, [67, 111, 110, 110, 101, 99, 116, 105, 111, 110])
      && EqualFold(o.headers[i].value, [99, 108, 111, 115, 101])
  }

  lemma CloseNames()
    ensures Ascii("Connection") == [67, 111, 110, 110, 101, 99, 116, 105, 111, 110]
    ensures Ascii("close") == [99, 108, 111, 115, 101]
  {}

  lemma LastIsAskedFor(o: Raw)
    ensures LastResponse(o) <==> AsksToClose(o.headers)
  {
    CloseNames();
    hide EqualFold, Ascii;
    if AsksToClose(o.headers) {
      var i :| 0 <= i < |o.headers| && SaysClose(o.headers[i]);
      assert EqualFold(o.headers[i].key, [67, 111, 110, 110, 101, 99, 116, 105, 111, 110]);
    }
    if LastResponse(o) {
      var i :| 0 <= i < |o.headers|
        && EqualFold(o.headers[i].key, [67, 111, 110, 110, 101, 99, 116, 105, 111, 110])
        && EqualFold(o.headers[i].value, [99, 108, 111, 115, 101]);
      assert SaysClose(o.headers[i]);
    }
  }

  lemma LetGoEnds(s: State, p: Rid, o: Raw, cancelled: bool)
    ensures Doomed(AfterPop(s, p, o, cancelled).reader) <==> !HasStatus(o) || LastResponse(o)
    ensures Doomed(AfterPop(s, p, o, cancelled).reader) ==>
      AfterPop(s, p, o, cancelled).reader.Quitting? || AfterPop(s, p, o, cancelled).stage >= 1
    ensures !Doomed(AfterPop(s, p, o, cancelled).reader) ==> AfterPop(s, p, o, cancelled).stage == s.stage
  {
    LastIsAskedFor(o);
    hide LastResponse, AsksToClose;
  }

  /**
   * The reader lets go of a request for the last time exactly when it got no status, or a response with
   * Connection: close; then nothing more is read or delivered, whatever happens next, and otherwise it goes on.
   */
  lemma CloseHeaderEnds(cfg: Config, acts: seq<Action>, more: seq<Action>)
    requires Run(cfg, acts).Some? && Run(cfg, acts).value.reader.Popped?
    requires Run(cfg, acts + [ReaderDeliver] + more).Some? && Run(cfg, acts + [ReaderDeliver]).Some?
    ensures var o, s := Run(cfg, acts).value.reader.o, Run(cfg, acts + [ReaderDeliver]).value;
      var t := Run(cfg, acts + [ReaderDeliver] + more).value;
      && (!HasStatus(o) || LastResponse(o) ==>
            Doomed(t.reader) && t.h.parsed == s.h.parsed && t.h.delivered == s.h.delivered)
      && (HasStatus(o) && !LastResponse(o) ==> s.reader.Looking?)
  {
    var s, r := Run(cfg, acts).value, Run(cfg, acts).value.reader;
    assert (acts + [ReaderDeliver])[..|acts|] == acts;
    assert Run(cfg, acts + [ReaderDeliver]).value == AfterPop(s, r.p, r.o, r.cancelled);
    LetGoEnds(s, r.p, r.o, r.cancelled);
    AfterPopHand(s, r.p, r.o, r.cancelled);
    hide Run, AfterPop, LastResponse;
    if !HasStatus(r.o) || LastResponse(r.o) { DoomedStays(cfg, acts + [ReaderDeliver], more); }
  }

  // ---------------------------------------------------------------- every reason to close

  /** The step gives a reason to close: a call from outside, a failed write, or the end of the reader's work. */
  predicate Ends(s: State, a: Action) {
    || a.CallClose? || a.WriteFail?
    || (a.ReaderDeliver? && s.reader.Popped? && (!HasStatus(s.reader.o) || LastResponse(s.reader.o)))
  }

  ghost predicate EndsAt(cfg: Config, acts: seq<Action>, i: nat) {
    i < |acts| && Run(cfg, acts[..i]).Some? && Ends(Run(cfg, acts[..i]).value, acts[i])
  }

  ghost predicate Ended(cfg: Config, acts: seq<Action>) { exists i: nat :: EndsAt(cfg, acts, i) }

  /** closeConn has begun, or a goroutine is about to call it. */
  ghost predicate CloseDue(s: State) {
    || s.stage >= 1 || s.reader.Quitting? || s.reader.LastWord?
    || exists w :: 0 <= w < |s.phase| && s.phase[w].WriteFailed?
  }

  lemma CloseDueCaller(s: State, a: Action)
    requires Enabled(s, a) && ByCaller(a)
    ensures CloseDue(CallerStep(s, a)) <==> CloseDue(s) || a.WriteFail?
  {
    var t := CallerStep(s, a);
    CallerFrame(s, a);
    StartReaderPhase(s, a);
    if a.WriteFail? { assert t.phase[a.w].WriteFailed?; }
    if a.CloseAfterWrite? { assert s.phase[a.w].WriteFailed? && t.stage >= 1; }
    if w :| 0 <= w < |s.phase| && s.phase[w].WriteFailed? {
      assert t.stage >= 1 || t.phase[w].WriteFailed?;
    }
  }

  lemma CloseDueReader(cfg: Config, s: State, a: Action)
    requires WakeInv(s) && Enabled(s, a) && ByReader(a)
    ensures CloseDue(ReaderStep(cfg, s, a)) <==> CloseDue(s) || Ends(s, a)
  {
    hide AfterPop, Remove, ReadOutcome, LastResponse;
    ReaderFrame(cfg, s, a);
    if a.ReaderDeliver? {
      LetGoEnds(s, s.reader.p, s.reader.o, s.reader.cancelled);
      AfterPopHand(s, s.reader.p, s.reader.o, s.reader.cancelled);
    }
  }

  lemma CloseDueStep(cfg: Config, s: State, a: Action)
    requires WakeInv(s) && Enabled(s, a)
    ensures CloseDue(Next(cfg, s, a)) <==> CloseDue(s) || Ends(s, a)
  {
    hide CallerStep, ReaderStep, CloseDue, WakeInv;
    if ByCaller(a) {
      CloseDueCaller(s, a);
    } else if ByCloser(a) {
      CloseDueCloser(s, a);
    } else {
      CloseDueReader(cfg, s, a);
    }
  }

  lemma CloseDueCloser(s: State, a: Action)
    requires Enabled(s, a) && ByCloser(a)
    ensures CloseDue(CloserStep(s, a)) <==> CloseDue(s) || a.CallClose?
  {}

  lemma EndsAtPrefix(cfg: Config, acts: seq<Action>, i: nat)
    requires i < |acts| - 1
    ensures EndsAt(cfg, acts, i) <==> EndsAt(cfg, acts[..|acts| - 1], i)
  {
    hide Run, Ends;
    assert acts[..|acts| - 1][..i] == acts[..i];
  }

  lemma EndedStep(cfg: Config, acts: seq<Action>)
    requires acts != [] && Run(cfg, acts).Some?
    ensures var n := |acts| - 1;
      Ended(cfg, acts) <==> Ended(cfg, acts[..n]) || Ends(Run(cfg, acts[..n]).value, acts[n])
  {
    var n := |acts| - 1;
    assert EndsAt(cfg, acts, n) <==> Ends(Run(cfg, acts[..n]).value, acts[n]);
    hide Run, Ends;
    if i: nat :| EndsAt(cfg, acts, i) {
      if i < n { EndsAtPrefix(cfg, acts, i); }
    }
    if i: nat :| EndsAt(cfg, acts[..n], i) { EndsAtPrefix(cfg, acts, i); }
  }

  lemma {:induction false} RunsCloseDue(cfg: Config, acts: seq<Action>)
    requires Run(cfg, acts).Some?
    ensures CloseDue(Run(cfg, acts).value) <==> Ended(cfg, acts)
    decreases |acts|
  {
    if acts != [] {
      hide Next, Enabled, CloseDue, Ended, Ends;
      var before := acts[..|acts| - 1];
      RunsCloseDue(cfg, before);
      RunsAreSafe(cfg, before);
      EndedStep(cfg, acts);
      CloseDueStep(cfg, Run(cfg, before).value, acts[|acts| - 1]);
    }
  }

  /** No goroutine can take a step by itself. */
  ghost predicate AtRest(s: State) { forall a :: Driven(a) ==> !Enabled(s, a) }

  lemma ReaderRests(s: State)
    requires Inv(s) && AtRest(s)
    ensures s.lock == None
    ensures s.reader.NoReader? || s.reader.Exited? || (s.reader.Parked? && s.stage != 4)
  {
    if s.lock.Some? {
      var w := s.lock.value;
      assert Driven(StartReader(w)) && Driven(WriteOk(w));
    }
    assert Driven(ReaderMove(s)) && Driven(ReaderStop);
  }

  lemma RestIsOpenOrClosed(s: State)
    requires Inv(s) && AtRest(s)
    ensures s.stage == 0 || s.stage == 4
    ensures CloseDue(s) ==> s.stage == 4
    ensures s.reader.NoReader? || s.reader.Exited? || (s.reader.Parked? && s.stage == 0)
  {
    ReaderRests(s);
    assert Driven(DropSocket) && Driven(Sweep) && Driven(CloseStop) && Driven(ReaderQuit) && Driven(ReaderLastWord);
    if w :| 0 <= w < |s.phase| && s.phase[w].WriteFailed? { assert Driven(CloseAfterWrite(w)); }
  }

  /**
   * What closes a connection, exactly: at rest, closeConn has run to its end if and only if it was called from outside,
   * a write failed, or the reader met a response without a status or with Connection: close, and then the reader has
   * ended. Otherwise the connection is still open and the reader waits for the next request.
   */
  lemma ClosedExactly(cfg: Config, acts: seq<Action>)
    requires Run(cfg, acts).Some? && AtRest(Run(cfg, acts).value)
    ensures var s := Run(cfg, acts).value;
      && (Ended(cfg, acts) ==> s.stage == 4 && (s.reader.NoReader? || s.reader.Exited?))
      && (!Ended(cfg, acts) ==> s.stage == 0 && (s.reader.NoReader? || s.reader.Parked?))
  {
    RunsAreSafe(cfg, acts);
    RunsCloseDue(cfg, acts);
    var s := Run(cfg, acts).value;
    assert WakeInv(s);
    hide Run, Ended, AtRest, Inv;
    RestIsOpenOrClosed(s);
  }

  // ---------------------------------------------------------------- reads once it is closing

  function Readings(acts: seq<Action>): nat {
    if acts == [] then 0
    else Readings(acts[..|acts| - 1]) + if PipelineFifo.Reads(acts[|acts| - 1]) then 1 else 0
  }

  lemma ClosingStep(cfg: Config, s: State, a: Action)
    requires Enabled(s, a) && s.stage >= 1
    ensures Next(cfg, s, a).stage >= 1
    ensures Next(cfg, s, a).reader.Parsing? ==> s.reader.Parsing? && !PipelineFifo.Reads(a)
    ensures PipelineFifo.Reads(a) ==> s.reader.Parsing?
  {
    hide AfterPop, Remove, ReadOutcome;
    if ByCaller(a) {
      CallerFrame(s, a);
      StartReaderPhase(s, a);
      hide CallerStep;
    } else if ByCloser(a) {
      CloserFrame(s, a);
    } else {
      ReaderFrame(cfg, s, a);
      if a.ReaderDeliver? { AfterPopHand(s, s.reader.p, s.reader.o, s.reader.cancelled); }
    }
  }

  predicate Written(a: Action) { a.WriteOk? || a.WriteFail? }

  function Writings(acts: seq<Action>): nat {
    if acts == [] then 0 else Writings(acts[..|acts| - 1]) + if Written(acts[|acts| - 1]) then 1 else 0
  }

  lemma ClosingWrites(cfg: Config, s: State, a: Action)
    requires LockInv(s) && Enabled(s, a) && s.stage >= 1
    ensures Next(cfg, s, a).stage >= 1
    ensures Next(cfg, s, a).lock.Some? ==> s.lock.Some? && !Written(a)
    ensures Written(a) ==> s.lock.Some?
  {
    hide ReaderStep;
    if ByCaller(a) {
    } else if ByCloser(a) {
      CloserFrame(s, a);
    } else {
      ReaderFrame(cfg, s, a);
    }
  }

  /** Once closeConn has begun, no write begins: at most the one under way ends. */
  lemma {:induction false} NoWriteBegins(cfg: Config, acts: seq<Action>, more: seq<Action>)
    requires Run(cfg, acts).Some? && Run(cfg, acts).value.stage >= 1 && Run(cfg, acts + more).Some?
    ensures var s, t := Run(cfg, acts).value, Run(cfg, acts + more).value;
      && t.stage >= 1
      && Writings(more) + (if t.lock.Some? then 1 else 0) <= if s.lock.Some? then 1 else 0
    decreases |more|
  {
    hide Next, Enabled;
    if more == [] {
      assert acts + more == acts;
    } else {
      var n := |more| - 1;
      assert (acts + more)[..|acts + more| - 1] == acts + more[..n];
      NoWriteBegins(cfg, acts, more[..n]);
      RunsAreSafe(cfg, acts + more[..n]);
      ClosingWrites(cfg, Run(cfg, acts + more[..n]).value, more[n]);
    }
  }

  /** Once closeConn has begun, no read begins: at most the one under way ends. */
  lemma {:induction false} NoReadBegins(cfg: Config, acts: seq<Action>, more: seq<Action>)
    requires Run(cfg, acts).Some? && Run(cfg, acts).value.stage >= 1 && Run(cfg, acts + more).Some?
    ensures var s, t := Run(cfg, acts).value, Run(cfg, acts + more).value;
      && t.stage >= 1
      && Readings(more) + (if t.reader.Parsing? then 1 else 0) <= if s.reader.Parsing? then 1 else 0
    decreases |more|
  {
    hide Next, Enabled;
    if more == [] {
      assert acts + more == acts;
    } else {
      var n := |more| - 1;
      assert (acts + more)[..|acts + more| - 1] == acts + more[..n];
      NoReadBegins(cfg, acts, more[..n]);
      ClosingStep(cfg, Run(cfg, acts + more[..n]).value, more[n]);
    }
  }

  /** Whether a reader with no socket to read from has gone, or is about to. */
  predicate WithoutSocket(s: State) { s.stage >= 2 && (s.reader.Starting? || s.reader.Exited?) }

  lemma LateStep(cfg: Config, s: State, a: Action)
    requires Enabled(s, a) && WithoutSocket(s)
    ensures WithoutSocket(Next(cfg, s, a))
    ensures s.token ==> Next(cfg, s, a).token
  {
    hide AfterPop, Remove, ReadOutcome;
    if ByCaller(a) {
      CallerFrame(s, a);
      StartReaderPhase(s, a);
    }
  }

  /** A reader that finds the socket gone when it starts leaves: it never waits, reads or takes the wake-up token. */
  lemma {:induction false} LateReaderLeaves(cfg: Config, acts: seq<Action>, more: seq<Action>)
    requires Run(cfg, acts).Some? && Run(cfg, acts + more).Some?
    requires Run(cfg, acts).value.stage >= 2 && Run(cfg, acts).value.reader.Starting?
    ensures var s, t := Run(cfg, acts).value, Run(cfg, acts + more).value;
      t.stage >= 2 && (t.reader.Starting? || t.reader.Exited?) && (s.token ==> t.token)
    decreases |more|
  {
    hide Next, Enabled;
    if more == [] {
      assert acts + more == acts;
    } else {
      var n := |more| - 1;
      assert (acts + more)[..|acts + more| - 1] == acts + more[..n];
      LateReaderLeaves(cfg, acts, more[..n]);
      LateStep(cfg, Run(cfg, acts + more[..n]).value, more[n]);
    }
  }
}

/**
 * One epoch of a pipelined connection (one connect up to its closeConn) as a state machine over atomic steps:
 * callers of doPipelined, the ResponseReader goroutine, closeConn, and the retry loop's treatment of the result.
 * The steps of different goroutines interleave arbitrarily.
 */
module Pipeline {
  import opened Bytes
  import opened Headers
  import opened Reader
  import opened Messages

  /** A request: one attempt of DoWithContext with the Response acquired for it. */
  type Rid = nat

  datatype Result = GotResponse | GotError | Transferred

  datatype Fate = Returned | Released

  /** Where the goroutine that called doPipelined is. */
  datatype Phase =
    | Fresh                  // before pendingMu
    | Locked                 // holds pendingMu, saw closing == 0
    | Writing                // holds pendingMu, counted in activeReqs, reader started, writing
    | WriteFailed            // released pendingMu after a write error, about to call closeConn
    | Appended               // written and queued, about to signal
    | Waiting                // in the final select
    | Cancelling             // context fired, releaseFn stored, cancelled not yet
    | Done(result: Result)   // returned to DoWithContext
    | Settled(fate: Fate)    // DoWithContext gave the response to the caller, or released it

  /** Where ResponseReader.run is; `p` is the pending request it works on. */
  datatype ReaderPhase =
    | NoReader
    | Starting
    | Parked                                          // outer select
    | Looking                                         // about to look at the queue
    | Holding(p: Rid)                                 // took the head, about to check closing
    | Parsing(p: Rid)                                 // reading the response
    | Parsed(p: Rid, o: Raw)                          // about to load cancelled
    | Judged(p: Rid, o: Raw, cancelled: bool)         // about to decrement activeReqs
    | Counted(p: Rid, o: Raw, cancelled: bool)        // about to removePending
    | Popped(p: Rid, o: Raw, cancelled: bool)         // about to deliver or release
    | LastWord(p: Rid)                                // called closeConn, about to send p its error
    | Quitting                                        // about to call closeConn and return
    | Exited

  datatype Parse = Parse(rid: Rid, o: Raw)

  /** What happened so far; no step looks at it. */
  datatype History = History(
    wire: seq<Rid>,              // requests in the order they were written
    served: seq<Rid>,            // requests removed from the queue by the reader, in order
    failed: seq<Rid>,            // requests swept by closeConn
    clean: bool,                 // no read that reported a status ended at an unknown place
    parsed: seq<Parse>,          // the reads while clean that ended at a known place, failed ones included
    delivered: map<Rid, Raw>,    // responses the reader put into a response channel
    readerReleased: set<Rid>,    // responses the reader released
    releases: multiset<Rid>)     // all releases, by either side

  datatype State = State(
    stage: nat,                  // closeConn: 0 open, 1 closing set, 2 socket dropped, 3 queue swept, 4 stopChan closed
    lock: Option<Rid>,           // pendingMu, when held across a write
    phase: seq<Phase>,
    queue: seq<Rid>,             // pendingReqs
    token: bool,                 // pendingSignal holds its one token
    reader: ReaderPhase,
    cancelled: set<Rid>,
    releaseFns: set<Rid>,
    resps: map<Rid, Raw>,        // response channels that hold a response
    errs: set<Rid>,              // error channels that hold an error
    active: int,                 // activeReqs
    carried: int,                // what activeReqs held when the epoch began
    cursor: bytes,               // what the buffered reader has not consumed yet
    h: History)

  /**
   * The bytes the peer sends in this epoch, each request's method and buffers, and what the epoch before left behind:
   * a signal token and a value of activeReqs.
   */
  datatype Config = Config(inbound: bytes, call: Rid -> Call, inflate: Inflate, token: bool, carried: int)

  function Init(cfg: Config): State {
    State(0, None, [], [], cfg.token, NoReader, {}, {}, map[], {}, cfg.carried, cfg.carried, cfg.inbound,
          History([], [], [], true, [], map[], {}, multiset{}))
  }

  datatype Action =
    | Arrive
    | EarlyFail(w: Rid) | Lock(w: Rid) | StartReader(w: Rid) | WriteOk(w: Rid) | WriteFail(w: Rid)
    | CloseAfterWrite(w: Rid) | Signal(w: Rid) | TakeResponse(w: Rid) | TakeError(w: Rid)
    | ContextDone(w: Rid) | StoreCancelled(w: Rid)
    | Return(w: Rid) | Release(w: Rid)
    | CallClose | DropSocket | Sweep | CloseStop
    | ReaderStart | ReaderWake | ReaderStop | ReaderLook | ReaderCheck
    | ReaderRead(after: bytes) | ReaderTimeout(o: Raw)
    | ReaderJudge | ReaderCount | ReaderRemove | ReaderDeliver | ReaderLastWord | ReaderQuit

  predicate At(s: State, w: Rid, p: Phase) { w < |s.phase| && s.phase[w] == p }

  predicate Suffix(a: bytes, s: bytes) { |a| <= |s| && a == s[|s| - |a|..] }

  predicate Enabled(s: State, a: Action) {
    match a
    case Arrive => true
    case EarlyFail(w) => At(s, w, Fresh)
    case Lock(w) => At(s, w, Fresh) && s.lock == None && s.stage == 0
    case StartReader(w) => At(s, w, Locked)
    case WriteOk(w) => At(s, w, Writing)
    case WriteFail(w) => At(s, w, Writing)
    case CloseAfterWrite(w) => At(s, w, WriteFailed)
    case Signal(w) => At(s, w, Appended)
    case TakeResponse(w) => At(s, w, Waiting) && w in s.resps
    case TakeError(w) => At(s, w, Waiting) && w in s.errs
    case ContextDone(w) => At(s, w, Waiting)
    case StoreCancelled(w) => At(s, w, Cancelling)
    case Return(w) => At(s, w, Done(GotResponse))
    case Release(w) => At(s, w, Done(GotResponse)) || At(s, w, Done(GotError))
    case CallClose => true
    case DropSocket => s.stage == 1
    case Sweep => s.stage == 2 && s.lock == None
    case CloseStop => s.stage == 3
    case ReaderStart => s.reader.Starting?
    case ReaderWake => s.reader.Parked? && s.token
    case ReaderStop => s.reader.Parked? && s.stage == 4
    case ReaderLook => s.reader.Looking? && s.lock == None
    case ReaderCheck => s.reader.Holding?
    case ReaderRead(after) => s.reader.Parsing? && Suffix(after, s.cursor)
    case ReaderTimeout(o) => s.reader.Parsing? && o.Broken? && Suffix(o.rest, s.cursor)
    case ReaderJudge => s.reader.Parsed?
    case ReaderCount => s.reader.Judged?
    case ReaderRemove => s.reader.Counted? && s.lock == None
    case ReaderDeliver => s.reader.Popped?
    case ReaderLastWord => s.reader.LastWord?
    case ReaderQuit => s.reader.Quitting?
  }

  // ---------------------------------------------------------------- steps of a caller

  function Move(s: State, w: Rid, p: Phase): State
    requires w < |s.phase|
  {
    s.(phase := s.phase[w := p])
  }

  /** closeConn's compare-and-swap; the rest of closeConn follows as steps of its own. */
  function Close(s: State): State { if s.stage == 0 then s.(stage := 1) else s }

  function DoLock(s: State, w: Rid): State
    requires w < |s.phase|
  {
    s.(phase := s.phase[w := Locked], lock := Some(w))
  }

  /** Starts the reader if there is none yet, and counts the request. */
  function DoStartReader(s: State, w: Rid): State
    requires w < |s.phase|
  {
    s.(phase := s.phase[w := Writing], active := s.active + 1,
       reader := if s.reader.NoReader? && s.stage == 0 then Starting else s.reader)
  }

  function DoWriteOk(s: State, w: Rid): State
    requires w < |s.phase|
  {
    s.(phase := s.phase[w := Appended], lock := None, queue := s.queue + [w], h := s.h.(wire := s.h.wire + [w]))
  }

  function DoWriteFail(s: State, w: Rid): State
    requires w < |s.phase|
  {
    s.(phase := s.phase[w := WriteFailed], lock := None, active := s.active - 1)
  }

  function DoSignal(s: State, w: Rid): State
    requires w < |s.phase|
  {
    s.(phase := s.phase[w := Waiting], token := true)
  }

  function DoTakeResponse(s: State, w: Rid): State
    requires w < |s.phase|
  {
    s.(phase := s.phase[w := Done(GotResponse)], resps := s.resps - {w})
  }

  function DoTakeError(s: State, w: Rid): State
    requires w < |s.phase|
  {
    s.(phase := s.phase[w := Done(GotError)], errs := s.errs - {w})
  }

  function DoContextDone(s: State, w: Rid): State
    requires w < |s.phase|
  {
    s.(phase := s.phase[w := Cancelling], releaseFns := s.releaseFns + {w})
  }

  function DoStoreCancelled(s: State, w: Rid): State
    requires w < |s.phase|
  {
    s.(phase := s.phase[w := Done(Transferred)], cancelled := s.cancelled + {w})
  }

  function DoRelease(s: State, w: Rid): State
    requires w < |s.phase|
  {
    s.(phase := s.phase[w := Settled(Released)], h := s.h.(releases := s.h.releases + multiset{w}))
  }

  function CallerStep(s: State, a: Action): State
    requires Enabled(s, a)
  {
    match a
    case Arrive => s.(phase := s.phase + [Fresh])
    case EarlyFail(w) => Move(s, w, Done(GotError))
    case Lock(w) => DoLock(s, w)
    case StartReader(w) => DoStartReader(s, w)
    case WriteOk(w) => DoWriteOk(s, w)
    case WriteFail(w) => DoWriteFail(s, w)
    case CloseAfterWrite(w) => Close(Move(s, w, Done(GotError)))
    case Signal(w) => DoSignal(s, w)
    case TakeResponse(w) => DoTakeResponse(s, w)
    case TakeError(w) => DoTakeError(s, w)
    case ContextDone(w) => DoContextDone(s, w)
    case StoreCancelled(w) => DoStoreCancelled(s, w)
    case Return(w) => Move(s, w, Settled(Returned))
    case Release(w) => DoRelease(s, w)
    case _ => s
  }

  // ---------------------------------------------------------------- steps of closeConn

  function DoSweep(s: State): State {
    s.(stage := 3, errs := s.errs + (set p | p in s.queue), h := s.h.(failed := s.queue), queue := [])
  }

  function CloserStep(s: State, a: Action): State {
    match a
    case CallClose => Close(s)
    case DropSocket => s.(stage := 2)
    case Sweep => DoSweep(s)
    case CloseStop => s.(stage := 4)
    case _ => s
  }

  // ---------------------------------------------------------------- steps of the reader

  function ReaderAt(s: State, r: ReaderPhase): State { s.(reader := r) }

  /** The outcome of readResponseBuffered on the current stream. */
  function ReadOutcome(cfg: Config, s: State, p: Rid): Raw {
    ParseMessage(s.cursor, cfg.call(p).head, cfg.call(p).env, cfg.inflate)
  }

  /**
   * A read that ended with outcome o; `known` says that it ended where the description of a read puts it. One that
   * reports no status is the last of the connection, so its end does not matter.
   */
  function DoRead(s: State, p: Rid, o: Raw, known: bool): State {
    s.(reader := Parsed(p, o), cursor := o.rest,
       h := s.h.(clean := s.h.clean && (known || !HasStatus(o)),
                 parsed := if s.h.clean && known then s.h.parsed + [Parse(p, o)] else s.h.parsed))
  }

  /** The read as described; only the end of a body without framing is up to the environment. */
  function DoReadOn(s: State, p: Rid, o: Raw, after: bytes): State {
    if Placed(o) then DoRead(s, p, o, true) else DoRead(s, p, WithRest(o, after), false)
  }

  function DoCount(s: State, p: Rid, o: Raw, cancelled: bool): State {
    s.(reader := Counted(p, o, cancelled), active := s.active - 1)
  }

  /** removePending: drops the first occurrence of p, if any. */
  function Remove(q: seq<Rid>, p: Rid): seq<Rid> {
    if q == [] then [] else if q[0] == p then q[1..] else [q[0]] + Remove(q[1..], p)
  }

  function DoRemove(s: State, p: Rid, o: Raw, cancelled: bool): State {
    s.(reader := Popped(p, o, cancelled), queue := Remove(s.queue, p),
       h := s.h.(served := if p in s.queue then s.h.served + [p] else s.h.served))
  }

  /** releaseFn(resp), for a request whose caller left. */
  function DoReaderRelease(s: State, p: Rid, next: ReaderPhase): State {
    if p in s.releaseFns then
      s.(reader := next,
         h := s.h.(releases := s.h.releases + multiset{p}, readerReleased := s.h.readerReleased + {p}))
    else s.(reader := next)
  }

  /** The non-blocking send into the response channel. */
  function DoDeliver(s: State, p: Rid, o: Raw, next: ReaderPhase): State {
    if p in s.resps then s.(reader := next)
    else s.(reader := next, resps := s.resps[p := o], h := s.h.(delivered := s.h.delivered[p := o]))
  }

  /** How the reader lets go of a request, and whether it goes on: not without a status, nor after Connection: close. */
  function AfterPop(s: State, p: Rid, o: Raw, cancelled: bool): State {
    var next := if HasStatus(o) && !AsksToClose(o.headers) then Looking else Quitting;
    if cancelled then DoReaderRelease(s, p, next)
    else if HasStatus(o) then DoDeliver(s, p, o, next)
    else ReaderAt(Close(s), LastWord(p))
  }

  function DoLastWord(s: State, p: Rid): State { s.(reader := Exited, errs := s.errs + {p}) }

  function ReaderStep(cfg: Config, s: State, a: Action): State
    requires Enabled(s, a)
  {
    match a
    case ReaderStart => ReaderAt(s, if s.stage < 2 then Parked else Exited)
    case ReaderWake => s.(reader := Looking, token := false)
    case ReaderStop => ReaderAt(s, Exited)
    case ReaderLook => ReaderAt(s, if s.queue == [] then Parked else Holding(s.queue[0]))
    case ReaderCheck => ReaderAt(s, if s.stage > 0 then Exited else Parsing(s.reader.p))
    case ReaderRead(after) => DoReadOn(s, s.reader.p, ReadOutcome(cfg, s, s.reader.p), after)
    case ReaderTimeout(o) => DoRead(s, s.reader.p, o, false)
    case ReaderJudge => ReaderAt(s, Judged(s.reader.p, s.reader.o, s.reader.p in s.cancelled))
    case ReaderCount => DoCount(s, s.reader.p, s.reader.o, s.reader.cancelled)
    case ReaderRemove => DoRemove(s, s.reader.p, s.reader.o, s.reader.cancelled)
    case ReaderDeliver => AfterPop(s, s.reader.p, s.reader.o, s.reader.cancelled)
    case ReaderLastWord => DoLastWord(s, s.reader.p)
    case ReaderQuit => ReaderAt(Close(s), Exited)
    case _ => s
  }

  // ---------------------------------------------------------------- runs

  predicate ByCaller(a: Action) {
    a.Arrive? || a.EarlyFail? || a.Lock? || a.StartReader? || a.WriteOk? || a.WriteFail? || a.CloseAfterWrite?
    || a.Signal? || a.TakeResponse? || a.TakeError? || a.ContextDone? || a.StoreCancelled? || a.Return? || a.Release?
  }

  predicate ByCloser(a: Action) { a.CallClose? || a.DropSocket? || a.Sweep? || a.CloseStop? }

  function Next(cfg: Config, s: State, a: Action): State
    requires Enabled(s, a)
  {
    if ByCaller(a) then CallerStep(s, a)
    else if ByCloser(a) then CloserStep(s, a)
    else ReaderStep(cfg, s, a)
  }

  /** The state after a run, if every step of it was possible. */
  function Run(cfg: Config, acts: seq<Action>): Option<State> {
    if acts == [] then Some(Init(cfg))
    else
      match Run(cfg, acts[..|acts| - 1])
      case None => None
      case Some(s) =>
        var a := acts[|acts| - 1];
        if Enabled(s, a) then Some(Next(cfg, s, a)) else None
  }
}

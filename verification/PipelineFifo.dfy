/** FIFO delivery: the k-th request on the wire gets the k-th message of the stream. */
module PipelineFifo {
  import opened Bytes
  import opened Reader
  import opened Messages
  import opened Pipeline
  import opened PipelineSafety

  /** What is left of the stream after the given reads. */
  function RestAfter(inbound: bytes, ps: seq<Parse>): bytes {
    if ps == [] then inbound else ps[|ps| - 1].o.rest
  }

  predicate ReadBack(r: ReaderPhase) { r.Parsed? || r.Judged? || r.Counted? }

  /** The reader will not read or deliver again: it holds a read without a status, or is on its way out. */
  predicate Doomed(r: ReaderPhase) {
    ((ReadBack(r) || r.Popped?) && !HasStatus(r.o)) || r.LastWord? || r.Quitting? || r.Exited?
  }

  /**
   * The reads so far were made one after the other on the stream, for the requests in write order, and only the last
   * one can lack a status.
   */
  ghost predicate ChainInv(cfg: Config, s: State) {
    && |s.h.parsed| <= |s.h.wire|
    && (forall k :: 0 <= k < |s.h.parsed| ==> s.h.parsed[k].rid == s.h.wire[k] && Placed(s.h.parsed[k].o))
    && (forall k :: 0 <= k < |s.h.parsed| && !HasStatus(s.h.parsed[k].o) ==> k == |s.h.parsed| - 1 && Doomed(s.reader))
    && Chained(cfg, s.h.parsed)
    && (s.h.clean && !Doomed(s.reader) ==> s.cursor == RestAfter(cfg.inbound, s.h.parsed))
  }

  function ParseAt(cfg: Config, stream: bytes, p: Rid): Raw {
    ParseMessage(stream, cfg.call(p).head, cfg.call(p).env, cfg.inflate)
  }

  /** Each read is the parse of what the reads before it left. */
  ghost predicate Chained(cfg: Config, ps: seq<Parse>) {
    forall k :: 0 <= k < |ps| ==> ps[k].o == ParseAt(cfg, RestAfter(cfg.inbound, ps[..k]), ps[k].rid)
  }

  lemma ChainSnoc(cfg: Config, ps: seq<Parse>, p: Rid, o: Raw)
    requires Chained(cfg, ps) && o == ParseAt(cfg, RestAfter(cfg.inbound, ps), p)
    ensures Chained(cfg, ps + [Parse(p, o)])
  {
    hide ParseAt, RestAfter;
    var ps' := ps + [Parse(p, o)];
    forall k | 0 <= k < |ps'|
      ensures ps'[k].o == ParseAt(cfg, RestAfter(cfg.inbound, ps'[..k]), ps'[k].rid)
    {
      if k < |ps| {
        assert ps'[..k] == ps[..k];
      } else {
        assert ps'[..k] == ps;
      }
    }
  }

  /** Reads run exactly one ahead of removals, from the read to the removal. */
  ghost predicate PaceInv(s: State) {
    if ReadBack(s.reader) then
      |s.h.parsed| <= |s.h.served| + 1 && (s.h.clean && !Doomed(s.reader) ==> |s.h.parsed| == |s.h.served| + 1)
    else if s.stage < 3 || s.reader.Holding? || s.reader.Parsing? then
      |s.h.parsed| <= |s.h.served| && (s.h.clean && !Doomed(s.reader) ==> |s.h.parsed| == |s.h.served|)
    else true
  }

  /** The result in the reader's hand is the one recorded for that request. */
  ghost predicate ResultInv(s: State) {
    ReadBack(s.reader) || s.reader.Popped? ==>
      && (forall k :: 0 <= k < |s.h.parsed| && s.h.parsed[k].rid == s.reader.p ==> s.h.parsed[k].o == s.reader.o)
      && (s.h.clean && HasStatus(s.reader.o) ==> Parse(s.reader.p, s.reader.o) in s.h.parsed)
  }

  /** A delivered request is off the queue and out of the reader's hand, and got a status. */
  ghost predicate DeliveredInv(s: State) {
    forall r :: r in s.h.delivered ==>
      r in s.h.wire && r !in s.queue && !InHand(s.reader, r) && HasStatus(s.h.delivered[r])
  }

  /** Deliveries carry the recorded results, and while all reads are recorded there are no others. */
  ghost predicate MatchInv(s: State) {
    && (forall k :: 0 <= k < |s.h.parsed| && s.h.parsed[k].rid in s.h.delivered ==>
          s.h.delivered[s.h.parsed[k].rid] == s.h.parsed[k].o)
    && (s.h.clean ==> forall r :: r in s.h.delivered ==> Parse(r, s.h.delivered[r]) in s.h.parsed)
  }

  ghost predicate FifoInv(cfg: Config, s: State) {
    ChainInv(cfg, s) && PaceInv(s) && ResultInv(s) && DeliveredInv(s) && MatchInv(s)
  }

  // ---------------------------------------------------------------- steps that do not read

  predicate Reads(a: Action) { a.ReaderRead? || a.ReaderTimeout? }

  /** Everything but a read only ever appends to the written order. */
  lemma QuietFrame(cfg: Config, s: State, a: Action)
    requires Enabled(s, a) && !Reads(a)
    ensures var t := Next(cfg, s, a);
      && t.h.parsed == s.h.parsed && t.h.clean == s.h.clean && t.cursor == s.cursor && s.h.wire <= t.h.wire
  {
    hide ReaderStep, CloserStep;
    if ByCaller(a) {
      CallerFrame(s, a);
    } else if ByCloser(a) {
      CloserFrame(s, a);
    } else {
      ReaderFrame(cfg, s, a);
      ReaderHistoryFrame(cfg, s, a);
    }
  }

  /** A doomed reader stays doomed, and reads and delivers nothing. */
  lemma DoomStep(cfg: Config, s: State, a: Action)
    requires Enabled(s, a) && Doomed(s.reader)
    ensures var t := Next(cfg, s, a);
      Doomed(t.reader) && t.h.parsed == s.h.parsed && t.h.clean == s.h.clean && t.h.delivered == s.h.delivered
  {
    hide CallerStep, CloserStep, ReaderStep;
    if ByCaller(a) {
      CallerFrame(s, a);
      StartReaderPhase(s, a);
    } else if ByCloser(a) {
      CloserFrame(s, a);
    } else {
      DoomReader(cfg, s, a);
    }
  }

  lemma DoomReader(cfg: Config, s: State, a: Action)
    requires Enabled(s, a) && ByReader(a) && Doomed(s.reader)
    ensures var t := ReaderStep(cfg, s, a);
      Doomed(t.reader) && t.h.parsed == s.h.parsed && t.h.clean == s.h.clean && t.h.delivered == s.h.delivered
  {
    hide Remove, ReadOutcome, AfterPop;
    if a.ReaderDeliver? { DoomPopped(s, s.reader.p, s.reader.o, s.reader.cancelled); }
  }

  lemma DoomPopped(s: State, p: Rid, o: Raw, cancelled: bool)
    requires !HasStatus(o)
    ensures var t := AfterPop(s, p, o, cancelled);
      Doomed(t.reader) && t.h.parsed == s.h.parsed && t.h.clean == s.h.clean && t.h.delivered == s.h.delivered
  {}

  lemma {:induction false} DoomedStays(cfg: Config, acts: seq<Action>, more: seq<Action>)
    requires Run(cfg, acts).Some? && Run(cfg, acts + more).Some? && Doomed(Run(cfg, acts).value.reader)
    ensures var s, t := Run(cfg, acts).value, Run(cfg, acts + more).value;
      Doomed(t.reader) && t.h.parsed == s.h.parsed && t.h.clean == s.h.clean && t.h.delivered == s.h.delivered
    decreases |more|
  {
    hide Next, Enabled, Doomed;
    if more == [] {
      assert acts + more == acts;
    } else {
      var n := |more| - 1;
      assert (acts + more)[..|acts + more| - 1] == acts + more[..n];
      DoomedStays(cfg, acts, more[..n]);
      DoomStep(cfg, Run(cfg, acts + more[..n]).value, more[n]);
    }
  }

  lemma KeepChainQuiet(cfg: Config, s: State, a: Action)
    requires ChainInv(cfg, s) && Enabled(s, a) && !Reads(a)
    ensures ChainInv(cfg, Next(cfg, s, a))
  {
    QuietFrame(cfg, s, a);
    if Doomed(s.reader) { DoomStep(cfg, s, a); }
    hide Next, Enabled, Chained, Doomed, HasStatus;
  }

  // ---------------------------------------------------------------- the read itself

  lemma ReadStep(cfg: Config, s: State, a: Action) returns (o: Raw, known: bool)
    requires Enabled(s, a) && Reads(a)
    ensures Next(cfg, s, a) == DoRead(s, s.reader.p, o, known)
    ensures known ==> o == ParseAt(cfg, s.cursor, s.reader.p) && Placed(o)
  {
    hide DoRead, ParseMessage;
    if a.ReaderRead? {
      o := ReadOutcome(cfg, s, s.reader.p);
      known := Placed(o);
      if !known { o := WithRest(o, a.after); }
    } else {
      o, known := a.o, false;
    }
  }

  lemma NotYetParsed(cfg: Config, s: State, p: Rid)
    requires WireInv(s) && HandInv(s) && ChainInv(cfg, s) && PaceInv(s) && s.reader == Parsing(p)
    ensures |s.h.parsed| <= |s.h.served| < |s.h.wire| && s.h.wire[|s.h.served|] == p
    ensures forall k :: 0 <= k < |s.h.parsed| ==> s.h.parsed[k].rid != p
    ensures s.h.clean ==> |s.h.parsed| == |s.h.served|
  {
    hide Chained;
  }

  /** A read that ends where it should continues the chain, failed or not; any other ends it. */
  lemma KeepChainRead(cfg: Config, s: State, p: Rid, o: Raw, known: bool)
    requires ChainInv(cfg, s) && s.reader == Parsing(p)
    requires s.h.clean ==> |s.h.parsed| < |s.h.wire| && s.h.wire[|s.h.parsed|] == p
    requires known ==> o == ParseAt(cfg, s.cursor, p) && Placed(o)
    ensures ChainInv(cfg, DoRead(s, p, o, known))
  {
    hide ParseAt, Chained;
    var t := DoRead(s, p, o, known);
    if known && s.h.clean {
      ChainSnoc(cfg, s.h.parsed, p, o);
      assert t.h.parsed == s.h.parsed + [Parse(p, o)];
    } else {
      assert t.h.parsed == s.h.parsed;
    }
  }

  lemma KeepPaceRead(cfg: Config, s: State, p: Rid, o: Raw, known: bool)
    requires WireInv(s) && HandInv(s) && ChainInv(cfg, s) && PaceInv(s) && s.reader == Parsing(p)
    ensures PaceInv(DoRead(s, p, o, known))
  {
    NotYetParsed(cfg, s, p);
    hide WireInv, HandInv, ChainInv;
  }

  lemma KeepResultRead(cfg: Config, s: State, p: Rid, o: Raw, known: bool)
    requires WireInv(s) && HandInv(s) && ChainInv(cfg, s) && PaceInv(s) && s.reader == Parsing(p)
    ensures ResultInv(DoRead(s, p, o, known))
  {
    NotYetParsed(cfg, s, p);
    hide WireInv, HandInv, ChainInv, PaceInv;
    var t := DoRead(s, p, o, known);
    if known && s.h.clean { assert t.h.parsed[|s.h.parsed|] == Parse(p, o); }
  }

  lemma KeepMatchRead(cfg: Config, s: State, p: Rid, o: Raw, known: bool)
    requires DeliveredInv(s) && MatchInv(s) && s.reader == Parsing(p)
    ensures DeliveredInv(DoRead(s, p, o, known)) && MatchInv(DoRead(s, p, o, known))
  {
    var t := DoRead(s, p, o, known);
    assert p !in s.h.delivered;
    forall r | r in s.h.delivered && s.h.clean
      ensures Parse(r, s.h.delivered[r]) in t.h.parsed
    {
      var k :| 0 <= k < |s.h.parsed| && s.h.parsed[k] == Parse(r, s.h.delivered[r]);
      assert t.h.parsed[k] == s.h.parsed[k];
    }
  }

  lemma KeepFifoRead(cfg: Config, s: State, a: Action)
    requires WireInv(s) && HandInv(s) && FifoInv(cfg, s) && Enabled(s, a) && Reads(a)
    ensures FifoInv(cfg, Next(cfg, s, a))
  {
    var o, known := ReadStep(cfg, s, a);
    var p := s.reader.p;
    assert s.reader == Parsing(p);
    NotYetParsed(cfg, s, p);
    hide Next, ChainInv, PaceInv, ResultInv, DeliveredInv, MatchInv, WireInv, HandInv, DoRead;
    KeepChainRead(cfg, s, p, o, known);
    KeepPaceRead(cfg, s, p, o, known);
    KeepResultRead(cfg, s, p, o, known);
    KeepMatchRead(cfg, s, p, o, known);
  }

  // ---------------------------------------------------------------- pace, results and deliveries in the quiet steps

  lemma KeepPaceQuiet(cfg: Config, s: State, a: Action)
    requires Inv(s) && PaceInv(s) && Enabled(s, a) && !Reads(a)
    ensures PaceInv(Next(cfg, s, a))
  {
    QuietFrame(cfg, s, a);
    hide CallerStep, CloserStep;
    if ByCaller(a) {
      CallerFrame(s, a);
      StartReaderPhase(s, a);
    } else if ByCloser(a) {
      CloserFrame(s, a);
    } else {
      KeepPaceReader(cfg, s, a);
    }
  }

  /** Callers move the reader only from "none" to "starting". */
  lemma StartReaderPhase(s: State, a: Action)
    requires Enabled(s, a) && ByCaller(a)
    ensures CallerStep(s, a).reader == s.reader || (s.reader.NoReader? && CallerStep(s, a).reader.Starting?)
  {}

  lemma KeepPaceReader(cfg: Config, s: State, a: Action)
    requires WireInv(s) && HandInv(s) && PaceInv(s) && Enabled(s, a) && ByReader(a) && !Reads(a)
    ensures PaceInv(ReaderStep(cfg, s, a))
  {
    hide AfterPop, Remove;
    ReaderFrame(cfg, s, a);
    ReaderHistoryFrame(cfg, s, a);
    if a.ReaderRemove? {
      if s.stage < 3 {
        WireEdges(s);
      }
    } else if a.ReaderDeliver? {
      AfterPopHand(s, s.reader.p, s.reader.o, s.reader.cancelled);
      if Doomed(s.reader) { DoomStep(cfg, s, a); }
    }
  }

  lemma KeepResultQuiet(cfg: Config, s: State, a: Action)
    requires ResultInv(s) && Enabled(s, a) && !Reads(a)
    ensures ResultInv(Next(cfg, s, a))
  {
    QuietFrame(cfg, s, a);
    hide CallerStep, CloserStep, AfterPop, Remove;
    if ByCaller(a) {
      StartReaderPhase(s, a);
    } else if ByCloser(a) {
      CloserFrame(s, a);
    } else if a.ReaderDeliver? {
      AfterPopHand(s, s.reader.p, s.reader.o, s.reader.cancelled);
    }
  }

  /** A response leaves the reader's hand when it is delivered, and only the popped request's response can be. */
  lemma AfterPopDelivers(s: State, p: Rid, o: Raw, cancelled: bool)
    ensures var t := AfterPop(s, p, o, cancelled);
      t.h.delivered == s.h.delivered
      || (t.h.delivered == s.h.delivered[p := o] && HasStatus(o) && (t.reader.Looking? || t.reader.Quitting?))
  {}

  lemma KeepDeliveredQuiet(cfg: Config, s: State, a: Action)
    requires LockInv(s) && WireInv(s) && HandInv(s) && DeliveredInv(s) && Enabled(s, a) && !Reads(a)
    ensures DeliveredInv(Next(cfg, s, a))
  {
    hide CloserStep, ReaderStep;
    if ByCaller(a) {
      CallerFrame(s, a);
      KeepDeliveredCaller(s, a);
    } else if ByCloser(a) {
      CloserFrame(s, a);
      if a.Sweep? { SweepEmpties(s, a); }
    } else {
      KeepDeliveredReader(cfg, s, a);
    }
  }

  lemma KeepDeliveredCaller(s: State, a: Action)
    requires LockInv(s) && WireInv(s) && DeliveredInv(s) && Enabled(s, a) && ByCaller(a)
    ensures DeliveredInv(CallerStep(s, a))
  {
    CallerFrame(s, a);
    StartReaderPhase(s, a);
    hide LockInv;
    if a.WriteOk? {
      assert a.w !in s.h.wire;
    }
  }

  lemma KeepDeliveredReader(cfg: Config, s: State, a: Action)
    requires HandInv(s) && DeliveredInv(s) && Enabled(s, a) && ByReader(a) && !Reads(a)
    ensures DeliveredInv(ReaderStep(cfg, s, a))
  {
    ReaderFrame(cfg, s, a);
    ReaderHistoryFrame(cfg, s, a);
    HandComesFromQueue(cfg, s, a);
    QueueShrinks(cfg, s, a);
    if a.ReaderDeliver? {
      assert ReaderStep(cfg, s, a) == AfterPop(s, s.reader.p, s.reader.o, s.reader.cancelled);
      AfterPopDelivers(s, s.reader.p, s.reader.o, s.reader.cancelled);
    }
    hide AfterPop, ReaderStep;
  }

  lemma KeepMatchQuiet(cfg: Config, s: State, a: Action)
    requires ResultInv(s) && MatchInv(s) && Enabled(s, a) && !Reads(a)
    ensures MatchInv(Next(cfg, s, a))
  {
    QuietFrame(cfg, s, a);
    hide CallerStep, CloserStep, AfterPop, Remove;
    if ByCaller(a) {
      CallerFrame(s, a);
    } else if ByCloser(a) {
      CloserFrame(s, a);
    } else if a.ReaderDeliver? {
      AfterPopDelivers(s, s.reader.p, s.reader.o, s.reader.cancelled);
    } else {
      ReaderHistoryFrame(cfg, s, a);
    }
  }

  lemma StepFifo(cfg: Config, s: State, a: Action)
    requires Inv(s) && FifoInv(cfg, s) && Enabled(s, a)
    ensures FifoInv(cfg, Next(cfg, s, a))
  {
    hide Next, Enabled, Reads, LockInv, WireInv, HandInv, WakeInv, CountInv;
    hide ChainInv, PaceInv, ResultInv, DeliveredInv, MatchInv;
    if Reads(a) {
      KeepFifoRead(cfg, s, a);
    } else {
      KeepChainQuiet(cfg, s, a);
      KeepPaceQuiet(cfg, s, a);
      KeepResultQuiet(cfg, s, a);
      KeepDeliveredQuiet(cfg, s, a);
      KeepMatchQuiet(cfg, s, a);
    }
  }

  lemma InitFifo(cfg: Config)
    ensures FifoInv(cfg, Init(cfg))
  {}

  lemma {:induction false} RunsAreFifo(cfg: Config, acts: seq<Action>)
    requires Run(cfg, acts).Some?
    ensures FifoInv(cfg, Run(cfg, acts).value)
    decreases |acts|
  {
    hide Next, Enabled, FifoInv, Inv, Init;
    if acts == [] {
      InitFifo(cfg);
    } else {
      var before := acts[..|acts| - 1];
      RunsAreFifo(cfg, before);
      RunsAreSafe(cfg, before);
      StepFifo(cfg, Run(cfg, before).value, acts[|acts| - 1]);
    }
  }

  // ---------------------------------------------------------------- end to end

  /** What the peer sends: messages in the order of the requests, all complete; whether there is room is left open. */
  predicate Sends(cfg: Config, wire: seq<Rid>, ms: seq<Message>, tail: bytes) {
    && cfg.inbound == Wires(ms) + tail
    && (forall i :: 0 <= i < |ms| && i < |wire| ==>
          cfg.call(wire[i]).env.buffered && Complete(ms[i], cfg.call(wire[i]).head, cfg.call(wire[i]).env))
  }

  /** None of the first k messages slips: each has room, or is refused before the status is set. */
  predicate Steady(cfg: Config, wire: seq<Rid>, ms: seq<Message>, k: nat) {
    forall i :: 0 <= i < k && i < |ms| && i < |wire| ==> !Slips(ms[i], cfg.call(wire[i]).env)
  }

  lemma WiresSplit(ms: seq<Message>, j: nat, tail: bytes)
    requires j < |ms|
    ensures Wires(ms[j..]) + tail == Wire(ms[j]) + (Wires(ms[j + 1..]) + tail)
  {
    assert ms[j..][1..] == ms[j + 1..] && ms[j..][0] == ms[j];
    hide Wire;
  }

  /** What read k says, if it starts at message k. */
  lemma ReadAtMessage(cfg: Config, p: Rid, m: Message, rest: bytes)
    requires cfg.call(p).env.buffered && Complete(m, cfg.call(p).head, cfg.call(p).env)
    ensures var o := Alone(m, cfg.call(p), cfg.inflate);
      && ParseAt(cfg, Wire(m) + rest, p) == WithRest(o, o.rest + rest)
      && (o.rest == [] <==> Affordable(m, cfg.call(p).env))
      && (HasStatus(o) && o.rest != [] <==> Slips(m, cfg.call(p).env))
      && (HasStatus(o) ==> HasHead(o, m))
  {
    CompleteRead(m, cfg.call(p), cfg.inflate, rest);
    hide ParseMessage, Complete, Wire, Affordable, Slips, Alone;
  }

  /** After k reads that reported a status, the stream stands at message k. */
  lemma {:induction false} ChainAtMessage(
    cfg: Config, wire: seq<Rid>, ps: seq<Parse>, ms: seq<Message>, tail: bytes, k: nat)
    requires Sends(cfg, wire, ms, tail) && Steady(cfg, wire, ms, k) && Chained(cfg, ps)
    requires |ps| <= |wire| && forall i :: 0 <= i < |ps| ==> ps[i].rid == wire[i]
    requires k <= |ps| && k <= |ms| && forall i :: 0 <= i < k ==> HasStatus(ps[i].o)
    ensures RestAfter(cfg.inbound, ps[..k]) == Wires(ms[k..]) + tail
    decreases k
  {
    hide ParseAt, Complete, Wires, Wire, Alone, Slips, Affordable;
    if k == 0 {
      assert ms[0..] == ms;
    } else {
      var j := k - 1;
      ChainAtMessage(cfg, wire, ps, ms, tail, j);
      WiresSplit(ms, j, tail);
      ReadAtMessage(cfg, wire[j], ms[j], Wires(ms[k..]) + tail);
      assert ps[..k][j] == ps[j];
      assert [] + (Wires(ms[k..]) + tail) == Wires(ms[k..]) + tail;
    }
  }

  /** Read k starts at message k, reports that message, and leaves what it leaves of it. */
  lemma KthRead(cfg: Config, s: State, ms: seq<Message>, tail: bytes, k: nat)
    requires ChainInv(cfg, s) && Sends(cfg, s.h.wire, ms, tail) && Steady(cfg, s.h.wire, ms, k)
    requires k < |s.h.parsed| && k < |ms|
    ensures var o, next := Alone(ms[k], cfg.call(s.h.wire[k]), cfg.inflate), Wires(ms[k + 1..]) + tail;
      && RestAfter(cfg.inbound, s.h.parsed[..k]) == Wires(ms[k..]) + tail
      && s.h.parsed[k] == Parse(s.h.wire[k], WithRest(o, o.rest + next))
      && (o.rest == [] <==> Affordable(ms[k], cfg.call(s.h.wire[k]).env))
      && (HasStatus(o) && o.rest != [] <==> Slips(ms[k], cfg.call(s.h.wire[k]).env))
      && (HasStatus(o) ==> HasHead(o, ms[k]))
  {
    hide ParseAt, Complete, Wires, Wire, Alone, Slips, Affordable, Doomed, HasStatus, RestAfter;
    ChainAtMessage(cfg, s.h.wire, s.h.parsed, ms, tail, k);
    WiresSplit(ms, k, tail);
    ReadAtMessage(cfg, s.h.wire[k], ms[k], Wires(ms[k + 1..]) + tail);
  }

  /** What the caller sees of a response: everything but where the stream stands. */
  predicate SameReply(a: Raw, b: Raw) { a == b.(rest := a.rest) }

  /**
   * Read k was made for request k of the wire and is the parse of message k alone; what that request was given is that
   * parse, and it has a status; and while every read with a status has ended where it should, the request is given
   * nothing before read k.
   */
  ghost predicate KthMatches(cfg: Config, h: History, ms: seq<Message>, k: nat)
    requires k < |ms| && |h.parsed| <= |h.wire|
  {
    && (k < |h.parsed| ==>
          var reply := Alone(ms[k], cfg.call(h.wire[k]), cfg.inflate);
          && h.parsed[k].rid == h.wire[k] && SameReply(h.parsed[k].o, reply)
          && (HasStatus(reply) ==> HasHead(reply, ms[k]))
          && (h.wire[k] in h.delivered ==> SameReply(h.delivered[h.wire[k]], reply) && HasStatus(reply)))
    && (h.clean && k < |h.wire| && h.wire[k] in h.delivered ==> k < |h.parsed|)
  }

  lemma KthOfState(cfg: Config, s: State, ms: seq<Message>, tail: bytes, k: nat)
    requires WireInv(s) && ChainInv(cfg, s) && DeliveredInv(s) && MatchInv(s) && k < |ms|
    requires Sends(cfg, s.h.wire, ms, tail) && Steady(cfg, s.h.wire, ms, k)
    ensures KthMatches(cfg, s.h, ms, k)
  {
    hide ParseAt, Sends, Steady, Wires, Wire, Alone, Slips, Affordable, Doomed;
    if s.h.clean && k < |s.h.wire| && s.h.wire[k] in s.h.delivered {
      var j :| 0 <= j < |s.h.parsed| && s.h.parsed[j] == Parse(s.h.wire[k], s.h.delivered[s.h.wire[k]]);
      assert s.h.wire[j] == s.h.wire[k];
      assert j == k;
    }
    if k < |s.h.parsed| { KthRead(cfg, s, ms, tail, k); }
  }

  /**
   * FIFO delivery, end to end. In every run, whatever the interleaving of writers, reader, cancellations and closes:
   * the k-th request written to the wire is the one that gets the k-th message of the stream, parsed as if it were
   * alone, with its status and headers even when its body fails to decompress or is refused. This holds as long as no
   * message before it slips, and nothing else is delivered until a read that has reported a status times out or meets a
   * body without framing.
   */
  lemma FifoDelivery(cfg: Config, acts: seq<Action>, ms: seq<Message>, tail: bytes, k: nat)
    requires Run(cfg, acts).Some? && Sends(cfg, Run(cfg, acts).value.h.wire, ms, tail)
    requires k < |ms| && Steady(cfg, Run(cfg, acts).value.h.wire, ms, k)
    ensures var h := Run(cfg, acts).value.h; |h.parsed| <= |h.wire| && KthMatches(cfg, h, ms, k)
  {
    RunsAreSafe(cfg, acts);
    RunsAreFifo(cfg, acts);
    hide Run, KthMatches, LockInv, HandInv, WakeInv, CountInv, PaceInv, ResultInv, Sends, Steady;
    KthOfState(cfg, Run(cfg, acts).value, ms, tail, k);
  }

  // ---------------------------------------------------------------- which reads keep FIFO order

  /**
   * Exactly which reads keep the order. While no message before it slips, read k starts at message k. It ends at
   * message k + 1 if and only if message k has room, whether or not its body decompresses. It reports a status and ends
   * elsewhere if and only if message k slips. Without a status it is the last read, and the connection closes.
   */
  lemma ReadKeepsOrder(cfg: Config, acts: seq<Action>, ms: seq<Message>, tail: bytes, k: nat)
    requires Run(cfg, acts).Some?
    requires var h := Run(cfg, acts).value.h;
      && k < |ms| && k < |h.parsed| && |h.parsed| <= |h.wire|
      && Sends(cfg, h.wire, ms, tail) && Steady(cfg, h.wire, ms, k)
    ensures var s := Run(cfg, acts).value;
      var o, next, env := s.h.parsed[k].o, Wires(ms[k + 1..]) + tail, cfg.call(s.h.wire[k]).env;
      && s.h.parsed[k].rid == s.h.wire[k]
      && RestAfter(cfg.inbound, s.h.parsed[..k]) == Wires(ms[k..]) + tail
      && (o.rest == next <==> Affordable(ms[k], env))
      && (HasStatus(o) && o.rest != next <==> Slips(ms[k], env))
      && (!HasStatus(o) ==> k == |s.h.parsed| - 1 && Doomed(s.reader))
  {
    RunsAreFifo(cfg, acts);
    var s := Run(cfg, acts).value;
    assert ChainInv(cfg, s);
    hide Run, FifoInv, Sends, Steady, Affordable, Slips, Wires, RestAfter, Alone, Chained;
    KthRead(cfg, s, ms, tail, k);
  }

  /**
   * Exactly when a later request reads bytes that are not its own: while no message before k slips, the read after
   * read k starts at message k + 1 if and only if message k does not slip either; if it slips, that read starts inside
   * message k.
   */
  lemma NextReadStarts(cfg: Config, acts: seq<Action>, ms: seq<Message>, tail: bytes, k: nat)
    requires Run(cfg, acts).Some?
    requires var h := Run(cfg, acts).value.h;
      && k < |ms| && k + 1 < |h.parsed| && |h.parsed| <= |h.wire|
      && Sends(cfg, h.wire, ms, tail) && Steady(cfg, h.wire, ms, k)
    ensures var h := Run(cfg, acts).value.h;
      var start, next := RestAfter(cfg.inbound, h.parsed[..k + 1]), Wires(ms[k + 1..]) + tail;
      var inside := Alone(ms[k], cfg.call(h.wire[k]), cfg.inflate).rest;
      && h.parsed[k + 1].o == ParseAt(cfg, start, h.wire[k + 1])
      && start == inside + next
      && (inside == [] <==> !Slips(ms[k], cfg.call(h.wire[k]).env))
  {
    RunsAreFifo(cfg, acts);
    var s := Run(cfg, acts).value;
    assert ChainInv(cfg, s);
    assert RestAfter(cfg.inbound, s.h.parsed[..k + 1]) == s.h.parsed[k].o.rest;
    hide Run, FifoInv, Sends, Steady, Affordable, Slips, Wires, RestAfter, Alone, ParseAt;
    KthRead(cfg, s, ms, tail, k);
  }
}

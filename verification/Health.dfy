/** Latency average, health score and pipeline depth of a connection (connection.go), under serialized updates. */
module Health {
  import opened Bytes

  const WINDOW: nat := 50
  const MILLISECOND: int := 1_000_000
  const HARD_CAP: int := 32
  const MAX_INT32: int := 0x7FFF_FFFF

  datatype Config = Config(maxPipelined: int, pipelining: bool, autoTune: bool, scoring: bool)

  datatype State = State(ewma: int, errors: int, total: int, score: int, depth: int)

  datatype Event = Success(ns: int) | Failure

  // ---------------------------------------------------------------- arithmetic of the source

  /** Go's division: truncated toward zero. */
  function Quotient(a: int, b: int): int
    requires b > 0
  {
    if a >= 0 then a / b else -(-a / b)
  }

  /** Two's complement on 32 bits. */
  function Wrap32(n: int): (r: int)
    ensures -MAX_INT32 - 1 <= r <= MAX_INT32
    ensures -MAX_INT32 - 1 <= n <= MAX_INT32 ==> r == n
  {
    (n + TWO31) % TWO32 - TWO31
  }

  function Limit(cfg: Config): (r: int)
    ensures 1 <= r <= MAX_INT32
  {
    var m := Wrap32(cfg.maxPipelined);
    if m <= 0 then 10 else m
  }

  /** The arithmetic shift rounds toward minus infinity. */
  function Average(old_: int, ns: int): int {
    if old_ == 0 then ns else old_ + (ns - old_) / 8
  }

  function Score(ewma: int, errors: int): int {
    var ms := Quotient(ewma, MILLISECOND);
    100 - (if ms > 50 then Min(60, (ms - 50) / 10) else 0) - (if errors > 0 then 40 * errors / WINDOW else 0)
  }

  function Tuned(cfg: Config, depth: int, ewma: int): int {
    var ms := Quotient(ewma, MILLISECOND);
    if ms < 10 then Min(Wrap32(depth + 1), Min(Limit(cfg), HARD_CAP))
    else if ms > 100 then Max(Wrap32(depth - 1), 1)
    else depth
  }

  // ---------------------------------------------------------------- the object

  class Tracker {
    const cfg: Config
    var latencyEwma: int
    var errorCount: int
    var totalWindow: int
    var healthScore: int
    var pipelineDepth: int

    function View(): State
      reads this
    {
      State(latencyEwma, errorCount, totalWindow, healthScore, pipelineDepth)
    }

    constructor (cfg: Config)
      ensures this.cfg == cfg && View() == Fresh(cfg)
    {
      this.cfg := cfg;
      latencyEwma, errorCount, totalWindow, healthScore := 0, 0, 0, 0;
      var depth := Wrap32(cfg.maxPipelined);
      if depth <= 0 { depth := 10; }
      pipelineDepth := depth;
    }

    method RecordSuccess(ns: int)
      modifies this
      ensures View() == Step(cfg, old(View()), Success(ns))
    {
      if !cfg.scoring { return; }
      var average;
      if latencyEwma == 0 {
        average := ns;
      } else {
        average := latencyEwma + (ns - latencyEwma) / 8;
      }
      latencyEwma := average;
      AdvanceWindow();
      if cfg.autoTune && cfg.pipelining {
        TuneDepth(average);
      }
    }

    method RecordError()
      modifies this
      ensures View() == Step(cfg, old(View()), Failure)
    {
      if !cfg.scoring { return; }
      errorCount := errorCount + 1;
      AdvanceWindow();
    }

    method AdvanceWindow()
      modifies this`errorCount, this`totalWindow, this`healthScore
      ensures View() == Advance(old(View()))
    {
      totalWindow := totalWindow + 1;
      if totalWindow < WINDOW { return; }
      var errors := errorCount;
      errorCount, totalWindow := 0, 0;
      var score := 100;
      var latMs := Quotient(latencyEwma, MILLISECOND);
      if latMs > 50 {
        var penalty := Quotient(latMs - 50, 10);
        if penalty > 60 { penalty := 60; }
        score := score - penalty;
      }
      if errors > 0 {
        score := score - Quotient(40 * errors, WINDOW);
      }
      if score < 0 { score := 0; }
      healthScore := score;
    }

    method TuneDepth(ewma: int)
      modifies this`pipelineDepth
      ensures pipelineDepth == Tuned(cfg, old(pipelineDepth), ewma)
    {
      var ms := Quotient(ewma, MILLISECOND);
      var cur := pipelineDepth;
      var maxDepth := Wrap32(cfg.maxPipelined);
      if maxDepth <= 0 { maxDepth := 10; }
      if maxDepth > HARD_CAP { maxDepth := HARD_CAP; }
      var target;
      if ms < 10 {
        target := Wrap32(cur + 1);
        if target > maxDepth { target := maxDepth; }
      } else if ms > 100 {
        target := Wrap32(cur - 1);
        if target < 1 { target := 1; }
      } else {
        return;
      }
      pipelineDepth := target;
    }

    /** HealthScore: a connection without a measured latency reads as perfect. */
    method ReportScore() returns (s: int)
      ensures s == Reported(View())
    {
      s := healthScore;
      if s == 0 && latencyEwma == 0 { return 100; }
    }
  }

  function Fresh(cfg: Config): State { State(0, 0, 0, 0, Limit(cfg)) }

  function Advance(s: State): State {
    if s.total + 1 < WINDOW then s.(total := s.total + 1)
    else s.(total := 0, errors := 0, score := Max(Score(s.ewma, s.errors), 0))
  }

  function Step(cfg: Config, s: State, e: Event): State {
    if !cfg.scoring then s
    else match e
      case Failure => Advance(s.(errors := s.errors + 1))
      case Success(ns) =>
        var avg := Average(s.ewma, ns);
        var t := Advance(s.(ewma := avg));
        if cfg.autoTune && cfg.pipelining then t.(depth := Tuned(cfg, s.depth, avg)) else t
  }

  function Reported(s: State): int { if s.score == 0 && s.ewma == 0 then 100 else s.score }

  function Run(cfg: Config, evs: seq<Event>): State {
    if evs == [] then Fresh(cfg) else Step(cfg, Run(cfg, evs[..|evs| - 1]), evs[|evs| - 1])
  }

  // ---------------------------------------------------------------- what a run computes

  /** The average over the successes of a run. */
  function AverageOf(evs: seq<Event>): int {
    if evs == [] then 0
    else
      var rest := AverageOf(evs[..|evs| - 1]);
      match evs[|evs| - 1]
      case Failure => rest
      case Success(ns) => Average(rest, ns)
  }

  function Failures(evs: seq<Event>): (n: nat)
    ensures n <= |evs|
  {
    if evs == [] then 0 else Failures(evs[..|evs| - 1]) + (if evs[|evs| - 1].Failure? then 1 else 0)
  }

  /** The number of events in closed windows. */
  function Closed(n: nat): nat { n / WINDOW * WINDOW }

  lemma ClosedStep(n: nat)
    ensures Closed(n + 1) == if (n + 1) % WINDOW == 0 then n + 1 else Closed(n)
    ensures n == Closed(n) + n % WINDOW && (n + 1) % WINDOW == (if n % WINDOW + 1 < WINDOW then n % WINDOW + 1 else 0)
  {}

  /** The score is that of the last closed window: its fifty events and the average at its end. */
  function WindowScore(evs: seq<Event>): int {
    var n := Closed(|evs|);
    if n == 0 then 0 else Score(AverageOf(evs[..n]), Failures(evs[n - WINDOW..n]))
  }

  lemma ScoreRange(ewma: int, errors: int)
    requires 0 <= errors <= WINDOW
    ensures 0 <= Score(ewma, errors) <= 100
  {}

  /** More latency or more errors never raise the score. */
  lemma ScoreFalls(fast: int, slow: int, few: nat, many: nat)
    requires fast <= slow && few <= many
    ensures Score(slow, many) <= Score(fast, few)
  {
    QuotientGrows(fast, slow);
    hide Quotient;
  }

  lemma QuotientGrows(a: int, b: int)
    requires a <= b
    ensures Quotient(a, MILLISECOND) <= Quotient(b, MILLISECOND)
  {}

  /** One point for every 10 ms above 50, up to 60 points; 40 points when all fifty requests fail. */
  lemma ScorePoints(tens: nat, errors: nat)
    requires errors <= 50
    ensures Score((50 + 10 * tens) * 1_000_000, errors) == 100 - Min(tens, 60) - 40 * errors / 50
    ensures Score(50_999_999, 0) == 100 && Score(60_000_000, 0) == 99 && Score(650_000_000, 50) == 0 && Score(1, 25) == 80
  {}

  ghost predicate Describes(s: State, evs: seq<Event>) {
    && s.ewma == AverageOf(evs)
    && s.total == |evs| % WINDOW
    && s.errors == Failures(evs[Closed(|evs|)..])
    && s.score == WindowScore(evs)
  }

  /**
   * The counters of every run say what they should: the average of the latencies, the position in the window, the
   * failures since it opened, and the score of the last full window. The clamp at zero never changes anything.
   */
  lemma {:induction false} RunDescribed(cfg: Config, evs: seq<Event>)
    requires cfg.scoring
    ensures Describes(Run(cfg, evs), evs)
    decreases |evs|
  {
    if evs != [] {
      var was, e := evs[..|evs| - 1], evs[|evs| - 1];
      RunDescribed(cfg, was);
      hide Run, AverageOf, Failures, Closed, Score, Tuned;
      assert evs == was + [e];
      StepDescribed(cfg, Run(cfg, was), was, e);
      assert Run(cfg, evs) == Step(cfg, Run(cfg, was), e) by { RunStep(cfg, evs); }
    }
  }

  lemma RunStep(cfg: Config, evs: seq<Event>)
    requires evs != []
    ensures Run(cfg, evs) == Step(cfg, Run(cfg, evs[..|evs| - 1]), evs[|evs| - 1])
  {}

  lemma FailuresSnoc(evs: seq<Event>, e: Event)
    ensures Failures(evs + [e]) == Failures(evs) + (if e.Failure? then 1 else 0)
  {
    assert (evs + [e])[..|evs|] == evs;
  }

  lemma AverageSnoc(evs: seq<Event>, e: Event)
    ensures AverageOf(evs + [e]) == if e.Failure? then AverageOf(evs) else Average(AverageOf(evs), e.ns)
  {
    hide Average;
    assert (evs + [e])[..|evs|] == evs;
  }

  /** One event, as the four counters see it. */
  lemma StepCounters(cfg: Config, s: State, e: Event)
    requires cfg.scoring
    ensures var t, errors := Step(cfg, s, e), s.errors + (if e.Failure? then 1 else 0);
      && t.ewma == (if e.Failure? then s.ewma else Average(s.ewma, e.ns))
      && (s.total + 1 < WINDOW ==> t.total == s.total + 1 && t.errors == errors && t.score == s.score)
      && (s.total + 1 >= WINDOW ==> t.total == 0 && t.errors == 0 && t.score == Max(Score(t.ewma, errors), 0))
  {
    hide Average, Score, Tuned;
  }

  lemma StepDescribed(cfg: Config, s: State, was: seq<Event>, e: Event)
    requires cfg.scoring && Describes(s, was)
    ensures Describes(Step(cfg, s, e), was + [e])
  {
    StepCounters(cfg, s, e);
    ClosedStep(|was|);
    FailuresSnoc(was[Closed(|was|)..], e);
    AverageSnoc(was, e);
    hide Step, AverageOf, Average, Failures, Closed, Score;
    if |was| % WINDOW + 1 < WINDOW {
      WindowStaysOpen(was, e);
    } else {
      WindowCloses(was, e);
    }
  }

  lemma WindowStaysOpen(was: seq<Event>, e: Event)
    requires |was| % WINDOW + 1 < WINDOW
    ensures var evs, c := was + [e], Closed(|was|);
      Closed(|evs|) == c && evs[c..] == was[c..] + [e] && WindowScore(evs) == WindowScore(was)
  {
    ClosedStep(|was|);
    hide AverageOf, Failures, Closed, Score;
    var evs, c := was + [e], Closed(|was|);
    assert c > 0 ==> evs[..c] == was[..c] && evs[c - WINDOW..c] == was[c - WINDOW..c];
  }

  lemma WindowCloses(was: seq<Event>, e: Event)
    requires |was| % WINDOW + 1 >= WINDOW
    ensures var evs, c := was + [e], Closed(|was|);
      && Closed(|evs|) == |evs| && Failures(evs[|evs|..]) == 0
      && WindowScore(evs) == Score(AverageOf(evs), Failures(was[c..] + [e])) >= 0
  {
    ClosedStep(|was|);
    var evs, c := was + [e], Closed(|was|);
    assert evs[|evs|..] == [];
    hide AverageOf, Closed, Score;
    assert evs[..|evs|] == evs && evs[|evs| - WINDOW..|evs|] == evs[c..] == was[c..] + [e];
    ScoreRange(AverageOf(evs), Failures(evs[c..]));
  }

  /** On every run the score lies in [0, 100], and so does the reported one. */
  lemma ScoreInRange(cfg: Config, evs: seq<Event>)
    ensures 0 <= Run(cfg, evs).score <= 100 && 0 <= Reported(Run(cfg, evs)) <= 100
    ensures 0 <= Run(cfg, evs).errors <= Run(cfg, evs).total < WINDOW
  {
    if cfg.scoring {
      RunDescribed(cfg, evs);
      hide Run, AverageOf, Score;
      var n := Closed(|evs|);
      if n > 0 {
        ScoreRange(AverageOf(evs[..n]), Failures(evs[n - WINDOW..n]));
      }
    } else {
      Untouched(cfg, evs);
    }
  }

  lemma {:induction false} Untouched(cfg: Config, evs: seq<Event>)
    requires !cfg.scoring
    ensures Run(cfg, evs) == Fresh(cfg)
  {
    if evs != [] { Untouched(cfg, evs[..|evs| - 1]); }
  }

  /** Before the first window closes the reported score is all or nothing, whatever happened. */
  lemma FirstWindowScore(cfg: Config, evs: seq<Event>)
    requires cfg.scoring && |evs| < 50
    ensures Reported(Run(cfg, evs)) == if AverageOf(evs) == 0 then 100 else 0
  {
    RunDescribed(cfg, evs);
  }

  /** One request of a nanosecond, and a perfect connection reports the worst score. */
  lemma OneSuccessScoresZero(cfg: Config)
    requires cfg.scoring
    ensures Reported(Run(cfg, [])) == 100 && Reported(Run(cfg, [Success(1)])) == 0
  {
    FirstWindowScore(cfg, []);
    FirstWindowScore(cfg, [Success(1)]);
    assert [Success(1)][..0] == [];
  }

  // ---------------------------------------------------------------- the average

  /** Despite the rounding of the shift, the new average lies between the old one and the sample. */
  lemma Between(old_: int, ns: int)
    requires old_ != 0
    ensures Min(old_, ns) <= Average(old_, ns) <= Max(old_, ns)
  {}

  ghost predicate Within(evs: seq<Event>, lo: int, hi: int) {
    forall i :: 0 <= i < |evs| && evs[i].Success? ==> lo <= evs[i].ns <= hi
  }

  /** On every run with a success the average lies within the range of the samples seen. */
  lemma {:induction false} AverageWithinSamples(evs: seq<Event>, lo: int, hi: int)
    requires Within(evs, lo, hi) && Failures(evs) < |evs|
    ensures lo <= AverageOf(evs) <= hi
    decreases |evs|
  {
    var was, e := evs[..|evs| - 1], evs[|evs| - 1];
    assert forall i :: 0 <= i < |was| ==> was[i] == evs[i];
    if Failures(was) < |was| {
      AverageWithinSamples(was, lo, hi);
      if e.Success? && AverageOf(was) != 0 { Between(AverageOf(was), e.ns); }
    } else {
      OnlyFailures(was);
    }
  }

  lemma {:induction false} OnlyFailures(evs: seq<Event>)
    requires Failures(evs) == |evs|
    ensures AverageOf(evs) == 0
  {
    if evs != [] { OnlyFailures(evs[..|evs| - 1]); }
  }

  /** A sample moves the average an eighth of the way, rounded down; the first one sets it. */
  lemma EighthOfTheWay(old_: int, ns: int)
    ensures old_ == 0 ==> Average(old_, ns) == ns
    ensures old_ != 0 ==> 0 <= (ns - old_) - 8 * (Average(old_, ns) - old_) < 8
  {}

  function Repeated(old_: int, ns: int, k: nat): int {
    if k == 0 then old_ else Average(Repeated(old_, ns, k - 1), ns)
  }

  function Gap(a: int, ns: int): nat { if a < ns then ns - a else a - ns }

  /** Under a steady latency the average settles, but the rounding can leave it up to 7 ns below. */
  lemma {:induction false} SteadySettles(old_: int, ns: int, k: nat)
    ensures Gap(old_, ns) <= k ==> ns - 7 <= Repeated(old_, ns, k) <= ns
    ensures ns - 7 <= Repeated(old_, ns, k) <= ns || Gap(Repeated(old_, ns, k), ns) + k <= Gap(old_, ns)
  {
    if k > 0 {
      SteadySettles(old_, ns, k - 1);
    }
  }

  // ---------------------------------------------------------------- the pipeline depth

  predicate Tunes(cfg: Config) { cfg.scoring && cfg.autoTune && cfg.pipelining }

  /** Whether the run so far has seen an average below ten milliseconds just after a success. */
  ghost predicate SeenFast(evs: seq<Event>) {
    exists n :: 0 < n <= |evs| && evs[n - 1].Success? && Quotient(AverageOf(evs[..n]), MILLISECOND) < 10
  }

  lemma {:induction false} DepthRange(cfg: Config, evs: seq<Event>)
    requires Limit(cfg) < MAX_INT32
    ensures 1 <= Run(cfg, evs).depth <= Limit(cfg)
  {
    if evs != [] {
      DepthRange(cfg, evs[..|evs| - 1]);
      hide Run, Average, Limit, Score, Quotient;
      RunStep(cfg, evs);
    }
  }

  /** One fast success from the start takes the depth below one when the limit is the largest 32-bit value. */
  lemma DepthOverflows(cfg: Config)
    requires Tunes(cfg) && Limit(cfg) == MAX_INT32
    ensures Run(cfg, [Success(1)]).depth < 1
  {
    assert [Success(1)][..0] == [];
    RunStep(cfg, [Success(1)]);
  }

  /** The depth stays within its limits on every run exactly when raising the limit by one does not overflow. */
  lemma DepthBounded(cfg: Config)
    requires Tunes(cfg)
    ensures (forall evs :: 1 <= Run(cfg, evs).depth <= Limit(cfg)) <==> Limit(cfg) < MAX_INT32
  {
    if Limit(cfg) < MAX_INT32 {
      forall evs ensures 1 <= Run(cfg, evs).depth <= Limit(cfg) { DepthRange(cfg, evs); }
    } else {
      DepthOverflows(cfg);
    }
  }

  /** Once a fast average was seen the depth never exceeds the hard cap again. */
  lemma {:induction false} CappedAfterFast(cfg: Config, evs: seq<Event>)
    requires Tunes(cfg) && Limit(cfg) < MAX_INT32 && SeenFast(evs)
    ensures Run(cfg, evs).depth <= HARD_CAP
    decreases |evs|
  {
    var was := evs[..|evs| - 1];
    RunDescribed(cfg, was);
    DepthRange(cfg, was);
    var n :| 0 < n <= |evs| && evs[n - 1].Success? && Quotient(AverageOf(evs[..n]), MILLISECOND) < 10;
    RunStep(cfg, evs);
    if n == |evs| {
      assert evs[..n] == evs;
      hide Run, Average, Limit, Score, Quotient;
    } else {
      assert was[..n] == evs[..n] && was[n - 1] == evs[n - 1];
      CappedAfterFast(cfg, was);
      hide Run, Average, Limit, Score, Quotient, AverageOf;
    }
  }

  /** Depth after successes with the given averages, one after the other. */
  function TunedMany(cfg: Config, depth: int, averages: seq<int>): int
    decreases |averages|
  {
    if averages == [] then depth
    else Tuned(cfg, TunedMany(cfg, depth, averages[..|averages| - 1]), averages[|averages| - 1])
  }

  /** Slow answers drain the depth one by one down to one; fast ones raise it one by one up to the cap. */
  lemma {:induction false} DepthFollowsLatency(cfg: Config, depth: int, averages: seq<int>)
    requires 1 <= depth < MAX_INT32 - |averages|
    ensures (forall i :: 0 <= i < |averages| ==> averages[i] >= 101 * MILLISECOND) ==>
      TunedMany(cfg, depth, averages) == Max(depth - |averages|, 1)
    ensures averages != [] && (forall i :: 0 <= i < |averages| ==> averages[i] < 10 * MILLISECOND) ==>
      TunedMany(cfg, depth, averages) == Min(depth + |averages|, Min(Limit(cfg), HARD_CAP))
    ensures (forall i :: 0 <= i < |averages| ==> 10 * MILLISECOND <= averages[i] < 101 * MILLISECOND) ==>
      TunedMany(cfg, depth, averages) == depth
    decreases |averages|
  {
    if averages != [] {
      DepthFollowsLatency(cfg, depth, averages[..|averages| - 1]);
      WholeMilliseconds(averages[|averages| - 1]);
    }
  }

  /** The averages just after each success of a run. */
  function Averages(evs: seq<Event>): seq<int> {
    if evs == [] then []
    else Averages(evs[..|evs| - 1]) + if evs[|evs| - 1].Success? then [AverageOf(evs)] else []
  }

  /** On every run the depth is what the averages make of the configured one, and it stays put unless tuning is on. */
  lemma {:induction false} DepthOfRun(cfg: Config, evs: seq<Event>)
    ensures Run(cfg, evs).depth == if Tunes(cfg) then TunedMany(cfg, Limit(cfg), Averages(evs)) else Limit(cfg)
    decreases |evs|
  {
    if evs != [] {
      var was, e := evs[..|evs| - 1], evs[|evs| - 1];
      DepthOfRun(cfg, was);
      if cfg.scoring { RunDescribed(cfg, was); }
      RunStep(cfg, evs);
      assert evs == was + [e];
      AverageSnoc(was, e);
      hide Run, AverageOf, Average, Tuned, Score, Limit;
      if e.Success? {
        assert Averages(evs) == Averages(was) + [AverageOf(evs)];
        assert Averages(evs)[..|Averages(was)|] == Averages(was);
      } else {
        assert Averages(evs) == Averages(was);
      }
    }
  }

  lemma WholeMilliseconds(ns: int)
    ensures Quotient(ns, MILLISECOND) < 10 <==> ns < 10 * MILLISECOND
    ensures Quotient(ns, MILLISECOND) > 100 <==> ns >= 101 * MILLISECOND
  {}
}

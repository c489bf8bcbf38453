/** activeReqs and poolClaimed of one sequential connection, under any interleaving of its users. */
module Claims {
  import opened Bytes

  /** A goroutine that uses the connection. */
  datatype User =
    | Away
    | Won          // getIdleConnection: compare-and-swap 0 -> 1 done, poolClaimed not yet stored
    | Holding      // claim complete, on the way to doSequential
    | Arriving     // got the connection without a claim (createConnection, getAnyConnection)
    | Counting     // doSequential: swap found no claim, about to add one to activeReqs
    | Running      // doSequential: counted
    | Abandoned    // claimed, but Do failed before doSequential

  datatype State = State(active: int, claimed: bool, users: seq<User>)

  datatype Action =
    | Spawn | Claim(u: nat) | StoreClaim(u: nat) | Come(u: nat) | Enter(u: nat) | CountUp(u: nat) | Finish(u: nat)
    | Abandon(u: nat)

  predicate Is(s: State, u: nat, x: User) { u < |s.users| && s.users[u] == x }

  predicate Enabled(s: State, a: Action) {
    match a
    case Spawn => true
    case Claim(u) => Is(s, u, Away) && s.active == 0
    case StoreClaim(u) => Is(s, u, Won)
    case Come(u) => Is(s, u, Away)
    case Enter(u) => Is(s, u, Holding) || Is(s, u, Arriving)
    case CountUp(u) => Is(s, u, Counting)
    case Finish(u) => Is(s, u, Running)
    case Abandon(u) => Is(s, u, Holding)
  }

  function Next(s: State, a: Action): State
    requires Enabled(s, a)
  {
    match a
    case Spawn => s.(users := s.users + [Away])
    case Claim(u) => s.(active := 1, users := s.users[u := Won])
    case StoreClaim(u) => s.(claimed := true, users := s.users[u := Holding])
    case Come(u) => s.(users := s.users[u := Arriving])
    case Enter(u) => s.(claimed := false, users := s.users[u := if s.claimed then Running else Counting])
    case CountUp(u) => s.(active := s.active + 1, users := s.users[u := Running])
    case Finish(u) => s.(active := s.active - 1, users := s.users[u := Away])
    case Abandon(u) => s.(users := s.users[u := Abandoned])
  }

  function Run(acts: seq<Action>): Option<State> {
    if acts == [] then Some(State(0, false, []))
    else
      match Run(acts[..|acts| - 1])
      case None => None
      case Some(s) =>
        var a := acts[|acts| - 1];
        if Enabled(s, a) then Some(Next(s, a)) else None
  }

  // ---------------------------------------------------------------- counting users

  function One(b: bool): nat { if b then 1 else 0 }

  function Tally(us: seq<User>, f: User -> bool): nat {
    if us == [] then 0 else One(f(us[0])) + Tally(us[1..], f)
  }

  lemma {:induction false} TallyUpdate(us: seq<User>, i: nat, x: User, f: User -> bool)
    requires i < |us|
    ensures Tally(us[i := x], f) == Tally(us, f) - One(f(us[i])) + One(f(x))
  {
    if i > 0 {
      TallyUpdate(us[1..], i - 1, x, f);
      assert us[i := x][1..] == us[1..][i - 1 := x];
    } else {
      assert us[i := x][1..] == us[1..];
    }
  }

  lemma {:induction false} TallyAppend(us: seq<User>, x: User, f: User -> bool)
    ensures Tally(us + [x], f) == Tally(us, f) + One(f(x))
  {
    if us == [] {
      assert us + [x] == [x];
    } else {
      TallyAppend(us[1..], x, f);
      assert (us + [x])[1..] == us[1..] + [x];
    }
  }

  lemma {:induction false} TallyNone(us: seq<User>, f: User -> bool)
    ensures Tally(us, f) == 0 <==> forall i :: 0 <= i < |us| ==> !f(us[i])
  {
    if us != [] {
      TallyNone(us[1..], f);
      assert forall i :: 0 < i < |us| ==> us[i] == us[1..][i - 1];
      assert forall i :: 0 <= i < |us[1..]| ==> us[1..][i] == us[i + 1];
    }
  }

  predicate InRun(u: User) { u.Running? }
  predicate HasWon(u: User) { u.Won? }
  predicate OnClaim(u: User) { u.Holding? || u.Abandoned? }
  predicate Busy(u: User) { u.Won? || u.Holding? || u.Running? || u.Abandoned? }

  lemma TallyStep(s: State, a: Action, f: User -> bool)
    requires Enabled(s, a)
    ensures if a.Spawn? then Tally(Next(s, a).users, f) == Tally(s.users, f) + One(f(Away))
      else Tally(Next(s, a).users, f) == Tally(s.users, f) - One(f(s.users[a.u])) + One(f(Next(s, a).users[a.u]))
  {
    if a.Spawn? {
      TallyAppend(s.users, Away, f);
    } else {
      TallyUpdate(s.users, a.u, Next(s, a).users[a.u], f);
    }
  }

  // ---------------------------------------------------------------- every run

  /** activeReqs is the running requests plus the at most one unconsumed claim. */
  ghost predicate Accounted(s: State) {
    && s.active == Tally(s.users, InRun) + Tally(s.users, HasWon) + One(s.claimed)
    && Tally(s.users, HasWon) + One(s.claimed) <= 1
    && (s.claimed ==> Tally(s.users, OnClaim) > 0)
  }

  lemma KeepAccounted(s: State, a: Action)
    requires Accounted(s) && Enabled(s, a)
    ensures Accounted(Next(s, a))
  {
    TallyStep(s, a, InRun);
    TallyStep(s, a, HasWon);
    TallyStep(s, a, OnClaim);
  }

  lemma {:induction false} RunsAreAccounted(acts: seq<Action>)
    requires Run(acts).Some?
    ensures Accounted(Run(acts).value)
    decreases |acts|
  {
    hide Next, Enabled;
    if acts != [] {
      RunsAreAccounted(acts[..|acts| - 1]);
      KeepAccounted(Run(acts[..|acts| - 1]).value, acts[|acts| - 1]);
    }
  }

  predicate AtRest(s: State) { forall i :: 0 <= i < |s.users| ==> s.users[i].Away? || s.users[i].Abandoned? }

  /**
   * When all requests have finished, activeReqs is back to 0 exactly when no claim is left over, and a claim is left
   * over only if some claimant never reached doSequential.
   */
  lemma BackToZero(acts: seq<Action>)
    requires Run(acts).Some? && AtRest(Run(acts).value)
    ensures var s := Run(acts).value;
      && (s.active == 0 <==> !s.claimed)
      && (s.active != 0 ==> exists i :: 0 <= i < |s.users| && s.users[i].Abandoned?)
  {
    RunsAreAccounted(acts);
    var us := Run(acts).value.users;
    hide Run;
    TallyNone(us, InRun);
    TallyNone(us, HasWon);
    TallyNone(us, OnClaim);
  }

  // ---------------------------------------------------------------- claimants only

  predicate ClaimsOnly(acts: seq<Action>) { forall i :: 0 <= i < |acts| ==> !acts[i].Come? }

  ghost predicate Exclusive(s: State) {
    && s.active == Tally(s.users, Busy) <= 1
    && (s.claimed <==> Tally(s.users, OnClaim) == 1)
    && Tally(s.users, OnClaim) <= Tally(s.users, Busy)
    && (forall i :: 0 <= i < |s.users| ==> !s.users[i].Arriving? && !s.users[i].Counting?)
  }

  lemma KeepExclusive(s: State, a: Action)
    requires Exclusive(s) && Enabled(s, a) && !a.Come?
    ensures Exclusive(Next(s, a))
  {
    TallyStep(s, a, Busy);
    TallyStep(s, a, OnClaim);
    if a.Enter? {
      TallyNone(s.users, OnClaim);
      assert OnClaim(s.users[a.u]);
    }
    if a.StoreClaim? {
      TallyNone(s.users, OnClaim);
      assert Busy(s.users[a.u]) && !OnClaim(s.users[a.u]);
      OnClaimIsBusy(s.users, a.u);
    }
    if a.Finish? {
      OnClaimIsBusy(s.users, a.u);
    }
  }

  /** A busy user without a claim in its hands leaves strictly fewer claims than busy users. */
  lemma {:induction false} OnClaimIsBusy(us: seq<User>, i: nat)
    requires i < |us| && Busy(us[i]) && !OnClaim(us[i])
    ensures Tally(us, OnClaim) < Tally(us, Busy)
    decreases |us|
  {
    OnClaimAtMostBusy(us[1..]);
    if i > 0 { OnClaimIsBusy(us[1..], i - 1); }
  }

  lemma {:induction false} OnClaimAtMostBusy(us: seq<User>)
    ensures Tally(us, OnClaim) <= Tally(us, Busy)
  {
    if us != [] { OnClaimAtMostBusy(us[1..]); }
  }

  /** If every user comes through getIdleConnection, at most one request runs on the connection at a time. */
  lemma {:induction false} OneAtATime(acts: seq<Action>)
    requires Run(acts).Some? && ClaimsOnly(acts)
    ensures Exclusive(Run(acts).value)
    ensures forall i, j :: 0 <= i < j < |Run(acts).value.users| ==>
      !(Run(acts).value.users[i].Running? && Run(acts).value.users[j].Running?)
    decreases |acts|
  {
    if acts != [] {
      var before := acts[..|acts| - 1];
      OneAtATime(before);
      hide Next, Enabled;
      KeepExclusive(Run(before).value, acts[|acts| - 1]);
    }
    var us := Run(acts).value.users;
    forall i, j | 0 <= i < j < |us|
      ensures !(us[i].Running? && us[j].Running?)
    {
      TwoBusy(us, i, j);
    }
  }

  lemma {:induction false} TwoBusy(us: seq<User>, i: nat, j: nat)
    requires i < j < |us|
    ensures Busy(us[i]) && Busy(us[j]) ==> Tally(us, Busy) >= 2
    decreases |us|
  {
    if i > 0 {
      TwoBusy(us[1..], i - 1, j - 1);
    } else {
      TallyNone(us[1..], Busy);
      assert us[1..][j - 1] == us[j];
    }
  }

  lemma RunSnoc(acts: seq<Action>, a: Action, s: State)
    requires Run(acts) == Some(s) && Enabled(s, a)
    ensures Run(acts + [a]) == Some(Next(s, a))
  {
    assert (acts + [a])[..|acts|] == acts;
  }

  // ---------------------------------------------------------------- a claim that is never used

  /** A claim is left over: the counter stands at 1, and nobody is past the door of doSequential. */
  predicate LeftOver(s: State) {
    && s.claimed && s.active == 1
    && forall i :: 0 <= i < |s.users| ==> s.users[i].Away? || s.users[i].Abandoned? || s.users[i].Arriving?
  }

  /** A claimant whose call fails before doSequential leaves the counter at 1, and nobody can claim. */
  lemma AbandonedClaimLeft() returns (acts: seq<Action>)
    ensures Run(acts).Some? && AtRest(Run(acts).value) && LeftOver(Run(acts).value)
    ensures forall u :: !Enabled(Run(acts).value, Claim(u))
  {
    var s := State(0, false, []);
    acts := [];
    RunSnoc(acts, Spawn, s);
    acts, s := acts + [Spawn], Next(s, Spawn);
    RunSnoc(acts, Claim(0), s);
    acts, s := acts + [Claim(0)], Next(s, Claim(0));
    RunSnoc(acts, StoreClaim(0), s);
    acts, s := acts + [StoreClaim(0)], Next(s, StoreClaim(0));
    RunSnoc(acts, Abandon(0), s);
    acts, s := acts + [Abandon(0)], Next(s, Abandon(0));
  }

  predicate NobodyEnters(acts: seq<Action>) { forall i :: 0 <= i < |acts| ==> !acts[i].Enter? }

  lemma LeftOverStep(s: State, a: Action)
    requires LeftOver(s) && Enabled(s, a)
    ensures a.Spawn? || a.Come? || a.Enter?
    ensures LeftOver(Next(s, a)) <==> !a.Enter?
  {}

  lemma {:induction false} LeftOverKept(acts: seq<Action>, more: seq<Action>)
    requires Run(acts).Some? && LeftOver(Run(acts).value) && Run(acts + more).Some?
    requires NobodyEnters(more)
    ensures LeftOver(Run(acts + more).value)
    decreases |more|
  {
    hide LeftOver, Next, Enabled;
    if more == [] {
      assert acts + more == acts;
    } else {
      var n := |more| - 1;
      assert (acts + more)[..|acts + more| - 1] == acts + more[..n];
      LeftOverKept(acts, more[..n]);
      LeftOverStep(Run(acts + more[..n]).value, more[n]);
    }
  }

  lemma {:induction false} PrefixRuns(acts: seq<Action>, k: nat)
    requires Run(acts).Some? && k <= |acts|
    ensures Run(acts[..k]).Some?
    decreases |acts|
  {
    if k < |acts| {
      var before := acts[..|acts| - 1];
      PrefixRuns(before, k);
      assert before[..k] == acts[..k];
    } else {
      assert acts[..k] == acts;
    }
  }

  ghost predicate LeftOverAt(acts: seq<Action>, more: seq<Action>, k: nat) {
    k <= |more| && Run(acts + more[..k]).Some? && LeftOver(Run(acts + more[..k]).value)
  }

  /**
   * A claim left over stays, and with it the 1 in the counter, exactly until some user enters doSequential, and only a
   * user that came without a claim can: up to then nobody can claim.
   */
  lemma LeftOverUntilEntered(acts: seq<Action>, more: seq<Action>)
    requires Run(acts).Some? && LeftOver(Run(acts).value) && Run(acts + more).Some?
    ensures (forall k :: 0 <= k <= |more| ==> LeftOverAt(acts, more, k)) <==> NobodyEnters(more)
    ensures NobodyEnters(more) ==> forall i :: 0 <= i < |more| ==> more[i].Spawn? || more[i].Come?
    ensures NobodyEnters(more) ==> forall u :: !Enabled(Run(acts + more).value, Claim(u))
  {
    forall k | 0 <= k <= |more| ensures Run(acts + more[..k]).Some? {
      PrefixRuns(acts + more, |acts| + k);
      assert (acts + more)[..|acts| + k] == acts + more[..k];
    }
    hide Run;
    if NobodyEnters(more) {
      forall k | 0 <= k <= |more| ensures LeftOverAt(acts, more, k) { LeftOverKept(acts, more[..k]); }
      forall i | 0 <= i < |more| ensures more[i].Spawn? || more[i].Come? { MoveAt(acts, more, i); }
      assert LeftOverAt(acts, more, |more|) && more[..|more|] == more;
    } else {
      var i :| 0 <= i < |more| && more[i].Enter?;
      if LeftOverAt(acts, more, i) {
        MoveAt(acts, more, i);
        assert !LeftOverAt(acts, more, i + 1);
      }
    }
  }

  lemma MoveAt(acts: seq<Action>, more: seq<Action>, i: nat)
    requires i < |more| && LeftOverAt(acts, more, i) && Run(acts + more[..i + 1]).Some?
    ensures more[i].Spawn? || more[i].Come? || more[i].Enter?
    ensures LeftOverAt(acts, more, i + 1) <==> !more[i].Enter?
  {
    var next := acts + more[..i + 1];
    assert next[..|next| - 1] == acts + more[..i] && next[|next| - 1] == more[i];
    hide LeftOver, Next, Enabled;
    LeftOverStep(Run(acts + more[..i]).value, more[i]);
  }

  /**
   * The first user to enter then consumes the claim: it runs without adding to the counter, and when it finishes the
   * counter is back at 0.
   */
  lemma EntrantConsumesClaim(acts: seq<Action>, more: seq<Action>, u: nat)
    requires Run(acts).Some? && LeftOver(Run(acts).value) && Run(acts + more + [Enter(u), Finish(u)]).Some?
    requires NobodyEnters(more)
    ensures Run(acts + more + [Enter(u)]).Some? && Run(acts + more).Some?
    ensures Is(Run(acts + more).value, u, Arriving)
    ensures var s := Run(acts + more + [Enter(u)]).value; Is(s, u, Running) && s.active == 1 && !s.claimed
    ensures var s := Run(acts + more + [Enter(u), Finish(u)]).value; s.active == 0 && !s.claimed
  {
    var entered, finished := acts + more + [Enter(u)], acts + more + [Enter(u), Finish(u)];
    assert finished[..|finished| - 1] == entered;
    assert entered[..|entered| - 1] == acts + more;
    LeftOverKept(acts, more);
  }

  /** And that can always happen. */
  lemma ClaimCanBeConsumed(acts: seq<Action>) returns (more: seq<Action>)
    requires Run(acts).Some? && LeftOver(Run(acts).value)
    ensures Run(acts + more).Some? && Run(acts + more).value.active == 0 && !Run(acts + more).value.claimed
  {
    var s, u := Run(acts).value, |Run(acts).value.users|;
    hide Run;
    more := [Spawn, Come(u), Enter(u), Finish(u)];
    RunSnoc(acts, Spawn, s);
    s := Next(s, Spawn);
    RunSnoc(acts + [Spawn], Come(u), s);
    s := Next(s, Come(u));
    RunSnoc(acts + [Spawn] + [Come(u)], Enter(u), s);
    s := Next(s, Enter(u));
    RunSnoc(acts + [Spawn] + [Come(u)] + [Enter(u)], Finish(u), s);
    assert acts + more == acts + [Spawn] + [Come(u)] + [Enter(u)] + [Finish(u)];
  }

  /** A user without a claim breaks exclusion: it starts while a claimant's request runs. */
  lemma UnclaimedUserOverlaps() returns (acts: seq<Action>)
    ensures Run(acts).Some? && Run(acts).value.users == [Running, Running]
  {
    var s := State(0, false, []);
    acts := [];
    RunSnoc(acts, Spawn, s);
    acts, s := acts + [Spawn], Next(s, Spawn);
    RunSnoc(acts, Spawn, s);
    acts, s := acts + [Spawn], Next(s, Spawn);
    RunSnoc(acts, Claim(0), s);
    acts, s := acts + [Claim(0)], Next(s, Claim(0));
    RunSnoc(acts, StoreClaim(0), s);
    acts, s := acts + [StoreClaim(0)], Next(s, StoreClaim(0));
    RunSnoc(acts, Enter(0), s);
    acts, s := acts + [Enter(0)], Next(s, Enter(0));
    RunSnoc(acts, Come(1), s);
    acts, s := acts + [Come(1)], Next(s, Come(1));
    RunSnoc(acts, Enter(1), s);
    acts, s := acts + [Enter(1)], Next(s, Enter(1));
    RunSnoc(acts, CountUp(1), s);
    acts, s := acts + [CountUp(1)], Next(s, CountUp(1));
  }
}

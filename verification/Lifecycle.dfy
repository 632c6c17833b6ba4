/** Cancellation, results and shutdown of a pump, over every run. */
module Lifecycle {
  import opened Errors
  import opened BufferPool
  import opened Pump

  // ---- cancellation and results ----

  /** The first non-nil error among the loop results, in the order the errgroup saw them. */
  function FirstError(exits: seq<Option<Error>>): Option<Error> {
    if exits == [] then None else if exits[0].Some? then exits[0] else FirstError(exits[1..])
  }

  lemma {:induction false} FirstErrorSnoc(exits: seq<Option<Error>>, e: Option<Error>)
    ensures FirstError(exits + [e]) == if FirstError(exits).Some? then FirstError(exits) else e
  {
    if exits == [] {
      assert exits + [e] == [e];
    } else {
      assert (exits + [e])[1..] == exits[1..] + [e];
      FirstErrorSnoc(exits[1..], e);
    }
  }

  /** The loop results the errgroup has seen, as the program counters show them. */
  predicate ExitsMatch(s: State) {
    && (!s.up.UDone? && !s.down.DDone? ==> s.group.exits == [])
    && (s.up.UDone? && !s.down.DDone? ==> s.group.exits == [s.up.err])
    && (!s.up.UDone? && s.down.DDone? ==> s.group.exits == [s.down.err])
    && (s.up.UDone? && s.down.DDone? ==>
          s.group.exits == [s.up.err, s.down.err] || s.group.exits == [s.down.err, s.up.err])
  }

  /** gCtx is done exactly when the caller cancelled, a loop returned an error, or Run returned;
      only then has the watcher closed anything. */
  predicate CancelInv(s: State) {
    && (s.group.done <==> s.group.cancelled || s.group.first.Some? || s.group.result.Some?)
    && (!s.watch.Waiting? ==> s.group.done && s.devClosed)
    && s.group.first == FirstError(s.group.exits)
    && ExitsMatch(s)
    && (s.group.result.Some? ==> s.up.UDone? && s.down.DDone? && s.group.result.value == s.group.first)
  }

  lemma CancelStep(s: State, a: Action)
    requires CancelInv(s) && Enabled(s, a)
    ensures CancelInv(Apply(s, a))
  {
    hide UpApply, DownApply, CancelInv, RestApply;
    if a.UpExit? { UpExitCancel(s, a); }
    else if a.DownExit? { DownExitCancel(s, a); }
    else if UpEnabled(s, a) || DownEnabled(s, a) { LoopCancel(s, a); }
    else { RestCancel(s, a); }
  }

  lemma UpExitCancel(s: State, a: Action)
    requires CancelInv(s) && UpEnabled(s, a) && a.UpExit?
    ensures CancelInv(UpApply(s, a))
  {
    hide UpApply;
    FirstErrorSnoc(s.group.exits, s.up.err);
  }

  lemma DownExitCancel(s: State, a: Action)
    requires CancelInv(s) && DownEnabled(s, a) && a.DownExit?
    ensures CancelInv(DownApply(s, a))
  {
    hide DownApply;
    FirstErrorSnoc(s.group.exits, s.down.err);
  }

  lemma LoopCancel(s: State, a: Action)
    requires CancelInv(s) && (UpEnabled(s, a) || DownEnabled(s, a)) && !a.UpExit? && !a.DownExit?
    ensures CancelInv(Apply(s, a))
  {
    hide UpApply, DownApply, FirstError;
  }

  lemma RestCancel(s: State, a: Action)
    requires CancelInv(s) && RestEnabled(s, a)
    ensures CancelInv(RestApply(s, a))
  {
    hide FirstError;
  }

  // ---- why a loop ended ----

  predicate IsUpOp(op: Operation) { op.ReadTun? || op.TagDispatch? || op.SendFrame? }

  /** gCtx was done while a loop was still running. */
  predicate Stopped(g: Group) { g.cancelled || g.first.Some? }

  /** The up loop ends with an error only because of an up operation that failed badly, and
      with nil only on an orderly error or after gCtx was done. */
  ghost predicate UpWhy(s: State, e: Option<Error>) {
    if e.Some? then exists f :: f in s.log.failures && IsUpOp(f.op) && Outcome(f) == e
    else Stopped(s.group) || exists f :: f in s.log.failures && IsUpOp(f.op) && Outcome(f) == e
  }

  predicate ClosedByPeer(s: State) {
    exists r :: r in s.log.received && r.Got? && r.frame.close.Some?
  }

  ghost predicate DownWhy(s: State, e: Option<Error>) {
    if e.Some? then exists f :: f in s.log.failures && !IsUpOp(f.op) && Outcome(f) == e
    else Stopped(s.group) || ClosedByPeer(s) || exists f :: f in s.log.failures && !IsUpOp(f.op) && Outcome(f) == e
  }

  ghost predicate WhyInv(s: State) {
    && (s.up.UPut? && s.up.next.Return? ==> UpWhy(s, s.up.next.err))
    && (s.up.URet? || s.up.UDone? ==> UpWhy(s, s.up.err))
    && (s.down.DPut? && s.down.next.Return? ==> DownWhy(s, s.down.next.err))
    && (s.down.DRet? || s.down.DDone? ==> DownWhy(s, s.down.err))
  }

  /** Reasons stay valid: failures and received frames are only ever added, gCtx stays done. */
  lemma WhyMonotone(s: State, t: State, e: Option<Error>)
    requires s.log.failures <= t.log.failures && s.log.received <= t.log.received
    requires Stopped(s.group) ==> Stopped(t.group)
    ensures UpWhy(s, e) ==> UpWhy(t, e)
    ensures DownWhy(s, e) ==> DownWhy(t, e)
  {
    hide Outcome;
    if ClosedByPeer(s) {
      var r :| r in s.log.received && r.Got? && r.frame.close.Some?;
      assert r in t.log.received;
    }
    assert forall f :: f in s.log.failures ==> f in t.log.failures;
  }

  lemma HistoryGrows(s: State, a: Action)
    requires Enabled(s, a)
    ensures var t := Apply(s, a);
            && s.log.failures <= t.log.failures && s.log.received <= t.log.received && (s.group.done ==> t.group.done)
            && s.log.wrote <= t.log.wrote && s.log.read <= t.log.read && t.pool.size == s.pool.size
            && (s.devClosed ==> t.devClosed)
            && (s.group.first.Some? ==> t.group.first == s.group.first) && (s.group.cancelled ==> t.group.cancelled)
  {
    hide UpApply, DownApply;
    if UpEnabled(s, a) { UpHistory(s, a); } else if DownEnabled(s, a) { DownHistory(s, a); }
  }

  lemma FailureRecorded(s: State, f: Failure)
    requires f in s.log.failures
    ensures IsUpOp(f.op) ==> UpWhy(s, Outcome(f))
    ensures !IsUpOp(f.op) ==> DownWhy(s, Outcome(f))
  {
    hide Outcome;
  }

  lemma UpWhyStep(s: State, a: Action)
    requires WhyInv(s) && CancelInv(s) && UpEnabled(s, a)
    ensures WhyInv(UpApply(s, a))
  {
    hide Outcome, UpWhy, DownWhy, CancelInv, Store, Obtain, Release, TagFor;
    var t := UpApply(s, a);
    HistoryGrows(s, a);
    if s.group.done { DoneMeansStopped(s); }
    if s.up.UPut? && s.up.next.Return? { WhyMonotone(s, t, s.up.next.err); }
    if s.up.URet? { WhyMonotone(s, t, s.up.err); }
    DownWhyCarried(s, t);
    if t.log.failures != s.log.failures {
      var f := t.log.failures[|s.log.failures|];
      assert f in t.log.failures;
      FailureRecorded(t, f);
    }
    if a.UpCheck? && s.group.done { CancelledIsWhy(t); }
  }

  lemma DoneMeansStopped(s: State)
    requires CancelInv(s) && s.group.done && !(s.up.UDone? && s.down.DDone?)
    ensures Stopped(s.group)
  {
  }

  lemma CancelledIsWhy(s: State)
    requires Stopped(s.group)
    ensures UpWhy(s, None) && DownWhy(s, None)
  {
  }

  lemma DownWhyCarried(s: State, t: State)
    requires WhyInv(s) && t.down == s.down
    requires s.log.failures <= t.log.failures && s.log.received <= t.log.received
    requires Stopped(s.group) ==> Stopped(t.group)
    ensures t.down.DPut? && t.down.next.Return? ==> DownWhy(t, t.down.next.err)
    ensures t.down.DRet? || t.down.DDone? ==> DownWhy(t, t.down.err)
  {
    hide UpWhy, DownWhy;
    if t.down.DPut? && t.down.next.Return? { WhyMonotone(s, t, t.down.next.err); }
    if t.down.DRet? || t.down.DDone? { WhyMonotone(s, t, t.down.err); }
  }

  lemma UpWhyCarried(s: State, t: State)
    requires WhyInv(s) && t.up == s.up
    requires s.log.failures <= t.log.failures && s.log.received <= t.log.received
    requires Stopped(s.group) ==> Stopped(t.group)
    ensures t.up.UPut? && t.up.next.Return? ==> UpWhy(t, t.up.next.err)
    ensures t.up.URet? || t.up.UDone? ==> UpWhy(t, t.up.err)
  {
    hide UpWhy, DownWhy;
    if t.up.UPut? && t.up.next.Return? { WhyMonotone(s, t, t.up.next.err); }
    if t.up.URet? || t.up.UDone? { WhyMonotone(s, t, t.up.err); }
  }

  lemma DownWhyStep(s: State, a: Action)
    requires WhyInv(s) && CancelInv(s) && DownEnabled(s, a)
    ensures WhyInv(DownApply(s, a))
  {
    hide Outcome, UpWhy, DownWhy, CancelInv, Store, Obtain, Release;
    var t := DownApply(s, a);
    HistoryGrows(s, a);
    if s.group.done { DoneMeansStopped(s); }
    if s.down.DPut? && s.down.next.Return? { WhyMonotone(s, t, s.down.next.err); }
    if s.down.DRet? { WhyMonotone(s, t, s.down.err); }
    UpWhyCarried(s, t);
    if t.log.failures != s.log.failures {
      var f := t.log.failures[|s.log.failures|];
      assert f in t.log.failures;
      FailureRecorded(t, f);
    }
    if a.DownCheck? && s.group.done { CancelledIsWhy(t); }
    if a.DownRecv? && a.r.Got? && a.r.frame.close.Some? {
      assert a.r in t.log.received;
      PeerCloseIsWhy(t);
    }
  }

  lemma PeerCloseIsWhy(s: State)
    requires ClosedByPeer(s)
    ensures DownWhy(s, None)
  {
  }

  lemma WhyStep(s: State, a: Action)
    requires WhyInv(s) && CancelInv(s) && Enabled(s, a)
    ensures WhyInv(Apply(s, a))
  {
    hide WhyInv, CancelInv, UpApply, DownApply;
    if UpEnabled(s, a) {
      UpWhyStep(s, a);
    } else if DownEnabled(s, a) {
      DownWhyStep(s, a);
    } else {
      RestWhyStep(s, a);
    }
  }

  lemma RestWhyStep(s: State, a: Action)
    requires WhyInv(s) && RestEnabled(s, a)
    ensures WhyInv(RestApply(s, a))
  {
    var t := RestApply(s, a);
    UpWhyCarried(s, t);
    DownWhyCarried(s, t);
  }

  lemma {:induction false} LifecycleOfRun(s: State, acts: seq<Action>, t: State)
    requires CancelInv(s) && WhyInv(s) && Exec(s, acts) == Some(t)
    ensures CancelInv(t) && WhyInv(t)
    decreases acts
  {
    hide CancelInv, WhyInv, Apply, Enabled;
    if acts != [] {
      CancelStep(s, acts[0]);
      WhyStep(s, acts[0]);
      LifecycleOfRun(Apply(s, acts[0]), acts[1..], t);
    }
  }

  /** Exact cancellation condition, in every reachable state. In particular a loop that ends
      gracefully on its own neither cancels gCtx nor makes the watcher close anything. */
  lemma ExactCancellation(s: State)
    requires Reachable(s)
    ensures s.group.done <==> (s.group.cancelled || s.group.result.Some?
                               || (s.up.UDone? && s.up.err.Some?) || (s.down.DDone? && s.down.err.Some?))
    ensures !s.watch.Waiting? ==> s.group.done && s.devClosed
  {
    hide Exec;
    var mtu, overhead, acts :| Exec(Init(mtu, overhead), acts) == Some(s);
    LifecycleOfRun(Init(mtu, overhead), acts, s);
    assert s.group.exits != [] ==>
             FirstError(s.group.exits)
             == if s.group.exits[0].Some? then s.group.exits[0] else FirstError(s.group.exits[1..]);
  }

  lemma ErrorIsPumpError(f: Failure)
    requires Outcome(f).Some?
    ensures !Graceful(f) && Outcome(f) == Some(PumpError(ReasonOf(f.op), f.cause))
  {
  }

  /** First error wins. Run's result is the first error a loop returned, it is nil only if both
      loops returned nil, and otherwise a PumpError around the cause of an operation that really
      failed, with the Reason of that operation. */
  lemma FirstErrorWins(s: State)
    requires Reachable(s) && s.group.result.Some?
    ensures s.group.result.value == FirstError(s.group.exits) && |s.group.exits| == 2
    ensures s.group.result.value.None? <==> s.group.exits[0].None? && s.group.exits[1].None?
    ensures s.group.result.value.Some? ==>
              exists f :: f in s.log.failures && !Graceful(f)
                          && s.group.result.value == Some(PumpError(ReasonOf(f.op), f.cause))
  {
    hide Exec;
    var mtu, overhead, acts :| Exec(Init(mtu, overhead), acts) == Some(s);
    LifecycleOfRun(Init(mtu, overhead), acts, s);
    assert FirstError(s.group.exits[1..])
        == if s.group.exits[1].Some? then s.group.exits[1] else FirstError(s.group.exits[1..][1..]);
    if s.group.result.value.Some? {
      var f :| f in s.log.failures && Outcome(f) == s.group.result.value;
      ErrorIsPumpError(f);
    }
  }

  /** Nil means an orderly end of both loops: cancellation, a Close frame, or a closed/EOF error. */
  lemma NilMeansOrderly(s: State)
    requires Reachable(s) && s.group.result == Some(None)
    ensures s.group.cancelled || exists f :: f in s.log.failures && IsUpOp(f.op) && Graceful(f)
    ensures s.group.cancelled || ClosedByPeer(s) || exists f :: f in s.log.failures && !IsUpOp(f.op) && Graceful(f)
  {
    hide Exec;
    var mtu, overhead, acts :| Exec(Init(mtu, overhead), acts) == Some(s);
    LifecycleOfRun(Init(mtu, overhead), acts, s);
    FirstErrorWins(s);
    assert s.up.err.None? && s.down.err.None?;
    if !s.group.cancelled {
      var f :| f in s.log.failures && IsUpOp(f.op) && Outcome(f).None?;
      assert Graceful(f);
      if !ClosedByPeer(s) {
        var g :| g in s.log.failures && !IsUpOp(g.op) && Outcome(g).None?;
        assert Graceful(g);
      }
    }
  }

  // ---- which operation ended which loop ----

  predicate UpEnds(up: Up, e: Option<Error>) {
    (up.UPut? && up.next == Return(e)) || up == URet(e) || up == UDone(e)
  }

  predicate DownEnds(down: Down, e: Option<Error>) {
    (down.DPut? && down.next == Return(e)) || down == DRet(e) || down == DDone(e)
  }

  /** An operation that failed has ended its loop, and its outcome is what the loop returns. */
  predicate Blamed(s: State, f: Failure) {
    if IsUpOp(f.op) then UpEnds(s.up, Outcome(f)) else DownEnds(s.down, Outcome(f))
  }

  predicate BlameInv(s: State) {
    forall i :: 0 <= i < |s.log.failures| ==> Blamed(s, s.log.failures[i])
  }

  /** A step adds at most one failure, of its own loop, and leaves an ended loop's result alone. */
  lemma UpBlame(s: State, a: Action, f: Failure)
    requires UpEnabled(s, a)
    ensures var t := UpApply(s, a);
            && (Blamed(s, f) ==> Blamed(t, f))
            && (t.log.failures == s.log.failures
                || exists g :: t.log.failures == s.log.failures + [g] && Blamed(t, g))
  {
    hide Outcome, Store, Obtain, TagFor;
    var t := UpApply(s, a);
    if t.log.failures != s.log.failures {
      var g := t.log.failures[|s.log.failures|];
      assert t.log.failures == s.log.failures + [g] && Blamed(t, g);
    }
  }

  lemma DownBlame(s: State, a: Action, f: Failure)
    requires DownEnabled(s, a)
    ensures var t := DownApply(s, a);
            && (Blamed(s, f) ==> Blamed(t, f))
            && (t.log.failures == s.log.failures
                || exists g :: t.log.failures == s.log.failures + [g] && Blamed(t, g))
  {
    hide Outcome, Store, Obtain;
    var t := DownApply(s, a);
    if t.log.failures != s.log.failures {
      var g := t.log.failures[|s.log.failures|];
      assert t.log.failures == s.log.failures + [g] && Blamed(t, g);
    }
  }

  lemma BlameStep(s: State, a: Action)
    requires BlameInv(s) && Enabled(s, a)
    ensures BlameInv(Apply(s, a))
  {
    hide UpApply, DownApply, Blamed;
    var t := Apply(s, a);
    forall i | 0 <= i < |t.log.failures| ensures Blamed(t, t.log.failures[i]) {
      var f := t.log.failures[i];
      if UpEnabled(s, a) { UpBlame(s, a, f); }
      else if DownEnabled(s, a) { DownBlame(s, a, f); }
      else { RestBlame(s, a, f); }
    }
  }

  lemma RestBlame(s: State, a: Action, f: Failure)
    requires RestEnabled(s, a)
    ensures Blamed(s, f) ==> Blamed(RestApply(s, a), f)
    ensures RestApply(s, a).log == s.log
  {
    hide Outcome;
  }

  lemma {:induction false} BlameOfRun(s: State, acts: seq<Action>, t: State)
    requires BlameInv(s) && Exec(s, acts) == Some(t)
    ensures BlameInv(t)
    decreases acts
  {
    hide BlameInv, Apply, Enabled;
    if acts != [] {
      BlameStep(s, acts[0]);
      BlameOfRun(Apply(s, acts[0]), acts[1..], t);
    }
  }

  /** Run returns nil exactly when every operation that failed failed in an orderly way: with a
      closed, EOF or context error where the taxonomy allows it. */
  lemma NilExactly(s: State)
    requires Reachable(s) && s.group.result.Some?
    ensures s.group.result.value.None? <==> forall f :: f in s.log.failures ==> Graceful(f)
  {
    hide Exec, Graceful;
    var mtu, overhead, acts :| Exec(Init(mtu, overhead), acts) == Some(s);
    LifecycleOfRun(Init(mtu, overhead), acts, s);
    BlameOfRun(Init(mtu, overhead), acts, s);
    FirstErrorWins(s);
    if s.group.result.value.None? {
      forall f | f in s.log.failures ensures Graceful(f) {
        assert Blamed(s, f);
        assert Outcome(f).None?;
      }
    }
  }

  // ---- shutdown ----

  /** Steps a loop can still take once gCtx is done. */
  function UpRank(up: Up): nat {
    match up
    case UGet => 7
    case UCall(_) => 6
    case UInRead(_) => 5
    case USend(_, _, _) => 4
    case UPut(_, _) => 3
    case UTop => 2
    case URet(_) => 1
    case UDone(_) => 0
  }

  function DownRank(down: Down): nat {
    match down
    case DRecv => 9
    case DInRecv => 8
    case DGet(_) => 7
    case DCopy(_, _) => 6
    case DCall(_, _) => 5
    case DInWrite(_, _) => 4
    case DPut(_, _) => 3
    case DTop => 2
    case DRet(_) => 1
    case DDone(_) => 0
  }

  function WatchRank(w: Watch): nat {
    match w case Waiting => 2 case DeviceShut => 1 case TunnelShut => 0
  }

  function Rank(s: State): nat {
    UpRank(s.up) + DownRank(s.down) + WatchRank(s.watch) + (if s.group.result.None? then 1 else 0)
  }

  lemma UpRankFalls(s: State, a: Action)
    requires s.group.done && UpEnabled(s, a)
    ensures UpRank(UpApply(s, a).up) < UpRank(s.up) && UpApply(s, a).group.done
    ensures UpApply(s, a).group.result == s.group.result
  {
    hide Outcome, Store, Obtain;
  }

  lemma DownRankFalls(s: State, a: Action)
    requires s.group.done && DownEnabled(s, a)
    ensures DownRank(DownApply(s, a).down) < DownRank(s.down) && DownApply(s, a).group.done
    ensures DownApply(s, a).group.result == s.group.result
  {
    hide Outcome, Store, Obtain;
  }

  /** Once gCtx is done every step of the program brings the end closer; the environment's
      steps do not push it away. */
  lemma RankFalls(s: State, a: Action)
    requires s.group.done && Enabled(s, a)
    ensures Apply(s, a).group.done
    ensures if IsEnvironment(a) then Rank(Apply(s, a)) == Rank(s) else Rank(Apply(s, a)) < Rank(s)
  {
    hide UpApply, DownApply, UpRank, DownRank;
    if UpEnabled(s, a) { UpRankFalls(s, a); } else if DownEnabled(s, a) { DownRankFalls(s, a); }
  }

  function ProgramSteps(acts: seq<Action>): nat {
    if acts == [] then 0 else (if IsEnvironment(acts[0]) then 0 else 1) + ProgramSteps(acts[1..])
  }

  /** After gCtx is done at most Rank(s) <= 19 program steps remain in any run, whatever the
      environment does in between. */
  lemma {:induction false} ShutdownBound(s: State, acts: seq<Action>, t: State)
    requires s.group.done && Exec(s, acts) == Some(t)
    ensures ProgramSteps(acts) + Rank(t) <= Rank(s) <= 19
    decreases acts
  {
    hide Apply, Enabled;
    if acts != [] {
      RankFalls(s, acts[0]);
      ShutdownBound(Apply(s, acts[0]), acts[1..], t);
    }
  }

  /** Calls of SendFrame and dev.Write that the loops can still make once gCtx is done. */
  function SendsLeft(up: Up): nat {
    if up.UGet? || up.UCall? || up.UInRead? || up.USend? then 1 else 0
  }

  function WritesLeft(down: Down): nat {
    if down.DRecv? || down.DInRecv? || down.DGet? || down.DCopy? || down.DCall? then 1 else 0
  }

  lemma UpTail(s: State, a: Action)
    requires s.group.done && UpEnabled(s, a)
    ensures var t := UpApply(s, a); t.log.sends + SendsLeft(t.up) <= s.log.sends + SendsLeft(s.up)
  {
    hide Outcome, Store, Obtain;
  }

  lemma DownTail(s: State, a: Action)
    requires s.group.done && DownEnabled(s, a)
    ensures var t := DownApply(s, a); t.log.writes + WritesLeft(t.down) <= s.log.writes + WritesLeft(s.down)
  {
    hide Outcome, Store, Obtain;
  }

  lemma TailStep(s: State, a: Action)
    requires s.group.done && Enabled(s, a)
    ensures var t := Apply(s, a);
            && t.log.sends + SendsLeft(t.up) <= s.log.sends + SendsLeft(s.up)
            && t.log.writes + WritesLeft(t.down) <= s.log.writes + WritesLeft(s.down)
  {
    hide UpApply, DownApply;
    if UpEnabled(s, a) { UpTail(s, a); UpHistory(s, a); }
    else if DownEnabled(s, a) { DownTail(s, a); DownHistory(s, a); }
  }

  lemma {:induction false} TailOfRun(s: State, acts: seq<Action>, t: State)
    requires s.group.done && Exec(s, acts) == Some(t)
    ensures t.log.sends + SendsLeft(t.up) <= s.log.sends + SendsLeft(s.up)
    ensures t.log.writes + WritesLeft(t.down) <= s.log.writes + WritesLeft(s.down)
    decreases acts
  {
    hide Apply, Enabled;
    if acts != [] {
      TailStep(s, acts[0]);
      RankFalls(s, acts[0]);
      TailOfRun(Apply(s, acts[0]), acts[1..], t);
    }
  }

  /** Bounded tail: after gCtx is done SendFrame is called at most once more, and so is dev.Write. */
  lemma BoundedTail(s: State, acts: seq<Action>, t: State)
    requires s.group.done && Exec(s, acts) == Some(t)
    ensures t.log.sends <= s.log.sends + 1 && t.log.writes <= s.log.writes + 1
  {
    TailOfRun(s, acts, t);
  }

  /** The errgroup's error is never replaced. */
  lemma {:induction false} FirstErrorStays(s: State, acts: seq<Action>, t: State)
    requires s.group.first.Some? && Exec(s, acts) == Some(t)
    ensures t.group.first == s.group.first
    decreases acts
  {
    hide Apply, Enabled;
    if acts != [] {
      HistoryGrows(s, acts[0]);
      FirstErrorStays(Apply(s, acts[0]), acts[1..], t);
    }
  }
}

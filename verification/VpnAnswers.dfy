/** What calls are answered, and what status an automatic restart ends with. */
module VpnAnswers {
  import opened VpnLoop

  // -------------------------------------------------------- what answers mean

  /** The runner of the loop's latest iteration runs, or has left a closed channel behind. */
  ghost predicate HasRunner(s: State) {
    s.closed || s.alive == {s.current}
  }

  /** The loop has not left its way from a start request to the report of its outcome. */
  ghost predicate OnItsWay(loop: LoopPc) {
    loop.LoopHead? || loop.Setup? || loop.EarlyWait? || loop.Signal? || loop.Exited?
  }

  ghost predicate AnswerIsTrue(s: State, pc: CallerPc) {
    match pc
    case SetNewStatus(Running) => s.loop.StayHere? ==> HasRunner(s)
    case Unlocking(Running) => s.status.Running? && InSelect(s.loop)
    case Unlocking(Stopped) => s.status.Stopped?
    case Unlocking(Completed) => false
    case AwaitRunning => s.userTrigger ==> OnItsWay(s.loop)
    case _ => true
  }

  ghost predicate Truthful(s: State) {
    && (s.loop.Exited? || s.loop.DrainForExit? || s.loop.Panicked? ==> s.ctxDone)
    && (s.loop.AwaitFirstStart? ==> s.userTrigger)
    && (s.loop == Signal(Running) ==> HasRunner(s))
    && (s.loop.StayHere? && s.status.Running? ==> HasRunner(s))
    && (forall c :: c in s.callers ==> AnswerIsTrue(s, s.callers[c]))
  }

  lemma CallerKeepsTruth(s: State, a: Action)
    requires Inv(s) && Truthful(s) && Enabled(s, a) && OfCaller(a)
    ensures Truthful(Apply(s, a))
  {
    var t := Apply(s, a);
    forall c | c in t.callers ensures AnswerIsTrue(t, t.callers[c]) {
      assert c in s.callers ==> AnswerIsTrue(s, s.callers[c]) && CallInProgress(s, s.callers[c]);
    }
  }

  lemma RequestKeepsTruth(s: State, a: Action)
    requires Inv(s) && Truthful(s) && Enabled(s, a) && (a.Start? || a.Stop?)
    ensures Truthful(Apply(s, a))
  {
    OnlyCaller(s, a.c);
    hide Mutexes, Runners;
  }

  lemma DeliveryKeepsTruth(s: State, a: Action)
    requires Inv(s) && Truthful(s) && Enabled(s, a) && (a.DeliverStatus? || a.DeliverStopped?)
    ensures Truthful(Apply(s, a))
  {
    OnlyCaller(s, a.c);
    assert AnswerIsTrue(s, s.callers[a.c]) && CallInProgress(s, s.callers[a.c]);
    hide Mutexes;
  }

  lemma LoopKeepsTruth(s: State, a: Action)
    requires Inv(s) && Truthful(s) && Enabled(s, a) && !OfCaller(a) && !OfBoth(a)
    ensures Truthful(Apply(s, a))
  {
    var t := Apply(s, a);
    forall c | c in t.callers ensures AnswerIsTrue(t, t.callers[c]) {
      assert AnswerIsTrue(s, s.callers[c]) && CallInProgress(s, s.callers[c]);
    }
  }

  lemma StepKeepsTruth(s: State, a: Action)
    requires Inv(s) && Truthful(s) && Enabled(s, a)
    ensures Truthful(Apply(s, a))
  {
    hide Inv, Truthful, Enabled, Apply;
    if OfCaller(a) {
      CallerKeepsTruth(s, a);
    } else if OfBoth(a) {
      if a.Start? || a.Stop? {
        RequestKeepsTruth(s, a);
      } else {
        DeliveryKeepsTruth(s, a);
      }
    } else {
      LoopKeepsTruth(s, a);
    }
  }

  lemma {:induction false} RunKeepsTruth(s: State, run: seq<Action>)
    requires Inv(s) && Truthful(s) && CanRun(s, run)
    ensures Truthful(After(s, run))
    decreases |run|
  {
    hide Inv, Truthful, Enabled, Apply;
    if run != [] {
      StepKeepsInv(s, run[0]);
      StepKeepsTruth(s, run[0]);
      RunKeepsTruth(Apply(s, run[0]), run[1..]);
    }
  }

  lemma ReachableIsTruthful(s: State)
    requires Reachable(s)
    ensures Truthful(s)
  {
    var run :| CanRun(INIT, run) && After(INIT, run) == s;
    RunKeepsTruth(INIT, run);
  }

  /**
    A call that is about to return "running" or "stopped" tells the truth: the status is that, and
    either no runner is alive, or the loop is in its select with a runner, or has left it for a
    crash or a cancellation without any status change yet.
   */
  lemma AnswersAreTrue(s: State, c: nat)
    requires Reachable(s) && c in s.callers && s.callers[c].Unlocking?
    ensures s.callers[c].outcome.Stopped? ==> s.status.Stopped? && s.alive == {}
    ensures s.callers[c].outcome.Running? ==>
              s.status.Running? && if s.loop.StayHere? then HasRunner(s)
                                   else s.loop.WantLoopMuToCrash? || s.ctxDone
    ensures !s.callers[c].outcome.Completed?
  {
    ReachableInv(s);
    ReachableIsTruthful(s);
    assert AnswerIsTrue(s, s.callers[c]);
  }

  /** The loop ends only after its cancellation. */
  lemma EndsWhenCancelled(s: State)
    requires Reachable(s) && (s.loop.Exited? || s.loop.Panicked? || s.loop.DrainForExit?)
    ensures s.ctxDone
  {
    ReachableIsTruthful(s);
  }

  // ------------------------------------------------------- which answer is given

  /** The call changes the status, rather than finding it as it is. */
  ghost predicate Starts(request: Status, existing: Status) {
    request.Running? && (existing.Stopped? || existing.Completed?)
  }

  ghost predicate Stops(request: Status, existing: Status) {
    request.Stopped? && existing.Running?
  }

  /** The answer to a request, by the status found, and by whether the caller's context ended first. */
  ghost predicate Answers(outcome: Status, request: Status, existing: Status, abandoned: bool) {
    if Starts(request, existing) then (if abandoned then outcome.Starting? else outcome.Running? || outcome.Crashed?)
    else if Stops(request, existing) then (if abandoned then outcome.Stopping? else outcome.Stopped?)
    else outcome == existing && !abandoned
  }

  /** A call that found this status is now here. */
  ghost predicate InCall(pc: CallerPc, request: Status, existing: Status, abandoned: bool) {
    match pc
    case Deciding(r, e) => r == request && e == existing && !abandoned
    case SendStart => Starts(request, existing) && !abandoned
    case AwaitRunning => Starts(request, existing) && !abandoned
    case SendStop => Stops(request, existing) && !abandoned
    case AwaitStopped => Stops(request, existing) && !abandoned
    case SetNewStatus(newStatus) =>
      (Starts(request, existing) || Stops(request, existing)) && Answers(newStatus, request, existing, abandoned)
    case Unlocking(outcome) => Answers(outcome, request, existing, abandoned)
    case _ => false
  }

  ghost predicate CallAt(s: State, c: nat, request: Status, existing: Status, abandoned: bool) {
    c in s.callers && InCall(s.callers[c], request, existing, abandoned)
  }

  lemma OwnCallStep(s: State, a: Action, c: nat, request: Status, existing: Status, abandoned: bool)
    requires Inv(s) && CallAt(s, c, request, existing, abandoned) && Enabled(s, a) && a != UnlockLoopMu(c)
    requires OfCaller(a) || OfBoth(a)
    ensures CallAt(Apply(s, a), c, request, existing, abandoned || a == ContextDone(c))
  {
    hide Mutexes, Meaning;
  }

  lemma CallStep(s: State, a: Action, c: nat, request: Status, existing: Status, abandoned: bool)
    requires Inv(s) && CallAt(s, c, request, existing, abandoned) && Enabled(s, a) && a != UnlockLoopMu(c)
    ensures CallAt(Apply(s, a), c, request, existing, abandoned || a == ContextDone(c))
  {
    if OfCaller(a) || OfBoth(a) {
      hide Inv, Enabled, Apply, CallAt;
      OwnCallStep(s, a, c, request, existing, abandoned);
    } else {
      hide Inv, InCall;
      assert Apply(s, a).callers == s.callers;
    }
  }

  lemma {:induction false} CallGoesOn(s: State, run: seq<Action>, c: nat, request: Status, existing: Status, abandoned: bool)
    requires Inv(s) && CallAt(s, c, request, existing, abandoned) && CanRun(s, run) && UnlockLoopMu(c) !in run
    ensures CallAt(After(s, run), c, request, existing, abandoned || ContextDone(c) in run)
    decreases |run|
  {
    if run != [] {
      hide Inv, Enabled, Apply, CallAt;
      assert run == [run[0]] + run[1..];
      CallStep(s, run[0], c, request, existing, abandoned);
      StepKeepsInv(s, run[0]);
      CallGoesOn(Apply(s, run[0]), run[1..], c, request, existing, abandoned || run[0] == ContextDone(c));
    }
  }

  /**
    The answer of a call, whatever happens after it has looked at the status: that status, if there
    is nothing to do; else Running or Crashed for a start and Stopped for a stop; or, exactly if its
    context ended first, Starting or Stopping.
   */
  lemma AnswerIs(s: State, run: seq<Action>, c: nat)
    requires Reachable(s) && c in s.callers && s.callers[c].Deciding?
    requires CanRun(s, run) && UnlockLoopMu(c) !in run
    ensures var t, call := After(s, run), s.callers[c];
            && c in t.callers && call.existing == s.status
            && (t.callers[c].Unlocking? ==>
                  Answers(t.callers[c].outcome, call.request, s.status, ContextDone(c) in run))
  {
    ReachableInv(s);
    CallGoesOn(s, run, c, s.callers[c].request, s.callers[c].existing, false);
  }

  // -------------------------------------------------- start answers that get lost

  /** The loop may still report the outcome of a start request. */
  ghost predicate CanReport(s: State) {
    s.userTrigger && (s.loop.Setup? || s.loop.EarlyWait? || s.loop.Signal? || (s.loop.LoopHead? && !s.ctxDone))
  }

  lemma LostStep(s: State, a: Action, c: nat)
    requires Inv(s) && Truthful(s) && At(s, c, AwaitRunning) && !CanReport(s) && Enabled(s, a) && a != ContextDone(c)
    ensures At(Apply(s, a), c, AwaitRunning) && !CanReport(Apply(s, a))
  {
    OnlyCaller(s, c);
    assert AnswerIsTrue(s, s.callers[c]);
    hide Mutexes, Runners, Meaning;
  }

  lemma {:induction false} LostForever(s: State, run: seq<Action>, c: nat)
    requires Inv(s) && Truthful(s) && At(s, c, AwaitRunning) && !CanReport(s) && CanRun(s, run) && ContextDone(c) !in run
    ensures At(After(s, run), c, AwaitRunning)
    decreases |run|
  {
    if run != [] {
      hide Inv, Truthful, Enabled, Apply, CanReport;
      assert run == [run[0]] + run[1..];
      LostStep(s, run[0], c);
      StepKeepsInv(s, run[0]);
      StepKeepsTruth(s, run[0]);
      LostForever(Apply(s, run[0]), run[1..], c);
    }
  }

  /** If it may, it does in some run. */
  lemma Reports(s: State, c: nat) returns (run: seq<Action>)
    requires Inv(s) && At(s, c, AwaitRunning) && CanReport(s)
    ensures CanRun(s, run) && ContextDone(c) !in run && !At(After(s, run), c, AwaitRunning)
    decreases match s.loop case LoopHead => 3 case Setup => 2 case EarlyWait => 1 case _ => 0
  {
    var a := match s.loop
             case LoopHead => EnterIteration
             case Setup => SetupFails
             case EarlyWait => GraceElapsed
             case _ => DeliverStatus(c);
    assert Enabled(s, a);
    run := [];
    if !s.loop.Signal? {
      StepKeepsInv(s, a);
      run := Reports(Apply(s, a), c);
    }
    hide Inv, Enabled, Apply;
    RunStep(s, a, run);
    run := [a] + run;
  }

  /**
    A start call whose context does not end waits for ever exactly when the loop has already reported
    the outcome, to nobody, or was cancelled before it could.
   */
  lemma StartAnswerIsLostIff(s: State, c: nat)
    requires Reachable(s) && At(s, c, AwaitRunning)
    ensures (forall run :: CanRun(s, run) && ContextDone(c) !in run ==> At(After(s, run), c, AwaitRunning)) <==> !CanReport(s)
  {
    ReachableInv(s);
    ReachableIsTruthful(s);
    hide Inv, Truthful, Reachable, At;
    if CanReport(s) {
      var run := Reports(s, c);
      assert CanRun(s, run) && ContextDone(c) !in run && !At(After(s, run), c, AwaitRunning);
    } else {
      forall run | CanRun(s, run) && ContextDone(c) !in run ensures At(After(s, run), c, AwaitRunning) {
        LostForever(s, run, c);
      }
    }
  }

  /** A new runner goes on, and its success is reported to nobody. */
  lemma LaunchUnreported(s: State) returns (t: State)
    requires Reachable(s) && s.loop.LoopHead? && !s.ctxDone && s.userTrigger
    ensures Reachable(t)
    ensures t == s.(loop := StayHere, alive := s.alive + {s.current + 1}, current := s.current + 1, closed := false,
                    userTrigger := false)
  {
    hide Reachable;
    ReachableStep(s, EnterIteration);
    t := Apply(s, EnterIteration);
    ReachableStep(t, LaunchRunner);
    t := Apply(t, LaunchRunner);
    ReachableStep(t, GraceElapsed);
    t := Apply(t, GraceElapsed);
    ReachableStep(t, DropStatus);
    t := Apply(t, DropStatus);
  }

  /** The loop reports the outcome before the caller listens. */
  lemma StartAnswerIsLost() returns (s: State)
    ensures Reachable(s) && At(s, 0, AwaitRunning) && !CanReport(s) && s.loop.StayHere? && s.alive == {s.current}
  {
    hide Reachable;
    ReachableInit();
    s := Request(INIT, 0, Running);
    ReachableStep(s, Start(0));
    s := Apply(s, Start(0));
    s := LaunchUnreported(s);
  }

  // ------------------------------------------------------- automatic restarts

  /** No call stores a status. */
  ghost predicate NoCallStores(s: State) {
    forall c :: c in s.callers ==>
                  s.callers[c].WantLoopMu? || s.callers[c].WantStatusMu? || s.callers[c].Deciding? || s.callers[c].Unlocking?
  }

  /** The loop has reported a crash, and is on its way to a new runner. */
  ghost predicate Retrying(s: State) {
    && s.status.Crashed? && NoCallStores(s)
    && (s.loop.CrashBackoff? || s.loop.LoopHead? || s.loop.Setup? || s.loop.EarlyWait? || s.loop.Signal? || s.loop.Backoff?
        || s.loop.Exited?)
  }

  /** The new runner may be taken for the outcome of a request of the user, and reported to nobody. */
  ghost predicate MayGoUnreported(s: State) {
    && s.userTrigger
    && (s.loop.Setup? || s.loop.EarlyWait? || s.loop == Signal(Running)
        || (!s.ctxDone && (s.loop.CrashBackoff? || s.loop.LoopHead? || s.loop.Backoff?)))
  }

  lemma RetryStep(s: State, a: Action)
    requires Inv(s) && Retrying(s) && Enabled(s, a)
    ensures var t := Apply(s, a);
            || (Retrying(t) && (MayGoUnreported(t) ==> MayGoUnreported(s)))
            || (t.loop.StayHere? && t.status == if MayGoUnreported(s) then Crashed else Running)
  {
    hide Meaning;
  }

  /** Until the loop enters its select it is retrying, and it enters the select with status Running. */
  ghost predicate ReportsRestart(s: State, run: seq<Action>)
    requires CanRun(s, run)
    decreases |run|
  {
    run == [] || var t := Apply(s, run[0]);
                 if t.loop.StayHere? then t.status.Running? else Retrying(t) && ReportsRestart(t, run[1..])
  }

  lemma {:induction false} RestartIsReported(s: State, run: seq<Action>)
    requires Inv(s) && Retrying(s) && !MayGoUnreported(s) && CanRun(s, run)
    ensures ReportsRestart(s, run)
    decreases |run|
  {
    if run != [] {
      hide Inv, Enabled, Apply, MayGoUnreported;
      RetryStep(s, run[0]);
      var t := Apply(s, run[0]);
      if Retrying(t) {
        assert !t.loop.StayHere?;
        hide Retrying;
        StepKeepsInv(s, run[0]);
        RestartIsReported(t, run[1..]);
      }
    }
  }

  /** The way to a new runner that goes on. */
  lemma Restarts(s: State) returns (run: seq<Action>)
    requires Inv(s) && Retrying(s) && MayGoUnreported(s)
    ensures CanRun(s, run) && !ReportsRestart(s, run)
    decreases match s.loop case CrashBackoff => 5 case Backoff => 5 case LoopHead => 4 case Setup => 3 case EarlyWait => 2 case _ => 1
  {
    var a := match s.loop
             case CrashBackoff => WaitOver
             case Backoff => WaitOver
             case LoopHead => EnterIteration
             case Setup => LaunchRunner
             case EarlyWait => GraceElapsed
             case _ => DropStatus;
    assert Enabled(s, a);
    run := [];
    if !s.loop.Signal? {
      StepKeepsInv(s, a);
      run := Restarts(Apply(s, a));
      assert !Apply(s, a).loop.StayHere?;
    } else {
      assert Apply(s, a).loop.StayHere? && Apply(s, a).status.Crashed?;
    }
    hide Inv, Enabled, Apply, Retrying;
    RunStep(s, a, run);
    assert ([a] + run)[1..] == run;
    run := [a] + run;
  }

  /**
    An automatic restart always ends with status Running exactly when no report to the user is
    pending: otherwise it can end with a running VPN under status Crashed.
   */
  lemma RestartIsReportedIff(s: State)
    requires Reachable(s) && Retrying(s)
    ensures (forall run :: CanRun(s, run) ==> ReportsRestart(s, run)) <==> !MayGoUnreported(s)
  {
    ReachableInv(s);
    hide Inv, Retrying, Reachable, MayGoUnreported;
    if MayGoUnreported(s) {
      var run := Restarts(s);
      assert CanRun(s, run) && !ReportsRestart(s, run);
    } else {
      forall run | CanRun(s, run) ensures ReportsRestart(s, run) {
        RestartIsReported(s, run);
      }
    }
  }

  /** The loop's own next step on its way, with the status mutex free. */
  ghost function NextTry(s: State): Action
    requires Retrying(s) && !s.loop.Exited?
  {
    match s.loop
    case CrashBackoff => WaitOver
    case Backoff => WaitOver
    case LoopHead => EnterIteration
    case Setup => LaunchRunner
    case EarlyWait => GraceElapsed
    case _ => if s.userTrigger then DropStatus else LoopStoresStatus
  }

  lemma NextTryIsTaken(s: State)
    requires Inv(s) && Truthful(s) && Retrying(s) && !s.ctxDone && s.statusMu == NoOne
    ensures !s.loop.Exited? && Enabled(s, NextTry(s))
    ensures var t := Apply(s, NextTry(s));
            !t.ctxDone && t.statusMu == NoOne && (s.loop == Signal(Running) <==> t.loop.StayHere?)
            && (t.loop.StayHere? || Retrying(t))
  {
  }

  ghost function TriesLeft(loop: LoopPc): nat {
    match loop
    case Signal(status) => if status.Running? then 1 else 6
    case CrashBackoff => 5
    case Backoff => 5
    case LoopHead => 4
    case Setup => 3
    case _ => 2
  }

  lemma FewerTriesLeft(s: State)
    requires Retrying(s) && !s.loop.Exited? && Enabled(s, NextTry(s)) && s.loop != Signal(Running)
    ensures TriesLeft(Apply(s, NextTry(s)).loop) < TriesLeft(s.loop)
  {
  }

  /** Unless it is cancelled, the loop can always get to a new runner. */
  lemma RestartIsPossible(s: State) returns (run: seq<Action>)
    requires Inv(s) && Truthful(s) && Retrying(s) && !s.ctxDone && s.statusMu == NoOne
    ensures CanRun(s, run) && After(s, run).loop.StayHere? && HasRunner(After(s, run))
    decreases TriesLeft(s.loop)
  {
    NextTryIsTaken(s);
    var a := NextTry(s);
    var t := Apply(s, a);
    StepKeepsInv(s, a);
    StepKeepsTruth(s, a);
    run := [];
    if s.loop == Signal(Running) {
      StaysWithRunner(s, a);
      hide Inv, Enabled, Apply, NextTry;
    } else {
      FewerTriesLeft(s);
      hide Inv, Truthful, Enabled, Apply, NextTry, TriesLeft;
      run := RestartIsPossible(t);
    }
    RunStep(s, a, run);
    run := [a] + run;
  }

  lemma StaysWithRunner(s: State, a: Action)
    requires Truthful(s) && s.loop == Signal(Running) && Enabled(s, a) && (a.DropStatus? || a.LoopStoresStatus?)
    ensures HasRunner(Apply(s, a))
  {
  }

  /** The restart of a stopped VPN is not reported: the VPN runs under status Crashed. */
  lemma RestartIsUnreported() returns (s: State)
    ensures Reachable(s) && Unanswered(s) && s.status.Crashed? && s.loop.StayHere? && s.callers == map[]
  {
    hide Reachable;
    s := StopOnce(true);
    ReachableStep(s, ReceiveFromClosed);
    s := Apply(s, ReceiveFromClosed);
    ReachableStep(s, LoopLocks);
    s := Apply(s, LoopLocks);
    ReachableStep(s, LoopStoresStatus);
    s := Apply(s, LoopStoresStatus);
    ReachableStep(s, WaitOver);
    s := Apply(s, WaitOver);
    s := LaunchUnreported(s);
  }
}

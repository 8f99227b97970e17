/**
  The start/stop protocol between the VPN loop goroutine, the VPN runners it
  launches, and any number of goroutines calling ApplyStatus.

  Each action below is one atomic step of one goroutine, or one rendezvous on an
  unbuffered channel. A run is any sequence of enabled actions: every
  interleaving, every moment for a cancellation or a crash.
 */
module VpnLoop {

  datatype Status = Starting | Running | Stopping | Stopped | Crashed | Completed

  /** Where a goroutine inside ApplyStatus stands. */
  datatype CallerPc =
    | WantLoopMu(request: Status)
    | WantStatusMu(request: Status)                    // holds loopMu
    | Deciding(request: Status, existing: Status)      // holds loopMu and statusMu
    | SendStart                                        // from here on: holds loopMu
    | AwaitRunning
    | SendStop
    | AwaitStopped
    | SetNewStatus(newStatus: Status)
    | Unlocking(outcome: Status)

  /** Where the goroutine running Loop.Run stands. */
  datatype LoopPc =
    | AwaitFirstStart
    | LoopHead
    | Setup
    | EarlyWait                  // waitForError
    | Signal(status: Status)     // signalOrSetStatus
    | Backoff                    // logAndWait after a failed start
    | StayHere                   // the inner select
    | DrainForStop               // <-waitError after a stop request
    | SendStopped
    | WantLoopMuToCrash          // statusManager.Lock() after an unexpected error
    | SetCrashed                 // holds loopMu
    | CrashBackoff               // holds loopMu
    | DrainForExit               // <-waitError after cancellation
    | Exited
    | Panicked                   // close of a closed channel

  datatype Holder = NoOne | Loop | Caller(id: nat)

  datatype State = State(
    status: Status,
    loopMu: Holder,
    statusMu: Holder,
    callers: map<nat, CallerPc>,
    loop: LoopPc,
    userTrigger: bool,
    ctxDone: bool,
    alive: set<nat>,      // runners that have not yet delivered their exit error
    current: nat,         // the runner of the loop's latest iteration
    closed: bool,         // whether its waitError channel is closed
    nilExit: bool)        // history: a runner reported a nil error to waitForError

  ghost const INIT := State(Stopped, NoOne, NoOne, map[], AwaitFirstStart, true, false, {}, 0, false, false)

  datatype Action =
    // ApplyStatus
    | Call(c: nat, request: Status)
    | LockLoopMu(c: nat)
    | LockStatusMu(c: nat)
    | Decide(c: nat)
    | ContextDone(c: nat)
    | StoreStatus(c: nat)
    | UnlockLoopMu(c: nat)
    // rendezvous of a caller and the loop
    | Start(c: nat)
    | Stop(c: nat)
    | DeliverStatus(c: nat)
    | DeliverStopped(c: nat)
    // the loop
    | CancelLoop
    | SeeCancellation
    | EnterIteration
    | SetupFails
    | LaunchRunner
    | GraceElapsed
    | DropStatus
    | LoopStoresStatus
    | WaitOver
    | LoopLocks
    // receiving from waitError, with a nil error or not
    | RunnerExits(nilError: bool)
    | ReceiveFromClosed

  ghost predicate At(s: State, c: nat, pc: CallerPc) {
    c in s.callers && s.callers[c] == pc
  }

  ghost predicate Receiving(s: State) {
    s.loop.EarlyWait? || s.loop.StayHere? || s.loop.DrainForStop? || s.loop.DrainForExit?
  }

  ghost predicate Enabled(s: State, a: Action) {
    match a
    case Call(c, _) => c !in s.callers
    case LockLoopMu(c) => c in s.callers && s.callers[c].WantLoopMu? && s.loopMu == NoOne
    case LockStatusMu(c) => c in s.callers && s.callers[c].WantStatusMu? && s.statusMu == NoOne
    case Decide(c) => c in s.callers && s.callers[c].Deciding?
    case ContextDone(c) => c in s.callers && (s.callers[c].AwaitRunning? || s.callers[c].AwaitStopped?)
    case StoreStatus(c) => c in s.callers && s.callers[c].SetNewStatus? && s.statusMu == NoOne
    case UnlockLoopMu(c) => c in s.callers && s.callers[c].Unlocking?
    case Start(c) => At(s, c, SendStart) && (s.loop.AwaitFirstStart? || s.loop.StayHere?)
    case Stop(c) => At(s, c, SendStop) && s.loop.StayHere?
    case DeliverStatus(c) => At(s, c, AwaitRunning) && s.loop.Signal? && s.userTrigger
    case DeliverStopped(c) => At(s, c, AwaitStopped) && s.loop.SendStopped?
    case CancelLoop => !s.ctxDone
    case SeeCancellation => s.ctxDone && (s.loop.AwaitFirstStart? || s.loop.LoopHead? || s.loop.EarlyWait? || s.loop.StayHere?)
    case EnterIteration => !s.ctxDone && s.loop.LoopHead?
    case SetupFails => s.loop.Setup?
    case LaunchRunner => s.loop.Setup?
    case GraceElapsed => s.loop.EarlyWait?
    case DropStatus => s.loop.Signal? && s.userTrigger
    case LoopStoresStatus => ((s.loop.Signal? && !s.userTrigger) || s.loop.SetCrashed?) && s.statusMu == NoOne
    case WaitOver => s.loop.Backoff? || s.loop.CrashBackoff?
    case LoopLocks => s.loop.WantLoopMuToCrash? && s.loopMu == NoOne
    case RunnerExits(_) => Receiving(s) && !s.closed && s.current in s.alive
    case ReceiveFromClosed => Receiving(s) && s.closed
  }

  /** After signalOrSetStatus: into the inner select, or wait and try again. */
  ghost function AfterSignal(status: Status): LoopPc {
    if status.Running? then StayHere else Backoff
  }

  /** Where an error received from waitError leads the loop. */
  ghost function AfterError(s: State, nilError: bool): LoopPc {
    match s.loop
    case EarlyWait => if nilError then Signal(Running) else Signal(Crashed)
    case DrainForStop => SendStopped
    case DrainForExit => if s.closed then Panicked else Exited
    case _ => WantLoopMuToCrash
  }

  ghost function Apply(s: State, a: Action): State
    requires Enabled(s, a)
  {
    match a
    case Call(c, request) => s.(callers := s.callers[c := WantLoopMu(request)])
    case LockLoopMu(c) =>
      s.(loopMu := Caller(c), callers := s.callers[c := WantStatusMu(s.callers[c].request)])
    case LockStatusMu(c) =>
      s.(statusMu := Caller(c), callers := s.callers[c := Deciding(s.callers[c].request, s.status)])
    case Decide(c) =>
      var Deciding(request, existing) := s.callers[c];
      var released := s.(statusMu := NoOne);
      if request.Running? && (existing.Stopped? || existing.Completed?) then
        released.(status := Starting, callers := s.callers[c := SendStart])
      else if request.Stopped? && existing.Running? then
        released.(status := Stopping, callers := s.callers[c := SendStop])
      else
        // "already ...", or an invalid request: nothing changes
        released.(callers := s.callers[c := Unlocking(existing)])
    case ContextDone(c) =>
      var kept := if s.callers[c] == AwaitRunning then Starting else Stopping;
      s.(callers := s.callers[c := SetNewStatus(kept)])
    case StoreStatus(c) =>
      s.(status := s.callers[c].newStatus, callers := s.callers[c := Unlocking(s.callers[c].newStatus)])
    case UnlockLoopMu(c) => s.(loopMu := NoOne, callers := s.callers - {c})
    case Start(c) =>
      s.(callers := s.callers[c := AwaitRunning],
         userTrigger := s.userTrigger || s.loop.StayHere?, loop := LoopHead)
    case Stop(c) =>
      s.(callers := s.callers[c := AwaitStopped], userTrigger := true, loop := DrainForStop)
    case DeliverStatus(c) =>
      s.(callers := s.callers[c := SetNewStatus(s.loop.status)],
         userTrigger := false, loop := AfterSignal(s.loop.status))
    case DeliverStopped(c) => s.(callers := s.callers[c := SetNewStatus(Stopped)], loop := StayHere)
    case CancelLoop => s.(ctxDone := true)
    case SeeCancellation =>
      s.(loop := match s.loop
                 case EarlyWait => Signal(Crashed)
                 case StayHere => DrainForExit
                 case _ => Exited)
    case EnterIteration => s.(loop := Setup)
    case SetupFails => s.(loop := Signal(Crashed))
    case LaunchRunner =>
      s.(alive := s.alive + {s.current + 1}, current := s.current + 1, closed := false, loop := EarlyWait)
    case GraceElapsed => s.(loop := Signal(Running))
    case DropStatus => s.(userTrigger := false, loop := AfterSignal(s.loop.status))
    case LoopStoresStatus =>
      if s.loop.SetCrashed? then s.(status := Crashed, loop := CrashBackoff)
      else s.(status := s.loop.status, loop := AfterSignal(s.loop.status))
    case WaitOver =>
      if s.loop.CrashBackoff? then s.(loopMu := NoOne, loop := LoopHead) else s.(loop := LoopHead)
    case LoopLocks => s.(loopMu := Loop, loop := SetCrashed)
    case RunnerExits(nilError) =>
      s.(alive := s.alive - {s.current}, loop := AfterError(s, nilError),
         closed := s.loop.EarlyWait? || s.loop.DrainForExit?,
         nilExit := s.nilExit || (s.loop.EarlyWait? && nilError))
    case ReceiveFromClosed => s.(loop := AfterError(s, true))
  }

  /** The actions of a run can all be taken, one after the other, from s. */
  ghost predicate CanRun(s: State, run: seq<Action>)
    decreases |run|
  {
    run == [] || (Enabled(s, run[0]) && CanRun(Apply(s, run[0]), run[1..]))
  }

  ghost function After(s: State, run: seq<Action>): State
    requires CanRun(s, run)
    decreases |run|
  {
    if run == [] then s else After(Apply(s, run[0]), run[1..])
  }

  ghost predicate Reachable(s: State) {
    exists run :: CanRun(INIT, run) && After(INIT, run) == s
  }

  // ------------------------------------------------------------- invariants

  /** loopMu and statusMu are held by whoever is inside their critical sections. */
  ghost predicate Mutexes(s: State) {
    && (forall c :: c in s.callers ==> (s.callers[c].WantLoopMu? <==> s.loopMu != Caller(c)))
    && (forall c :: s.loopMu == Caller(c) ==> c in s.callers)
    && (s.loopMu == Loop <==> s.loop.SetCrashed? || s.loop.CrashBackoff?)
    && (forall c :: c in s.callers ==>
                      (s.callers[c].Deciding? <==> s.statusMu == Caller(c))
                      && (s.callers[c].Deciding? ==> s.callers[c].existing == s.status))
    && (forall c :: s.statusMu == Caller(c) ==> c in s.callers)
    && s.statusMu != Loop
  }

  /** The loop is in its inner select, or has left it without any status change. */
  ghost predicate InSelect(loop: LoopPc) {
    loop.StayHere? || loop.WantLoopMuToCrash? || loop.DrainForExit? || loop.Exited? || loop.Panicked?
  }

  /** No runner is alive and none can be launched before a start request. */
  ghost predicate Quiet(s: State) {
    && s.alive == {}
    && (s.loop.AwaitFirstStart? || s.loop.StayHere? || s.loop.DrainForExit? || s.loop.Exited? || s.loop.Panicked?
        || (s.closed && (s.loop.WantLoopMuToCrash? || s.loop.SetCrashed?)))
  }

  /** What each place in the loop says about the runner of the latest iteration. */
  ghost predicate Runners(s: State) {
    && s.alive <= {s.current}
    && (s.closed ==> s.alive == {})
    && match s.loop
       case LoopHead => s.alive == {} || s.ctxDone
       case EarlyWait => s.alive == {s.current} && !s.closed
       case Signal(st) =>
         && (st.Running? || st.Crashed?)
         && (if st.Running? then s.alive == {s.current} || s.nilExit else s.alive == {} || s.ctxDone)
         && (st.Running? && s.closed ==> s.nilExit)
       case Backoff => s.alive == {} || s.ctxDone
       case StayHere => s.closed ==> s.nilExit
       case DrainForStop => s.closed ==> s.nilExit
       case SendStopped => s.alive == {} && (s.closed ==> s.nilExit)
       case DrainForExit => s.closed ==> s.nilExit
       case Exited => true
       case Panicked => s.nilExit
       case _ => s.alive == {}
  }

  /** The loop is serving a stop request. */
  ghost predicate ServesStop(loop: LoopPc) {
    loop.DrainForStop? || loop.SendStopped?
  }

  /** What the status, and the calls in progress, say about the loop. */
  ghost predicate Meaning(s: State) {
    && (s.status.Stopped? ==> Quiet(s))
    && (s.status.Running? ==> InSelect(s.loop) || s.loop.SetCrashed?)
    && (s.loop.CrashBackoff? ==> s.status.Crashed?)
    && (ServesStop(s.loop) ==> s.status.Stopping?)
    && !s.status.Completed?
    && (forall c :: c in s.callers ==> CallInProgress(s, s.callers[c]))
  }

  ghost predicate CallInProgress(s: State, pc: CallerPc) {
    match pc
    case SendStart => s.status.Starting? && Quiet(s)
    case SendStop =>
      && s.status.Stopping?
      && InSelect(s.loop)
    case AwaitStopped => s.status.Stopping? && ServesStop(s.loop)
    case SetNewStatus(Stopped) => s.status.Stopping? && Quiet(s)
    case AwaitRunning => !s.status.Stopped? && !ServesStop(s.loop)
    case SetNewStatus(Running) =>
      && !s.status.Stopped?
      && InSelect(s.loop)
    case SetNewStatus(newStatus) =>
      && !s.status.Stopped? && !newStatus.Completed?
      && (ServesStop(s.loop) ==> newStatus.Stopping?)
    case _ => true
  }

  ghost predicate Inv(s: State) {
    Mutexes(s) && Runners(s) && Meaning(s)
  }

  // Every action keeps the invariant, part by part.

  /** The caller that holds the loop mutex is the only one past it. */
  lemma OnlyCaller(s: State, c: nat)
    requires Mutexes(s) && c in s.callers && !s.callers[c].WantLoopMu?
    ensures forall d :: d in s.callers && d != c ==> s.callers[d].WantLoopMu?
    ensures s.callers[c].Deciding? ==> s.callers[c].existing == s.status
  {
  }

  /** The actions of a caller on its own. */
  ghost predicate OfCaller(a: Action) {
    a.Call? || a.LockLoopMu? || a.LockStatusMu? || a.Decide? || a.ContextDone? || a.StoreStatus? || a.UnlockLoopMu?
  }

  /** The actions that a caller and the loop take together. */
  ghost predicate OfBoth(a: Action) {
    a.Start? || a.Stop? || a.DeliverStatus? || a.DeliverStopped?
  }

  lemma DecideKeepsMutexes(s: State, a: Action)
    requires Mutexes(s) && Enabled(s, a) && a.Decide?
    ensures Mutexes(Apply(s, a))
  {
    var t := Apply(s, a);
    assert t == s.(status := t.status, statusMu := NoOne, callers := s.callers[a.c := t.callers[a.c]]);
    assert !t.callers[a.c].WantLoopMu? && !t.callers[a.c].Deciding?;
    hide Apply, Enabled;
    assert s.statusMu == Caller(a.c);
  }

  lemma CallerKeepsMutexes(s: State, a: Action)
    requires Mutexes(s) && Enabled(s, a) && OfCaller(a) && !a.Decide?
    ensures Mutexes(Apply(s, a))
  {
  }

  lemma BothKeepMutexes(s: State, a: Action)
    requires Mutexes(s) && Enabled(s, a) && OfBoth(a)
    ensures Mutexes(Apply(s, a))
  {
  }

  lemma LoopKeepsMutexes(s: State, a: Action)
    requires Mutexes(s) && Enabled(s, a) && !OfCaller(a) && !OfBoth(a)
    ensures Mutexes(Apply(s, a))
  {
  }

  lemma CallerKeepsRunners(s: State, a: Action)
    requires Runners(s) && Enabled(s, a) && OfCaller(a)
    ensures Runners(Apply(s, a))
  {
  }

  lemma BothKeepRunners(s: State, a: Action)
    requires Runners(s) && Meaning(s) && Enabled(s, a) && OfBoth(a)
    ensures Runners(Apply(s, a))
  {
    assert CallInProgress(s, s.callers[a.c]);
  }

  lemma ReceivingKeepsRunners(s: State, a: Action)
    requires Runners(s) && Enabled(s, a) && (a.RunnerExits? || a.ReceiveFromClosed?)
    ensures Runners(Apply(s, a))
  {
  }

  lemma LoopKeepsRunners(s: State, a: Action)
    requires Runners(s) && Enabled(s, a) && !OfCaller(a) && !OfBoth(a) && !a.RunnerExits? && !a.ReceiveFromClosed?
    ensures Runners(Apply(s, a))
  {
  }

  lemma CallerKeepsMeaning(s: State, a: Action)
    requires Inv(s) && Enabled(s, a) && OfCaller(a)
    ensures Meaning(Apply(s, a))
  {
    var t := Apply(s, a);
    forall c | c in t.callers ensures CallInProgress(t, t.callers[c]) {
      assert c in s.callers ==> CallInProgress(s, s.callers[c]);
    }
  }

  lemma BothKeepMeaning(s: State, a: Action)
    requires Inv(s) && Enabled(s, a) && OfBoth(a)
    ensures Meaning(Apply(s, a))
  {
    OnlyCaller(s, a.c);
    hide Mutexes;
  }

  lemma LoopKeepsMeaning(s: State, a: Action)
    requires Inv(s) && Enabled(s, a) && !OfCaller(a) && !OfBoth(a)
    ensures Meaning(Apply(s, a))
  {
    var t := Apply(s, a);
    forall c | c in t.callers ensures CallInProgress(t, t.callers[c]) {
      assert CallInProgress(s, s.callers[c]);
    }
  }

  lemma StepKeepsInv(s: State, a: Action)
    requires Inv(s) && Enabled(s, a)
    ensures Inv(Apply(s, a))
  {
    hide Mutexes, Runners, Meaning, Enabled, Apply;
    if OfCaller(a) {
      if a.Decide? {
        DecideKeepsMutexes(s, a);
      } else {
        CallerKeepsMutexes(s, a);
      }
      CallerKeepsRunners(s, a);
      CallerKeepsMeaning(s, a);
    } else {
      if OfBoth(a) {
        BothKeepRunners(s, a);
        BothKeepMutexes(s, a);
        BothKeepMeaning(s, a);
      } else {
        if a.RunnerExits? || a.ReceiveFromClosed? {
          ReceivingKeepsRunners(s, a);
        } else {
          LoopKeepsRunners(s, a);
        }
        LoopKeepsMutexes(s, a);
        LoopKeepsMeaning(s, a);
      }
    }
  }

  lemma {:induction false} RunKeepsInv(s: State, run: seq<Action>)
    requires Inv(s) && CanRun(s, run)
    ensures Inv(After(s, run))
    decreases |run|
  {
    hide Inv, Enabled, Apply;
    if run != [] {
      StepKeepsInv(s, run[0]);
      RunKeepsInv(Apply(s, run[0]), run[1..]);
    }
  }

  lemma ReachableInv(s: State)
    requires Reachable(s)
    ensures Inv(s)
  {
    var run :| CanRun(INIT, run) && After(INIT, run) == s;
    RunKeepsInv(INIT, run);
  }

  // ------------------------------------------------------------ safety

  /** Never two VPN runners at once, whatever the calls, crashes and cancellations. */
  lemma AtMostOneRunner(s: State)
    requires Reachable(s)
    ensures |s.alive| <= 1
  {
    ReachableInv(s);
    assert s.alive == {} || s.alive == {s.current};
  }

  /** At most one caller is past the loop mutex, and never while the loop handles a crash. */
  lemma CallsAreSerialised(s: State, c: nat, d: nat)
    requires Reachable(s) && c in s.callers && d in s.callers
    requires !s.callers[c].WantLoopMu? && !s.callers[d].WantLoopMu?
    ensures c == d && !(s.loop.SetCrashed? || s.loop.CrashBackoff?)
  {
    ReachableInv(s);
  }

  /** Stopped, with the loop waiting for a start request or ended: its own select cannot wake it up. */
  ghost predicate Settled(s: State) {
    && s.status.Stopped?
    && (s.loop.AwaitFirstStart? || (s.loop.StayHere? && !s.closed)
        || s.loop.DrainForExit? || s.loop.Exited? || s.loop.Panicked?)
  }

  /** Status Stopped means that no runner is alive, and an unsettled loop is about to report a crash. */
  lemma StoppedMeansStopped(s: State)
    requires Reachable(s) && s.status.Stopped?
    ensures s.alive == {}
    ensures Settled(s) || (s.closed && (s.loop.StayHere? || s.loop.WantLoopMuToCrash? || s.loop.SetCrashed?))
  {
    ReachableInv(s);
  }

  /** A caller about to return "stopped" does so with no runner alive. */
  lemma StopAnswerIsTrue(s: State, c: nat)
    requires Reachable(s) && At(s, c, SetNewStatus(Stopped))
    ensures s.alive == {}
  {
    ReachableInv(s);
    assert CallInProgress(s, s.callers[c]);
  }

  /** The loop closes a closed channel only after a runner reported a nil error early. */
  lemma PanicNeedsNilExit(s: State)
    requires Reachable(s) && s.loop.Panicked?
    ensures s.nilExit
  {
    ReachableInv(s);
  }

  /** The step at which an ApplyStatus call commits to starting the VPN. */
  ghost predicate CommitsToStart(s: State, a: Action)
    requires Enabled(s, a)
  {
    a.Decide? && s.callers[a.c].request.Running? && (s.callers[a.c].existing.Stopped? || s.callers[a.c].existing.Completed?)
  }

  ghost predicate StartRequested(s: State, run: seq<Action>)
    requires CanRun(s, run)
    decreases |run|
  {
    run != [] && (CommitsToStart(s, run[0]) || StartRequested(Apply(s, run[0]), run[1..]))
  }

  /** The caller that holds the loop mutex is about to commit to a start. */
  ghost predicate StartPending(s: State) {
    && s.status.Stopped? && s.loopMu.Caller? && s.loopMu.id in s.callers
    && match s.callers[s.loopMu.id]
       case WantStatusMu(request) => request.Running?
       case Deciding(request, _) => request.Running?
       case _ => false
  }

  /** A status about to be stored is that of a start or stop in progress. */
  lemma StoringIsInProgress(s: State, c: nat)
    requires Inv(s) && c in s.callers && s.callers[c].SetNewStatus?
    ensures !s.status.Stopped?
  {
    assert CallInProgress(s, s.callers[c]);
  }

  lemma SettledStep(s: State, a: Action)
    requires Inv(s) && Settled(s) && Enabled(s, a) && !CommitsToStart(s, a)
    ensures Settled(Apply(s, a))
  {
    if c :| c in s.callers && s.callers[c].SetNewStatus? {
      StoringIsInProgress(s, c);
    }
  }

  lemma PendingStep(s: State, a: Action)
    requires Inv(s) && StartPending(s) && Enabled(s, a) && !CommitsToStart(s, a)
    ensures StartPending(Apply(s, a))
  {
    OnlyCaller(s, s.loopMu.id);
    hide Runners;
  }

  lemma {:induction false} StaysStopped(s: State, run: seq<Action>)
    requires Inv(s) && (Settled(s) || StartPending(s)) && CanRun(s, run) && !StartRequested(s, run)
    ensures After(s, run).status.Stopped? && After(s, run).alive == {}
    decreases |run|
  {
    if run != [] {
      hide Inv, Enabled, Apply, Settled, StartPending, CommitsToStart;
      if Settled(s) {
        SettledStep(s, run[0]);
      } else {
        PendingStep(s, run[0]);
      }
      StepKeepsInv(s, run[0]);
      StaysStopped(Apply(s, run[0]), run[1..]);
    }
  }

  /** Without a start request, the status can change. */
  ghost predicate CanLeave(s: State) {
    exists run :: CanRun(s, run) && !StartRequested(s, run) && !After(s, run).status.Stopped?
  }

  lemma RunStep(s: State, a: Action, rest: seq<Action>)
    requires Enabled(s, a) && CanRun(Apply(s, a), rest)
    ensures CanRun(s, [a] + rest) && After(s, [a] + rest) == After(Apply(s, a), rest)
    ensures StartRequested(s, [a] + rest) <==> CommitsToStart(s, a) || StartRequested(Apply(s, a), rest)
  {
    hide Enabled, Apply, CommitsToStart;
    assert ([a] + rest)[1..] == rest;
  }

  lemma LeaveStep(s: State, a: Action)
    requires Enabled(s, a) && !CommitsToStart(s, a)
    requires CanLeave(Apply(s, a)) || !Apply(s, a).status.Stopped?
    ensures CanLeave(s)
  {
    hide Enabled, Apply, CommitsToStart;
    var t := Apply(s, a);
    if CanLeave(t) {
      var run :| CanRun(t, run) && !StartRequested(t, run) && !After(t, run).status.Stopped?;
      RunStep(s, a, run);
    } else {
      RunStep(s, a, []);
    }
  }

  /** A loop that has received from a closed channel reports a crash as soon as it gets the mutex. */
  lemma LeavesWhenFree(s: State)
    requires Inv(s) && s.status.Stopped? && !Settled(s) && !s.loopMu.Caller?
    ensures CanLeave(s)
    decreases match s.loop case StayHere => 2 case WantLoopMuToCrash => 1 case _ => 0
  {
    hide CanLeave;
    var a := match s.loop
             case StayHere => ReceiveFromClosed
             case WantLoopMuToCrash => LoopLocks
             case _ => LoopStoresStatus;
    assert Enabled(s, a) && !CommitsToStart(s, a);
    if !s.loop.SetCrashed? {
      StepKeepsInv(s, a);
      LeavesWhenFree(Apply(s, a));
    }
    LeaveStep(s, a);
  }

  /** A caller that does not ask for a start gives the mutex back. */
  lemma Leaves(s: State)
    requires Inv(s) && s.status.Stopped? && !Settled(s) && !StartPending(s)
    ensures CanLeave(s)
    decreases if !s.loopMu.Caller? then 0 else
              match s.callers[s.loopMu.id] case WantStatusMu(_) => 3 case Deciding(_, _) => 2 case _ => 1
  {
    hide CanLeave;
    if s.loopMu.Caller? {
      var c := s.loopMu.id;
      assert CallInProgress(s, s.callers[c]);
      var a := match s.callers[c]
               case WantStatusMu(_) => LockStatusMu(c)
               case Deciding(_, _) => Decide(c)
               case _ => UnlockLoopMu(c);
      assert Enabled(s, a) && !CommitsToStart(s, a);
      StepKeepsInv(s, a);
      Leaves(Apply(s, a));
      LeaveStep(s, a);
    } else {
      LeavesWhenFree(s);
    }
  }

  /**
    A stopped VPN stays stopped over all runs without a start request exactly when its
    loop is settled, or the caller holding the loop mutex is itself about to ask for a start.
   */
  lemma StaysStoppedIff(s: State)
    requires Reachable(s) && s.status.Stopped?
    ensures (forall run :: CanRun(s, run) && !StartRequested(s, run) ==> After(s, run).status.Stopped?)
            <==> Settled(s) || StartPending(s)
  {
    ReachableInv(s);
    hide Inv, Settled, StartPending, Reachable;
    if Settled(s) || StartPending(s) {
      forall run | CanRun(s, run) && !StartRequested(s, run) ensures After(s, run).status.Stopped? {
        StaysStopped(s, run);
      }
    } else {
      Leaves(s);
      var run :| CanRun(s, run) && !StartRequested(s, run) && !After(s, run).status.Stopped?;
      assert CanRun(s, run) && !StartRequested(s, run) && !After(s, run).status.Stopped?;
    }
  }

  lemma {:induction false} DrainsForever(s: State, run: seq<Action>)
    requires Inv(s) && s.loop.DrainForExit? && s.alive == {} && !s.closed && CanRun(s, run)
    ensures After(s, run).loop.DrainForExit?
    decreases |run|
  {
    if run != [] {
      StepKeepsInv(s, run[0]);
      DrainsForever(Apply(s, run[0]), run[1..]);
    }
  }

  lemma {:induction false} DoesNotPanic(s: State, run: seq<Action>)
    requires Inv(s) && ((s.loop.DrainForExit? && !s.closed) || s.loop.Exited?) && CanRun(s, run)
    ensures !After(s, run).loop.Panicked?
    decreases |run|
  {
    if run != [] {
      StepKeepsInv(s, run[0]);
      DoesNotPanic(Apply(s, run[0]), run[1..]);
    }
  }

  /**
    A cancelled loop receives the last error of its runner before it ends. It never ends
    exactly when that runner has gone and the channel is open, so after every stop; and it
    closes a closed channel in some run exactly when the channel is closed.
   */
  lemma CancelledLoopEndsIff(s: State)
    requires Reachable(s) && s.loop.DrainForExit?
    ensures (forall run :: CanRun(s, run) ==> After(s, run).loop.DrainForExit?) <==> s.alive == {} && !s.closed
    ensures (exists run :: CanRun(s, run) && After(s, run).loop.Panicked?) <==> s.closed
  {
    ReachableInv(s);
    if s.closed || s.alive != {} {
      var a := if s.closed then ReceiveFromClosed else RunnerExits(false);
      assert Enabled(s, a);
      RunStep(s, a, []);
      assert CanRun(s, [a] + []) && !After(s, [a] + []).loop.DrainForExit?;
    }
    hide Inv, CanRun, After, Reachable;
    if s.alive == {} && !s.closed {
      forall run | CanRun(s, run) ensures After(s, run).loop.DrainForExit? {
        DrainsForever(s, run);
      }
    }
    if !s.closed {
      forall run | CanRun(s, run) ensures !After(s, run).loop.Panicked? {
        DoesNotPanic(s, run);
      }
    }
  }

  // ------------------------------------- runs that show what fails, and why

  lemma {:induction false} Then(s: State, run: seq<Action>, a: Action)
    requires CanRun(s, run) && Enabled(After(s, run), a)
    ensures CanRun(s, run + [a]) && After(s, run + [a]) == Apply(After(s, run), a)
    decreases |run|
  {
    if run == [] {
      assert [a][1..] == [];
    } else {
      Then(Apply(s, run[0]), run[1..], a);
      assert (run + [a])[1..] == run[1..] + [a];
    }
  }

  lemma ReachableStep(s: State, a: Action)
    requires Reachable(s) && Enabled(s, a)
    ensures Reachable(Apply(s, a))
  {
    var run :| CanRun(INIT, run) && After(INIT, run) == s;
    Then(INIT, run, a);
  }

  lemma ReachableInit()
    ensures Reachable(INIT)
  {
    assert CanRun(INIT, []) && After(INIT, []) == INIT;
  }

  /** A caller's request, up to the point where the caller waits for the loop. */
  lemma Request(s: State, c: nat, request: Status) returns (t: State)
    requires Reachable(s) && c !in s.callers && s.loopMu == NoOne && s.statusMu == NoOne
    requires (request.Running? && s.status.Stopped?) || (request.Stopped? && s.status.Running?)
    ensures Reachable(t)
    ensures t == s.(status := if request.Running? then Starting else Stopping, loopMu := Caller(c),
                    callers := s.callers[c := if request.Running? then SendStart else SendStop])
  {
    hide Reachable;
    ReachableStep(s, Call(c, request));
    var s1 := Apply(s, Call(c, request));
    ReachableStep(s1, LockLoopMu(c));
    var s2 := Apply(s1, LockLoopMu(c));
    ReachableStep(s2, LockStatusMu(c));
    var s3 := Apply(s2, LockStatusMu(c));
    ReachableStep(s3, Decide(c));
    t := Apply(s3, Decide(c));
    assert t.callers == s.callers[c := if request.Running? then SendStart else SendStop];
  }

  /** A caller stores the status it was given and leaves. */
  lemma Answer(s: State, c: nat) returns (t: State)
    requires Reachable(s) && s.callers.Keys == {c} && s.callers[c].SetNewStatus? && s.statusMu == NoOne
    ensures Reachable(t)
    ensures t == s.(status := s.callers[c].newStatus, loopMu := NoOne, callers := map[])
  {
    hide Reachable;
    ReachableStep(s, StoreStatus(c));
    var s1 := Apply(s, StoreStatus(c));
    ReachableStep(s1, UnlockLoopMu(c));
    t := Apply(s1, UnlockLoopMu(c));
    assert t.callers == map[];
  }

  /** The VPN is started by one caller; its first runner either goes on or reports a nil error early. */
  lemma StartOnce(early: bool) returns (t: State)
    ensures Reachable(t)
    ensures t == State(Running, NoOne, NoOne, map[], StayHere, false, false, if early then {} else {1}, 1, early, early)
  {
    hide Reachable;
    ReachableInit();
    var s := Request(INIT, 0, Running);
    ReachableStep(s, Start(0));
    s := Apply(s, Start(0));
    ReachableStep(s, EnterIteration);
    s := Apply(s, EnterIteration);
    ReachableStep(s, LaunchRunner);
    s := Apply(s, LaunchRunner);
    var next := if early then RunnerExits(true) else GraceElapsed;
    ReachableStep(s, next);
    s := Apply(s, next);
    ReachableStep(s, DeliverStatus(0));
    s := Apply(s, DeliverStatus(0));
    t := Answer(s, 0);
  }

  /**
    Without that condition the property fails: after a runner reports a nil error
    early, a stopped VPN restarts by itself.
   */
  lemma StoppedVpnRestarts() returns (s: State, run: seq<Action>)
    ensures Reachable(s) && s.status.Stopped? && CanRun(s, run)
    ensures !StartRequested(s, run) && After(s, run).alive != {}
  {
    hide Reachable, Enabled, Apply, StartRequested, CanRun, After;
    s := StopOnce(true);
    run := RestartFrom(s);
  }

  /** The VPN is stopped, with the loop in its inner select and the error channel closed. */
  ghost predicate StoppedAndClosed(s: State) {
    && s.status.Stopped? && s.loop.StayHere? && s.closed && !s.ctxDone
    && s.loopMu == s.statusMu == NoOne && s.alive == {}
  }

  /** The VPN is started and stopped again. */
  lemma StopOnce(early: bool) returns (t: State)
    ensures Reachable(t)
    ensures t == State(Stopped, NoOne, NoOne, map[], StayHere, true, false, {}, 1, early, early)
  {
    hide Reachable;
    var s := StartOnce(early);
    s := Request(s, 0, Stopped);
    ReachableStep(s, Stop(0));
    s := Apply(s, Stop(0));
    var next := if early then ReceiveFromClosed else RunnerExits(false);
    ReachableStep(s, next);
    s := Apply(s, next);
    ReachableStep(s, DeliverStopped(0));
    s := Apply(s, DeliverStopped(0));
    t := Answer(s, 0);
  }

  lemma RestartFrom(s: State) returns (run: seq<Action>)
    requires StoppedAndClosed(s)
    ensures CanRun(s, run) && !StartRequested(s, run) && After(s, run).alive != {}
  {
    var s1 := Apply(s, ReceiveFromClosed);
    var s2 := Apply(s1, LoopLocks);
    var s3 := Apply(s2, LoopStoresStatus);
    run := RestartWhenCrashed(s3);
    RunStep(s2, LoopStoresStatus, run);
    run := [LoopStoresStatus] + run;
    RunStep(s1, LoopLocks, run);
    run := [LoopLocks] + run;
    RunStep(s, ReceiveFromClosed, run);
    run := [ReceiveFromClosed] + run;
  }

  lemma RestartWhenCrashed(s: State) returns (run: seq<Action>)
    requires s.loop.CrashBackoff? && !s.ctxDone
    ensures CanRun(s, run) && !StartRequested(s, run) && After(s, run).alive != {}
  {
    var s1 := Apply(s, WaitOver);
    var s2 := Apply(s1, EnterIteration);
    run := [];
    RunStep(s2, LaunchRunner, run);
    run := [LaunchRunner] + run;
    RunStep(s1, EnterIteration, run);
    run := [EnterIteration] + run;
    RunStep(s, WaitOver, run);
    run := [WaitOver] + run;
  }

  /** Cancelling the loop after a stop: it waits for the error of a runner that has gone. */
  lemma CancelAfterStop() returns (s: State)
    ensures Reachable(s) && s.loop.DrainForExit? && s.alive == {} && !s.closed
  {
    hide Reachable;
    s := StopOnce(false);
    ReachableStep(s, CancelLoop);
    s := Apply(s, CancelLoop);
    ReachableStep(s, SeeCancellation);
    s := Apply(s, SeeCancellation);
  }

  /** Cancelling the loop after an early nil error: it closes a closed channel. */
  lemma PanicIsReachable() returns (s: State)
    ensures Reachable(s) && s.loop.Panicked?
  {
    hide Reachable;
    s := StartOnce(true);
    ReachableStep(s, CancelLoop);
    s := Apply(s, CancelLoop);
    ReachableStep(s, SeeCancellation);
    s := Apply(s, SeeCancellation);
    ReachableStep(s, ReceiveFromClosed);
    s := Apply(s, ReceiveFromClosed);
  }

  // ------------------------------------------------ requests that are never taken

  /** The loop is where it takes a request of this kind. */
  ghost predicate Takes(s: State, pc: CallerPc) {
    s.loop.StayHere? || (pc.SendStart? && s.loop.AwaitFirstStart?)
  }

  lemma RequestStep(s: State, a: Action, c: nat, pc: CallerPc)
    requires Inv(s) && At(s, c, pc) && (pc.SendStart? || pc.SendStop?) && !Takes(s, pc) && Enabled(s, a)
    ensures At(Apply(s, a), c, pc) && !Takes(Apply(s, a), pc)
  {
    OnlyCaller(s, c);
    assert CallInProgress(s, s.callers[c]);
    assert s.loopMu == Caller(c);
    hide Mutexes, Runners;
  }

  lemma {:induction false} RequestWaits(s: State, run: seq<Action>, c: nat, pc: CallerPc)
    requires Inv(s) && At(s, c, pc) && (pc.SendStart? || pc.SendStop?) && !Takes(s, pc) && CanRun(s, run)
    ensures At(After(s, run), c, pc) && After(s, run).status == (if pc.SendStart? then Starting else Stopping)
    decreases |run|
  {
    assert CallInProgress(s, s.callers[c]);
    if run != [] {
      hide Inv, Enabled, Apply, Takes;
      RequestStep(s, run[0], c, pc);
      StepKeepsInv(s, run[0]);
      RequestWaits(Apply(s, run[0]), run[1..], c, pc);
    }
  }

  /**
    A request that is to be sent to the loop waits for ever, with the loop mutex held and the
    status unchanged, exactly when the loop is not where it takes such a request: it handles a
    crash, was cancelled or has ended.
   */
  lemma RequestWaitsForeverIff(s: State, c: nat, pc: CallerPc)
    requires Reachable(s) && At(s, c, pc) && (pc.SendStart? || pc.SendStop?)
    ensures (forall run :: CanRun(s, run) ==> At(After(s, run), c, pc)) <==> !Takes(s, pc)
    ensures !Takes(s, pc) ==>
              s.loop.WantLoopMuToCrash? || s.loop.DrainForExit? || s.loop.Exited? || s.loop.Panicked?
  {
    ReachableInv(s);
    OnlyCaller(s, c);
    assert CallInProgress(s, s.callers[c]) && s.loopMu == Caller(c);
    if Takes(s, pc) {
      var a := if pc.SendStart? then Start(c) else Stop(c);
      assert Enabled(s, a);
      RunStep(s, a, []);
      assert CanRun(s, [a] + []) && !At(After(s, [a] + []), c, pc);
    } else {
      forall run | CanRun(s, run) ensures At(After(s, run), c, pc) {
        RequestWaits(s, run, c, pc);
      }
    }
  }

  /** A stop request that meets a cancelled loop. */
  lemma StopMeetsCancellation() returns (s: State)
    ensures Reachable(s) && At(s, 0, SendStop) && s.loop.DrainForExit?
  {
    hide Reachable;
    s := StartOnce(false);
    s := Request(s, 0, Stopped);
    ReachableStep(s, CancelLoop);
    s := Apply(s, CancelLoop);
    ReachableStep(s, SeeCancellation);
    s := Apply(s, SeeCancellation);
  }

  /** A start request that meets a crash: the loop has just received from a closed channel. */
  lemma StartMeetsCrash() returns (s: State)
    ensures Reachable(s) && At(s, 0, SendStart) && s.loop.WantLoopMuToCrash?
  {
    hide Reachable;
    s := StopOnce(true);
    ReachableStep(s, ReceiveFromClosed);
    s := Apply(s, ReceiveFromClosed);
    s := Request(s, 0, Running);
  }

  /** A stop request and a crash can meet: the caller waits for the loop, the loop for the caller's mutex. */
  ghost predicate StopMeetsCrash(s: State, c: nat) {
    At(s, c, SendStop) && s.loop.WantLoopMuToCrash?
  }

  lemma StopMeetsCrashIsReachable() returns (s: State)
    ensures Reachable(s) && StopMeetsCrash(s, 0)
  {
    hide Reachable;
    s := StartOnce(false);
    s := Request(s, 0, Stopped);
    ReachableStep(s, RunnerExits(false));
    s := Apply(s, RunnerExits(false));
  }

  /** From then on neither of them moves again, and the status stays Stopping. */
  lemma {:induction false} StopMeetsCrashIsForever(s: State, c: nat, run: seq<Action>)
    requires Inv(s) && StopMeetsCrash(s, c) && CanRun(s, run)
    ensures StopMeetsCrash(After(s, run), c) && After(s, run).status.Stopping?
    decreases |run|
  {
    assert CallInProgress(s, s.callers[c]);
    if run != [] {
      StepKeepsInv(s, run[0]);
      StopMeetsCrashIsForever(Apply(s, run[0]), c, run[1..]);
    }
  }

  // ---------------------------------------------- answers that nobody waits for

  ghost predicate AwaitsAnswer(s: State) {
    exists c :: At(s, c, AwaitStopped)
  }

  lemma AbandonedStep(s: State, a: Action)
    requires Inv(s) && s.loop.SendStopped? && !AwaitsAnswer(s) && Enabled(s, a)
    ensures Apply(s, a).loop.SendStopped? && !AwaitsAnswer(Apply(s, a))
  {
    assert forall c :: !At(s, c, AwaitStopped);
    if c :| At(Apply(s, a), c, AwaitStopped) {
      assert !At(s, c, AwaitStopped);
    }
    hide Mutexes, Runners;
  }

  lemma {:induction false} AbandonedForever(s: State, run: seq<Action>)
    requires Inv(s) && s.loop.SendStopped? && !AwaitsAnswer(s) && CanRun(s, run)
    ensures After(s, run).loop.SendStopped? && After(s, run).status.Stopping?
    decreases |run|
  {
    if run != [] {
      AbandonedStep(s, run[0]);
      StepKeepsInv(s, run[0]);
      hide Inv, Enabled, Apply, AwaitsAnswer;
      AbandonedForever(Apply(s, run[0]), run[1..]);
    }
  }

  /**
    A loop that has stopped its runner reports it to the caller. It is stuck there for ever, with
    status Stopping and whatever is requested or cancelled, exactly when no caller waits for it.
   */
  lemma StopAnswerIsStuckIff(s: State)
    requires Reachable(s) && s.loop.SendStopped?
    ensures (forall run :: CanRun(s, run) ==> After(s, run).loop.SendStopped?) <==> !AwaitsAnswer(s)
    ensures s.status.Stopping?
  {
    ReachableInv(s);
    if AwaitsAnswer(s) {
      var c :| At(s, c, AwaitStopped);
      RunStep(s, DeliverStopped(c), []);
      assert CanRun(s, [DeliverStopped(c)] + []) && !After(s, [DeliverStopped(c)] + []).loop.SendStopped?;
    } else {
      hide Inv, AwaitsAnswer, Reachable;
      forall run | CanRun(s, run) ensures After(s, run).loop.SendStopped? {
        AbandonedForever(s, run);
      }
    }
  }

  /** The context of a stop call ends before its answer. */
  lemma StopIsAbandoned() returns (s: State)
    ensures Reachable(s) && s.loop.SendStopped? && s.callers == map[]
  {
    hide Reachable;
    s := StartOnce(false);
    s := Request(s, 0, Stopped);
    ReachableStep(s, Stop(0));
    s := Apply(s, Stop(0));
    ReachableStep(s, ContextDone(0));
    s := Apply(s, ContextDone(0));
    s := Answer(s, 0);
    ReachableStep(s, RunnerExits(false));
    s := Apply(s, RunnerExits(false));
  }

  /** The VPN runs, its status says that it is starting or has crashed, and no call can change that. */
  ghost predicate Unanswered(s: State) {
    && (s.status.Starting? || s.status.Crashed?) && (s.loop.StayHere? || s.loop.DrainForExit?) && s.alive == {s.current} && !s.closed
    && forall c :: c in s.callers ==>
                     s.callers[c].WantLoopMu? || s.callers[c].WantStatusMu? || s.callers[c].Deciding? || s.callers[c].Unlocking?
  }

  lemma UnansweredStep(s: State, a: Action)
    requires Inv(s) && Unanswered(s) && Enabled(s, a) && !a.RunnerExits?
    ensures Unanswered(Apply(s, a)) && Apply(s, a).status == s.status
  {
    hide Runners, Meaning;
  }

  /** As long as its runner does not exit, such a VPN runs on under that status, whatever is requested. */
  lemma {:induction false} UnansweredForever(s: State, run: seq<Action>)
    requires Inv(s) && Unanswered(s) && CanRun(s, run) && forall a :: a in run ==> !a.RunnerExits?
    ensures Unanswered(After(s, run)) && After(s, run).status == s.status
    decreases |run|
  {
    if run != [] {
      hide Inv, Enabled, Apply, Unanswered;
      assert run[0] in run && forall a :: a in run[1..] ==> a in run;
      UnansweredStep(s, run[0]);
      StepKeepsInv(s, run[0]);
      UnansweredForever(Apply(s, run[0]), run[1..]);
    }
  }

  /** The context of a start call ends before its answer. */
  lemma StartIsAbandoned() returns (s: State)
    ensures Reachable(s) && Unanswered(s) && s.status.Starting? && s.loop.StayHere? && s.callers == map[]
  {
    hide Reachable;
    ReachableInit();
    s := Request(INIT, 0, Running);
    ReachableStep(s, Start(0));
    s := Apply(s, Start(0));
    ReachableStep(s, ContextDone(0));
    s := Apply(s, ContextDone(0));
    s := Answer(s, 0);
    ReachableStep(s, EnterIteration);
    s := Apply(s, EnterIteration);
    ReachableStep(s, LaunchRunner);
    s := Apply(s, LaunchRunner);
    ReachableStep(s, GraceElapsed);
    s := Apply(s, GraceElapsed);
    ReachableStep(s, DropStatus);
    s := Apply(s, DropStatus);
  }
}

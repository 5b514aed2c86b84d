// The sleeper task (lib/chainlink/core/utils/sleeper_task.go): a worker goroutine behind a wake-up
// channel of capacity one, started and stopped through the life cycle of Lifecycle.dfy.
//
// Any number of goroutines call WakeUp, WakeUpIfStarted and Stop.  The calls that go through
// StartStopOnce take the steps of the life-cycle machine; the bodies of the functions handed to it
// (closing chStop and waiting for chDone, or the non-blocking send) are steps of this machine.
// The 15 second timeout is a choice that Stop may take at any time while it waits.
module SleeperTask {
  import opened Basics
  import L = Lifecycle

  datatype Worker = Selecting | Working | Exiting | Exited

  // What a goroutine is doing besides its life-cycle call.
  datatype Side =
    | Calm
    | WakeLoad      // WakeUp: about to load the state
    | WakeSend      // WakeUp: about to send to chQueue
    | Waiting       // Stop: chStop closed, waiting for chDone or the timeout
    | DoubleClose   // the run-time panic of closing chStop twice

  datatype Event =
    | Wake(accepted: bool)  // a send to chQueue; not accepted when the default branch was taken
    | WorkBegin             // the worker received from chQueue and calls Work
    | WorkEnd

  datatype Task = Task(
    life: L.State,
    slot: bool,        // chQueue holds a wake-up
    stopClosed: bool,  // chStop is closed
    worker: Worker,    // chDone is closed when this is Exited
    sides: seq<Side>,
    log: seq<Event>
  )

  datatype Action =
    | Life(t: nat, a: L.Action)
    | CloseStop(t: nat)
    | StopReturns(t: nat, timedOut: bool)
    | CallbackSend(t: nat)
    | WakeUp(t: nat)
    | LoadState(t: nat)
    | Send(t: nat)
    | Receive
    | WorkReturns
    | SeeStop
    | CloseDone

  // The task as NewSleeperTask returns it, shared by n goroutines: StartOnce has run, its function
  // has spawned the worker loop and returned nil.
  function Initial(n: nat): Task {
    Task(L.State(L.FRESH.(phase := L.Started, startRuns := 1, startNils := 1), seq(n, _ => L.Idle)),
         false, false, Selecting, seq(n, _ => Calm), [])
  }

  predicate At(s: Task, t: nat, pc: L.Pc, side: Side) {
    t < |s.life.pcs| && t < |s.sides| && s.life.pcs[t] == pc && s.sides[t] == side
  }

  predicate Enabled(s: Task, a: Action) {
    match a
    case Life(t, la) =>
      && L.Enabled(s.life, t, la) && At(s, t, s.life.pcs[t], Calm) && !la.FnEnds?
      && (la.Begin? ==> la.call == L.StopOnce || la.call == L.IfStarted)
    case CloseStop(t) => At(s, t, L.StopFn, Calm)
    case StopReturns(t, timedOut) => At(s, t, L.StopFn, Waiting) && (timedOut || s.worker == Exited)
    case CallbackSend(t) => At(s, t, L.IfStartedFn, Calm)
    case WakeUp(t) => At(s, t, L.Idle, Calm)
    case LoadState(t) => At(s, t, L.Idle, WakeLoad)
    case Send(t) => At(s, t, L.Idle, WakeSend)
    case Receive => s.worker == Selecting && s.slot
    case WorkReturns => s.worker == Working
    case SeeStop => s.worker == Selecting && s.stopClosed
    case CloseDone => s.worker == Exiting
  }

  // The select with a default branch in WakeUp and WakeUpIfStarted.
  function Sent(s: Task): Task {
    s.(slot := true, log := s.log + [Wake(!s.slot)])
  }

  function Turn(s: Task, t: nat, side: Side): Task
    requires t < |s.sides|
  {
    s.(sides := s.sides[t := side])
  }

  function LifeStep(s: Task, a: Action): L.State
    requires Enabled(s, a)
  {
    match a
    case Life(t, la) => L.Step(s.life, t, la)
    case StopReturns(t, timedOut) => L.Step(s.life, t, L.FnEnds(if timedOut then L.Err else L.Nil))
    case CallbackSend(t) => L.Step(s.life, t, L.FnEnds(L.Nil))
    case _ => s.life
  }

  function Step(s: Task, a: Action): Task
    requires Enabled(s, a)
  {
    var s' := s.(life := LifeStep(s, a));
    match a
    case Life(_, _) => s'
    case CloseStop(t) =>
      if s.stopClosed then Turn(s', t, DoubleClose) else Turn(s', t, Waiting).(stopClosed := true)
    case StopReturns(t, _) => Turn(s', t, Calm)
    case CallbackSend(t) => Sent(s')
    case WakeUp(t) => Turn(s', t, WakeLoad)
    case LoadState(t) =>
      // WakeUp panics on a stopped task; the goroutine is then free again.
      Turn(s', t, if s.life.once.phase == L.Stopped then Calm else WakeSend)
    case Send(t) => Turn(Sent(s'), t, Calm)
    case Receive => s'.(slot := false, worker := Working, log := s.log + [WorkBegin])
    case WorkReturns => s'.(worker := Selecting, log := s.log + [WorkEnd])
    case SeeStop => s'.(worker := Exiting)
    case CloseDone => s'.(worker := Exited)
  }

  // ---- The log ------------------------------------------------------------------------------

  function Begins(log: seq<Event>): nat {
    if log == [] then 0 else Begins(log[..|log| - 1]) + Bit(log[|log| - 1].WorkBegin?)
  }

  function Ends(log: seq<Event>): nat {
    if log == [] then 0 else Ends(log[..|log| - 1]) + Bit(log[|log| - 1].WorkEnd?)
  }

  function Accepted(log: seq<Event>): nat {
    if log == [] then 0 else Accepted(log[..|log| - 1]) + Bit(log[|log| - 1] == Wake(true))
  }

  // The wake-up at i has been followed by a call to Work.
  ghost predicate Served(log: seq<Event>, i: nat) {
    exists j :: i < j < |log| && log[j].WorkBegin?
  }

  ghost predicate AllServed(log: seq<Event>) {
    forall i: nat :: i < |log| && log[i].Wake? ==> Served(log, i)
  }

  lemma LogGrows(log: seq<Event>, e: Event)
    ensures Begins(log + [e]) == Begins(log) + Bit(e.WorkBegin?)
    ensures Ends(log + [e]) == Ends(log) + Bit(e.WorkEnd?)
    ensures Accepted(log + [e]) == Accepted(log) + Bit(e == Wake(true))
    ensures AllServed(log + [e]) <==> if e.WorkBegin? then true else if e.Wake? then false else AllServed(log)
  {
    assert (log + [e])[..|log|] == log;
  }

  // ---- The invariant ------------------------------------------------------------------------

  ghost predicate LogInv(s: Task) {
    && (s.slot <==> !AllServed(s.log))
    && Accepted(s.log) == Begins(s.log) + Bit(s.slot)
    && Begins(s.log) == Ends(s.log) + Bit(s.worker == Working)
  }

  predicate StopInv(s: Task) {
    && L.EverStarted(s.life.once.phase)
    && (s.stopClosed ==> L.EverStopped(s.life.once.phase))
    && (s.worker == Exiting || s.worker == Exited ==> s.stopClosed)
    && (s.life.once.phase == L.Stopped ==> s.worker == Exited)
  }

  predicate SideInv(s: Task, pc: L.Pc, side: Side) {
    && (match side
        case Calm => pc == L.StopFn ==> !s.stopClosed
        case Waiting => pc == L.StopFn && s.stopClosed
        case DoubleClose => false
        case _ => pc == L.Idle)
    && (pc == L.StopFinish(false) ==> s.worker == Exited)
  }

  ghost predicate Inv(s: Task) {
    && L.Inv(s.life) && |s.sides| == |s.life.pcs|
    && LogInv(s) && StopInv(s)
    && forall t :: 0 <= t < |s.sides| ==> SideInv(s, s.life.pcs[t], s.sides[t])
  }

  lemma InitialInv(n: nat)
    ensures Inv(Initial(n))
  {
    var s := Initial(n);
    L.CountNone(s.life.pcs, L.Writing);
    L.CountNone(s.life.pcs, L.Reading);
    L.CountNone(s.life.pcs, L.InStart);
    L.CountNone(s.life.pcs, L.BeforeStartFn);
    L.CountNone(s.life.pcs, L.StartSucceeds);
    L.CountNone(s.life.pcs, L.InStop);
  }

  // The task refines the life cycle: what it does to its StartStopOnce is a step of that machine,
  // or nothing.
  lemma RefinesLifecycle(s: Task, a: Action) returns (t: nat, la: L.Action)
    requires Enabled(s, a)
    ensures Step(s, a).life == s.life
         || (L.Enabled(s.life, t, la) && Step(s, a).life == L.Step(s.life, t, la))
  {
    t, la := 0, L.Advance;
    match a
    case Life(u, lb) => t, la := u, lb;
    case StopReturns(u, timedOut) => t, la := u, L.FnEnds(if timedOut then L.Err else L.Nil);
    case CallbackSend(u) => t, la := u, L.FnEnds(L.Nil);
    case _ =>
  }

  lemma StepLifeInv(s: Task, a: Action)
    requires Inv(s) && Enabled(s, a)
    ensures L.Inv(Step(s, a).life)
    ensures |Step(s, a).sides| == |Step(s, a).life.pcs|
    ensures Step(s, a).life.once.phase == s.life.once.phase
         || L.Edge(s.life.once.phase, Step(s, a).life.once.phase)
  {
    var t, la := RefinesLifecycle(s, a);
    if L.Enabled(s.life, t, la) {
      L.StepInv(s.life, t, la);
      L.StepFollowsDiagram(s.life, t, la);
    }
  }

  lemma StepLog(s: Task, a: Action)
    requires LogInv(s) && Enabled(s, a)
    ensures LogInv(Step(s, a))
  {
    hide LifeStep, AllServed, Begins, Ends, Accepted;
    LogGrows(s.log, Wake(!s.slot));
    LogGrows(s.log, WorkBegin);
    LogGrows(s.log, WorkEnd);
  }

  lemma StepStop(s: Task, a: Action)
    requires Inv(s) && Enabled(s, a)
    ensures StopInv(Step(s, a))
  {
    StepLifeInv(s, a);
    if a.Life? {
      assert SideInv(s, s.life.pcs[a.t], s.sides[a.t]);
      L.OwnerPhase(s.life, a.t);
    } else if a.CloseStop? {
      L.OwnerPhase(s.life, a.t);
    }
  }

  predicate Acts(a: Action, u: nat) {
    match a
    case Receive => false
    case WorkReturns => false
    case SeeStop => false
    case CloseDone => false
    case _ => a.t == u
  }

  lemma StepActor(s: Task, a: Action, u: nat)
    requires Inv(s) && Enabled(s, a) && u < |s.sides| && Acts(a, u)
    ensures SideInv(Step(s, a), Step(s, a).life.pcs[u], Step(s, a).sides[u])
  {
    assert SideInv(s, s.life.pcs[u], s.sides[u]);
    L.OwnerPhase(s.life, u);
  }

  lemma StepBystander(s: Task, a: Action, u: nat)
    requires Inv(s) && Enabled(s, a) && u < |s.sides| && !Acts(a, u)
    ensures SideInv(Step(s, a), Step(s, a).life.pcs[u], Step(s, a).sides[u])
  {
    assert SideInv(s, s.life.pcs[u], s.sides[u]);
    if a.CloseStop? && s.life.pcs[u] == L.StopFn {
      L.CountMembers(s.life.pcs, a.t, u, L.InStop);
    }
  }

  // Every step of every goroutine keeps the invariant.
  lemma StepInv(s: Task, a: Action)
    requires Inv(s) && Enabled(s, a)
    ensures Inv(Step(s, a))
  {
    StepLifeInv(s, a);
    StepLog(s, a);
    StepStop(s, a);
    var s' := Step(s, a);
    forall u | 0 <= u < |s'.sides|
      ensures SideInv(s', s'.life.pcs[u], s'.sides[u])
    {
      if Acts(a, u) { StepActor(s, a, u); } else { StepBystander(s, a, u); }
    }
  }

  // ---- Runs ---------------------------------------------------------------------------------

  ghost predicate IsRun(n: nat, schedule: seq<Action>, run: seq<Task>) {
    && |run| == |schedule| + 1
    && run[0] == Initial(n)
    && forall i :: 0 <= i < |schedule| ==>
         Enabled(run[i], schedule[i]) && run[i + 1] == Step(run[i], schedule[i])
  }

  lemma {:induction false} RunInv(n: nat, schedule: seq<Action>, run: seq<Task>, i: nat)
    requires IsRun(n, schedule, run) && i < |run|
    ensures Inv(run[i])
  {
    if i == 0 {
      InitialInv(n);
    } else {
      RunInv(n, schedule, run, i - 1);
      StepInv(run[i - 1], schedule[i - 1]);
    }
  }

  // No wake-up is lost inside the channel.  In every reachable state some WakeUp (or
  // WakeUpIfStarted) still waits for a later call to Work exactly when the slot is full; a send
  // that took the default branch is no exception.  What was accepted is what was received plus the
  // slot, and no two calls to Work overlap.
  lemma WakeUpsWaitInTheSlot(n: nat, schedule: seq<Action>, run: seq<Task>, i: nat)
    requires IsRun(n, schedule, run) && i < |run|
    ensures run[i].slot <==> exists w: nat :: w < |run[i].log| && run[i].log[w].Wake? && !Served(run[i].log, w)
    ensures Accepted(run[i].log) == Begins(run[i].log) + Bit(run[i].slot)
    ensures Begins(run[i].log) == Ends(run[i].log) + Bit(run[i].worker == Working)
  {
    RunInv(n, schedule, run, i);
  }

  // As long as nobody has closed chStop, a worker with a full slot waits for nobody: a working one
  // comes back with the slot still full, and a selecting one can only receive.  What its turns
  // lead to is ServedWithinTwoTurns.
  lemma FullSlotKeepsWorkerGoing(n: nat, schedule: seq<Action>, run: seq<Task>, i: nat)
    requires IsRun(n, schedule, run) && i < |run|
    requires run[i].slot && !run[i].stopClosed
    ensures run[i].worker == Working ==>
              Enabled(run[i], WorkReturns) && Step(run[i], WorkReturns).worker == Selecting
              && Step(run[i], WorkReturns).slot
    ensures run[i].worker != Working ==>
              !Enabled(run[i], SeeStop) && Enabled(run[i], Receive)
              && AllServed(Step(run[i], Receive).log) && Step(run[i], Receive).worker == Working
  {
    RunInv(n, schedule, run, i);
    LogGrows(run[i].log, WorkBegin);
  }

  lemma StepExtendsLog(s: Task, a: Action)
    requires Enabled(s, a)
    ensures s.log <= Step(s, a).log
    ensures a == Receive ==> Step(s, a).log == s.log + [WorkBegin]
  {
  }

  // The log only grows along a run.
  lemma {:induction false} LogExtends(n: nat, schedule: seq<Action>, run: seq<Task>, i: nat, j: nat)
    requires IsRun(n, schedule, run) && i <= j < |run|
    ensures run[i].log <= run[j].log
    decreases j
  {
    hide Step, Enabled;
    if i < j {
      LogExtends(n, schedule, run, i, j - 1);
      StepExtendsLog(run[j - 1], schedule[j - 1]);
    }
  }

  // All wake-ups among the first m events have been followed by a call to Work.
  ghost predicate ServedUpTo(log: seq<Event>, m: nat) {
    forall w: nat :: w < m && w < |log| && log[w].Wake? ==> Served(log, w)
  }

  lemma ServedStays(log: seq<Event>, later: seq<Event>, m: nat)
    requires ServedUpTo(log, m) && log <= later && m <= |log|
    ensures ServedUpTo(later, m)
  {
    forall w: nat | w < m && later[w].Wake?
      ensures Served(later, w)
    {
      assert log[w].Wake?;
      var k :| w < k < |log| && log[k].WorkBegin?;
      assert later[k].WorkBegin?;
    }
  }

  lemma ServedByReceive(log: seq<Event>, m: nat)
    requires m <= |log|
    ensures ServedUpTo(log + [WorkBegin], m)
  {
    assert (log + [WorkBegin])[|log|].WorkBegin?;
  }

  // How often the worker receives from chQueue or comes back from Work in schedule[i..j].
  function WorkerTurns(schedule: seq<Action>, i: nat, j: nat): nat
    requires i <= j <= |schedule|
    decreases j
  {
    if i == j then 0
    else WorkerTurns(schedule, i, j - 1) + Bit(schedule[j - 1] == Receive || schedule[j - 1] == WorkReturns)
  }

  // After some turns of the worker the first m events are served, or the slot is still full and
  // the worker has at most come back from Work.
  ghost predicate ServedOrDue(s: Task, m: nat, turns: nat) {
    ServedUpTo(s.log, m) || (s.slot && turns + Bit(s.worker == Working) <= 1)
  }

  lemma StepServes(s: Task, a: Action, m: nat, turns: nat)
    requires Enabled(s, a) && m <= |s.log| && ServedOrDue(s, m, turns)
    ensures ServedOrDue(Step(s, a), m, turns + Bit(a == Receive || a == WorkReturns))
  {
    hide ServedUpTo, LifeStep;
    StepExtendsLog(s, a);
    if ServedUpTo(s.log, m) {
      ServedStays(s.log, Step(s, a).log, m);
    } else if a == Receive {
      ServedByReceive(s.log, m);
    }
  }

  lemma {:induction false} WakeUpsAreDue(n: nat, schedule: seq<Action>, run: seq<Task>, i: nat, j: nat)
    requires IsRun(n, schedule, run) && i <= j < |run|
    ensures ServedOrDue(run[j], |run[i].log|, WorkerTurns(schedule, i, j))
    decreases j
  {
    hide ServedUpTo, Step, Enabled;
    if i == j {
      AllServedUpToNow(n, schedule, run, i);
    } else {
      WakeUpsAreDue(n, schedule, run, i, j - 1);
      LogExtends(n, schedule, run, i, j - 1);
      StepServes(run[j - 1], schedule[j - 1], |run[i].log|, WorkerTurns(schedule, i, j - 1));
    }
  }

  // Every wake-up leads to Work within two turns of the worker, whatever anybody else does in
  // between: at most one call to Work has to come back before the one that serves it.
  lemma ServedWithinTwoTurns(n: nat, schedule: seq<Action>, run: seq<Task>, i: nat, j: nat)
    requires IsRun(n, schedule, run) && i <= j < |run| && WorkerTurns(schedule, i, j) >= 2
    ensures ServedUpTo(run[j].log, |run[i].log|)
  {
    WakeUpsAreDue(n, schedule, run, i, j);
  }

  lemma AllServedUpToNow(n: nat, schedule: seq<Action>, run: seq<Task>, i: nat)
    requires IsRun(n, schedule, run) && i < |run|
    ensures ServedUpTo(run[i].log, |run[i].log|) <==> !run[i].slot
  {
    WakeUpsWaitInTheSlot(n, schedule, run, i);
  }

  // chStop is closed at most once, and closing it never panics.  A Stop that returned nil (phase
  // Stopped) leaves a worker loop that has exited.
  lemma StopIsClean(n: nat, schedule: seq<Action>, run: seq<Task>, i: nat)
    requires IsRun(n, schedule, run) && i < |run|
    ensures DoubleClose !in run[i].sides && L.Unreachable !in run[i].life.pcs
    ensures run[i].life.once.phase == L.Stopped ==> run[i].worker == Exited && run[i].stopClosed
    ensures run[i].life.once.stopRuns <= 1
    ensures i < |schedule| && schedule[i].CloseStop? ==> !run[i].stopClosed && run[i + 1].stopClosed
  {
    RunInv(n, schedule, run, i);
    if i < |schedule| && schedule[i].CloseStop? {
      assert SideInv(run[i], run[i].life.pcs[schedule[i].t], run[i].sides[schedule[i].t]);
    }
    forall t | 0 <= t < |run[i].sides|
      ensures run[i].sides[t] != DoubleClose && run[i].life.pcs[t] != L.Unreachable
    {
      assert SideInv(run[i], run[i].life.pcs[t], run[i].sides[t]);
      assert L.PcInv(run[i].life.once.phase, run[i].life.pcs[t]);
    }
  }

  lemma ExitedStays(s: Task, a: Action)
    requires Enabled(s, a) && s.worker == Exited
    ensures Step(s, a).worker == Exited
    ensures Begins(Step(s, a).log) == Begins(s.log) && Ends(Step(s, a).log) == Ends(s.log)
    ensures s.slot ==> Step(s, a).slot
  {
    LogGrows(s.log, Wake(!s.slot));
  }

  // After the worker loop has exited no Work is in progress and none ever begins again; a full slot
  // stays full, so the wake-ups in it are never served.
  lemma {:induction false} ExitIsFinal(n: nat, schedule: seq<Action>, run: seq<Task>, i: nat, j: nat)
    requires IsRun(n, schedule, run) && i <= j < |run| && run[i].worker == Exited
    ensures run[j].worker == Exited
    ensures Begins(run[j].log) == Begins(run[i].log) == Ends(run[j].log)
    ensures run[i].slot ==> run[j].slot
    decreases j
  {
    hide Step, Enabled, Begins, Ends, Accepted;
    WakeUpsWaitInTheSlot(n, schedule, run, j);
    if i < j {
      ExitIsFinal(n, schedule, run, i, j - 1);
      ExitedStays(run[j - 1], schedule[j - 1]);
    }
  }

  // The same, as seen by a caller of Stop.
  lemma StoppedIsFinal(n: nat, schedule: seq<Action>, run: seq<Task>, i: nat, j: nat)
    requires IsRun(n, schedule, run) && i <= j < |run| && run[i].life.once.phase == L.Stopped
    ensures run[j].worker == Exited && Begins(run[j].log) == Begins(run[i].log) == Ends(run[i].log)
  {
    StopIsClean(n, schedule, run, i);
    ExitIsFinal(n, schedule, run, i, i);
    ExitIsFinal(n, schedule, run, i, j);
  }

  // ---- Who may send -------------------------------------------------------------------------

  // WakeUp never blocks, and goes on to its send if and only if it does not find the task stopped;
  // otherwise it panics, and the goroutine is free again.
  lemma WakeUpLooksFirst(n: nat, schedule: seq<Action>, run: seq<Task>, i: nat, t: nat)
    requires IsRun(n, schedule, run) && i < |run| && t < |run[i].sides|
    ensures run[i].sides[t] == WakeLoad ==> Enabled(run[i], LoadState(t))
    ensures run[i].sides[t] == WakeSend ==> Enabled(run[i], Send(t))
    ensures i < |schedule| && schedule[i] == LoadState(t) ==>
              && run[i + 1].sides[t] == (if run[i].life.once.phase == L.Stopped then Calm else WakeSend)
              && run[i + 1].log == run[i].log && run[i + 1].slot == run[i].slot
    ensures i < |schedule| && (schedule[i] == Send(t) || schedule[i] == CallbackSend(t)) ==>
              run[i + 1].slot && run[i + 1].log == run[i].log + [Wake(!run[i].slot)]
  {
    RunInv(n, schedule, run, i);
    assert SideInv(run[i], run[i].life.pcs[t], run[i].sides[t]);
  }

  lemma StepSides(s: Task, a: Action, t: nat)
    requires Enabled(s, a) && t < |s.sides|
    ensures |Step(s, a).sides| == |s.sides|
    ensures Step(s, a).sides[t] == WakeSend ==>
              s.sides[t] == WakeSend || (a == LoadState(t) && s.life.once.phase != L.Stopped)
  {
    hide LifeStep;
  }

  // The wake-up that goroutine t is about to send was let through at k.
  ghost predicate LetThrough(schedule: seq<Action>, run: seq<Task>, k: nat, t: nat) {
    k < |schedule| && k < |run| && schedule[k] == LoadState(t) && run[k].life.once.phase != L.Stopped
  }

  lemma {:induction false} SenderWasLetThrough(n: nat, schedule: seq<Action>, run: seq<Task>, j: nat, t: nat)
    requires IsRun(n, schedule, run) && j < |run| && t < |run[j].sides| && run[j].sides[t] == WakeSend
    ensures exists k :: 0 <= k < j && LetThrough(schedule, run, k, t)
  {
    hide Step, Enabled;
    if j > 0 {
      var k := j - 1;
      SidesStay(n, schedule, run, k);
      SidesStay(n, schedule, run, j);
      StepSides(run[k], schedule[k], t);
      if run[k].sides[t] == WakeSend {
        SenderWasLetThrough(n, schedule, run, k, t);
      } else {
        assert LetThrough(schedule, run, k, t);
      }
    }
  }

  lemma {:induction false} SidesStay(n: nat, schedule: seq<Action>, run: seq<Task>, i: nat)
    requires IsRun(n, schedule, run) && i < |run|
    ensures |run[i].sides| == n
  {
    hide LifeStep;
    if i > 0 { SidesStay(n, schedule, run, i - 1); }
  }

  // So a WakeUp sends only after it has found a phase other than Stopped, and WakeUpIfStarted sends
  // only in phase Started.
  lemma SendsAreLetThrough(n: nat, schedule: seq<Action>, run: seq<Task>, j: nat, t: nat)
    requires IsRun(n, schedule, run) && j < |schedule|
    ensures schedule[j] == Send(t) ==> exists k :: 0 <= k < j && LetThrough(schedule, run, k, t)
    ensures schedule[j] == CallbackSend(t) ==> run[j].life.once.phase == L.Started
  {
    if schedule[j] == Send(t) {
      SenderWasLetThrough(n, schedule, run, j, t);
    } else if schedule[j] == CallbackSend(t) {
      RunInv(n, schedule, run, j);
      CallbackRunsStarted(run[j], t);
    }
  }

  lemma CallbackRunsStarted(s: Task, t: nat)
    requires Inv(s) && Enabled(s, CallbackSend(t))
    ensures s.life.once.phase == L.Started
  {
    assert L.PcInv(s.life.once.phase, s.life.pcs[t]);
  }

  lemma StepAfterStop(s: Task, a: Action)
    requires Inv(s) && Enabled(s, a) && s.life.once.phase == L.Stopped
    ensures Step(s, a).life.once.phase == L.Stopped && !a.CallbackSend?
    ensures !a.Send? ==> Step(s, a).log == s.log && Step(s, a).slot == s.slot
  {
    StepLifeInv(s, a);
    if a.CallbackSend? { CallbackRunsStarted(s, a.t); }
  }

  // Calls that begin after the task has stopped change nothing: from phase Stopped on, when no
  // earlier WakeUp is still about to send, there is no further event and the slot stays as it is.
  lemma {:induction false} StoppedTaskRefuses(n: nat, schedule: seq<Action>, run: seq<Task>, i: nat, j: nat)
    requires IsRun(n, schedule, run) && i <= j < |run| && run[i].life.once.phase == L.Stopped
    requires WakeSend !in run[i].sides
    ensures run[j].life.once.phase == L.Stopped && WakeSend !in run[j].sides
    ensures run[j].log == run[i].log && run[j].slot == run[i].slot
    decreases j
  {
    hide Step, LifeStep, Inv;
    if i < j {
      var s, a := run[j - 1], schedule[j - 1];
      StoppedTaskRefuses(n, schedule, run, i, j - 1);
      RunInv(n, schedule, run, j - 1);
      StepAfterStop(s, a);
      forall t | 0 <= t < |run[j].sides|
        ensures run[j].sides[t] != WakeSend
      {
        SidesStay(n, schedule, run, j - 1);
        SidesStay(n, schedule, run, j);
        StepSides(s, a, t);
      }
    }
  }

  // Stop returns nil and leaves phase Stopped if the loop's exit ends its wait, and returns the
  // error and leaves phase StopFailed if the timeout does.
  lemma StopOutcome(n: nat, schedule: seq<Action>, run: seq<Task>, i: nat, t: nat, timedOut: bool)
    requires IsRun(n, schedule, run) && i < |schedule| && schedule[i] == StopReturns(t, timedOut)
    ensures !timedOut ==> run[i].worker == Exited
    ensures L.Enabled(run[i + 1].life, t, L.Advance)
    ensures var next := L.Step(run[i + 1].life, t, L.Advance);
            && next.once.phase == (if timedOut then L.StopFailed else L.Stopped)
            && next.pcs[t] == L.Unlock(if timedOut then L.ReplyErr else L.ReplyNil)
  {
    RunInv(n, schedule, run, i);
    L.OwnerPhase(run[i].life, t);
  }

  // ---- The documented guarantee, and where it ends -------------------------------------------

  // One goroutine calls WakeUp and then Stop, and the worker's select prefers chStop.
  const WAKE_THEN_STOP: seq<Action> := [
    WakeUp(0), LoadState(0), Send(0),
    Life(0, L.Begin(L.StopOnce)), Life(0, L.Advance), Life(0, L.Advance), CloseStop(0),
    SeeStop, CloseDone,
    StopReturns(0, false), Life(0, L.Advance), Life(0, L.Advance)
  ]

  // The states of that run: phase, writer, stop functions entered, program points, and the rest.
  function Moment(p: L.Phase, writer: bool, stops: nat, pc: L.Pc, side: Side,
                  slot: bool, stopClosed: bool, worker: Worker, log: seq<Event>): Task {
    Task(L.State(L.Shared(p, writer, 0, 1, 1, stops), [pc]), slot, stopClosed, worker, [side], log)
  }

  function WakeThenStop(): seq<Task> {
    var w := [Wake(true)];
    [ Moment(L.Started, false, 0, L.Idle, Calm, false, false, Selecting, []),
      Moment(L.Started, false, 0, L.Idle, WakeLoad, false, false, Selecting, []),
      Moment(L.Started, false, 0, L.Idle, WakeSend, false, false, Selecting, []),
      Moment(L.Started, false, 0, L.Idle, Calm, true, false, Selecting, w),
      Moment(L.Started, false, 0, L.StopLock, Calm, true, false, Selecting, w),
      Moment(L.Started, true, 0, L.StopSwap, Calm, true, false, Selecting, w),
      Moment(L.Stopping, true, 1, L.StopFn, Calm, true, false, Selecting, w),
      Moment(L.Stopping, true, 1, L.StopFn, Waiting, true, true, Selecting, w),
      Moment(L.Stopping, true, 1, L.StopFn, Waiting, true, true, Exiting, w),
      Moment(L.Stopping, true, 1, L.StopFn, Waiting, true, true, Exited, w),
      Moment(L.Stopping, true, 1, L.StopFinish(false), Calm, true, true, Exited, w),
      Moment(L.Stopped, true, 1, L.Unlock(L.ReplyNil), Calm, true, true, Exited, w),
      Moment(L.Stopped, false, 1, L.Idle, Calm, true, true, Exited, w) ]
  }

  lemma WakeThenStopWakes(i: nat)
    requires i < 3
    ensures Enabled(WakeThenStop()[i], WAKE_THEN_STOP[i])
    ensures WakeThenStop()[i + 1] == Step(WakeThenStop()[i], WAKE_THEN_STOP[i])
  {
  }

  lemma WakeThenStopBegins(i: nat)
    requires 3 <= i < 6
    ensures Enabled(WakeThenStop()[i], WAKE_THEN_STOP[i])
    ensures WakeThenStop()[i + 1] == Step(WakeThenStop()[i], WAKE_THEN_STOP[i])
  {
  }

  lemma WakeThenStopWaits(i: nat)
    requires 6 <= i < 9
    ensures Enabled(WakeThenStop()[i], WAKE_THEN_STOP[i])
    ensures WakeThenStop()[i + 1] == Step(WakeThenStop()[i], WAKE_THEN_STOP[i])
  {
  }

  lemma WakeThenStopEnds(i: nat)
    requires 9 <= i < 12
    ensures Enabled(WakeThenStop()[i], WAKE_THEN_STOP[i])
    ensures WakeThenStop()[i + 1] == Step(WakeThenStop()[i], WAKE_THEN_STOP[i])
  {
  }

  // The comment on NewSleeperTask promises a call to Work for every WakeUp.  That fails when Stop
  // comes next: here the WakeUp is accepted, Stop returns nil, and Work is never called.
  lemma WakeUpBeforeStopMayBeLost()
    ensures IsRun(1, WAKE_THEN_STOP, WakeThenStop())
    ensures var last := WakeThenStop()[12];
            && last.life.once.phase == L.Stopped && last.worker == Exited && last.life.pcs == [L.Idle]
            && last.log == [Wake(true)] && !Served(last.log, 0)
  {
    forall i: nat | i < 12
      ensures Enabled(WakeThenStop()[i], WAKE_THEN_STOP[i])
      ensures WakeThenStop()[i + 1] == Step(WakeThenStop()[i], WAKE_THEN_STOP[i])
    {
      if i < 3 { WakeThenStopWakes(i); } else if i < 6 { WakeThenStopBegins(i); }
      else if i < 9 { WakeThenStopWaits(i); } else { WakeThenStopEnds(i); }
    }
    assert WakeThenStop()[0] == Initial(1);
  }

  lemma {:induction false} LogAfterExit(n: nat, schedule: seq<Action>, run: seq<Task>, i: nat, j: nat)
    requires IsRun(n, schedule, run) && i <= j < |run| && run[i].worker == Exited
    ensures run[j].worker == Exited && run[i].log <= run[j].log
    ensures forall k :: |run[i].log| <= k < |run[j].log| ==> run[j].log[k].Wake?
    decreases j
  {
    if i < j {
      LogAfterExit(n, schedule, run, i, j - 1);
      ExitedStays(run[j - 1], schedule[j - 1]);
    }
  }

  // After the exit it is settled which wake-ups are served.
  lemma ServedAfterExit(n: nat, schedule: seq<Action>, run: seq<Task>, i: nat, j: nat)
    requires IsRun(n, schedule, run) && i <= j < |run| && run[i].worker == Exited
    ensures ServedUpTo(run[j].log, |run[i].log|) <==> !run[i].slot
  {
    LogAfterExit(n, schedule, run, i, j);
    AllServedUpToNow(n, schedule, run, i);
    var log, later := run[i].log, run[j].log;
    if !run[i].slot {
      ServedStays(log, later, |log|);
    } else {
      var w: nat :| w < |log| && log[w].Wake? && !Served(log, w);
      assert later[w].Wake?;
      forall k | w < k < |later|
        ensures !later[k].WorkBegin?
      {
        assert k < |log| ==> later[k] == log[k];
      }
    }
  }

  lemma RunAppend(n: nat, schedule: seq<Action>, run: seq<Task>, a: Action) returns (schedule': seq<Action>, run': seq<Task>)
    requires IsRun(n, schedule, run) && Enabled(run[|schedule|], a)
    ensures IsRun(n, schedule', run') && run <= run' && |run'| == |run| + 1
    ensures run'[|run|] == Step(run[|schedule|], a)
  {
    hide Step, Enabled;
    schedule', run' := schedule + [a], run + [Step(run[|schedule|], a)];
  }

  lemma RunPrefix(n: nat, schedule: seq<Action>, run: seq<Task>, i: nat)
    requires IsRun(n, schedule, run) && i < |run|
    ensures IsRun(n, schedule[..i], run[..i + 1])
  {
    hide Step, Enabled;
  }

  function StepsToExit(worker: Worker): nat {
    match worker case Working => 3 case Selecting => 2 case Exiting => 1 case Exited => 0
  }

  // What the worker does next when it does not receive.
  function TowardsExit(worker: Worker): Action {
    match worker case Working => WorkReturns case Selecting => SeeStop case _ => CloseDone
  }

  // Once chStop is closed the worker may exit without another receive.
  lemma {:induction false} MayExit(n: nat, schedule: seq<Action>, run: seq<Task>) returns (schedule': seq<Action>, run': seq<Task>)
    requires IsRun(n, schedule, run) && run[|schedule|].stopClosed
    ensures IsRun(n, schedule', run') && run <= run'
    ensures var s, s' := run[|schedule|], run'[|schedule'|];
            && s'.worker == Exited && s'.slot == s.slot && s.log <= s'.log
            && forall k :: |s.log| <= k < |s'.log| ==> !s'.log[k].Wake?
    decreases StepsToExit(run[|schedule|].worker)
  {
    var s := run[|schedule|];
    if s.worker == Exited {
      schedule', run' := schedule, run;
    } else {
      var more, next := RunAppend(n, schedule, run, TowardsExit(s.worker));
      schedule', run' := MayExit(n, more, next);
    }
  }

  // ---- The worker loop ends -----------------------------------------------------------------

  predicate IsWorkerStep(a: Action) { a == Receive || a == WorkReturns || a == SeeStop || a == CloseDone }

  predicate IsSend(a: Action) { a.Send? || a.CallbackSend? }

  // Steps of the worker, and sends to chQueue, in schedule[i..j].
  function WorkerSteps(schedule: seq<Action>, i: nat, j: nat): nat
    requires i <= j <= |schedule|
    decreases j
  {
    if i == j then 0 else WorkerSteps(schedule, i, j - 1) + Bit(IsWorkerStep(schedule[j - 1]))
  }

  function Sends(schedule: seq<Action>, i: nat, j: nat): nat
    requires i <= j <= |schedule|
    decreases j
  {
    if i == j then 0 else Sends(schedule, i, j - 1) + Bit(IsSend(schedule[j - 1]))
  }

  // An upper bound for the steps the worker still takes if nobody sends.
  function WorkerWork(s: Task): nat {
    2 * Bit(s.slot) + StepsToExit(s.worker)
  }

  lemma StepWorkerWork(s: Task, a: Action)
    requires Enabled(s, a)
    ensures WorkerWork(Step(s, a)) + Bit(IsWorkerStep(a)) <= WorkerWork(s) + 2 * Bit(IsSend(a))
    ensures s.stopClosed ==> Step(s, a).stopClosed
  {
  }

  lemma {:induction false} RunWorkerWork(n: nat, schedule: seq<Action>, run: seq<Task>, i: nat, j: nat)
    requires IsRun(n, schedule, run) && i <= j < |run|
    ensures WorkerWork(run[j]) + WorkerSteps(schedule, i, j) <= WorkerWork(run[i]) + 2 * Sends(schedule, i, j)
    ensures run[i].stopClosed ==> run[j].stopClosed
    decreases j
  {
    hide Step, Enabled, WorkerWork, IsWorkerStep, IsSend;
    if i < j {
      RunWorkerWork(n, schedule, run, i, j - 1);
      StepWorkerWork(run[j - 1], schedule[j - 1]);
    }
  }

  // Once chStop is closed the worker loop comes to its end: it takes at most five more steps, and
  // two for each further send, and until it has exited it can take one without waiting.
  lemma WorkerExits(n: nat, schedule: seq<Action>, run: seq<Task>, c: nat, j: nat)
    requires IsRun(n, schedule, run) && c <= j < |run| && run[c].stopClosed
    ensures WorkerSteps(schedule, c, j) <= 5 + 2 * Sends(schedule, c, j)
    ensures run[j].worker == Exited || Enabled(run[j], TowardsExit(run[j].worker))
    ensures WorkerSteps(schedule, c, j) == 5 + 2 * Sends(schedule, c, j) ==> run[j].worker == Exited
  {
    hide Step, LifeStep;
    RunWorkerWork(n, schedule, run, c, j);
  }

  // A run that goes on from run[..c + 1] and at j, after the loop has exited, has left one of the
  // wake-ups before c without a later call to Work.
  ghost predicate BreaksPromise(n: nat, run: seq<Task>, c: nat, schedule': seq<Action>, run': seq<Task>, j: nat)
    requires c < |run|
  {
    && IsRun(n, schedule', run') && c <= j < |run'| && run'[..c + 1] == run[..c + 1]
    && run'[j].worker == Exited && !ServedUpTo(run'[j].log, |run[c].log|)
  }

  // Exactly when the promise holds, at the time chStop is closed or at any later time: every run
  // that goes on from there serves all wake-ups so far if and only if the slot is empty, that is,
  // if and only if a call to Work has begun after the last of them.  With a full slot some run
  // breaks the promise.
  lemma PromiseKeptIffSlotEmpty(n: nat, schedule: seq<Action>, run: seq<Task>, c: nat)
    requires IsRun(n, schedule, run) && c < |run| && run[c].stopClosed
    ensures (forall schedule': seq<Action>, run': seq<Task>, j: nat :: !BreaksPromise(n, run, c, schedule', run', j)) <==> !run[c].slot
    ensures !run[c].slot <==> AllServed(run[c].log)
  {
    AllServedUpToNow(n, schedule, run, c);
    if run[c].slot {
      SlotIsLost(n, schedule, run, c);
    } else {
      forall schedule': seq<Action>, run': seq<Task>, j: nat
        ensures !BreaksPromise(n, run, c, schedule', run', j)
      {
        if BreaksPromise(n, run, c, schedule', run', j) {
          assert run'[..c + 1][c] == run[..c + 1][c];
          LogExtends(n, schedule', run', c, j);
          ServedStays(run[c].log, run'[j].log, |run[c].log|);
        }
      }
    }
  }

  lemma SlotIsLost(n: nat, schedule: seq<Action>, run: seq<Task>, c: nat)
    requires IsRun(n, schedule, run) && c < |run| && run[c].stopClosed && run[c].slot
    ensures exists schedule': seq<Action>, run': seq<Task>, j: nat :: BreaksPromise(n, run, c, schedule', run', j)
  {
    RunPrefix(n, schedule, run, c);
    var past := run[..c + 1];
    var schedule', run' := MayExit(n, schedule[..c], past);
    var j := |schedule'|;
    assert run'[..c + 1] == past && past[c] == run[c];
    AllServedUpToNow(n, schedule', run', j);
    var log, m := run'[j].log, |run[c].log|;
    var w: nat :| w < |log| && log[w].Wake? && !Served(log, w);
    assert w < m;
    assert !ServedUpTo(log, m);
    assert BreaksPromise(n, run, c, schedule', run', j);
  }

  // A run that goes on from run[..c + 1] and by j has served all wake-ups before c.
  ghost predicate KeepsPromise(n: nat, run: seq<Task>, c: nat, schedule': seq<Action>, run': seq<Task>, j: nat)
    requires c < |run|
  {
    && IsRun(n, schedule', run') && c <= j < |run'| && run'[..c + 1] == run[..c + 1]
    && ServedUpTo(run'[j].log, |run[c].log|)
  }

  lemma LeavingStep(s: Task, a: Action)
    requires Enabled(s, a) && (s.worker == Exiting || s.worker == Exited)
    ensures Step(s, a).worker == Exiting || Step(s, a).worker == Exited
    ensures s.slot ==> Step(s, a).slot
    ensures Step(s, a).log == s.log || exists accepted :: Step(s, a).log == s.log + [Wake(accepted)]
  {
    hide LifeStep;
    if a.Send? || a.CallbackSend? { assert Step(s, a).log == s.log + [Wake(!s.slot)]; }
  }

  lemma {:induction false} LeavingWithFullSlot(n: nat, schedule: seq<Action>, run: seq<Task>, i: nat, j: nat)
    requires IsRun(n, schedule, run) && i <= j < |run| && run[i].slot
    requires run[i].worker == Exiting || run[i].worker == Exited
    ensures (run[j].worker == Exiting || run[j].worker == Exited) && run[j].slot && run[i].log <= run[j].log
    ensures forall k :: |run[i].log| <= k < |run[j].log| ==> run[j].log[k].Wake?
    decreases j
  {
    hide Step, Enabled;
    if i < j {
      LeavingWithFullSlot(n, schedule, run, i, j - 1);
      LeavingStep(run[j - 1], schedule[j - 1]);
    }
  }

  // The other side of PromiseKeptIffSlotEmpty, with or without a Stop: some run that goes on from
  // here serves all wake-ups so far unless the slot is full and the worker has already left its
  // select for good.
  lemma PromiseMayBeKeptIff(n: nat, schedule: seq<Action>, run: seq<Task>, c: nat)
    requires IsRun(n, schedule, run) && c < |run|
    ensures (exists schedule': seq<Action>, run': seq<Task>, j: nat :: KeepsPromise(n, run, c, schedule', run', j))
        <==> !run[c].slot || run[c].worker == Working || run[c].worker == Selecting
  {
    AllServedUpToNow(n, schedule, run, c);
    if !run[c].slot {
      assert KeepsPromise(n, run, c, schedule, run, c);
    } else if run[c].worker == Working || run[c].worker == Selecting {
      MayServe(n, schedule, run, c);
    } else {
      forall schedule': seq<Action>, run': seq<Task>, j: nat
        ensures !KeepsPromise(n, run, c, schedule', run', j)
      {
        if KeepsPromise(n, run, c, schedule', run', j) {
          NotServedAfterLeaving(n, run, c, schedule', run', j);
        }
      }
    }
  }

  lemma NotServedAfterLeaving(n: nat, run: seq<Task>, c: nat, schedule': seq<Action>, run': seq<Task>, j: nat)
    requires c < |run| && IsRun(n, schedule', run') && c <= j < |run'| && run'[..c + 1] == run[..c + 1]
    requires run[c].slot && (run[c].worker == Exiting || run[c].worker == Exited)
    ensures !ServedUpTo(run'[j].log, |run[c].log|)
  {
    assert run'[..c + 1][c] == run[..c + 1][c];
    AllServedUpToNow(n, schedule', run', c);
    LeavingWithFullSlot(n, schedule', run', c, j);
    var log, later := run[c].log, run'[j].log;
    var w: nat :| w < |log| && log[w].Wake? && !Served(log, w);
    assert later[w].Wake?;
    forall k | w < k < |later|
      ensures !later[k].WorkBegin?
    {
      assert k < |log| ==> later[k] == log[k];
    }
  }

  lemma MayServe(n: nat, schedule: seq<Action>, run: seq<Task>, c: nat)
    requires IsRun(n, schedule, run) && c < |run| && run[c].slot
    requires run[c].worker == Working || run[c].worker == Selecting
    ensures exists schedule': seq<Action>, run': seq<Task>, j: nat :: KeepsPromise(n, run, c, schedule', run', j)
  {
    RunPrefix(n, schedule, run, c);
    var schedule', run' := schedule[..c], run[..c + 1];
    if run[c].worker == Working {
      schedule', run' := RunAppend(n, schedule', run', WorkReturns);
    }
    var i := |schedule'|;
    assert run'[i].log[..|run[c].log|] == run[c].log;
    schedule', run' := RunAppend(n, schedule', run', Receive);
    ServedByReceive(run'[i].log, |run[c].log|);
    assert KeepsPromise(n, run, c, schedule', run', i + 1);
  }
}

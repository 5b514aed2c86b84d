// The service life cycle of StartStopOnce (lib/chainlink/core/utils/utils.go).
//
// Any number of goroutines may call StartOnce, StopOnce, IfStarted and IfNotStopped on one object.
// A call is cut at its atomic steps: the compare-and-swap operations and loads on `state`, the
// acquisitions and releases of the embedded RWMutex, and the return of the caller's function.
// The lock is what the code has: a writer flag and a reader count.  That it excludes anybody is a
// theorem here, not part of the model.
module Lifecycle {
  import opened Basics

  datatype Phase = Unstarted | Started | Starting | StartFailed | Stopping | Stopped | StopFailed

  // How a function handed to one of the four calls ends.  After a panic the deferred unlock still
  // runs, but none of the statements after the call does.
  datatype Outcome = Nil | Err | Panic

  datatype Reply =
    | ReplyNil                      // the call returned nil
    | ReplyErr                      // the function's own error, passed on
    | ReplyPanic                    // the function's panic, passed on
    | AlreadyStartedOnce(at: Phase)
    | AlreadyStopped
    | CannotStopUnstarted
    | CannotStop(at: Phase)
    | Skipped                       // IfStarted or IfNotStopped returned false
    | Ran                           // IfStarted or IfNotStopped returned true

  datatype Call = StartOnce | StopOnce | IfStarted | IfNotStopped

  // Where a goroutine is.  A name says what happens next.
  datatype Pc =
    | Idle
    | StartSwap | StartRefused | StartLock | StartFn | StartFinish(startFailed: bool)
    | StopLock | StopSwap | StopRefused | StopFn | StopFinish(stopFailed: bool)
    | IfStartedLock | IfStartedLoad | IfStartedFn
    | IfNotStoppedLock | IfNotStoppedLoad | IfNotStoppedFn
    | Unlock(reply: Reply)
    | RUnlock(call: Call, reply: Reply)
    | Unreachable                   // the two panics the source calls unreachable

  // The fields of the object, with three counters that only the theorems read.
  datatype Shared = Shared(
    phase: Phase,
    writer: bool,
    readers: nat,
    startRuns: nat,    // how often a start function was entered
    startNils: nat,    // how often a start function returned nil
    stopRuns: nat      // how often a stop function was entered
  )

  // The object and one program point for every goroutine.
  datatype State = State(once: Shared, pcs: seq<Pc>)

  datatype Action =
    | Begin(call: Call)     // an idle goroutine enters one of the four calls
    | FnEnds(out: Outcome)  // the function running in this goroutine ends
    | Advance               // any other step

  const FRESH := Shared(Unstarted, false, 0, 0, 0, 0)

  function Initial(n: nat): State {
    State(FRESH, seq(n, _ => Idle))
  }

  predicate RunsFn(pc: Pc) {
    pc.StartFn? || pc.StopFn? || pc.IfStartedFn? || pc.IfNotStoppedFn?
  }

  // A goroutine at pc can do a.  Only the lock makes anybody wait.
  predicate Ready(o: Shared, pc: Pc, a: Action) {
    match a
    case Begin(_) => pc.Idle?
    case FnEnds(_) => RunsFn(pc)
    case Advance =>
      match pc
      case Idle => false
      case Unreachable => false
      case StartLock => !o.writer && o.readers == 0
      case StopLock => !o.writer && o.readers == 0
      case IfStartedLock => !o.writer
      case IfNotStoppedLock => !o.writer
      case RUnlock(_, _) => o.readers > 0
      case _ => !RunsFn(pc)
  }

  // One atomic step of one goroutine: what it does to the object and where it is afterwards.
  function Move(o: Shared, pc: Pc, a: Action): (Shared, Pc)
    requires Ready(o, pc, a)
  {
    match a
    case Begin(call) =>
      (o, match call
          case StartOnce => StartSwap
          case StopOnce => StopLock
          case IfStarted => IfStartedLock
          case IfNotStopped => IfNotStoppedLock)
    case FnEnds(out) => MoveFn(o, pc, out)
    case Advance => MoveOn(o, pc)
  }

  function MoveFn(o: Shared, pc: Pc, out: Outcome): (Shared, Pc)
    requires RunsFn(pc)
  {
    match pc
    case StartFn =>
      (if out.Nil? then o.(startNils := o.startNils + 1) else o,
       if out.Panic? then Unlock(ReplyPanic) else StartFinish(out.Err?))
    case StopFn => (o, if out.Panic? then Unlock(ReplyPanic) else StopFinish(out.Err?))
    case _ => (o, RUnlock(if pc.IfStartedFn? then IfStarted else IfNotStopped, if out.Panic? then ReplyPanic else Ran))
  }

  function MoveOn(o: Shared, pc: Pc): (Shared, Pc)
    requires Ready(o, pc, Advance)
  {
    match pc
    case StartSwap =>
      if o.phase == Unstarted then (o.(phase := Starting), StartLock) else (o, StartRefused)
    case StartRefused => (o, Idle)
    case StartLock => (o.(writer := true, startRuns := o.startRuns + 1), StartFn)
    case StartFinish(failed) =>
      if o.phase == Starting
      then (o.(phase := if failed then StartFailed else Started),
            Unlock(if failed then ReplyErr else ReplyNil))
      else (o, Unreachable)
    case StopLock => (o.(writer := true), StopSwap)
    case StopSwap =>
      if o.phase == Started
      then (o.(phase := Stopping, stopRuns := o.stopRuns + 1), StopFn)
      else (o, StopRefused)
    case StopRefused =>
      (o, Unlock(match o.phase
                 case Stopped => AlreadyStopped
                 case Unstarted => CannotStopUnstarted
                 case other => CannotStop(other)))
    case StopFinish(failed) =>
      if o.phase == Stopping
      then (o.(phase := if failed then StopFailed else Stopped),
            Unlock(if failed then ReplyErr else ReplyNil))
      else (o, Unreachable)
    case IfStartedLock => (o.(readers := o.readers + 1), IfStartedLoad)
    case IfStartedLoad => (o, if o.phase == Started then IfStartedFn else RUnlock(IfStarted, Skipped))
    case IfNotStoppedLock => (o.(readers := o.readers + 1), IfNotStoppedLoad)
    case IfNotStoppedLoad => (o, if o.phase == Stopped then RUnlock(IfNotStopped, Skipped) else IfNotStoppedFn)
    case Unlock(_) => (o.(writer := false), Idle)
    case RUnlock(_, _) => (o.(readers := o.readers - 1), Idle)
  }

  predicate Enabled(s: State, t: nat, a: Action) {
    t < |s.pcs| && Ready(s.once, s.pcs[t], a)
  }

  function Step(s: State, t: nat, a: Action): State
    requires Enabled(s, t, a)
  {
    var (o, pc) := Move(s.once, s.pcs[t], a);
    State(o, s.pcs[t := pc])
  }

  // ---- Counting goroutines ------------------------------------------------------------------

  // Sections of the calls, as sets of program points.
  datatype Section = Writing | Reading | InStart | BeforeStartFn | StartSucceeds | InStop

  predicate In(pc: Pc, section: Section) {
    match section
    case Writing =>
      || pc.StartFn? || pc.StartFinish? || pc.StopSwap? || pc.StopRefused? || pc.StopFn?
      || pc.StopFinish? || pc.Unlock? || pc.Unreachable?
    case Reading =>
      || pc.IfStartedLoad? || pc.IfStartedFn? || pc.IfNotStoppedLoad? || pc.IfNotStoppedFn?
      || pc.RUnlock?
    case InStart => pc.StartLock? || pc.StartFn? || pc.StartFinish?
    case BeforeStartFn => pc.StartLock?
    case StartSucceeds => pc == StartFinish(false)
    case InStop => pc.StopFn? || pc.StopFinish?
  }

  function Count(pcs: seq<Pc>, section: Section): nat {
    if pcs == [] then 0 else Count(pcs[..|pcs| - 1], section) + (if In(pcs[|pcs| - 1], section) then 1 else 0)
  }

  lemma {:induction false} CountUpdate(pcs: seq<Pc>, t: nat, pc: Pc, section: Section)
    requires t < |pcs|
    ensures Count(pcs[t := pc], section) + (if In(pcs[t], section) then 1 else 0)
         == Count(pcs, section) + (if In(pc, section) then 1 else 0)
  {
    var n := |pcs| - 1;
    if t == n {
      assert pcs[t := pc][..n] == pcs[..n];
    } else {
      CountUpdate(pcs[..n], t, pc, section);
      assert pcs[t := pc][..n] == pcs[..n][t := pc];
    }
  }

  // A goroutine in the section is counted; two of them are counted twice.
  lemma {:induction false} CountMembers(pcs: seq<Pc>, t: nat, u: nat, section: Section)
    requires t < |pcs| && u < |pcs| && In(pcs[t], section) && In(pcs[u], section)
    ensures Count(pcs, section) >= if t == u then 1 else 2
  {
    var n := |pcs| - 1;
    if t < n && u < n {
      CountMembers(pcs[..n], t, u, section);
    } else if t < n {
      CountMembers(pcs[..n], t, t, section);
    } else if u < n {
      CountMembers(pcs[..n], u, u, section);
    }
  }

  lemma {:induction false} CountNone(pcs: seq<Pc>, section: Section)
    requires forall t :: 0 <= t < |pcs| ==> !In(pcs[t], section)
    ensures Count(pcs, section) == 0
  {
    if pcs != [] {
      CountNone(pcs[..|pcs| - 1], section);
    }
  }

  // ---- The invariant ------------------------------------------------------------------------

  predicate EverStarted(p: Phase) { p.Started? || EverStopped(p) }
  predicate EverStopped(p: Phase) { p.Stopping? || p.Stopped? || p.StopFailed? }

  predicate WriterInv(s: State) {
    Count(s.pcs, Writing) == Bit(s.once.writer) && (s.once.writer ==> s.once.readers == 0)
  }

  predicate ReaderInv(s: State) { Count(s.pcs, Reading) == s.once.readers }

  // Starting is owned by one StartOnce call, Stopping by one StopOnce call.
  predicate OwnerInv(s: State) {
    && Count(s.pcs, InStart) <= Bit(s.once.phase == Starting)
    && Count(s.pcs, InStop) <= Bit(s.once.phase == Stopping)
  }

  predicate StartRunsInv(s: State) {
    s.once.startRuns + Count(s.pcs, BeforeStartFn) == Bit(s.once.phase != Unstarted)
  }

  predicate StartNilsInv(s: State) {
    s.once.startNils == Bit(EverStarted(s.once.phase)) + Count(s.pcs, StartSucceeds)
  }

  predicate StopRunsInv(s: State) { s.once.stopRuns == Bit(EverStopped(s.once.phase)) }

  // What the phase must be while a goroutine is at pc.
  predicate PcInv(p: Phase, pc: Pc) {
    match pc
    case Unreachable => false
    case StartRefused => p != Unstarted
    case StopRefused => p != Started
    case IfStartedFn => p == Started
    case IfNotStoppedFn => p != Stopped
    case Unlock(reply) => UnlockInv(p, reply)
    case RUnlock(call, reply) => RUnlockInv(p, call, reply)
    case _ => true
  }

  // What a writer about to release the lock may report.
  predicate UnlockInv(p: Phase, reply: Reply) {
    match reply
    case ReplyNil => p == Started || p == Stopped
    case ReplyErr => p == StartFailed || p == StopFailed
    case ReplyPanic => p == Starting || p == Stopping
    case AlreadyStopped => p == Stopped
    case CannotStopUnstarted => p == Unstarted || p == Starting
    case CannotStop(at) => p == at && (p == Starting || p == StartFailed || p == Stopping || p == StopFailed)
    case _ => false
  }

  // What a reader about to release the lock may report.
  predicate RUnlockInv(p: Phase, call: Call, reply: Reply) {
    && (reply.Skipped? || reply.Ran? || reply.ReplyPanic?)
    && match call
       case IfStarted => reply.Skipped? <==> p != Started
       case IfNotStopped => reply.Skipped? <==> p == Stopped
       case _ => false
  }

  ghost predicate Inv(s: State) {
    && WriterInv(s) && ReaderInv(s)
    && OwnerInv(s) && StartRunsInv(s) && StartNilsInv(s) && StopRunsInv(s)
    && forall t :: 0 <= t < |s.pcs| ==> PcInv(s.once.phase, s.pcs[t])
  }

  lemma InitialInv(n: nat)
    ensures Inv(Initial(n))
  {
    var s := Initial(n);
    CountNone(s.pcs, Writing);
    CountNone(s.pcs, Reading);
    CountNone(s.pcs, InStart);
    CountNone(s.pcs, BeforeStartFn);
    CountNone(s.pcs, StartSucceeds);
    CountNone(s.pcs, InStop);
  }

  // A goroutine in the write section has the lock to itself.
  lemma WriterAlone(s: State, t: nat, u: nat)
    requires WriterInv(s) && ReaderInv(s) && t < |s.pcs| && u < |s.pcs| && In(s.pcs[t], Writing)
    ensures s.once.writer && !In(s.pcs[u], Reading)
    ensures In(s.pcs[u], Writing) ==> u == t
  {
    CountMembers(s.pcs, t, t, Writing);
    if In(s.pcs[u], Writing) {
      CountMembers(s.pcs, t, u, Writing);
    }
    if In(s.pcs[u], Reading) {
      CountMembers(s.pcs, u, u, Reading);
    }
  }

  // A goroutine inside a call that owns a phase finds that phase.
  lemma OwnerPhase(s: State, t: nat)
    requires OwnerInv(s) && t < |s.pcs|
    ensures In(s.pcs[t], InStart) ==> s.once.phase == Starting
    ensures In(s.pcs[t], InStop) ==> s.once.phase == Stopping
  {
    if In(s.pcs[t], InStart) { CountMembers(s.pcs, t, t, InStart); }
    if In(s.pcs[t], InStop) { CountMembers(s.pcs, t, t, InStop); }
  }

  lemma StepWriter(s: State, t: nat, a: Action)
    requires WriterInv(s) && Enabled(s, t, a)
    ensures WriterInv(Step(s, t, a))
  {
    CountUpdate(s.pcs, t, Step(s, t, a).pcs[t], Writing);
  }

  lemma StepReader(s: State, t: nat, a: Action)
    requires ReaderInv(s) && Enabled(s, t, a)
    ensures ReaderInv(Step(s, t, a))
  {
    CountUpdate(s.pcs, t, Step(s, t, a).pcs[t], Reading);
  }

  lemma StepOwner(s: State, t: nat, a: Action)
    requires OwnerInv(s) && Enabled(s, t, a)
    ensures OwnerInv(Step(s, t, a))
  {
    OwnerPhase(s, t);
    CountUpdate(s.pcs, t, Step(s, t, a).pcs[t], InStart);
    CountUpdate(s.pcs, t, Step(s, t, a).pcs[t], InStop);
  }

  lemma StepStartRuns(s: State, t: nat, a: Action)
    requires OwnerInv(s) && StartRunsInv(s) && Enabled(s, t, a)
    ensures StartRunsInv(Step(s, t, a))
  {
    OwnerPhase(s, t);
    CountUpdate(s.pcs, t, Step(s, t, a).pcs[t], BeforeStartFn);
  }

  lemma StepStartNils(s: State, t: nat, a: Action)
    requires OwnerInv(s) && StartNilsInv(s) && Enabled(s, t, a)
    ensures StartNilsInv(Step(s, t, a))
  {
    OwnerPhase(s, t);
    CountUpdate(s.pcs, t, Step(s, t, a).pcs[t], StartSucceeds);
  }

  lemma StepStopRuns(s: State, t: nat, a: Action)
    requires OwnerInv(s) && StopRunsInv(s) && Enabled(s, t, a)
    ensures StopRunsInv(Step(s, t, a))
  {
    OwnerPhase(s, t);
  }

  lemma StepPcs(s: State, t: nat, a: Action, u: nat)
    requires Inv(s) && Enabled(s, t, a) && u < |s.pcs|
    ensures PcInv(Step(s, t, a).once.phase, Step(s, t, a).pcs[u])
  {
    OwnerPhase(s, t);
    if u != t {
      assert PcInv(s.once.phase, s.pcs[u]);
      if In(s.pcs[t], Writing) {
        WriterAlone(s, t, u);
      }
    }
  }

  // Every step of every goroutine keeps the invariant.
  lemma StepInv(s: State, t: nat, a: Action)
    requires Inv(s) && Enabled(s, t, a)
    ensures Inv(Step(s, t, a))
  {
    StepWriter(s, t, a);
    StepReader(s, t, a);
    StepOwner(s, t, a);
    StepStartRuns(s, t, a);
    StepStartNils(s, t, a);
    StepStopRuns(s, t, a);
    forall u | 0 <= u < |Step(s, t, a).pcs|
      ensures PcInv(Step(s, t, a).once.phase, Step(s, t, a).pcs[u])
    {
      StepPcs(s, t, a, u);
    }
  }

  // ---- Runs ---------------------------------------------------------------------------------

  // A run of n goroutines: a schedule, and the states it passes through.
  ghost predicate IsRun(n: nat, schedule: seq<(nat, Action)>, run: seq<State>) {
    && |run| == |schedule| + 1
    && run[0] == Initial(n)
    && forall i :: 0 <= i < |schedule| ==>
         && Enabled(run[i], schedule[i].0, schedule[i].1)
         && run[i + 1] == Step(run[i], schedule[i].0, schedule[i].1)
  }

  lemma {:induction false} RunInv(n: nat, schedule: seq<(nat, Action)>, run: seq<State>, i: nat)
    requires IsRun(n, schedule, run) && i < |run|
    ensures Inv(run[i])
  {
    if i == 0 {
      InitialInv(n);
    } else {
      RunInv(n, schedule, run, i - 1);
      StepInv(run[i - 1], schedule[i - 1].0, schedule[i - 1].1);
    }
  }

  lemma {:induction false} StartSectionsDisjoint(pcs: seq<Pc>)
    ensures Count(pcs, BeforeStartFn) + Count(pcs, StartSucceeds) <= Count(pcs, InStart)
  {
    if pcs != [] {
      StartSectionsDisjoint(pcs[..|pcs| - 1]);
    }
  }

  // Under every interleaving: neither "unreachable state" panic is reached; a start function runs
  // at most once; a stop function runs at most once, and only after a start function that
  // returned nil.
  lemma RunsAtMostOnce(n: nat, schedule: seq<(nat, Action)>, run: seq<State>, i: nat)
    requires IsRun(n, schedule, run) && i < |run|
    ensures Unreachable !in run[i].pcs
    ensures forall t :: 0 <= t < |run[i].pcs| ==>
              && (run[i].pcs[t].StartFinish? ==> run[i].once.phase == Starting)
              && (run[i].pcs[t].StopFinish? ==> run[i].once.phase == Stopping)
    ensures run[i].once.startNils <= run[i].once.startRuns <= 1
    ensures run[i].once.stopRuns <= run[i].once.startNils
  {
    RunInv(n, schedule, run, i);
    StartSectionsDisjoint(run[i].pcs);
    forall t | 0 <= t < |run[i].pcs|
      ensures run[i].pcs[t] != Unreachable
      ensures run[i].pcs[t].StartFinish? ==> run[i].once.phase == Starting
      ensures run[i].pcs[t].StopFinish? ==> run[i].once.phase == Stopping
    {
      OwnerPhase(run[i], t);
      assert PcInv(run[i].once.phase, run[i].pcs[t]);
    }
  }

  // While any caller's function runs: a start function runs in phase Starting, a stop function in
  // phase Stopping, an IfStarted function in phase Started, an IfNotStopped function in any phase
  // but Stopped; and a start or stop function shares that time with no other function at all.
  lemma FunctionsExcludeEachOther(n: nat, schedule: seq<(nat, Action)>, run: seq<State>, i: nat, t: nat, u: nat)
    requires IsRun(n, schedule, run) && i < |run| && t < |run[i].pcs| && u < |run[i].pcs|
    requires RunsFn(run[i].pcs[t])
    ensures match run[i].pcs[t]
            case StartFn => run[i].once.phase == Starting
            case StopFn => run[i].once.phase == Stopping
            case IfStartedFn => run[i].once.phase == Started
            case _ => run[i].once.phase != Stopped
    ensures t != u && (run[i].pcs[t].StartFn? || run[i].pcs[t].StopFn?) ==> !RunsFn(run[i].pcs[u])
  {
    RunInv(n, schedule, run, i);
    OwnerPhase(run[i], t);
    assert PcInv(run[i].once.phase, run[i].pcs[t]);
    if In(run[i].pcs[t], Writing) {
      WriterAlone(run[i], t, u);
    }
  }

  // What a StartOnce or StopOnce that got the lock reports is true when it releases it.  In
  // particular a refusal says "already stopped" in phase Stopped, and only there.
  lemma StopReplies(n: nat, schedule: seq<(nat, Action)>, run: seq<State>, i: nat, t: nat)
    requires IsRun(n, schedule, run) && i < |run| && t < |run[i].pcs|
    requires run[i].pcs[t].Unlock?
    ensures UnlockInv(run[i].once.phase, run[i].pcs[t].reply)
    ensures match run[i].once.phase
            case Stopped => run[i].pcs[t].reply == AlreadyStopped || run[i].pcs[t].reply == ReplyNil
            case Started => run[i].pcs[t].reply == ReplyNil
            case Unstarted => run[i].pcs[t].reply == CannotStopUnstarted
            case StartFailed => run[i].pcs[t].reply == CannotStop(StartFailed) || run[i].pcs[t].reply == ReplyErr
            case StopFailed => run[i].pcs[t].reply == CannotStop(StopFailed) || run[i].pcs[t].reply == ReplyErr
            case Stopping => run[i].pcs[t].reply == CannotStop(Stopping) || run[i].pcs[t].reply == ReplyPanic
            case Starting => run[i].pcs[t].reply in {CannotStop(Starting), CannotStopUnstarted, ReplyPanic}
  {
    RunInv(n, schedule, run, i);
    assert PcInv(run[i].once.phase, run[i].pcs[t]);
  }

  // IfStarted returns false in every phase but Started, and IfNotStopped in phase Stopped alone; the
  // answer is still true when the lock is released.
  lemma ReaderReplies(n: nat, schedule: seq<(nat, Action)>, run: seq<State>, i: nat, t: nat)
    requires IsRun(n, schedule, run) && i < |run| && t < |run[i].pcs|
    requires run[i].pcs[t].RUnlock?
    ensures run[i].pcs[t].call == IfStarted || run[i].pcs[t].call == IfNotStopped
    ensures run[i].pcs[t].call == IfStarted ==>
              (run[i].pcs[t].reply == Skipped <==> run[i].once.phase != Started)
    ensures run[i].pcs[t].call == IfNotStopped ==>
              (run[i].pcs[t].reply == Skipped <==> run[i].once.phase == Stopped)
    ensures run[i].pcs[t].reply in {Skipped, Ran, ReplyPanic}
  {
    RunInv(n, schedule, run, i);
    assert PcInv(run[i].once.phase, run[i].pcs[t]);
  }

  // ---- The phase diagram --------------------------------------------------------------------

  predicate Edge(p: Phase, q: Phase) {
    match p
    case Unstarted => q == Starting
    case Starting => q == Started || q == StartFailed
    case Started => q == Stopping
    case Stopping => q == Stopped || q == StopFailed
    case _ => false
  }

  function Rank(p: Phase): nat {
    match p
    case Unstarted => 0
    case Starting => 1
    case Started => 2
    case StartFailed => 2
    case Stopping => 3
    case Stopped => 4
    case StopFailed => 4
  }

  lemma StepFollowsDiagram(s: State, t: nat, a: Action)
    requires Enabled(s, t, a)
    ensures Step(s, t, a).once.phase == s.once.phase || Edge(s.once.phase, Step(s, t, a).once.phase)
  {
  }

  // How often the phase changes along a run.
  function Changes(run: seq<State>): nat {
    if |run| <= 1 then 0
    else Changes(run[..|run| - 1]) + Bit(run[|run| - 1].once.phase != run[|run| - 2].once.phase)
  }

  // A run moves along the diagram, so no run changes the phase more than four times.
  lemma {:induction false} AtMostFourChanges(n: nat, schedule: seq<(nat, Action)>, run: seq<State>)
    requires IsRun(n, schedule, run)
    ensures Changes(run) <= Rank(run[|run| - 1].once.phase) <= 4
  {
    hide Step, Enabled;
    var k := |schedule|;
    if k > 0 {
      assert IsRun(n, schedule[..k - 1], run[..k]);
      AtMostFourChanges(n, schedule[..k - 1], run[..k]);
      StepFollowsDiagram(run[k - 1], schedule[k - 1].0, schedule[k - 1].1);
      assert run[..k][k - 1] == run[k - 1];
    }
  }

  // ---- What other goroutines may do ---------------------------------------------------------

  // q can be reached from p along the diagram.
  predicate MayBecome(p: Phase, q: Phase) {
    match p
    case Unstarted => true
    case Starting => q != Unstarted
    case Started => q == Started || EverStopped(q)
    case Stopping => EverStopped(q)
    case _ => q == p
  }

  // Steps of goroutines other than t.
  ghost predicate OthersRun(t: nat, schedule: seq<(nat, Action)>, run: seq<State>) {
    && |run| == |schedule| + 1 && t < |run[0].pcs|
    && forall i :: 0 <= i < |schedule| ==>
         && schedule[i].0 != t && Enabled(run[i], schedule[i].0, schedule[i].1)
         && run[i + 1] == Step(run[i], schedule[i].0, schedule[i].1)
  }

  // All that goroutine t, while it stays at one point, can find changed when it goes on: in the
  // write section only Unstarted to Starting, by the compare-and-swap outside the lock; in the read
  // section no other phase either; as the owner of the phase Starting no phase at all; and in any
  // case only what the diagram allows.
  lemma {:induction false} OthersMayDo(t: nat, schedule: seq<(nat, Action)>, run: seq<State>)
    requires OthersRun(t, schedule, run) && Inv(run[0])
    ensures var s, s' := run[0], run[|schedule|];
            && Inv(s') && |s'.pcs| == |s.pcs| && s'.pcs[t] == s.pcs[t] && MayBecome(s.once.phase, s'.once.phase)
            && (In(s.pcs[t], InStart) ==> s'.once.phase == Starting)
            && (In(s.pcs[t], Writing) ==>
                  s'.once == s.once || (s.once.phase == Unstarted && s'.once == s.once.(phase := Starting)))
            && (In(s.pcs[t], Reading) ==>
                  s'.once.phase == s.once.phase || (s.once.phase == Unstarted && s'.once.phase == Starting))
  {
    hide Step, Enabled, Inv, In;
    var k := |schedule|;
    if k == 0 {
      if In(run[0].pcs[t], InStart) { OwnerIsStarting(run[0], t); }
    } else {
      OthersMayDo(t, schedule[..k - 1], run[..k]);
      assert run[..k][k - 1] == run[k - 1];
      OtherStep(run[k - 1], t, schedule[k - 1].0, schedule[k - 1].1);
      OwnerIsStarting(run[k], t);
    }
  }

  lemma OwnerIsStarting(s: State, t: nat)
    requires Inv(s) && t < |s.pcs|
    ensures In(s.pcs[t], InStart) ==> s.once.phase == Starting
  {
    OwnerPhase(s, t);
  }

  lemma OtherStep(s: State, t: nat, u: nat, a: Action)
    requires Inv(s) && t < |s.pcs| && u != t && Enabled(s, u, a)
    ensures var s' := Step(s, u, a);
            && Inv(s') && |s'.pcs| == |s.pcs| && s'.pcs[t] == s.pcs[t] && MayBecome(s.once.phase, s'.once.phase)
            && (In(s.pcs[t], Writing) ==>
                  s'.once == s.once || (s.once.phase == Unstarted && s'.once == s.once.(phase := Starting)))
            && (In(s.pcs[t], Reading) ==>
                  s'.once.phase == s.once.phase || (s.once.phase == Unstarted && s'.once.phase == Starting))
  {
    StepInv(s, u, a);
    StepFollowsDiagram(s, u, a);
    if In(s.pcs[t], Writing) {
      WriterAlone(s, t, u);
    } else if In(s.pcs[t], Reading) && In(s.pcs[u], Writing) {
      WriterAlone(s, u, t);
    }
  }

  // ---- After a panic ------------------------------------------------------------------------

  // The phase says that a start or stop function is under way, and there is none.
  predicate Stuck(s: State) {
    || (s.once.phase == Starting && Count(s.pcs, InStart) == 0)
    || (s.once.phase == Stopping && Count(s.pcs, InStop) == 0)
  }

  predicate FnPanics(s: State, t: nat, a: Action) {
    t < |s.pcs| && (s.pcs[t].StartFn? || s.pcs[t].StopFn?) && a == FnEnds(Panic)
  }

  // What goroutine t is about to report as a writer.
  function ReportAt(s: State, t: nat): Option<Reply> {
    if t < |s.pcs| && s.pcs[t].Unlock? then Some(s.pcs[t].reply) else None
  }

  // Only the panic of a start or stop function leads there, and nothing leads back.
  lemma StepStuck(s: State, t: nat, a: Action)
    requires OwnerInv(s) && Enabled(s, t, a)
    ensures Stuck(Step(s, t, a)) <==> Stuck(s) || FnPanics(s, t, a)
  {
    OwnerPhase(s, t);
    CountUpdate(s.pcs, t, Step(s, t, a).pcs[t], InStart);
    CountUpdate(s.pcs, t, Step(s, t, a).pcs[t], InStop);
  }

  // From there on a step changes no phase and enters no start or stop function, and a goroutine
  // that comes to report as a writer has been refused by StopOnce.
  lemma StepWhileStuck(s: State, t: nat, a: Action)
    requires OwnerInv(s) && Enabled(s, t, a) && Stuck(s)
    ensures Step(s, t, a).once.phase == s.once.phase
    ensures Step(s, t, a).once.startRuns == s.once.startRuns && Step(s, t, a).once.stopRuns == s.once.stopRuns
    ensures var report := ReportAt(Step(s, t, a), t);
            report.Some? ==> report.value == CannotStop(s.once.phase)
  {
    OwnerPhase(s, t);
    if In(s.pcs[t], InStart) { CountMembers(s.pcs, t, t, InStart); }
    if In(s.pcs[t], InStop) { CountMembers(s.pcs, t, t, InStop); }
  }

  // The exact condition: a state is stuck if and only if a start or stop function has panicked.
  lemma {:induction false} StuckIffPanicked(n: nat, schedule: seq<(nat, Action)>, run: seq<State>, i: nat)
    requires IsRun(n, schedule, run) && i < |run|
    ensures Stuck(run[i]) <==> exists k :: 0 <= k < i && FnPanics(run[k], schedule[k].0, schedule[k].1)
  {
    if i > 0 {
      var j := i - 1;
      StuckIffPanicked(n, schedule, run, j);
      RunInv(n, schedule, run, j);
      StepStuck(run[j], schedule[j].0, schedule[j].1);
    }
  }

  // After such a panic the phase stays Starting or Stopping for good, no further start or stop
  // function is ever entered, and every later report of StopOnce is that it cannot stop from there.
  lemma {:induction false} PanicIsFinal(n: nat, schedule: seq<(nat, Action)>, run: seq<State>, i: nat, j: nat)
    requires IsRun(n, schedule, run) && i <= j < |run| && Stuck(run[i])
    ensures Stuck(run[j]) && run[j].once.phase == run[i].once.phase
    ensures run[j].once.startRuns == run[i].once.startRuns && run[j].once.stopRuns == run[i].once.stopRuns
    ensures forall k :: i <= k < j && ReportAt(run[k + 1], schedule[k].0).Some? ==>
              ReportAt(run[k + 1], schedule[k].0).value == CannotStop(run[i].once.phase)
    decreases j
  {
    hide Step, Enabled, Stuck, ReportAt, OwnerInv, WriterInv, ReaderInv, StartRunsInv, StartNilsInv, StopRunsInv, PcInv;
    if i < j {
      var k := j - 1;
      PanicIsFinal(n, schedule, run, i, k);
      RunInv(n, schedule, run, k);
      StepStuck(run[k], schedule[k].0, schedule[k].1);
      StepWhileStuck(run[k], schedule[k].0, schedule[k].1);
    }
  }

  // So once every call has returned, the phase is still Starting or Stopping if and only if a start
  // or stop function has panicked.
  lemma SettledUnlessPanicked(n: nat, schedule: seq<(nat, Action)>, run: seq<State>, i: nat)
    requires IsRun(n, schedule, run) && i < |run|
    requires forall t :: 0 <= t < |run[i].pcs| ==> run[i].pcs[t] == Idle
    ensures (run[i].once.phase == Starting || run[i].once.phase == Stopping)
        <==> exists k :: 0 <= k < i && FnPanics(run[k], schedule[k].0, schedule[k].1)
  {
    StuckIffPanicked(n, schedule, run, i);
    CountNone(run[i].pcs, InStart);
    CountNone(run[i].pcs, InStop);
  }

  // ---- No deadlock, and every call returns --------------------------------------------------

  // An upper bound for the steps this call still takes.
  function Left(pc: Pc): nat {
    match pc
    case Idle => 0
    case StartSwap => 5
    case StartLock => 4
    case StopLock => 5
    case StopSwap => 4
    case StartFn => 3
    case StopFn => 3
    case IfStartedLock => 4
    case IfStartedLoad => 3
    case IfNotStoppedLock => 4
    case IfNotStoppedLoad => 3
    case Unlock(_) => 1
    case RUnlock(_, _) => 1
    case StartRefused => 1
    case Unreachable => 0
    case _ => 2
  }

  function Work(pcs: seq<Pc>): nat {
    if pcs == [] then 0 else Work(pcs[..|pcs| - 1]) + Left(pcs[|pcs| - 1])
  }

  lemma {:induction false} WorkUpdate(pcs: seq<Pc>, t: nat, pc: Pc)
    requires t < |pcs|
    ensures Work(pcs[t := pc]) + Left(pcs[t]) == Work(pcs) + Left(pc)
  {
    var n := |pcs| - 1;
    if t == n {
      assert pcs[t := pc][..n] == pcs[..n];
    } else {
      WorkUpdate(pcs[..n], t, pc);
      assert pcs[t := pc][..n] == pcs[..n][t := pc];
    }
  }

  // Any step but the start of a new call brings the running calls closer to their end.
  lemma StepDecreasesWork(s: State, t: nat, a: Action)
    requires Enabled(s, t, a) && !a.Begin?
    ensures Work(Step(s, t, a).pcs) < Work(s.pcs)
  {
    WorkUpdate(s.pcs, t, Step(s, t, a).pcs[t]);
  }

  // Steps of calls already begun, from any state.
  ghost predicate Continues(schedule: seq<(nat, Action)>, run: seq<State>) {
    && |run| == |schedule| + 1
    && forall i :: 0 <= i < |schedule| ==>
         && Enabled(run[i], schedule[i].0, schedule[i].1) && !schedule[i].1.Begin?
         && run[i + 1] == Step(run[i], schedule[i].0, schedule[i].1)
  }

  lemma {:induction false} CallsEnd(schedule: seq<(nat, Action)>, run: seq<State>)
    requires Continues(schedule, run)
    ensures |schedule| + Work(run[|schedule|].pcs) <= Work(run[0].pcs)
  {
    var k := |schedule|;
    if k > 0 {
      CallsEnd(schedule[..k - 1], run[..k]);
      assert run[..k][k - 1] == run[k - 1];
      StepDecreasesWork(run[k - 1], schedule[k - 1].0, schedule[k - 1].1);
    }
  }

  function Unblocked(pc: Pc): Action {
    if RunsFn(pc) then FnEnds(Nil) else Advance
  }

  lemma {:induction false} SomeMember(pcs: seq<Pc>, section: Section) returns (t: nat)
    requires Count(pcs, section) > 0
    ensures t < |pcs| && In(pcs[t], section)
  {
    t := |pcs| - 1;
    if !In(pcs[t], section) {
      t := SomeMember(pcs[..t], section);
    }
  }

  predicate AtLock(pc: Pc) {
    pc.StartLock? || pc.StopLock? || pc.IfStartedLock? || pc.IfNotStoppedLock?
  }

  // Goroutines that the lock keeps waiting although they are Ready, as Go's RWMutex does with new
  // readers behind a waiting writer and with a waiting writer behind the readers let in before it.
  // It may hold back whom it likes, but when nobody has the lock not all who wait for it.
  predicate HoldsBack(s: State, held: set<nat>) {
    && (forall u :: u in held ==> u < |s.pcs| && AtLock(s.pcs[u]))
    && (!s.once.writer && s.once.readers == 0 ==>
          forall u: nat :: u in held ==> exists v :: 0 <= v < |s.pcs| && v !in held && AtLock(s.pcs[v]))
  }

  // As long as one call is under way, some call can take a step without waiting for anyone: the
  // holder of the lock if there is one, and anybody the lock does not hold back if there is none.
  lemma SomeoneCanStep(s: State, held: set<nat>, t: nat) returns (u: nat)
    requires Inv(s) && HoldsBack(s, held) && t < |s.pcs| && s.pcs[t] != Idle
    ensures u < |s.pcs| && u !in held && s.pcs[u] != Idle && Enabled(s, u, Unblocked(s.pcs[u]))
  {
    if s.once.writer {
      u := SomeMember(s.pcs, Writing);
    } else if s.once.readers > 0 {
      u := SomeMember(s.pcs, Reading);
    } else {
      u := t;
      if t in held { u :| 0 <= u < |s.pcs| && u !in held && AtLock(s.pcs[u]); }
      if In(s.pcs[u], Reading) { CountMembers(s.pcs, u, u, Reading); }
    }
    assert PcInv(s.once.phase, s.pcs[u]);
  }

  lemma QuietIsIdle(s: State, held: set<nat>)
    requires Inv(s) && HoldsBack(s, held)
    requires forall u: nat, a: Action :: Enabled(s, u, a) && u !in held ==> a.Begin?
    ensures forall t :: 0 <= t < |s.pcs| ==> s.pcs[t] == Idle
  {
    forall t | 0 <= t < |s.pcs|
      ensures s.pcs[t] == Idle
    {
      if s.pcs[t] != Idle {
        var u := SomeoneCanStep(s, held, t);
        assert false;
      }
    }
  }

  // A reachable state in which no call can go on is one in which every call has returned, whoever
  // is held back.
  lemma NoDeadlock(n: nat, schedule: seq<(nat, Action)>, run: seq<State>, i: nat, held: set<nat>)
    requires IsRun(n, schedule, run) && i < |run| && HoldsBack(run[i], held)
    requires forall u: nat, a: Action :: Enabled(run[i], u, a) && u !in held ==> a.Begin?
    ensures forall t :: 0 <= t < |run[i].pcs| ==> run[i].pcs[t] == Idle
  {
    RunInv(n, schedule, run, i);
    QuietIsIdle(run[i], held);
  }

  lemma {:induction false} ContinuesInv(schedule: seq<(nat, Action)>, run: seq<State>, i: nat)
    requires Continues(schedule, run) && Inv(run[0]) && i < |run|
    ensures Inv(run[i])
  {
    if i > 0 {
      ContinuesInv(schedule, run, i - 1);
      StepInv(run[i - 1], schedule[i - 1].0, schedule[i - 1].1);
    }
  }

  // All calls return.  From a reachable state the calls already begun take at most Work more steps;
  // and when no step is left, of those that the lock does not hold back, every goroutine is idle.
  lemma CallsReturn(n: nat, past: seq<(nat, Action)>, before: seq<State>, schedule: seq<(nat, Action)>, run: seq<State>, held: set<nat>)
    requires IsRun(n, past, before) && Continues(schedule, run) && run[0] == before[|past|]
    requires HoldsBack(run[|schedule|], held)
    ensures |schedule| <= Work(run[0].pcs)
    ensures (forall u: nat, a: Action :: Enabled(run[|schedule|], u, a) && u !in held ==> a.Begin?)
        <==> forall t :: 0 <= t < |run[|schedule|].pcs| ==> run[|schedule|].pcs[t] == Idle
  {
    hide Step, Inv, HoldsBack;
    CallsEnd(schedule, run);
    RunInv(n, past, before, |past|);
    ContinuesInv(schedule, run, |schedule|);
    if forall u: nat, a: Action :: Enabled(run[|schedule|], u, a) && u !in held ==> a.Begin? {
      QuietIsIdle(run[|schedule|], held);
    }
  }

  // ---- One goroutine at a time --------------------------------------------------------------

  // The object as its methods see it.  `pc` and the counters run beside the code: every statement
  // that touches the shared fields is one step of Move, so the code and the machine agree step by
  // step.  A call that finds the lock held returns None where the source waits; the rest of it is
  // the method named Locked, for the moment at which the lock is free.  What other goroutines do in
  // the meantime is a parameter, as far as OthersMayDo lets them change what the call looks at
  // again; the counters are for the functions entered by this goroutine.  `said` is what the machine
  // has this goroutine reply when it releases the lock; the methods return the same.

  // The fields as StartOnce finds them when it looks at them for the second time.
  datatype Found = Found(phase: Phase, writer: bool, readers: nat)

  // When, during a StopOnce in phase Unstarted, another goroutine enters StartOnce.
  datatype Meanwhile = Nothing | BeforeSwap | BeforeLoad | BeforeUnlock

  class StartStopOnce {
    var state: Phase
    var writer: bool
    var readers: nat
    ghost var machine: Shared
    ghost var pc: Pc
    ghost var said: Reply

    ghost predicate Valid()
      reads this
    {
      machine.phase == state && machine.writer == writer && machine.readers == readers
    }

    constructor ()
      ensures Valid() && machine == FRESH && pc == Idle
    {
      state, writer, readers, machine, pc, said := Unstarted, false, 0, FRESH, Idle, ReplyNil;
    }

    ghost method Tick(a: Action)
      requires Ready(machine, pc, a)
      modifies this`machine, this`pc, this`said
      ensures (machine, pc) == Move(old(machine), old(pc), a)
      ensures said == if old(pc).Unlock? || old(pc).RUnlock? then old(pc).reply else old(said)
    {
      var (o, next) := Move(machine, pc, a);
      if pc.Unlock? || pc.RUnlock? { said := pc.reply; }
      machine, pc := o, next;
    }

    method CompareAndSwap(was: Phase, next: Phase) returns (success: bool)
      modifies this`state
      ensures success == (old(state) == was)
      ensures state == if success then next else old(state)
    {
      success := state == was;
      if success {
        state := next;
      }
    }

    // The common end of StartOnce and StopOnce: the function, the second compare-and-swap, and the
    // deferred unlock.  The assertion is the branch that panics in the source.
    method RunFn(fn: Outcome, done: Phase, failed: Phase) returns (reply: Reply)
      requires Valid() && writer && readers == 0
      requires (pc, state, done, failed) in {
        (StartFn, Starting, Started, StartFailed), (StopFn, Stopping, Stopped, StopFailed)}
      modifies this
      ensures Valid() && pc == Idle && !writer && readers == 0
      ensures state == match fn case Nil => done case Err => failed case Panic => old(state)
      ensures reply == match fn case Nil => ReplyNil case Err => ReplyErr case Panic => ReplyPanic
      ensures said == reply
      ensures machine.startRuns == old(machine.startRuns) && machine.stopRuns == old(machine.stopRuns)
    {
      var running := state;
      Tick(FnEnds(fn));
      if fn == Panic {
        reply := ReplyPanic;
      } else {
        var success := CompareAndSwap(running, if fn == Nil then done else failed);
        assert success;
        Tick(Advance);
        reply := if fn == Nil then ReplyNil else ReplyErr;
      }
      assert pc == Pc.Unlock(reply);
      writer := false;
      Tick(Advance);
    }

    ghost predicate Free()
      reads this
    {
      !writer && readers == 0
    }

    method Others(found: Found)
      requires Valid()
      modifies this`state, this`writer, this`readers, this`machine
      ensures Valid() && state == found.phase && writer == found.writer && readers == found.readers
      ensures machine.startRuns == old(machine.startRuns) && machine.stopRuns == old(machine.stopRuns)
    {
      state, writer, readers := found.phase, found.writer, found.readers;
      machine := machine.(phase := state, writer := writer, readers := readers);
    }

    // A second call returns at once, whoever holds the lock, and names the phase it finds by then;
    // the first one makes itself the owner of the phase Starting before it waits.
    method StartOnce(fn: Outcome, found: Found) returns (reply: Option<Reply>)
      requires Valid() && pc == Idle
      requires if state == Unstarted then found.phase == Starting else MayBecome(state, found.phase)
      modifies this
      ensures Valid()
      ensures reply.None? <==> old(state) == Unstarted && (found.writer || found.readers > 0)
      ensures reply.None? ==> pc == StartLock && machine.startRuns == old(machine.startRuns)
      ensures old(state) != Unstarted ==> reply == Some(AlreadyStartedOnce(found.phase))
      ensures reply.None? || old(state) != Unstarted ==> Found(state, writer, readers) == found
      ensures old(state) == Unstarted && reply.Some? ==>
                && Free() && said == reply.value
                && (state, reply.value) == match fn
                                           case Nil => (Started, ReplyNil)
                                           case Err => (StartFailed, ReplyErr)
                                           case Panic => (Starting, ReplyPanic)
      ensures reply.Some? ==> pc == Idle && machine.startRuns == old(machine.startRuns) + Bit(old(state) == Unstarted)
      ensures machine.stopRuns == old(machine.stopRuns)
    {
      Tick(Begin(Call.StartOnce));
      var success := CompareAndSwap(Unstarted, Starting);
      Tick(Advance);
      assert pc == if success then StartLock else StartRefused;
      Others(found);
      if !success {
        reply := Some(AlreadyStartedOnce(state));
        Tick(Advance);
        return;
      }
      if writer || readers > 0 {
        return None;
      }
      var r := StartLocked(fn);
      reply := Some(r);
    }

    method StartLocked(fn: Outcome) returns (reply: Reply)
      requires Valid() && Free() && pc == StartLock && state == Starting
      modifies this
      ensures Valid() && Free() && pc == Idle
      ensures (state, reply) == match fn
                                case Nil => (Started, ReplyNil)
                                case Err => (StartFailed, ReplyErr)
                                case Panic => (Starting, ReplyPanic)
      ensures said == reply
      ensures machine.startRuns == old(machine.startRuns) + 1 && machine.stopRuns == old(machine.stopRuns)
    {
      writer := true;
      Tick(Advance);
      reply := RunFn(fn, Started, StartFailed);
    }

    // Another goroutine's compare-and-swap, if it comes now and finds the phase Unstarted.
    method OtherStarts(now: bool)
      requires Valid()
      modifies this`state, this`machine
      ensures Valid() && state == if now && old(state) == Unstarted then Starting else old(state)
      ensures machine == old(machine).(phase := state)
    {
      if now && state == Unstarted {
        state := Starting;
        machine := machine.(phase := Starting);
      }
    }

    // Nothing happens before the lock is there.
    method StopOnce(fn: Outcome, other: Meanwhile) returns (reply: Option<Reply>)
      requires Valid() && pc == Idle
      modifies this
      ensures Valid() && writer == old(writer) && readers == old(readers)
      ensures reply.None? <==> !old(Free())
      ensures reply.None? ==> state == old(state) && machine == old(machine) && pc == StopLock
      ensures reply.Some? ==> pc == Idle && said == reply.value
      ensures reply.Some? ==> (reply.value == AlreadyStopped <==> old(state) == Stopped)
      ensures reply.Some? && old(state) == Started ==>
                (state, reply.value) == match fn
                                        case Nil => (Stopped, ReplyNil)
                                        case Err => (StopFailed, ReplyErr)
                                        case Panic => (Stopping, ReplyPanic)
      ensures reply.Some? && old(state) == Unstarted ==>
                (state, reply.value) == match other
                                        case Nothing => (Unstarted, CannotStopUnstarted)
                                        case BeforeUnlock => (Starting, CannotStopUnstarted)
                                        case _ => (Starting, CannotStop(Starting))
      ensures reply.Some? && old(state) in {Starting, StartFailed, Stopping, StopFailed} ==>
                reply.value == CannotStop(old(state))
      ensures old(state) != Started && old(state) != Unstarted ==> state == old(state)
      ensures reply.Some? ==> machine.stopRuns == old(machine.stopRuns) + Bit(old(state) == Started)
      ensures machine.startRuns == old(machine.startRuns)
    {
      Tick(Begin(Call.StopOnce));
      if writer || readers > 0 {
        return None;
      }
      var r := StopLocked(fn, other);
      reply := Some(r);
    }

    method StopLocked(fn: Outcome, other: Meanwhile) returns (reply: Reply)
      requires Valid() && Free() && pc == StopLock
      modifies this
      ensures Valid() && Free() && pc == Idle
      ensures said == reply
      ensures reply == AlreadyStopped <==> old(state) == Stopped
      ensures old(state) == Started ==>
                (state, reply) == match fn
                                  case Nil => (Stopped, ReplyNil)
                                  case Err => (StopFailed, ReplyErr)
                                  case Panic => (Stopping, ReplyPanic)
      ensures old(state) == Unstarted ==>
                (state, reply) == match other
                                  case Nothing => (Unstarted, CannotStopUnstarted)
                                  case BeforeUnlock => (Starting, CannotStopUnstarted)
                                  case _ => (Starting, CannotStop(Starting))
      ensures old(state) in {Starting, StartFailed, Stopping, StopFailed} ==> reply == CannotStop(old(state))
      ensures old(state) != Started && old(state) != Unstarted ==> state == old(state)
      ensures machine.startRuns == old(machine.startRuns)
      ensures machine.stopRuns == old(machine.stopRuns) + Bit(old(state) == Started)
    {
      var success := EnterStop(other);
      if success {
        reply := RunFn(fn, Stopped, StopFailed);
        return;
      }
      reply := Refuse(other);
    }

    method EnterStop(other: Meanwhile) returns (success: bool)
      requires Valid() && Free() && pc == StopLock
      modifies this
      ensures Valid() && writer && readers == 0 && pc == if success then StopFn else StopRefused
      ensures success == (old(state) == Started)
      ensures state == if success then Stopping
                       else if other == BeforeSwap && old(state) == Unstarted then Starting
                       else old(state)
      ensures machine.startRuns == old(machine.startRuns)
      ensures machine.stopRuns == old(machine.stopRuns) + Bit(success)
    {
      writer := true;
      Tick(Advance);
      OtherStarts(other == BeforeSwap);
      success := CompareAndSwap(Started, Stopping);
      Tick(Advance);
    }

    method Refuse(other: Meanwhile) returns (reply: Reply)
      requires Valid() && writer && readers == 0 && pc == StopRefused && state != Started
      modifies this
      ensures Valid() && Free() && pc == Idle
      ensures said == reply
      ensures reply == AlreadyStopped <==> old(state) == Stopped
      ensures old(state) == Unstarted ==>
                (state, reply) == match other
                                  case BeforeLoad => (Starting, CannotStop(Starting))
                                  case BeforeUnlock => (Starting, CannotStopUnstarted)
                                  case _ => (Unstarted, CannotStopUnstarted)
      ensures old(state) in {Starting, StartFailed, Stopping, StopFailed} ==> reply == CannotStop(old(state))
      ensures old(state) != Unstarted ==> state == old(state)
      ensures machine.startRuns == old(machine.startRuns) && machine.stopRuns == old(machine.stopRuns)
    {
      OtherStarts(other == BeforeLoad);
      reply := match state
               case Stopped => AlreadyStopped
               case Unstarted => CannotStopUnstarted
               case other => CannotStop(other);
      Tick(Advance);
      assert pc == Pc.Unlock(reply);
      OtherStarts(other == BeforeUnlock);
      writer := false;
      Tick(Advance);
    }

    method RUnlock(ghost call: Call, reply: Reply)
      requires Valid() && !writer && readers > 0 && pc == Pc.RUnlock(call, reply)
      modifies this
      ensures said == reply
      ensures Valid() && !writer && pc == Idle && state == old(state) && readers == old(readers) - 1
    {
      readers := readers - 1;
      Tick(Advance);
    }

    // Other readers may hold the lock.
    method IfStarted(f: Outcome) returns (reply: Option<Reply>)
      requires Valid() && pc == Idle
      modifies this
      ensures Valid() && writer == old(writer) && readers == old(readers)
      ensures reply.None? <==> old(writer)
      ensures reply.None? ==> pc == IfStartedLock
      ensures state == old(state)
      ensures reply.Some? ==> pc == Idle && said == reply.value
      ensures reply.Some? ==> (reply.value == Skipped <==> old(state) != Started)
      ensures reply.Some? && reply.value != Skipped ==> reply.value == if f == Panic then ReplyPanic else Ran
    {
      Tick(Begin(Call.IfStarted));
      if writer {
        return None;
      }
      var r := IfStartedLocked(f);
      reply := Some(r);
    }

    method IfStartedLocked(f: Outcome) returns (reply: Reply)
      requires Valid() && !writer && pc == IfStartedLock
      modifies this
      ensures Valid() && pc == Idle && !writer && readers == old(readers)
      ensures state == old(state) && said == reply
      ensures reply == Skipped <==> old(state) != Started
      ensures reply != Skipped ==> reply == if f == Panic then ReplyPanic else Ran
    {
      readers := readers + 1;
      Tick(Advance);
      Tick(Advance);
      if state == Started {
        Tick(FnEnds(f));
        reply := if f == Panic then ReplyPanic else Ran;
      } else {
        reply := Skipped;
      }
      RUnlock(Call.IfStarted, reply);
    }

    method IfNotStopped(f: Outcome) returns (reply: Option<Reply>)
      requires Valid() && pc == Idle
      modifies this
      ensures Valid() && writer == old(writer) && readers == old(readers)
      ensures reply.None? <==> old(writer)
      ensures reply.None? ==> pc == IfNotStoppedLock
      ensures state == old(state)
      ensures reply.Some? ==> pc == Idle && said == reply.value
      ensures reply.Some? ==> (reply.value == Skipped <==> old(state) == Stopped)
      ensures reply.Some? && reply.value != Skipped ==> reply.value == if f == Panic then ReplyPanic else Ran
    {
      Tick(Begin(Call.IfNotStopped));
      if writer {
        return None;
      }
      var r := IfNotStoppedLocked(f);
      reply := Some(r);
    }

    method IfNotStoppedLocked(f: Outcome) returns (reply: Reply)
      requires Valid() && !writer && pc == IfNotStoppedLock
      modifies this
      ensures Valid() && pc == Idle && !writer && readers == old(readers)
      ensures state == old(state) && said == reply
      ensures reply == Skipped <==> old(state) == Stopped
      ensures reply != Skipped ==> reply == if f == Panic then ReplyPanic else Ran
    {
      readers := readers + 1;
      Tick(Advance);
      Tick(Advance);
      if state == Stopped {
        reply := Skipped;
      } else {
        Tick(FnEnds(f));
        reply := if f == Panic then ReplyPanic else Ran;
      }
      RUnlock(Call.IfNotStopped, reply);
    }
  }
}

// Notification of a mailbox's consumer (lib/chainlink/core/utils/mailbox.go), with any number of
// goroutines delivering and one goroutine receiving from Notify.
//
// A Deliver is cut into taking the lock, the push, the non-blocking send to chNotify and the
// unlock; the lock is a flag.  What the queue operations do is Perform of Mailbox.dfy; by
// HistoryIsSequential the history is, under every interleaving, that of some sequence of whole
// operations.
module MailboxNotify {
  import opened Basics
  import M = Mailbox

  // What the consumer does after each notification.
  datatype Style =
    | DrainLoop    // Retrieve until it reports an empty queue
    | OneRetrieve  // a single Retrieve
    | TakeAll      // a single RetrieveAll
    | TakeLatest   // a single RetrieveLatestAndClear

  datatype Producer<T> = Away | Wants(x: T) | Pushing(x: T) | Notifying | Releasing

  // `first` is for the first operation after a notification.
  datatype Consumer = Asleep | Wanting(first: bool) | Looking(first: bool) | Leaving(again: bool)

  datatype Room<T> = Room(
    locked: bool,
    notify: bool,               // chNotify holds a notification
    history: M.History<T>,
    producers: seq<Producer<T>>,
    consumer: Consumer,
    empties: nat                // first operations after a notification that found the queue empty
  )

  datatype Action<T> = Call(t: nat, x: T) | Advance(t: nat) | Consume

  function Initial<T>(n: nat): Room<T> {
    Room(false, false, M.History([], []), seq(n, _ => Away), Asleep, 0)
  }

  function OpOf<T>(style: Style): M.Op<T> {
    match style
    case TakeAll => M.RetrieveAll
    case TakeLatest => M.RetrieveLatestAndClear
    case _ => M.Retrieve
  }

  predicate Enabled<T(==)>(s: Room<T>, a: Action<T>) {
    && s.history.Valid()
    && match a
       case Call(t, _) => t < |s.producers| && s.producers[t].Away?
       case Advance(t) =>
         t < |s.producers| && !s.producers[t].Away? && (s.producers[t].Wants? ==> !s.locked)
       case Consume =>
         match s.consumer
         case Asleep => s.notify
         case Wanting(_) => !s.locked
         case _ => true
  }

  function Goto<T>(s: Room<T>, t: nat, p: Producer<T>): Room<T>
    requires t < |s.producers|
  {
    s.(producers := s.producers[t := p])
  }

  function Step<T(==)>(capacity: nat, style: Style, s: Room<T>, a: Action<T>): Room<T>
    requires Enabled(s, a)
  {
    match a
    case Call(t, x) => Goto(s, t, Wants(x))
    case Advance(t) => Produce(capacity, s, t)
    case Consume => ConsumerStep(capacity, style, s)
  }

  function Produce<T(==)>(capacity: nat, s: Room<T>, t: nat): Room<T>
    requires Enabled(s, Advance(t))
  {
    match s.producers[t]
    case Wants(x) => Goto(s, t, Pushing(x)).(locked := true)
    case Pushing(x) => Goto(s, t, Notifying).(history := M.Perform(capacity, s.history, M.Op.Deliver(x)).0)
    case Notifying => Goto(s, t, Releasing).(notify := true)
    case Releasing => Goto(s, t, Away).(locked := false)
  }

  function ConsumerStep<T(==)>(capacity: nat, style: Style, s: Room<T>): Room<T>
    requires Enabled(s, Consume)
  {
    match s.consumer
    case Asleep => s.(notify := false, consumer := Wanting(true))
    case Wanting(first) => s.(locked := true, consumer := Looking(first))
    case Looking(first) =>
      var (h, out) := M.Perform(capacity, s.history, OpOf(style));
      s.(history := h, consumer := Leaving(style == DrainLoop && out != []),
         empties := if first && out == [] then s.empties + 1 else s.empties)
    case Leaving(again) => s.(locked := false, consumer := if again then Wanting(false) else Asleep)
  }

  // What a consumer of each style takes out when it has the lock, in order.
  lemma StylesTake<T>(capacity: nat, style: Style, s: Room<T>)
    requires Enabled(s, Consume) && s.consumer.Looking?
    ensures ConsumerStep(capacity, style, s).history.Valid()
    ensures var q := s.history.Queue();
            M.Having(ConsumerStep(capacity, style, s).history, M.Retrieved) == M.Having(s.history, M.Retrieved) +
              if q == [] then []
              else match style
                   case TakeAll => q
                   case TakeLatest => [q[|q| - 1]]
                   case _ => [q[0]]
  {
    hide M.Having;
    M.PerformFates(capacity, s.history, OpOf(style));
  }

  // ---- Invariants ---------------------------------------------------------------------------

  // Producers holding the lock; those between the push and the send.
  function Holders<T>(ps: seq<Producer<T>>): nat {
    if ps == [] then 0
    else Holders(ps[..|ps| - 1]) + Bit(!ps[|ps| - 1].Away? && !ps[|ps| - 1].Wants?)
  }

  function Mids<T>(ps: seq<Producer<T>>): nat {
    if ps == [] then 0 else Mids(ps[..|ps| - 1]) + Bit(ps[|ps| - 1].Notifying?)
  }

  lemma {:induction false} CountsUpdate<T>(ps: seq<Producer<T>>, t: nat, p: Producer<T>)
    requires t < |ps|
    ensures Holders(ps[t := p]) + Bit(!ps[t].Away? && !ps[t].Wants?) == Holders(ps) + Bit(!p.Away? && !p.Wants?)
    ensures Mids(ps[t := p]) + Bit(ps[t].Notifying?) == Mids(ps) + Bit(p.Notifying?)
    ensures Mids(ps) <= Holders(ps)
  {
    var n := |ps| - 1;
    if t == n {
      assert ps[t := p][..n] == ps[..n];
      if n > 0 { CountsUpdate(ps[..n], 0, p); }
    } else {
      CountsUpdate(ps[..n], t, p);
      assert ps[t := p][..n] == ps[..n][t := p];
    }
  }

  lemma {:induction false} NoneHold<T>(n: nat)
    ensures Holders(seq<Producer<T>>(n, _ => Away)) == 0 && Mids(seq<Producer<T>>(n, _ => Away)) == 0
  {
    if n > 0 {
      NoneHold<T>(n - 1);
      assert seq<Producer<T>>(n, _ => Away)[..n - 1] == seq<Producer<T>>(n - 1, _ => Away);
    }
  }

  lemma {:induction false} MidExists<T>(ps: seq<Producer<T>>) returns (t: nat)
    requires Mids(ps) > 0
    ensures t < |ps| && ps[t].Notifying?
  {
    t := |ps| - 1;
    if !ps[t].Notifying? {
      t := MidExists(ps[..t]);
    }
  }

  predicate LockInv<T>(s: Room<T>) {
    && s.history.Valid()
    && Holders(s.producers) + Bit(s.consumer.Looking? || s.consumer.Leaving?) == Bit(s.locked)
  }

  // One operation of the consumer, repeated if it is DrainLoop, empties the queue.
  predicate Empties(capacity: nat, style: Style) { style != OneRetrieve || capacity == 1 }

  predicate WithinCapacity<T>(capacity: nat, s: Room<T>)
    requires s.history.Valid()
  {
    !M.Overfull(capacity, |s.history.Queue()|)
  }

  // A consumer that leaves nothing behind is going to sleep, or sleeps: messages in the queue have
  // a notification, or a producer about to send one.
  predicate AwakeInv<T(==)>(s: Room<T>)
    requires s.history.Valid()
  {
    && (s.consumer == Leaving(false) ==> s.history.Queue() == [])
    && (s.history.Queue() != [] && s.consumer == Asleep ==> s.notify || Mids(s.producers) > 0)
  }

  // Notifications sent or being acted upon.
  function Pending<T>(s: Room<T>): nat {
    Bit(s.notify) + Bit(s.consumer.Wanting? || s.consumer.Looking?)
  }

  // With a single Retrieve per notification and a capacity other than one, every pending
  // notification has its own message.
  predicate MatchedInv<T>(s: Room<T>)
    requires s.history.Valid()
  {
    && s.consumer != Leaving(true)
    && Pending(s) <= |s.history.Queue()|
    && (Mids(s.producers) > 0 ==> |s.history.Queue()| >= if Pending(s) == 0 then 1 else 2)
    && s.empties == 0
  }

  lemma StepLock<T>(capacity: nat, style: Style, s: Room<T>, a: Action<T>)
    requires LockInv(s) && Enabled(s, a)
    ensures LockInv(Step(capacity, style, s, a))
  {
    if !a.Consume? {
      CountsUpdate(s.producers, a.t, Step(capacity, style, s, a).producers[a.t]);
    }
  }

  lemma StepAwake<T>(capacity: nat, style: Style, s: Room<T>, a: Action<T>)
    requires LockInv(s) && AwakeInv(s) && WithinCapacity(capacity, s) && Enabled(s, a) && Empties(capacity, style)
    ensures Step(capacity, style, s, a).history.Valid() && AwakeInv(Step(capacity, style, s, a))
    ensures WithinCapacity(capacity, Step(capacity, style, s, a))
  {
    if !a.Consume? {
      CountsUpdate(s.producers, a.t, Step(capacity, style, s, a).producers[a.t]);
      CountsUpdate(s.producers, a.t, Away);
    }
  }

  lemma ProduceMatched<T>(capacity: nat, s: Room<T>, t: nat)
    requires LockInv(s) && MatchedInv(s) && Enabled(s, Advance(t)) && capacity != 1
    ensures Produce(capacity, s, t).history.Valid() && MatchedInv(Produce(capacity, s, t))
  {
    CountsUpdate(s.producers, t, Produce(capacity, s, t).producers[t]);
    CountsUpdate(s.producers, t, Away);
  }

  lemma ConsumeMatched<T>(capacity: nat, s: Room<T>)
    requires LockInv(s) && MatchedInv(s) && Enabled(s, Consume)
    ensures ConsumerStep(capacity, OneRetrieve, s).history.Valid()
    ensures MatchedInv(ConsumerStep(capacity, OneRetrieve, s))
  {
    if s.consumer.Looking? {
      if |s.producers| > 0 {
        CountsUpdate(s.producers, 0, s.producers[0]);
      }
      var (h, out) := M.Perform(capacity, s.history, M.Retrieve);
      assert |s.history.Queue()| > 0;
      assert |h.Queue()| == |s.history.Queue()| - 1;
    }
  }

  lemma StepMatched<T>(capacity: nat, s: Room<T>, a: Action<T>)
    requires LockInv(s) && MatchedInv(s) && Enabled(s, a) && capacity != 1
    ensures Step(capacity, OneRetrieve, s, a).history.Valid() && MatchedInv(Step(capacity, OneRetrieve, s, a))
  {
    match a
    case Call(t, x) => CountsUpdate(s.producers, t, Wants(x));
    case Advance(t) => ProduceMatched(capacity, s, t);
    case Consume => ConsumeMatched(capacity, s);
  }

  // ---- Runs ---------------------------------------------------------------------------------

  ghost predicate StepsTo<T>(capacity: nat, style: Style, s: Room<T>, a: Action<T>, s': Room<T>) {
    Enabled(s, a) && s' == Step(capacity, style, s, a)
  }

  ghost predicate IsRun<T>(capacity: nat, style: Style, n: nat, schedule: seq<Action<T>>, run: seq<Room<T>>) {
    && |run| == |schedule| + 1
    && run[0] == Initial(n)
    && forall i :: 0 <= i < |schedule| ==> StepsTo(capacity, style, run[i], schedule[i], run[i + 1])
  }

  lemma {:induction false} RunLock<T>(capacity: nat, style: Style, n: nat, schedule: seq<Action<T>>, run: seq<Room<T>>, i: nat)
    requires IsRun(capacity, style, n, schedule, run) && i < |run|
    ensures LockInv(run[i])
  {
    if i == 0 {
      NoneHold<T>(n);
    } else {
      RunLock(capacity, style, n, schedule, run, i - 1);
      assert StepsTo(capacity, style, run[i - 1], schedule[i - 1], run[i - 1 + 1]);
      StepLock(capacity, style, run[i - 1], schedule[i - 1]);
    }
  }

  // Under every interleaving the history is that of some sequence of whole operations, so what is
  // proved of such sequences (RunIsDropOldestFifo) holds of concurrent runs.
  lemma {:induction false} HistoryIsSequential<T>(capacity: nat, style: Style, n: nat, schedule: seq<Action<T>>, run: seq<Room<T>>, i: nat)
    returns (ops: seq<M.Op<T>>)
    requires IsRun(capacity, style, n, schedule, run) && i < |run|
    ensures run[i].history == M.PerformAll(capacity, ops).0
  {
    ops := [];
    if i > 0 {
      var s, a := run[i - 1], schedule[i - 1];
      ops := HistoryIsSequential(capacity, style, n, schedule, run, i - 1);
      assert StepsTo(capacity, style, s, a, run[i - 1 + 1]);
      if a.Consume? && s.consumer.Looking? {
        ops := WithOp(capacity, ops, OpOf(style));
      } else if a.Advance? && s.producers[a.t].Pushing? {
        ops := WithOp(capacity, ops, M.Op.Deliver(s.producers[a.t].x));
      }
    }
  }

  lemma WithOp<T>(capacity: nat, ops: seq<M.Op<T>>, op: M.Op<T>) returns (more: seq<M.Op<T>>)
    ensures M.PerformAll(capacity, more).0 == M.Perform(capacity, M.PerformAll(capacity, ops).0, op).0
  {
    more := ops + [op];
    assert more[..|more| - 1] == ops;
  }

  lemma {:induction false} RunAwake<T>(capacity: nat, style: Style, n: nat, schedule: seq<Action<T>>, run: seq<Room<T>>, i: nat)
    requires IsRun(capacity, style, n, schedule, run) && i < |run| && Empties(capacity, style)
    ensures LockInv(run[i]) && AwakeInv(run[i]) && WithinCapacity(capacity, run[i])
  {
    RunLock(capacity, style, n, schedule, run, i);
    if i > 0 {
      RunAwake(capacity, style, n, schedule, run, i - 1);
      assert StepsTo(capacity, style, run[i - 1], schedule[i - 1], run[i - 1 + 1]);
      StepAwake(capacity, style, run[i - 1], schedule[i - 1]);
    }
  }

  // The notification is in the channel, or some Deliver holds the lock between its push and its
  // send.
  predicate NotificationDue<T(==)>(s: Room<T>) {
    s.notify || (s.locked && exists t :: 0 <= t < |s.producers| && s.producers[t].Notifying?)
  }

  // The consumer is asleep, the queue is not empty, and nothing is going to wake it.
  predicate SleepsOnMessages<T(==)>(s: Room<T>) {
    s.history.Valid() && s.history.Queue() != [] && s.consumer == Asleep && !NotificationDue(s)
  }

  // A consumer that empties the queue after each notification never sleeps on messages.
  lemma NeverSleepsOnMessages<T>(capacity: nat, style: Style, n: nat, schedule: seq<Action<T>>, run: seq<Room<T>>, i: nat)
    requires IsRun(capacity, style, n, schedule, run) && i < |run| && Empties(capacity, style)
    ensures !SleepsOnMessages(run[i])
  {
    RunAwake(capacity, style, n, schedule, run, i);
    if Mids(run[i].producers) > 0 {
      var t := MidExists(run[i].producers);
      CountsUpdate(run[i].producers, t, run[i].producers[t]);
    }
  }

  lemma {:induction false} RunMatched<T>(capacity: nat, n: nat, schedule: seq<Action<T>>, run: seq<Room<T>>, i: nat)
    requires IsRun(capacity, OneRetrieve, n, schedule, run) && i < |run| && capacity != 1
    ensures LockInv(run[i]) && MatchedInv(run[i])
  {
    RunLock(capacity, OneRetrieve, n, schedule, run, i);
    if i > 0 {
      RunMatched(capacity, n, schedule, run, i - 1);
      assert StepsTo(capacity, OneRetrieve, run[i - 1], schedule[i - 1], run[i - 1 + 1]);
      StepMatched(capacity, run[i - 1], schedule[i - 1]);
    } else {
      NoneHold<T>(n);
    }
  }

  // ---- An empty queue after a notification --------------------------------------------------

  // A producer delivers 1, the consumer is notified, and the producer delivers 2 before the
  // consumer gets the lock: there is a second notification for what the first one will find.
  const OVERTAKEN: seq<Action<int>> := [
    Call(0, 1), Advance(0), Advance(0), Advance(0), Consume, Advance(0),
    Call(0, 2), Advance(0), Advance(0), Advance(0), Advance(0)
  ]

  function Moment(locked: bool, notify: bool, delivered: seq<int>, fates: seq<M.Fate>,
                  p: Producer<int>, c: Consumer): Room<int> {
    Room(locked, notify, M.History(delivered, fates), [p], c, 0)
  }

  function Overtaken(capacity: nat): seq<Room<int>> {
    var lost := if capacity == 1 then [M.Dropped] else [];
    [ Moment(false, false, [], [], Away, Asleep),
      Moment(false, false, [], [], Wants(1), Asleep),
      Moment(true, false, [], [], Pushing(1), Asleep),
      Moment(true, false, [1], [], Notifying, Asleep),
      Moment(true, true, [1], [], Releasing, Asleep),
      Moment(true, false, [1], [], Releasing, Wanting(true)),
      Moment(false, false, [1], [], Away, Wanting(true)),
      Moment(false, false, [1], [], Wants(2), Wanting(true)),
      Moment(true, false, [1], [], Pushing(2), Wanting(true)),
      Moment(true, false, [1, 2], lost, Notifying, Wanting(true)),
      Moment(true, true, [1, 2], lost, Releasing, Wanting(true)),
      Moment(false, true, [1, 2], lost, Away, Wanting(true)) ]
  }

  ghost predicate OvertakenStep(capacity: nat, style: Style, i: nat)
    requires i < 11
  {
    StepsTo(capacity, style, Overtaken(capacity)[i], OVERTAKEN[i], Overtaken(capacity)[i + 1])
  }

  lemma OvertakenFirst(capacity: nat, style: Style, i: nat)
    requires i < 6
    ensures OvertakenStep(capacity, style, i)
  {
  }

  lemma OvertakenSecond(capacity: nat, style: Style, i: nat)
    requires 6 <= i < 8
    ensures OvertakenStep(capacity, style, i)
  {
  }

  lemma OvertakenThird(capacity: nat, style: Style, i: nat)
    requires 8 <= i < 11
    ensures OvertakenStep(capacity, style, i)
  {
  }

  lemma OvertakenIsRun(capacity: nat, style: Style, schedule: seq<Action<int>>, run: seq<Room<int>>)
    requires schedule == OVERTAKEN && run == Overtaken(capacity)
    ensures IsRun(capacity, style, 1, schedule, run) && |run| == 12
  {
    assert run[0] == Initial(1);
    assert |run| == 12 && |schedule| == 11;
    forall i: nat | i < 11
      ensures StepsTo(capacity, style, run[i], schedule[i], run[i + 1])
    {
      if i < 6 { OvertakenFirst(capacity, style, i); }
      else if i < 8 { OvertakenSecond(capacity, style, i); } else { OvertakenThird(capacity, style, i); }
      assert OvertakenStep(capacity, style, i);
    }
  }

  lemma RunConsume<T>(capacity: nat, style: Style, n: nat, schedule: seq<Action<T>>, run: seq<Room<T>>)
    returns (schedule': seq<Action<T>>, run': seq<Room<T>>)
    requires IsRun(capacity, style, n, schedule, run) && Enabled(run[|schedule|], Consume)
    ensures IsRun(capacity, style, n, schedule', run') && |run'| == |run| + 1
    ensures run'[|schedule'|] == ConsumerStep(capacity, style, run[|schedule|])
  {
    var a: Action<T> := Consume;
    schedule', run' := schedule + [a], run + [Step(capacity, style, run[|schedule|], a)];
    forall i | 0 <= i < |schedule'|
      ensures StepsTo(capacity, style, run'[i], schedule'[i], run'[i + 1])
    {
      assert i < |schedule| ==> StepsTo(capacity, style, run[i], schedule[i], run[i + 1]);
    }
  }

  // Left to itself, a consumer that empties the queue comes to sleep beside an empty queue.
  lemma {:induction false} EmptiesAndSleeps<T>(capacity: nat, style: Style, n: nat, schedule: seq<Action<T>>, run: seq<Room<T>>)
    returns (schedule': seq<Action<T>>, run': seq<Room<T>>)
    requires IsRun(capacity, style, n, schedule, run) && Empties(capacity, style)
    requires run[|schedule|].consumer.Wanting? && !run[|schedule|].locked
    requires run[|schedule|].history.Valid() && WithinCapacity(capacity, run[|schedule|])
    ensures IsRun(capacity, style, n, schedule', run')
    ensures var s' := run'[|schedule'|];
            && s'.consumer == Asleep && !s'.locked && s'.notify == run[|schedule|].notify
            && s'.history.Valid() && s'.history.Queue() == []
    decreases |run[|schedule|].history.Queue()|
  {
    var schedule1, run1 := RunConsume(capacity, style, n, schedule, run);
    var schedule2, run2 := RunConsume(capacity, style, n, schedule1, run1);
    var schedule3, run3 := RunConsume(capacity, style, n, schedule2, run2);
    schedule', run' := schedule3, run3;
    if run3[|schedule3|].consumer.Wanting? {
      schedule', run' := EmptiesAndSleeps(capacity, style, n, schedule3, run3);
    }
  }

  // Then the second notification wakes it for nothing.
  lemma WokenForNothing(capacity: nat, style: Style) returns (schedule: seq<Action<int>>, run: seq<Room<int>>)
    requires Empties(capacity, style)
    ensures IsRun(capacity, style, 1, schedule, run) && run[|schedule|].empties > 0
  {
    schedule, run := OVERTAKEN, Overtaken(capacity);
    OvertakenIsRun(capacity, style, schedule, run);
    assert run[11].history.Queue() == if capacity == 1 then [2] else [1, 2];
    schedule, run := EmptiesAndSleeps(capacity, style, 1, schedule, run);
    schedule, run := RunConsume(capacity, style, 1, schedule, run);
    schedule, run := RunConsume(capacity, style, 1, schedule, run);
    schedule, run := RunConsume(capacity, style, 1, schedule, run);
  }

  // Some run makes the first operation of a notified consumer find nothing.
  ghost predicate EmptyRetrievePossible(capacity: nat, style: Style) {
    exists n: nat, schedule: seq<Action<int>>, run: seq<Room<int>>, i: nat ::
      IsRun(capacity, style, n, schedule, run) && i < |run| && run[i].empties > 0
  }

  // The note on the capacity field is about capacity one.  What decides is whether the consumer
  // empties the queue: then, at every capacity, it may find nothing after a notification, and with
  // a single Retrieve per notification it may if and only if the capacity is one.
  lemma EmptyRetrievePossibleIff(capacity: nat, style: Style)
    ensures EmptyRetrievePossible(capacity, style) <==> style != OneRetrieve || capacity == 1
  {
    if Empties(capacity, style) {
      var schedule, run := WokenForNothing(capacity, style);
      assert |schedule| < |run| && run[|schedule|].empties > 0;
    } else if EmptyRetrievePossible(capacity, style) {
      var n: nat, schedule: seq<Action<int>>, run: seq<Room<int>>, i: nat :|
        IsRun(capacity, style, n, schedule, run) && i < |run| && run[i].empties > 0;
      RunMatched(capacity, n, schedule, run, i);
      assert false;
    }
  }

  // ---- One Retrieve per notification --------------------------------------------------------

  // A producer delivers 1 and 2 before the consumer reacts to the one notification there is room
  // for; with a single Retrieve the consumer leaves 2 behind.
  const LEFT_BEHIND: seq<Action<int>> := [
    Call(0, 1), Advance(0), Advance(0), Advance(0), Advance(0),
    Call(0, 2), Advance(0), Advance(0), Advance(0), Advance(0),
    Consume, Consume, Consume, Consume
  ]

  function LeftBehind(): seq<Room<int>> {
    [ Moment(false, false, [], [], Away, Asleep),
      Moment(false, false, [], [], Wants(1), Asleep),
      Moment(true, false, [], [], Pushing(1), Asleep),
      Moment(true, false, [1], [], Notifying, Asleep),
      Moment(true, true, [1], [], Releasing, Asleep),
      Moment(false, true, [1], [], Away, Asleep),
      Moment(false, true, [1], [], Wants(2), Asleep),
      Moment(true, true, [1], [], Pushing(2), Asleep),
      Moment(true, true, [1, 2], [], Notifying, Asleep),
      Moment(true, true, [1, 2], [], Releasing, Asleep),
      Moment(false, true, [1, 2], [], Away, Asleep),
      Moment(false, false, [1, 2], [], Away, Wanting(true)),
      Moment(true, false, [1, 2], [], Away, Looking(true)),
      Moment(true, false, [1, 2], [M.Retrieved], Away, Leaving(false)),
      Moment(false, false, [1, 2], [M.Retrieved], Away, Asleep) ]
  }

  ghost predicate LeftBehindStep(capacity: nat, i: nat)
    requires i < 14
  {
    StepsTo(capacity, OneRetrieve, LeftBehind()[i], LEFT_BEHIND[i], LeftBehind()[i + 1])
  }

  lemma LeftBehindDelivers(capacity: nat, i: nat)
    requires i < 10 && capacity != 1
    ensures LeftBehindStep(capacity, i)
  {
  }

  lemma LeftBehindRetrieves(capacity: nat, i: nat)
    requires 10 <= i < 14
    ensures LeftBehindStep(capacity, i)
  {
  }

  lemma LeftBehindEnds()
    ensures LeftBehind()[0] == Initial(1) && SleepsOnMessages(LeftBehind()[14])
  {
  }

  lemma LeftBehindIsRun(capacity: nat, schedule: seq<Action<int>>, run: seq<Room<int>>)
    requires capacity != 1 && schedule == LEFT_BEHIND && run == LeftBehind()
    ensures IsRun(capacity, OneRetrieve, 1, schedule, run) && SleepsOnMessages(run[14])
  {
    LeftBehindEnds();
    assert |run| == 15 && |schedule| == 14;
    forall i: nat | i < 14
      ensures StepsTo(capacity, OneRetrieve, run[i], schedule[i], run[i + 1])
    {
      if i < 10 { LeftBehindDelivers(capacity, i); } else { LeftBehindRetrieves(capacity, i); }
      assert LeftBehindStep(capacity, i);
    }
  }

  // Some run makes a consumer of this style sleep on messages.
  ghost predicate SleepPossible(capacity: nat, style: Style) {
    exists n: nat, schedule: seq<Action<int>>, run: seq<Room<int>>, i: nat ::
      IsRun(capacity, style, n, schedule, run) && i < |run| && SleepsOnMessages(run[i])
  }

  // Exactly the consumers that retrieve once per notification may sleep on messages, and only with
  // a capacity other than one.
  lemma SleepPossibleIff(capacity: nat, style: Style)
    ensures SleepPossible(capacity, style) <==> style == OneRetrieve && capacity != 1
  {
    if style == OneRetrieve && capacity != 1 {
      LeftBehindIsRun(capacity, LEFT_BEHIND, LeftBehind());
    } else if SleepPossible(capacity, style) {
      var n: nat, schedule: seq<Action<int>>, run: seq<Room<int>>, i: nat :|
        IsRun(capacity, style, n, schedule, run) && i < |run| && SleepsOnMessages(run[i]);
      NeverSleepsOnMessages(capacity, style, n, schedule, run, i);
      assert false;
    }
  }
}

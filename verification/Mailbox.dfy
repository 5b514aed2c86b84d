// The mailbox (lib/chainlink/core/utils/mailbox.go): a bounded queue, newest message first in
// memory, that drops its oldest message when full, with a notification channel of capacity one.
module Mailbox {

  // ---- The queue as an oldest-first sequence ------------------------------------------------

  function Reversed<T>(s: seq<T>): (r: seq<T>)
    ensures |r| == |s|
    ensures forall i :: 0 <= i < |s| ==> r[i] == s[|s| - 1 - i]
  {
    seq(|s|, i requires 0 <= i < |s| => s[|s| - 1 - i])
  }

  // Capacity zero means no bound.
  predicate Overfull(capacity: nat, n: nat) { capacity > 0 && n > capacity }

  // What became of a message that has left the queue.
  datatype Fate = Retrieved | Dropped | Cleared

  // A mailbox with its past: every message delivered, oldest first, and the fate of those that are
  // no longer queued.  The messages without a fate are the queue.
  datatype History<T> = History(delivered: seq<T>, fates: seq<Fate>) {
    predicate Valid() { |fates| <= |delivered| }

    function Queue(): seq<T>
      requires Valid()
    {
      delivered[|fates|..]
    }
  }

  datatype Op<T> = Deliver(x: T) | Retrieve | RetrieveAll | RetrieveLatestAndClear

  function Fates(n: nat, fate: Fate): seq<Fate> { seq(n, _ => fate) }

  // The effect of an operation on the history, and the messages it hands to its caller.
  function Perform<T>(capacity: nat, h: History<T>, op: Op<T>): (History<T>, seq<T>)
    requires h.Valid()
  {
    match op
    case Deliver(x) =>
      (History(h.delivered + [x],
               if Overfull(capacity, |h.Queue()| + 1) then h.fates + [Dropped] else h.fates), [])
    case Retrieve =>
      if h.Queue() == [] then (h, [])
      else (h.(fates := h.fates + [Retrieved]), [h.Queue()[0]])
    case RetrieveAll =>
      (h.(fates := h.fates + Fates(|h.Queue()|, Retrieved)), h.Queue())
    case RetrieveLatestAndClear =>
      var n := |h.Queue()|;
      if n == 0 then (h, [])
      else (h.(fates := h.fates + Fates(n - 1, Cleared) + [Retrieved]), [h.Queue()[n - 1]])
  }

  lemma RetrieveAllEmpties<T>(capacity: nat, h: History<T>)
    requires h.Valid()
    ensures var (h', out) := Perform(capacity, h, Op.RetrieveAll);
            h'.Valid() && h'.Queue() == [] && out == h.Queue()
  {
  }

  // A delivery as it shows in the queue.
  lemma DeliverQueue<T>(capacity: nat, h: History<T>, x: T)
    requires h.Valid() && !Overfull(capacity, |h.Queue()|)
    ensures var h', q := Perform(capacity, h, Op.Deliver(x)).0, h.Queue();
            && h'.Valid() && !Overfull(capacity, |h'.Queue()|)
            && h'.Queue() == if capacity > 0 && |q| == capacity then q[1..] + [x] else q + [x]
  {
    var h' := Perform(capacity, h, Op.Deliver(x)).0;
    assert h'.delivered == h.delivered + [x];
    assert h.Queue() + [x] == (h.delivered + [x])[|h.fates|..];
  }

  // The same on the list as it is stored.
  lemma ReversedPush<T>(s: seq<T>, x: T)
    ensures Reversed([x] + s) == Reversed(s) + [x]
    ensures s != [] ==> Reversed(([x] + s)[..|s|]) == Reversed(s)[1..] + [x]
  {
  }

  // The object.  `history` runs beside the code.
  class Mailbox<T> {
    const capacity: nat
    const none: T            // what the source returns for a missing message: the zero value
    var notify: bool         // chNotify holds a notification
    var queue: seq<T>        // newest first
    var queueLen: int
    ghost var history: History<T>

    ghost predicate Valid()
      reads this
    {
      && queueLen == |queue|
      && !Overfull(capacity, |queue|)
      && history.Valid() && history.Queue() == Reversed(queue)
    }

    constructor (capacity: nat, none: T)
      ensures Valid() && this.capacity == capacity && this.none == none
      ensures history == History([], []) && !notify
    {
      this.capacity, this.none := capacity, none;
      notify, queue, queueLen, history := false, [], 0, History([], []);
    }

    method Deliver(x: T) returns (wasOverCapacity: bool)
      requires Valid()
      modifies this
      ensures Valid() && notify
      ensures history == Perform(capacity, old(history), Op.Deliver(x)).0
      ensures wasOverCapacity <==> capacity > 0 && |old(history).Queue()| == capacity
      ensures var q := old(history).Queue();
              history.Queue() == if capacity > 0 && |q| == capacity then q[1..] + [x] else q + [x]
    {
      hide Perform, Reversed;
      DeliverQueue(capacity, history, x);
      ReversedPush(queue, x);
      queue := [x] + queue;
      if |queue| > capacity && capacity > 0 {
        queue := queue[..|queue| - 1];
        wasOverCapacity := true;
      } else {
        queueLen := queueLen + 1;
        wasOverCapacity := false;
      }
      notify := true;
      history := Perform(capacity, history, Op.Deliver(x)).0;
    }

    method Retrieve() returns (t: T, ok: bool)
      requires Valid()
      modifies this
      ensures Valid() && notify == old(notify)
      ensures (history, if ok then [t] else []) == Perform(capacity, old(history), Op.Retrieve)
      ensures !ok ==> t == none
      ensures var q := old(history).Queue();
              && (ok <==> q != [])
              && (ok ==> t == q[0] && history.Queue() == q[1..])
    {
      if |queue| == 0 {
        return none, false;
      }
      t := queue[|queue| - 1];
      assert Reversed(queue)[1..] == Reversed(queue[..|queue| - 1]);
      queue := queue[..|queue| - 1];
      queueLen := queueLen - 1;
      ok := true;
      history := Perform(capacity, history, Op.Retrieve).0;
    }

    method RetrieveAll() returns (all: seq<T>)
      requires Valid()
      modifies this
      ensures Valid() && notify == old(notify)
      ensures (history, all) == Perform(capacity, old(history), Op.RetrieveAll)
      ensures all == old(history).Queue() && history.Queue() == []
    {
      hide Perform;
      all := queue;
      ghost var was := queue;
      queue := [];
      queueLen := 0;
      var i, j := 0, |all| - 1;
      while i < j
        invariant 0 <= i && j == |all| - 1 - i && |all| == |was|
        invariant forall k :: 0 <= k < |was| && i <= k <= j ==> all[k] == was[k]
        invariant forall k :: 0 <= k < |was| && !(i <= k <= j) ==> all[k] == Reversed(was)[k]
      {
        var x, y := all[i], all[j];
        all := all[i := y];
        all := all[j := x];
        i, j := i + 1, j - 1;
      }
      assert all == Reversed(was);
      RetrieveAllEmpties(capacity, history);
      history := Perform(capacity, history, Op.RetrieveAll).0;
    }

    method RetrieveLatestAndClear() returns (t: T)
      requires Valid()
      modifies this
      ensures Valid() && notify == old(notify)
      ensures history == Perform(capacity, old(history), Op.RetrieveLatestAndClear).0
      ensures t == var out := Perform(capacity, old(history), Op.RetrieveLatestAndClear).1;
                   if out == [] then none else out[0]
      ensures history.Queue() == []
      ensures t == if old(history).Queue() == [] then none else old(history).delivered[|old(history).delivered| - 1]
    {
      if |queue| == 0 {
        return none;
      }
      t := queue[0];
      queue := [];
      queueLen := 0;
      history := Perform(capacity, history, Op.RetrieveLatestAndClear).0;
    }
  }

  // ---- Runs of operations -------------------------------------------------------------------

  // The history after some operations on a new mailbox, and everything they returned, in order.
  function PerformAll<T>(capacity: nat, ops: seq<Op<T>>): (r: (History<T>, seq<T>))
    ensures r.0.Valid()
  {
    if ops == [] then (History([], []), [])
    else
      var (h, out) := PerformAll(capacity, ops[..|ops| - 1]);
      var (h', more) := Perform(capacity, h, ops[|ops| - 1]);
      (h', out + more)
  }

  function Deliveries<T>(ops: seq<Op<T>>): seq<T> {
    if ops == [] then []
    else Deliveries(ops[..|ops| - 1])
         + (if ops[|ops| - 1].Deliver? then [ops[|ops| - 1].x] else [])
  }

  // The messages with a given fate, in delivery order.
  function Having<T>(h: History<T>, fate: Fate): seq<T>
    requires h.Valid()
  {
    HavingIn(h.delivered[..|h.fates|], h.fates, fate)
  }

  function HavingIn<T>(gone: seq<T>, fates: seq<Fate>, fate: Fate): seq<T>
    requires |gone| == |fates|
  {
    if gone == [] then []
    else HavingIn(gone[..|gone| - 1], fates[..|fates| - 1], fate)
         + (if fates[|fates| - 1] == fate then [gone[|gone| - 1]] else [])
  }

  lemma {:induction false} HavingAppend<T>(gone: seq<T>, fates: seq<Fate>, more: seq<T>, f: Fate, fate: Fate)
    requires |gone| == |fates|
    ensures HavingIn(gone + more, fates + Fates(|more|, f), fate)
         == HavingIn(gone, fates, fate) + if f == fate then more else []
  {
    if more == [] {
      assert gone + more == gone && fates + Fates(0, f) == fates;
    } else {
      var n := |more| - 1;
      HavingAppend(gone, fates, more[..n], f, fate);
      assert (gone + more)[..|gone| + n] == gone + more[..n];
      assert (fates + Fates(n + 1, f))[..|fates| + n] == fates + Fates(n, f);
      assert more == more[..n] + [more[n]];
    }
  }

  lemma DeliverFates<T>(capacity: nat, h: History<T>, x: T)
    requires h.Valid()
    ensures Having(Perform(capacity, h, Op.Deliver(x)).0, Retrieved) == Having(h, Retrieved)
    ensures var h' := Perform(capacity, h, Op.Deliver(x)).0;
            h'.Queue() == if Overfull(capacity, |h.Queue()| + 1) then (h.Queue() + [x])[1..]
                          else h.Queue() + [x]
  {
    hide HavingIn;
    var h' := Perform(capacity, h, Op.Deliver(x)).0;
    var gone := h.delivered[..|h.fates|];
    assert h'.delivered == h.delivered + [x];
    if Overfull(capacity, |h.Queue()| + 1) {
      var oldest := [h'.delivered[|h.fates|]];
      HavingAppend(gone, h.fates, oldest, Dropped, Retrieved);
      assert h'.delivered[..|h'.fates|] == gone + oldest;
      assert Fates(1, Dropped) == [Dropped];
    } else {
      assert h'.fates == h.fates && h'.delivered[..|h.fates|] == gone;
    }
  }

  lemma RetrieveFates<T>(capacity: nat, h: History<T>)
    requires h.Valid()
    ensures var (h', out) := Perform(capacity, h, Op.Retrieve);
            Having(h', Retrieved) == Having(h, Retrieved) + out
  {
    hide HavingIn;
    var gone := h.delivered[..|h.fates|];
    if h.Queue() != [] {
      var oldest := [h.Queue()[0]];
      HavingAppend(gone, h.fates, oldest, Retrieved, Retrieved);
      assert h.delivered[..|h.fates| + 1] == gone + oldest;
      assert Fates(1, Retrieved) == [Retrieved];
    }
  }

  lemma RetrieveAllFates<T>(capacity: nat, h: History<T>)
    requires h.Valid()
    ensures var (h', out) := Perform(capacity, h, Op.RetrieveAll);
            Having(h', Retrieved) == Having(h, Retrieved) + out
  {
    hide HavingIn;
    var gone := h.delivered[..|h.fates|];
    HavingAppend(gone, h.fates, h.Queue(), Retrieved, Retrieved);
    assert h.delivered[..|h.delivered|] == gone + h.Queue();
  }

  lemma RetrieveLatestFates<T>(capacity: nat, h: History<T>)
    requires h.Valid()
    ensures var (h', out) := Perform(capacity, h, Op.RetrieveLatestAndClear);
            Having(h', Retrieved) == Having(h, Retrieved) + out
  {
    hide HavingIn;
    var gone, n := h.delivered[..|h.fates|], |h.Queue()|;
    if n > 0 {
      var cleared, latest := h.Queue()[..n - 1], [h.Queue()[n - 1]];
      HavingAppend(gone, h.fates, cleared, Cleared, Retrieved);
      HavingAppend(gone + cleared, h.fates + Fates(n - 1, Cleared), latest, Retrieved, Retrieved);
      assert h.delivered[..|h.delivered|] == gone + cleared + latest;
      assert Fates(1, Retrieved) == [Retrieved];
    }
  }

  // What an operation gives its caller joins the retrieved messages, in order.
  lemma PerformFates<T>(capacity: nat, h: History<T>, op: Op<T>)
    requires h.Valid()
    ensures Having(Perform(capacity, h, op).0, Retrieved) == Having(h, Retrieved) + Perform(capacity, h, op).1
  {
    match op
    case Deliver(x) => DeliverFates(capacity, h, x);
    case Retrieve => RetrieveFates(capacity, h);
    case RetrieveAll => RetrieveAllFates(capacity, h);
    case RetrieveLatestAndClear => RetrieveLatestFates(capacity, h);
  }

  lemma NoFates<T>()
    ensures forall fate :: HavingIn<T>([], [], fate) == []
  {
  }

  lemma HavingOneMore<T>(gone: seq<T>, fates: seq<Fate>, fate: Fate)
    requires |gone| == |fates| > 0
    ensures var n := |gone| - 1;
            multiset(HavingIn(gone, fates, fate)) ==
            multiset(HavingIn(gone[..n], fates[..n], fate)) + if fates[n] == fate then multiset(gone[n..]) else multiset{}
  {
    var n := |gone| - 1;
    assert gone[n..] == [gone[n]];
  }

  // Every message has one fate or is still queued.
  lemma {:induction false} FatesPartition<T>(gone: seq<T>, fates: seq<Fate>)
    requires |gone| == |fates|
    ensures multiset(gone) == multiset(HavingIn(gone, fates, Retrieved))
              + multiset(HavingIn(gone, fates, Dropped)) + multiset(HavingIn(gone, fates, Cleared))
  {
    if gone == [] {
      NoFates<T>();
    } else {
      hide HavingIn;
      var n := |gone| - 1;
      FatesPartition(gone[..n], fates[..n]);
      MultisetOfParts(gone, n);
      HavingOneMore(gone, fates, Retrieved);
      HavingOneMore(gone, fates, Dropped);
      HavingOneMore(gone, fates, Cleared);
    }
  }

  lemma Conservation<T>(h: History<T>)
    requires h.Valid()
    ensures multiset(h.delivered) == multiset(Having(h, Retrieved)) + multiset(Having(h, Dropped))
              + multiset(Having(h, Cleared)) + multiset(h.Queue())
  {
    var gone := h.delivered[..|h.fates|];
    FatesPartition(gone, h.fates);
    MultisetOfParts(h.delivered, |h.fates|);
  }

  lemma MultisetOfParts<T>(s: seq<T>, n: nat)
    requires n <= |s|
    ensures multiset(s) == multiset(s[..n]) + multiset(s[n..])
  {
    assert s == s[..n] + s[n..];
  }

  // Over any run of operations the mailbox is a drop-oldest FIFO.  It has been given exactly the
  // delivered messages; what it returned is, in order, the subsequence of these whose fate is
  // Retrieved; and it never exceeds a non-zero capacity.  By Conservation nothing is lost or
  // duplicated.
  lemma {:induction false} RunIsDropOldestFifo<T>(capacity: nat, ops: seq<Op<T>>)
    ensures var (h, returned) := PerformAll(capacity, ops);
            && h.delivered == Deliveries(ops)
            && returned == Having(h, Retrieved)
            && !Overfull(capacity, |h.Queue()|)
  {
    if ops != [] {
      var before, op := ops[..|ops| - 1], ops[|ops| - 1];
      RunIsDropOldestFifo(capacity, before);
      PerformFates(capacity, PerformAll(capacity, before).0, op);
    }
  }

  // After any run, RetrieveLatestAndClear hands out the message delivered last, if any is queued,
  // and Retrieve the one delivered first of those queued; RetrieveAll hands out what one Retrieve
  // after the other would.
  lemma WhichIsRetrieved<T>(capacity: nat, ops: seq<Op<T>>)
    requires PerformAll(capacity, ops).0.Queue() != []
    ensures 0 < |PerformAll(capacity, ops).0.Queue()| <= |Deliveries(ops)|
    ensures var h, n := PerformAll(capacity, ops).0, |Deliveries(ops)|;
            && Perform(capacity, h, Op.RetrieveLatestAndClear).1 == [Deliveries(ops)[n - 1]]
            && Perform(capacity, h, Op.RetrieveLatestAndClear).0.Queue() == []
            && Perform(capacity, h, Op.Retrieve).1 == [Deliveries(ops)[n - |h.Queue()|]]
            && Perform(capacity, h, Op.Retrieve).0.Queue() == h.Queue()[1..]
            && Perform(capacity, h, Op.RetrieveAll).1
               == Perform(capacity, h, Op.Retrieve).1
                  + Perform(capacity, Perform(capacity, h, Op.Retrieve).0, Op.RetrieveAll).1
            && Perform(capacity, h, Op.RetrieveAll).0.Queue() == []
  {
    hide PerformAll, Deliveries;
    RunIsDropOldestFifo(capacity, ops);
  }

  function AsDeliveries<T>(xs: seq<T>): seq<Op<T>> {
    if xs == [] then [] else AsDeliveries(xs[..|xs| - 1]) + [Op.Deliver(xs[|xs| - 1])]
  }

  function Latest<T>(capacity: nat, xs: seq<T>): seq<T> {
    if Overfull(capacity, |xs|) then xs[|xs| - capacity..] else xs
  }

  lemma LatestOfMore<T>(capacity: nat, xs: seq<T>, x: T)
    ensures Latest(capacity, xs + [x])
         == if Overfull(capacity, |Latest(capacity, xs)| + 1) then (Latest(capacity, xs) + [x])[1..]
            else Latest(capacity, xs) + [x]
  {
  }

  // With deliveries alone the mailbox holds the latest `capacity` of them.
  lemma {:induction false} HoldsLatest<T>(capacity: nat, xs: seq<T>)
    ensures PerformAll(capacity, AsDeliveries(xs)).0.Queue() == Latest(capacity, xs)
  {
    if xs != [] {
      var some, x := xs[..|xs| - 1], xs[|xs| - 1];
      HoldsLatest(capacity, some);
      LatestOfMore(capacity, some, x);
      assert xs == some + [x];
      var ops := AsDeliveries(xs);
      assert ops[..|ops| - 1] == AsDeliveries(some);
      assert PerformAll(capacity, ops).0 == Perform(capacity, PerformAll(capacity, AsDeliveries(some)).0, Op.Deliver(x)).0;
      DeliverFates(capacity, PerformAll(capacity, AsDeliveries(some)).0, x);
    }
  }
}

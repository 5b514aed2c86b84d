// BoundedQueue and BoundedPriorityQueue (lib/chainlink/core/utils/utils.go).
module BoundedQueues {
  import opened Sorting

  // The last n elements.
  function Keep<T>(n: nat, s: seq<T>): seq<T> {
    if |s| > n then s[|s| - n..] else s
  }

  class BoundedQueue<T> {
    const capacity: int
    const none: T       // the zero value, returned for a missing item
    var items: seq<T>

    ghost predicate Valid()
      reads this
    {
      capacity >= 0 ==> |items| <= capacity
    }

    constructor (capacity: int, none: T)
      ensures Valid() && this.capacity == capacity && this.none == none && items == []
    {
      this.capacity, this.none, items := capacity, none, [];
    }

    // With a negative capacity the slice expression panics after the append.
    method Add(x: T) returns (ok: bool)
      requires Valid()
      modifies this
      ensures Valid() && (ok <==> capacity >= 0)
      ensures items == if capacity >= 0 then Keep(capacity, old(items) + [x]) else old(items) + [x]
    {
      items := items + [x];
      if |items| > capacity {
        var excess := |items| - capacity;
        if excess > |items| {
          return false;
        }
        items := items[excess..];
      }
      ok := true;
    }

    method Take() returns (t: T)
      requires Valid()
      modifies this
      ensures Valid()
      ensures old(items) == [] ==> t == none && items == []
      ensures old(items) != [] ==> [t] + items == old(items)
    {
      if |items| == 0 {
        return none;
      }
      t := items[0];
      items := items[1..];
    }

    method Empty() returns (empty: bool)
      ensures empty <==> items == []
    {
      empty := |items| == 0;
    }

    // Full means that the next Add has to drop something: the oldest of the items and the new one.
    method Full() returns (full: bool)
      requires Valid()
      ensures capacity < 0 ==> full
      ensures capacity >= 0 ==>
                forall x :: Keep(capacity, items + [x]) == if full then (items + [x])[1..] else items + [x]
    {
      full := |items| >= capacity;
    }
  }

  predicate Below(a: nat, b: nat) { a < b }

  // ---- The priority queue on values ---------------------------------------------------------

  datatype Op<T> = Add(priority: nat, x: T) | Take

  predicate AllEmpty<T>(c: map<nat, seq<T>>) {
    forall p :: p in c ==> |c[p]| == 0
  }

  // p is the smallest priority with an item.
  predicate IsLowest<T>(c: map<nat, seq<T>>, p: nat) {
    p in c && |c[p]| > 0 && forall q :: q in c && q < p ==> |c[q]| == 0
  }

  function AddTo<T>(caps: map<nat, int>, c: map<nat, seq<T>>, p: nat, x: T): map<nat, seq<T>>
    requires c.Keys == caps.Keys
  {
    if p !in c then c
    else c[p := if caps[p] >= 0 then Keep(caps[p], c[p] + [x]) else c[p] + [x]]
  }

  // An operation leads from contents c to c', and hands out `taken`.
  ghost predicate Performs<T(!new)>(caps: map<nat, int>, c: map<nat, seq<T>>, op: Op<T>, c': map<nat, seq<T>>, taken: seq<T>)
    requires c.Keys == caps.Keys
  {
    match op
    case Add(p, x) => c' == AddTo(caps, c, p, x) && taken == []
    case Take =>
      if AllEmpty(c) then c' == c && taken == []
      else exists p :: IsLowest(c, p) && c' == c[p := c[p][1..]] && taken == [c[p][0]]
  }

  lemma NothingTaken<T(!new)>(caps: map<nat, int>, c: map<nat, seq<T>>)
    requires c.Keys == caps.Keys && AllEmpty(c)
    ensures Performs(caps, c, Op.Take, c, []) && forall p :: p in c ==> c[p] == []
  {
  }

  lemma LowestIsNotEmpty<T>(c: map<nat, seq<T>>, p: nat)
    requires IsLowest(c, p)
    ensures p in c && c[p] != [] && !AllEmpty(c)
    ensures forall q :: q in c && q < p ==> c[q] == []
  {
  }

  lemma LowestTaken<T(!new)>(caps: map<nat, int>, c: map<nat, seq<T>>, p: nat)
    requires c.Keys == caps.Keys && IsLowest(c, p)
    ensures p in c && c[p] != [] && !AllEmpty(c)
    ensures Performs(caps, c, Op.Take, c[p := c[p][1..]], [c[p][0]])
  {
  }

  lemma TakeOut(all: set<nat>, left: set<nat>, p: nat)
    requires left <= all && p in left
    ensures all - left + {p} == all - (left - {p})
  {
  }

  class BoundedPriorityQueue<T(!new)> {
    const capacities: map<nat, int>
    const none: T
    var queues: map<nat, BoundedQueue<T>>
    var priorities: seq<nat>

    ghost predicate Valid()
      reads this, queues.Values
    {
      && queues.Keys == capacities.Keys == Elements(priorities)
      && Increasing(Below, priorities)
      && (forall p :: p in queues ==> queues[p].capacity == capacities[p] && queues[p].none == none && queues[p].Valid())
      && forall p, q :: p in queues && q in queues && p != q ==> queues[p] != queues[q]
    }

    ghost function Contents(): map<nat, seq<T>>
      reads this, queues.Values
    {
      map p | p in queues :: queues[p].items
    }

    // Distinct queue objects with the given capacities, all empty.
    ghost predicate NewQueues()
      reads this`queues, queues.Values
    {
      && queues.Keys <= capacities.Keys
      && (forall p :: p in queues ==>
            queues[p].capacity == capacities[p] && queues[p].none == none && queues[p].items == [])
      && forall p, q :: p in queues && q in queues && p != q ==> queues[p] != queues[q]
    }

    constructor (capacities: map<nat, int>, none: T)
      ensures Valid() && forall p :: p in queues ==> fresh(queues[p])
      ensures this.capacities == capacities && this.none == none
      ensures Contents() == map p | p in capacities :: []
    {
      this.capacities, this.none, this.queues, this.priorities := capacities, none, map[], [];
      new;
      Populate();
      SortPriorities();
      assert NewQueues();
    }

    // Everything but `left` has its queue and its place in the list.
    ghost predicate Populated(left: set<nat>)
      reads this, queues.Values
    {
      && NewQueues() && Elements(priorities) == queues.Keys && Distinct(priorities)
      && left <= capacities.Keys && queues.Keys == capacities.Keys - left
    }

    // One pass over the capacities, in whatever order the map yields them.
    method Populate()
      requires queues == map[] && priorities == []
      modifies this
      ensures Populated({}) && forall p :: p in queues ==> fresh(queues[p])
    {
      var left := capacities.Keys;
      while left != {}
        invariant Populated(left)
        invariant forall p :: p in queues ==> fresh(queues[p])
        decreases |left|
      {
        var p :| p in left;
        AddQueue(p, left);
        left := left - {p};
      }
    }

    method AddQueue(p: nat, ghost left: set<nat>)
      requires Populated(left) && p in left
      modifies this
      ensures Populated(left - {p}) && fresh(queues[p])
      ensures forall q :: q in queues ==> q == p || (q in old(queues) && queues[q] == old(queues[q]))
    {
      AppendElement(priorities, p);
      TakeOut(capacities.Keys, left, p);
      var queue := new BoundedQueue<T>(capacities[p], none);
      priorities := priorities + [p];
      queues := queues[p := queue];
    }

    method SortPriorities()
      requires Distinct(priorities)
      modifies this`priorities
      ensures Increasing(Below, priorities) && Elements(priorities) == Elements(old(priorities))
    {
      SortSorts(Below, priorities);
      priorities := Sort(Below, priorities);
    }

    // Both failures are panics in the source: an unknown priority, and a negative capacity.
    method Add(priority: nat, x: T) returns (ok: bool)
      requires Valid()
      modifies queues.Values
      ensures Valid() && (ok <==> priority in capacities && capacities[priority] >= 0)
      ensures Performs(capacities, old(Contents()), Op.Add(priority, x), Contents(), [])
      ensures Contents().Keys == old(Contents()).Keys
      ensures forall q :: q in Contents() && q != priority ==> Contents()[q] == old(Contents())[q]
      ensures ok ==>
                var all, n := old(Contents())[priority] + [x], capacities[priority];
                Contents()[priority] == if |all| <= n then all else all[1..]
    {
      if priority !in queues {
        return false;
      }
      ok := queues[priority].Add(x);
    }

    method Take() returns (t: T)
      requires Valid()
      modifies queues.Values
      ensures Valid()
      ensures (forall p :: p in old(Contents()) ==> old(Contents())[p] == []) ==> t == none && Contents() == old(Contents())
      ensures (exists p :: p in old(Contents()) && old(Contents())[p] != []) ==>
                exists p :: && p in old(Contents()) && old(Contents())[p] != []
                            && (forall q :: q in old(Contents()) && q < p ==> old(Contents())[q] == [])
                            && t == old(Contents())[p][0]
                            && Contents() == old(Contents())[p := old(Contents())[p][1..]]
      ensures Performs(capacities, old(Contents()), Op.Take, Contents(), if AllEmpty(old(Contents())) then [] else [t])
    {
      hide IsLowest, AllEmpty, Performs;
      ghost var c := Contents();
      var i := FirstNonEmpty();
      if i == |priorities| {
        NothingTaken(capacities, c);
        return none;
      }
      assert IsLowest(c, priorities[i]);
      LowestIsNotEmpty(c, priorities[i]);
      t := TakeFrom(priorities[i]);
      LowestTaken(capacities, c, priorities[i]);
    }

    // The loop of Take up to the queue it takes from.
    method FirstNonEmpty() returns (i: nat)
      requires Valid()
      ensures i <= |priorities|
      ensures i == |priorities| ==> AllEmpty(Contents())
      ensures i < |priorities| ==> IsLowest(Contents(), priorities[i])
    {
      i := 0;
      while i < |priorities|
        invariant i <= |priorities|
        invariant forall j :: 0 <= j < i ==> priorities[j] in queues && queues[priorities[j]].items == []
      {
        assert priorities[i] in Elements(priorities);
        var empty := queues[priorities[i]].Empty();
        if !empty {
          SmallerComeBefore(i);
          return;
        }
        i := i + 1;
      }
      assert forall p :: p in queues ==> p in Elements(priorities);
    }

    method TakeFrom(p: nat) returns (t: T)
      requires Valid() && p in queues && queues[p].items != []
      modifies queues[p]
      ensures Valid() && t == old(Contents())[p][0]
      ensures Contents() == old(Contents())[p := old(Contents())[p][1..]]
    {
      t := queues[p].Take();
    }

    lemma SmallerComeBefore(i: nat)
      requires Valid() && i < |priorities| && priorities[i] in queues && queues[priorities[i]].items != []
      requires forall j :: 0 <= j < i ==> priorities[j] in queues && queues[priorities[j]].items == []
      ensures IsLowest(Contents(), priorities[i])
    {
      forall q | q in queues && q < priorities[i]
        ensures queues[q].items == []
      {
        assert q in Elements(priorities);
      }
    }

    method Empty() returns (empty: bool)
      requires Valid()
      ensures empty <==> AllEmpty(Contents())
    {
      for i := 0 to |priorities|
        invariant forall j :: 0 <= j < i ==> priorities[j] in queues && queues[priorities[j]].items == []
      {
        var p := priorities[i];
        assert p in Elements(priorities);
        var e := queues[p].Empty();
        if !e {
          assert |Contents()[p]| > 0;
          return false;
        }
      }
      empty := true;
      assert forall p :: p in queues ==> p in Elements(priorities);
    }
  }

  // ---- Runs ---------------------------------------------------------------------------------

  // The items added at a priority, in order.
  function Added<T>(ops: seq<Op<T>>, p: nat): seq<T> {
    if ops == [] then []
    else
      var op := ops[|ops| - 1];
      Added(ops[..|ops| - 1], p) + if op.Add? && op.priority == p then [op.x] else []
  }

  // run lists the contents before, between and after the operations on a new queue; taken[i] is
  // what operation i handed out.
  ghost predicate IsRun<T(!new)>(caps: map<nat, int>, ops: seq<Op<T>>, run: seq<map<nat, seq<T>>>, taken: seq<seq<T>>) {
    && |run| == |ops| + 1 && |taken| == |ops|
    && run[0] == (map p | p in caps :: [])
    && forall i :: 0 <= i < |ops| ==>
         run[i].Keys == caps.Keys && Performs(caps, run[i], ops[i], run[i + 1], taken[i])
  }

  ghost predicate IsSuffix<T>(s: seq<T>, of: seq<T>) {
    |s| <= |of| && s == of[|of| - |s|..]
  }

  lemma SuffixSteps<T>(s: seq<T>, of: seq<T>, n: nat, x: T)
    requires IsSuffix(s, of)
    ensures IsSuffix(Keep(n, s + [x]), of + [x])
    ensures s != [] ==> IsSuffix(s[1..], of)
  {
  }

  lemma PerformsKeepsLatest<T(!new)>(caps: map<nat, int>, c: map<nat, seq<T>>, op: Op<T>, c': map<nat, seq<T>>, taken: seq<T>, p: nat, added: seq<T>)
    requires c.Keys == caps.Keys && Performs(caps, c, op, c', taken) && p in caps && caps[p] >= 0
    requires IsSuffix(c[p], added) && |c[p]| <= caps[p]
    ensures p in c' && |c'[p]| <= caps[p]
    ensures IsSuffix(c'[p], added + if op.Add? && op.priority == p then [op.x] else [])
  {
    match op
    case Add(q, x) => SuffixSteps(c[p], added, caps[p], x);
    case Take =>
      assert added + [] == added;
      if !AllEmpty(c) {
        var q :| IsLowest(c, q) && c' == c[q := c[q][1..]];
        SuffixSteps(c[p], added, 0, c[q][0]);
      }
  }

  lemma AddedMore<T>(ops: seq<Op<T>>, j: nat, p: nat)
    requires j < |ops|
    ensures Added(ops[..j + 1], p)
         == Added(ops[..j], p) + if ops[j].Add? && ops[j].priority == p then [ops[j].x] else []
  {
    assert ops[..j + 1][..j] == ops[..j];
  }

  // In every run each sub-queue holds the latest items added at its priority: only its oldest items
  // ever leave, by Take or by overflow, and it stays within its capacity.
  lemma {:induction false} RunKeepsLatest<T(!new)>(caps: map<nat, int>, ops: seq<Op<T>>, run: seq<map<nat, seq<T>>>, taken: seq<seq<T>>, i: nat, p: nat)
    requires IsRun(caps, ops, run, taken) && i <= |ops| && p in caps && caps[p] >= 0
    ensures p in run[i]
    ensures IsSuffix(run[i][p], Added(ops[..i], p)) && |run[i][p]| <= caps[p]
  {
    if i > 0 {
      var j := i - 1;
      RunKeepsLatest(caps, ops, run, taken, j, p);
      assert Performs(caps, run[j], ops[j], run[j + 1], taken[j]);
      AddedMore(ops, j, p);
      PerformsKeepsLatest(caps, run[j], ops[j], run[j + 1], taken[j], p, Added(ops[..j], p));
    }
  }

  // ---- Every item is accounted for ----------------------------------------------------------

  // What operation i of a run takes out of the sub-queue of p, by Take and by overflow.
  function TakenBy<T>(c: map<nat, seq<T>>, op: Op<T>, taken: seq<T>, p: nat): seq<T> {
    if op.Take? && IsLowest(c, p) then taken else []
  }

  function DroppedBy<T>(caps: map<nat, int>, c: map<nat, seq<T>>, op: Op<T>, p: nat): seq<T>
    requires c.Keys == caps.Keys && p in caps
  {
    if op.Add? && op.priority == p && |c[p]| >= caps[p] then [(c[p] + [op.x])[0]] else []
  }

  // gone is made of a and b, each in its order.
  ghost predicate Interleaves<T(!new)>(gone: seq<T>, a: seq<T>, b: seq<T>)
    decreases |gone|
  {
    if gone == [] then a == [] && b == []
    else
      var n, x := |gone| - 1, gone[|gone| - 1];
      || (a != [] && a[|a| - 1] == x && Interleaves(gone[..n], a[..|a| - 1], b))
      || (b != [] && b[|b| - 1] == x && Interleaves(gone[..n], a, b[..|b| - 1]))
  }

  lemma InterleavesMore<T(!new)>(gone: seq<T>, a: seq<T>, b: seq<T>, x: T)
    requires Interleaves(gone, a, b)
    ensures Interleaves(gone + [x], a + [x], b) && Interleaves(gone + [x], a, b + [x])
  {
    assert (gone + [x])[..|gone|] == gone && (a + [x])[..|a|] == a && (b + [x])[..|b|] == b;
  }

  lemma {:induction false} InterleavingKeepsAll<T(!new)>(gone: seq<T>, a: seq<T>, b: seq<T>)
    requires Interleaves(gone, a, b)
    ensures multiset(gone) == multiset(a) + multiset(b)
  {
    if gone != [] {
      var n, x := |gone| - 1, gone[|gone| - 1];
      assert gone == gone[..n] + [x];
      if a != [] && a[|a| - 1] == x && Interleaves(gone[..n], a[..|a| - 1], b) {
        InterleavingKeepsAll(gone[..n], a[..|a| - 1], b);
        assert a == a[..|a| - 1] + [x];
      } else {
        InterleavingKeepsAll(gone[..n], a, b[..|b| - 1]);
        assert b == b[..|b| - 1] + [x];
      }
    }
  }

  ghost function TakenAt<T(!new)>(ops: seq<Op<T>>, run: seq<map<nat, seq<T>>>, taken: seq<seq<T>>, i: nat, p: nat): seq<T>
    requires i <= |ops| && i <= |run| && i <= |taken|
    decreases i
  {
    if i == 0 then [] else TakenAt(ops, run, taken, i - 1, p) + TakenBy(run[i - 1], ops[i - 1], taken[i - 1], p)
  }

  ghost function DroppedAt<T(!new)>(caps: map<nat, int>, ops: seq<Op<T>>, run: seq<map<nat, seq<T>>>, taken: seq<seq<T>>, i: nat, p: nat): seq<T>
    requires IsRun(caps, ops, run, taken) && i <= |ops| && p in caps
    decreases i
  {
    if i == 0 then [] else DroppedAt(caps, ops, run, taken, i - 1, p) + DroppedBy(caps, run[i - 1], ops[i - 1], p)
  }

  // One operation: what leaves the front of a sub-queue has been taken or dropped.
  lemma PerformsAccounts<T(!new)>(caps: map<nat, int>, c: map<nat, seq<T>>, op: Op<T>, c': map<nat, seq<T>>, taken: seq<T>, p: nat)
    requires c.Keys == caps.Keys && Performs(caps, c, op, c', taken) && p in caps && 0 <= |c[p]| <= caps[p]
    ensures p in c'
    ensures TakenBy(c, op, taken, p) + DroppedBy(caps, c, op, p) + c'[p]
         == c[p] + if op.Add? && op.priority == p then [op.x] else []
    ensures TakenBy(c, op, taken, p) == [] || DroppedBy(caps, c, op, p) == []
    ensures |TakenBy(c, op, taken, p)| <= 1 && |DroppedBy(caps, c, op, p)| <= 1
  {
    match op
    case Add(q, x) =>
    case Take =>
      if !AllEmpty(c) {
        var q :| IsLowest(c, q) && c' == c[q := c[q][1..]] && taken == [c[q][0]];
        assert p != q ==> !IsLowest(c, p);
      }
  }

  // In every run the items added at a priority are, in order, those that have left and those still
  // queued; and those that have left are the ones taken and the ones dropped, both in the order in
  // which they were added.
  lemma {:induction false} RunAccountsForAll<T(!new)>(caps: map<nat, int>, ops: seq<Op<T>>, run: seq<map<nat, seq<T>>>, taken: seq<seq<T>>, i: nat, p: nat)
    returns (gone: seq<T>)
    requires IsRun(caps, ops, run, taken) && i <= |ops| && p in caps && caps[p] >= 0
    ensures p in run[i] && Added(ops[..i], p) == gone + run[i][p]
    ensures Interleaves(gone, TakenAt(ops, run, taken, i, p), DroppedAt(caps, ops, run, taken, i, p))
  {
    if i == 0 {
      gone := [];
    } else {
      hide Performs, IsSuffix, TakenBy, DroppedBy, Interleaves, Added;
      var j := i - 1;
      var before := RunAccountsForAll(caps, ops, run, taken, j, p);
      RunKeepsLatest(caps, ops, run, taken, j, p);
      assert Performs(caps, run[j], ops[j], run[j + 1], taken[j]);
      PerformsAccounts(caps, run[j], ops[j], run[j + 1], taken[j], p);
      AddedMore(ops, j, p);
      var t, d := TakenBy(run[j], ops[j], taken[j], p), DroppedBy(caps, run[j], ops[j], p);
      gone := before + t + d;
      Regroup(before, run[j][p], t, d, run[i][p], Added(ops[..i], p), Added(ops[..j], p));
      LeavesMore(before, TakenAt(ops, run, taken, j, p), DroppedAt(caps, ops, run, taken, j, p), t, d);
    }
  }

  // So at every priority what was added is what was taken, dropped, or is still queued.
  lemma RunConserves<T(!new)>(caps: map<nat, int>, ops: seq<Op<T>>, run: seq<map<nat, seq<T>>>, taken: seq<seq<T>>, i: nat, p: nat)
    requires IsRun(caps, ops, run, taken) && i <= |ops| && p in caps && caps[p] >= 0
    ensures p in run[i]
    ensures multiset(Added(ops[..i], p)) == multiset(TakenAt(ops, run, taken, i, p))
              + multiset(DroppedAt(caps, ops, run, taken, i, p)) + multiset(run[i][p])
  {
    hide Performs, Interleaves, Added, TakenAt, DroppedAt;
    var gone := RunAccountsForAll(caps, ops, run, taken, i, p);
    InterleavingKeepsAll(gone, TakenAt(ops, run, taken, i, p), DroppedAt(caps, ops, run, taken, i, p));
  }

  lemma Regroup<T>(gone: seq<T>, queue: seq<T>, t: seq<T>, d: seq<T>, queue': seq<T>, added': seq<T>, added: seq<T>)
    requires added == gone + queue && |added| <= |added'| && added'[..|added|] == added
    requires t + d + queue' == queue + added'[|added|..]
    ensures added' == gone + t + d + queue'
  {
    assert added' == added + added'[|added|..];
    assert gone + t + d + queue' == gone + (t + d + queue');
  }

  lemma LeavesMore<T(!new)>(gone: seq<T>, a: seq<T>, b: seq<T>, t: seq<T>, d: seq<T>)
    requires Interleaves(gone, a, b) && |t| <= 1 && |d| <= 1 && (t == [] || d == [])
    ensures Interleaves(gone + t + d, a + t, b + d)
  {
    hide Interleaves;
    assert a + [] == a && b + [] == b && gone + [] == gone;
    if t != [] {
      InterleavesMore(gone, a, b, t[0]);
      assert t == [t[0]] && gone + t + d == gone + t;
    } else if d != [] {
      InterleavesMore(gone, a, b, d[0]);
      assert d == [d[0]] && gone + t + d == gone + d;
    }
  }

  lemma KeepMore<T>(n: nat, s: seq<T>, x: T)
    ensures Keep(n, Keep(n, s) + [x]) == Keep(n, s + [x])
  {
  }

  lemma AddKeepsLatest<T(!new)>(caps: map<nat, int>, c: map<nat, seq<T>>, op: Op<T>, c': map<nat, seq<T>>, taken: seq<T>, p: nat, added: seq<T>)
    requires c.Keys == caps.Keys && op.Add? && Performs(caps, c, op, c', taken) && p in caps && caps[p] >= 0
    requires c[p] == Keep(caps[p], added)
    ensures p in c' && c'[p] == Keep(caps[p], added + if op.priority == p then [op.x] else [])
  {
    hide Keep;
    KeepMore(caps[p], added, op.x);
    assert added + [] == added;
  }

  // Without Take, a sub-queue is exactly the last `capacity` items added to it.
  lemma {:induction false} AddsKeepExactly<T(!new)>(caps: map<nat, int>, ops: seq<Op<T>>, run: seq<map<nat, seq<T>>>, taken: seq<seq<T>>, i: nat, p: nat)
    requires IsRun(caps, ops, run, taken) && i <= |ops| && p in caps && caps[p] >= 0
    requires forall k :: 0 <= k < i ==> ops[k].Add?
    ensures p in run[i] && run[i][p] == Keep(caps[p], Added(ops[..i], p))
  {
    if i > 0 {
      hide Added, Keep, Performs;
      var j := i - 1;
      AddsKeepExactly(caps, ops, run, taken, j, p);
      assert Performs(caps, run[j], ops[j], run[j + 1], taken[j]);
      AddedMore(ops, j, p);
      AddKeepsLatest(caps, run[j], ops[j], run[j + 1], taken[j], p, Added(ops[..j], p));
    }
  }
}

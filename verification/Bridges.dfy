// The bridge ORM and its cache (lib/chainlink/core/bridges/orm.go).  The table is a map with unique
// names; every operation is one atomic step of the only process that writes the table.
module Bridges {
  import opened Sorting

  type Name = string

  datatype BridgeType = BridgeType(
    name: Name,
    url: string,
    confirmations: nat,
    incomingTokenHash: string,
    salt: string,
    outgoingToken: string,
    minimumContractPayment: int,
    createdAt: int,
    updatedAt: int)

  datatype BridgeTypeRequest = BridgeTypeRequest(url: string, confirmations: nat, minimumContractPayment: int)

  datatype Error = NoRows | NameTaken | NoNames | NotAllExist
  datatype Result<T> = Ok(value: T) | Err(error: Error)

  type Rows = map<Name, BridgeType>

  // Every row is stored under its own name.
  predicate Keyed(rows: Rows) {
    forall n :: n in rows ==> rows[n].name == n
  }

  // A plain table lookup: what FindBridge would be without a cache.
  function Lookup(table: Rows, name: Name): Result<BridgeType> {
    if name in table then Ok(table[name]) else Err(NoRows)
  }

  function Updated(row: BridgeType, request: BridgeTypeRequest): BridgeType {
    row.(url := request.url, confirmations := request.confirmations,
         minimumContractPayment := request.minimumContractPayment)
  }

  function NamesOf(bts: seq<BridgeType>): (names: seq<Name>)
    ensures |names| == |bts| && forall i :: 0 <= i < |bts| ==> names[i] == bts[i].name
  {
    seq(|bts|, i requires 0 <= i < |bts| => bts[i].name)
  }

  // The names that a batch lookup has to ask the table for, in order.
  function Uncached(names: seq<Name>, cache: Rows): seq<Name> {
    if names == [] then []
    else
      var n := names[|names| - 1];
      Uncached(names[..|names| - 1], cache) + if n in cache then [] else [n]
  }

  // When a batch lookup succeeds.
  predicate FindsAll(table: Rows, cache: Rows, names: seq<Name>) {
    names != [] && (forall n :: n in names ==> n in table) && Distinct(Uncached(names, cache))
  }

  // bts are the table's rows for the names, each as often as it is asked for, in some order.
  predicate AreRowsFor(table: Rows, names: seq<Name>, bts: seq<BridgeType>) {
    && multiset(NamesOf(bts)) == multiset(names)
    && forall i :: 0 <= i < |bts| ==> bts[i].name in table && bts[i] == table[bts[i].name]
  }

  lemma UncachedMore(names: seq<Name>, n: Name, cache: Rows)
    ensures Uncached(names + [n], cache) == Uncached(names, cache) + if n in cache then [] else [n]
  {
    assert (names + [n])[..|names|] == names;
  }

  lemma {:induction false} UncachedNames(names: seq<Name>, cache: Rows)
    ensures forall n :: n in Uncached(names, cache) <==> n in names && n !in cache
  {
    if names != [] {
      UncachedNames(names[..|names| - 1], cache);
      assert names == names[..|names| - 1] + [names[|names| - 1]];
    }
  }

  lemma {:induction false} UncachedDistinct(names: seq<Name>, cache: Rows)
    requires Distinct(names)
    ensures Distinct(Uncached(names, cache))
  {
    if names != [] {
      UncachedDistinct(names[..|names| - 1], cache);
      UncachedNames(names[..|names| - 1], cache);
    }
  }

  lemma NoElements()
    ensures Elements<Name>([]) == {} && Distinct<Name>([])
  {
  }

  lemma CachedAfter(table: Rows, cache: Rows, names: seq<Name>)
    requires cache.Keys <= table.Keys
    ensures cache.Keys + (Elements(names) * table.Keys)
         == cache.Keys + (Elements(Uncached(names, cache)) * table.Keys)
  {
    UncachedNames(names, cache);
    assert forall n :: n in Elements(names) <==> n in names;
    assert forall n :: n in Elements(Uncached(names, cache)) <==> n in Uncached(names, cache);
  }

  // As its comment asks, a batch lookup is meant for distinct names.  It then succeeds exactly when
  // all of them exist, whatever the cache holds.
  lemma DistinctNamesIgnoreCache(table: Rows, cache: Rows, names: seq<Name>)
    requires Distinct(names)
    ensures FindsAll(table, cache, names) <==> names != [] && forall n :: n in names ==> n in table
  {
    UncachedDistinct(names, cache);
  }

  // Every cached entry equals its row.
  ghost predicate Coherent(table: Rows, cache: Rows) {
    forall n :: n in cache ==> n in table && cache[n] == table[n]
  }

  lemma {:induction false} UncachedByEmpty(names: seq<Name>)
    ensures Uncached(names, map[]) == names
  {
    if names != [] {
      UncachedByEmpty(names[..|names| - 1]);
    }
  }

  // A request for existing names succeeds with some cache, and with every cache if and only if
  // the names are distinct: with a repeated name the caller sees what the cache happens to hold.
  lemma RepeatedNamesShowCache(table: Rows, names: seq<Name>)
    requires names != [] && forall n :: n in names ==> n in table
    ensures (forall cache: Rows :: Coherent(table, cache) ==> FindsAll(table, cache, names)) <==> Distinct(names)
    ensures Coherent(table, table) && FindsAll(table, table, names)
  {
    UncachedNames(names, table);
    var left := Uncached(names, table);
    assert left == [] || left[0] in left;
    if Distinct(names) {
      forall cache: Rows | Coherent(table, cache)
        ensures FindsAll(table, cache, names)
      {
        DistinctNamesIgnoreCache(table, cache, names);
      }
    } else {
      UncachedByEmpty(names);
      assert Coherent(table, map[]) && !FindsAll(table, map[], names);
    }
  }

  lemma AppendRow(bts: seq<BridgeType>, bt: BridgeType)
    ensures NamesOf(bts + [bt]) == NamesOf(bts) + [bt.name]
  {
  }

  lemma {:induction false} DistinctCount(s: seq<Name>)
    ensures |Elements(s)| <= |s|
    ensures |Elements(s)| == |s| <==> Distinct(s)
  {
    if s != [] {
      var n := |s| - 1;
      DistinctCount(s[..n]);
      AppendElement(s[..n], s[n]);
      assert s == s[..n] + [s[n]];
      if s[n] in Elements(s[..n]) {
        assert Elements(s) == Elements(s[..n]);
      }
    }
  }

  lemma {:induction false} DistinctOnce(s: seq<Name>)
    requires Distinct(s)
    ensures forall x :: multiset(s)[x] == if x in s then 1 else 0
  {
    if s != [] {
      var n := |s| - 1;
      DistinctOnce(s[..n]);
      assert s == s[..n] + [s[n]];
    }
  }

  lemma SameNamesOnce(a: seq<Name>, b: seq<Name>)
    requires Distinct(a) && Distinct(b) && Elements(a) == Elements(b)
    ensures multiset(a) == multiset(b)
  {
    DistinctOnce(a);
    DistinctOnce(b);
    forall x
      ensures multiset(a)[x] == multiset(b)[x]
    {
      assert x in a <==> x in Elements(a);
      assert x in b <==> x in Elements(b);
    }
  }

  // The cached names and the names searched for make up the request.
  ghost predicate SplitsInto(names: seq<Name>, found: seq<Name>, search: seq<Name>) {
    multiset(found) + multiset(search) == multiset(names)
  }

  lemma SplitsMembers(names: seq<Name>, found: seq<Name>, search: seq<Name>)
    requires SplitsInto(names, found, search)
    ensures forall n :: n in names <==> n in found || n in search
    ensures |names| == |found| + |search|
    ensures search == [] ==> multiset(found) == multiset(names)
  {
    assert forall n :: n in names <==> n in multiset(found) + multiset(search);
    assert |multiset(found) + multiset(search)| == |found| + |search|;
  }

  // Comparing lengths tells whether everything was found: the rows selected for `search` are as
  // many only if these names are distinct and all exist.
  lemma CountTells(table: Rows, names: seq<Name>, found: seq<Name>, search: seq<Name>, rows: seq<Name>)
    requires SplitsInto(names, found, search)
    requires forall n :: n in found ==> n in table
    requires Distinct(rows) && Elements(rows) == Elements(search) * table.Keys
    ensures |found| + |rows| == |names| <==> Distinct(search) && forall n :: n in names ==> n in table
    ensures |found| + |rows| == |names| ==> multiset(found + rows) == multiset(names)
  {
    SplitsMembers(names, found, search);
    DistinctCount(rows);
    DistinctCount(search);
    assert Elements(rows) <= Elements(search);
    SubsetCount(Elements(rows), Elements(search));
    assert forall n :: n in search <==> n in Elements(search);
    if forall n :: n in names ==> n in table {
      assert Elements(rows) == Elements(search);
    }
    if |found| + |rows| == |names| {
      SameNamesOnce(rows, search);
    }
  }

  lemma {:induction false} SubsetCount(a: set<Name>, b: set<Name>)
    requires a <= b
    ensures |a| <= |b|
    ensures |a| == |b| ==> a == b
  {
    assert b == a + (b - a);
  }

  lemma SplitsMore(names: seq<Name>, found: seq<Name>, search: seq<Name>, n: Name)
    requires SplitsInto(names, found, search)
    ensures SplitsInto(names + [n], found + [n], search)
    ensures SplitsInto(names + [n], found, search + [n])
  {
  }

  lemma SplitsNothing()
    ensures SplitsInto([], [], []) && forall cache: Rows :: Uncached([], cache) == []
  {
  }

  // ---- The plain table ----------------------------------------------------------------------

  datatype Op =
    | Find(name: Name)
    | FindMany(names: seq<Name>)
    | Create(bt: BridgeType, now: int)
    | Update(name: Name, request: BridgeTypeRequest)
    | Delete(name: Name)

  datatype Reply = One(bt: Result<BridgeType>) | Many(bts: Result<seq<BridgeType>>) | Deleted(found: bool)

  // What each operation does on a table without a cache: its reply and the table after it.
  ghost predicate TableStep(table: Rows, op: Op, reply: Reply, table': Rows) {
    match op
    case Find(name) => reply == One(Lookup(table, name)) && table' == table
    case FindMany(names) =>
      && table' == table && reply.Many?
      && if names == [] then reply.bts == Err(NoNames)
         else if forall n :: n in names ==> n in table
         then reply.bts.Ok? && AreRowsFor(table, names, reply.bts.value)
         else reply.bts == Err(NotAllExist)
    case Create(bt, now) =>
      var row := bt.(createdAt := now, updatedAt := now);
      if bt.name in table then reply == One(Err(NameTaken)) && table' == table
      else reply == One(Ok(row)) && table' == table[bt.name := row]
    case Update(name, request) =>
      if name !in table then reply == One(Err(NoRows)) && table' == table
      else
        var row := Updated(table[name], request);
        reply == One(Ok(row)) && table' == table[name := row]
    case Delete(name) =>
      reply == Deleted(name in table) && table' == table - {name}
  }

  ghost predicate TableRun(table: Rows, ops: seq<Op>, replies: seq<Reply>, table': Rows)
    decreases |ops|
  {
    if ops == [] then replies == [] && table' == table
    else
      && replies != []
      && exists next: Rows :: TableStep(table, ops[0], replies[0], next) && TableRun(next, ops[1..], replies[1..], table')
  }

  // The batch lookups of a client that follows the comment on FindBridges.
  predicate AsksDistinctNames(ops: seq<Op>) {
    forall i :: 0 <= i < |ops| && ops[i].FindMany? ==> Distinct(ops[i].names)
  }

  // rows are the table's rows for `matching` but for those still left.
  ghost predicate AreSelected(table: Rows, matching: set<Name>, left: set<Name>, rows: seq<BridgeType>) {
    && left <= matching
    && Distinct(NamesOf(rows)) && Elements(NamesOf(rows)) == matching - left
    && forall i :: 0 <= i < |rows| ==> rows[i].name in table && rows[i] == table[rows[i].name]
  }

  lemma SelectMore(table: Rows, matching: set<Name>, left: set<Name>, rows: seq<BridgeType>, n: Name)
    requires AreSelected(table, matching, left, rows) && n in left && n in table && table[n].name == n
    ensures AreSelected(table, matching, left - {n}, rows + [table[n]])
  {
    AppendRow(rows, table[n]);
    AppendElement(NamesOf(rows), n);
  }

  class Orm {
    var table: Rows
    var cache: Rows    // bridgeTypesCache

    // The cache agrees with the table.
    ghost predicate Valid()
      reads this
    {
      Keyed(table) && Coherent(table, cache)
    }

    constructor (table: Rows)
      requires Keyed(table)
      ensures Valid() && this.table == table
    {
      this.table, cache := table, map[];
    }

    method FindBridge(name: Name) returns (r: Result<BridgeType>)
      requires Valid()
      modifies this`cache
      ensures Valid() && r == Lookup(table, name)
      ensures r == if name in table then Ok(table[name]) else Err(NoRows)
      ensures cache.Keys == old(cache).Keys + ({name} * table.Keys)
    {
      if name in cache {
        return Ok(cache[name]);
      }
      r := Lookup(table, name);
      if r.Ok? {
        cache := cache[r.value.name := r.value];
      }
    }

    // SELECT ... WHERE name IN (names): each matching row once, in any order.
    method Select(names: seq<Name>) returns (rows: seq<BridgeType>)
      requires Keyed(table)
      ensures Distinct(NamesOf(rows))
      ensures Elements(NamesOf(rows)) == Elements(names) * table.Keys
      ensures forall i :: 0 <= i < |rows| ==> rows[i].name in table && rows[i] == table[rows[i].name]
    {
      rows := [];
      var left := Elements(names) * table.Keys;
      while left != {}
        invariant AreSelected(table, Elements(names) * table.Keys, left, rows)
        decreases |left|
      {
        var n :| n in left;
        SelectMore(table, Elements(names) * table.Keys, left, rows, n);
        rows := rows + [table[n]];
        left := left - {n};
      }
    }

    method FindBridges(names: seq<Name>) returns (r: Result<seq<BridgeType>>)
      requires Valid()
      modifies this`cache
      ensures Valid()
      ensures r.Err? ==> r.error == if names == [] then NoNames else NotAllExist
      ensures r.Ok? <==> FindsAll(table, old(cache), names)
      ensures r.Ok? ==> AreRowsFor(table, names, r.value)
      ensures cache.Keys == old(cache).Keys + (Elements(names) * table.Keys)
    {
      hide SplitsInto, Uncached, Distinct, Elements;
      if |names| == 0 {
        NoElements();
        return Err(NoNames);
      }
      var allFoundBts, searchNames := Split(names);
      CachedAfter(table, cache, names);
      SplitsMembers(names, NamesOf(allFoundBts), searchNames);
      if |allFoundBts| == |names| {
        NoElements();
        assert searchNames == [];
        return Ok(allFoundBts);
      }
      var bts := Select(searchNames);
      CountTells(table, names, NamesOf(allFoundBts), searchNames, NamesOf(bts));
      assert NamesOf(allFoundBts + bts) == NamesOf(allFoundBts) + NamesOf(bts);
      Store(bts);
      allFoundBts := allFoundBts + bts;
      if |allFoundBts| != |names| {
        return Err(NotAllExist);
      }
      return Ok(allFoundBts);
    }

    // The last loop of FindBridges.
    method Store(bts: seq<BridgeType>)
      requires Valid()
      requires forall i :: 0 <= i < |bts| ==> bts[i].name in table && bts[i] == table[bts[i].name]
      modifies this`cache
      ensures Valid() && cache.Keys == old(cache).Keys + Elements(NamesOf(bts))
    {
      hide Elements, Distinct;
      NoElements();
      for i := 0 to |bts|
        invariant Valid() && cache.Keys == old(cache).Keys + Elements(NamesOf(bts)[..i])
      {
        AppendElement(NamesOf(bts)[..i], bts[i].name);
        assert NamesOf(bts)[..i + 1] == NamesOf(bts)[..i] + [bts[i].name];
        cache := cache[bts[i].name := bts[i]];
      }
      assert NamesOf(bts)[..|bts|] == NamesOf(bts);
    }

    // The first loop of FindBridges: cached rows, and the names still to search for.
    method Split(names: seq<Name>) returns (found: seq<BridgeType>, search: seq<Name>)
      requires Valid()
      ensures search == Uncached(names, cache)
      ensures SplitsInto(names, NamesOf(found), search)
      ensures forall i :: 0 <= i < |found| ==> found[i].name in table && found[i] == table[found[i].name]
    {
      SplitsNothing();
      hide SplitsInto, Uncached;
      found, search := [], [];
      for i := 0 to |names|
        invariant search == Uncached(names[..i], cache)
        invariant SplitsInto(names[..i], NamesOf(found), search)
        invariant forall j :: 0 <= j < |found| ==> found[j].name in table && found[j] == table[found[j].name]
      {
        var n := names[i];
        assert names[..i + 1] == names[..i] + [n];
        UncachedMore(names[..i], n, cache);
        SplitsMore(names[..i], NamesOf(found), search, n);
        if n in cache {
          AppendRow(found, cache[n]);
          found := found + [cache[n]];
        } else {
          search := search + [n];
        }
      }
      assert names[..|names|] == names;
    }

    method CreateBridgeType(bt: BridgeType, now: int) returns (r: Result<BridgeType>)
      requires Valid()
      modifies this
      ensures Valid() && TableStep(old(table), Create(bt, now), One(r), table)
      ensures bt.name in old(table) ==> r == Err(NameTaken) && table == old(table)
      ensures bt.name !in old(table) ==>
                && r == Ok(BridgeType(bt.name, bt.url, bt.confirmations, bt.incomingTokenHash, bt.salt,
                                      bt.outgoingToken, bt.minimumContractPayment, now, now))
                && table == old(table)[bt.name := r.value]
      ensures cache == if r.Ok? then old(cache)[bt.name := r.value] else old(cache)
    {
      if bt.name in table {
        return Err(NameTaken);
      }
      var row := bt.(createdAt := now, updatedAt := now);
      table := table[row.name := row];
      cache := cache[row.name := row];
      r := Ok(row);
    }

    method UpdateBridgeType(name: Name, request: BridgeTypeRequest) returns (r: Result<BridgeType>)
      requires Valid()
      modifies this
      ensures Valid() && TableStep(old(table), Update(name, request), One(r), table)
      ensures name !in old(table) ==> r == Err(NoRows) && table == old(table)
      ensures name in old(table) ==>
                var was := old(table)[name];
                && r == Ok(BridgeType(name, request.url, request.confirmations, was.incomingTokenHash, was.salt,
                                      was.outgoingToken, request.minimumContractPayment, was.createdAt, was.updatedAt))
                && table == old(table)[name := r.value]
      ensures cache == if r.Ok? then old(cache)[name := r.value] else old(cache)
    {
      if name !in table {
        return Err(NoRows);
      }
      var row := Updated(table[name], request);
      table := table[name := row];
      cache := cache[row.name := row];
      r := Ok(row);
    }

    // Not found is sql.ErrNoRows; the cache entry goes in either case.
    method DeleteBridgeType(name: Name) returns (found: bool)
      requires Valid()
      modifies this
      ensures Valid() && TableStep(old(table), Delete(name), Deleted(found), table)
      ensures found == (name in old(table)) && table == old(table) - {name}
      ensures cache == old(cache) - {name}
    {
      found := name in table;
      table := table - {name};
      cache := cache - {name};
    }

    method Perform(op: Op) returns (reply: Reply)
      requires Valid() && (op.FindMany? ==> Distinct(op.names))
      modifies this
      ensures Valid() && TableStep(old(table), op, reply, table)
    {
      match op {
        case Find(name) =>
          var r := FindBridge(name);
          reply := One(r);
        case FindMany(names) =>
          DistinctNamesIgnoreCache(table, cache, names);
          var r := FindBridges(names);
          reply := Many(r);
        case Create(bt, now) =>
          var r := CreateBridgeType(bt, now);
          reply := One(r);
        case Update(name, request) =>
          var r := UpdateBridgeType(name, request);
          reply := One(r);
        case Delete(name) =>
          var found := DeleteBridgeType(name);
          reply := Deleted(found);
      }
    }

    // The cache is invisible: every sequence of operations gets the replies, and leaves the table,
    // that a table without a cache would.
    method Session(ops: seq<Op>) returns (replies: seq<Reply>)
      requires Valid() && AsksDistinctNames(ops)
      modifies this
      ensures Valid() && TableRun(old(table), ops, replies, table)
      decreases |ops|
    {
      if ops == [] {
        return [];
      }
      var first := Perform(ops[0]);
      ghost var next := table;
      var more := Session(ops[1..]);
      replies := [first] + more;
      assert replies[1..] == more;
      assert TableStep(old(table), ops[0], replies[0], next) && TableRun(next, ops[1..], replies[1..], table);
    }
  }
}

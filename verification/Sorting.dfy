// Sorted key lists: what the source gets from Go's sort package after collecting the keys of a map,
// whose iteration order is unspecified.
module Sorting {

  ghost predicate StrictTotalOrder<K(!new)>(less: (K, K) -> bool) {
    && (forall a :: !less(a, a))
    && (forall a, b :: a == b || less(a, b) || less(b, a))
    && (forall a, b, c :: less(a, b) && less(b, c) ==> less(a, c))
  }

  predicate Increasing<K>(less: (K, K) -> bool, s: seq<K>) {
    forall i, j :: 0 <= i < j < |s| ==> less(s[i], s[j])
  }

  predicate Distinct<K(==)>(s: seq<K>) {
    forall i, j :: 0 <= i < j < |s| ==> s[i] != s[j]
  }

  function Elements<K>(s: seq<K>): set<K> { set k | k in s }

  function Insert<K>(less: (K, K) -> bool, s: seq<K>, k: K): seq<K> {
    if s == [] then [k]
    else if less(k, s[0]) then [k] + s
    else [s[0]] + Insert(less, s[1..], k)
  }

  function Sort<K>(less: (K, K) -> bool, s: seq<K>): seq<K> {
    if s == [] then [] else Insert(less, Sort(less, s[..|s| - 1]), s[|s| - 1])
  }

  lemma {:induction false} InsertElements<K>(less: (K, K) -> bool, s: seq<K>, k: K)
    ensures forall x :: x in Insert(less, s, k) <==> x == k || x in s
  {
    if s != [] && !less(k, s[0]) {
      InsertElements(less, s[1..], k);
    }
  }

  lemma {:induction false} InsertIncreasing<K(!new)>(less: (K, K) -> bool, s: seq<K>, k: K)
    requires StrictTotalOrder(less) && Increasing(less, s) && k !in s
    ensures Increasing(less, Insert(less, s, k))
  {
    if s != [] && !less(k, s[0]) {
      assert less(s[0], k);
      InsertIncreasing(less, s[1..], k);
      InsertElements(less, s[1..], k);
      var rest := Insert(less, s[1..], k);
      assert forall j :: 0 <= j < |rest| ==> rest[j] in rest;
      assert forall x :: x in s[1..] ==> less(s[0], x);
    }
  }

  // Sorting distinct keys gives the same keys in increasing order.
  lemma {:induction false} SortSorts<K(!new)>(less: (K, K) -> bool, s: seq<K>)
    requires StrictTotalOrder(less) && Distinct(s)
    ensures Increasing(less, Sort(less, s)) && Elements(Sort(less, s)) == Elements(s)
  {
    if s != [] {
      var n := |s| - 1;
      SortSorts(less, s[..n]);
      assert s == s[..n] + [s[n]];
      assert s[n] !in Elements(s[..n]);
      InsertIncreasing(less, Sort(less, s[..n]), s[n]);
      InsertElements(less, Sort(less, s[..n]), s[n]);
      assert forall x :: x in Sort(less, s[..n]) <==> x in Elements(Sort(less, s[..n]));
    }
  }

  lemma AppendElement<K>(s: seq<K>, k: K)
    ensures Elements(s + [k]) == Elements(s) + {k}
    ensures Distinct(s) && k !in Elements(s) ==> Distinct(s + [k])
  {
    assert forall x :: x in s + [k] <==> x in s || x == k;
  }

  // A set of keys has only one increasing enumeration.
  lemma {:induction false} IncreasingUnique<K(!new)>(less: (K, K) -> bool, a: seq<K>, b: seq<K>)
    requires StrictTotalOrder(less) && Increasing(less, a) && Increasing(less, b)
    requires forall x :: x in a <==> x in b
    ensures a == b
  {
    assert a != [] ==> a[0] in a && a[0] in b;
    assert b != [] ==> b[0] in b && b[0] in a;
    if a != [] {
      assert a[0] == b[0];
      forall x
        ensures x in a[1..] <==> x in b[1..]
      {
        assert x in a <==> x == a[0] || x in a[1..];
        assert x in b <==> x == b[0] || x in b[1..];
        if x in a[1..] { assert less(a[0], x); }
        if x in b[1..] { assert less(b[0], x); }
      }
      IncreasingUnique(less, a[1..], b[1..]);
    }
  }

  // So the order in which a map was iterated does not show.
  lemma OrderDoesNotShow<K(!new)>(less: (K, K) -> bool, s: seq<K>, t: seq<K>)
    requires StrictTotalOrder(less) && Distinct(s) && Distinct(t) && Elements(s) == Elements(t)
    ensures Sort(less, s) == Sort(less, t)
  {
    SortSorts(less, s);
    SortSorts(less, t);
    forall x
      ensures x in Sort(less, s) <==> x in Sort(less, t)
    {
      assert x in Elements(Sort(less, s)) <==> x in Elements(Sort(less, t));
    }
    IncreasingUnique(less, Sort(less, s), Sort(less, t));
  }

  // ---- Go's order on strings ----------------------------------------------------------------

  // By code point; on valid UTF-8 this is the order of the bytes.
  predicate Before(a: string, b: string) {
    if a == "" || b == "" then a == "" && b != ""
    else if a[0] != b[0] then a[0] < b[0]
    else Before(a[1..], b[1..])
  }

  // What that means: a is a proper prefix of b, or has the smaller character where they first differ.
  ghost predicate Precedes(a: string, b: string) {
    || (|a| < |b| && b[..|a|] == a)
    || exists i :: 0 <= i < |a| && i < |b| && a[..i] == b[..i] && a[i] < b[i]
  }

  lemma {:induction false} BeforeMeans(a: string, b: string)
    ensures Before(a, b) <==> Precedes(a, b)
  {
    if a != "" && b != "" {
      var x, y := a[1..], b[1..];
      BeforeMeans(x, y);
      if a[0] == b[0] {
        PrecedesRest(a, b);
      } else {
        assert forall i :: 0 < i <= |a| && i <= |b| ==> a[..i][0] == a[0] && b[..i][0] == b[0];
        assert a[0] < b[0] ==> a[..0] == b[..0];
        assert |a| < |b| ==> b[..|a|][0] == b[0];
      }
    }
  }

  lemma PrecedesRest(a: string, b: string)
    requires a != "" && b != "" && a[0] == b[0]
    ensures Precedes(a, b) <==> Precedes(a[1..], b[1..])
  {
    var x, y := a[1..], b[1..];
    assert a == [a[0]] + x && b == [b[0]] + y;
    if Precedes(a, b) {
      if |a| < |b| && b[..|a|] == a {
        assert y[..|x|] == b[..|a|][1..];
      } else {
        var i :| 0 <= i < |a| && i < |b| && a[..i] == b[..i] && a[i] < b[i];
        assert x[..i - 1] == a[..i][1..] && y[..i - 1] == b[..i][1..];
        assert x[i - 1] < y[i - 1];
      }
    }
    if Precedes(x, y) {
      if |x| < |y| && y[..|x|] == x {
        assert b[..|a|] == [b[0]] + y[..|x|];
      } else {
        var i :| 0 <= i < |x| && i < |y| && x[..i] == y[..i] && x[i] < y[i];
        assert a[..i + 1] == [a[0]] + x[..i] && b[..i + 1] == [b[0]] + y[..i];
        assert a[i + 1] < b[i + 1];
      }
    }
  }

  lemma {:induction false} BeforeTotal(a: string, b: string)
    ensures !Before(a, a)
    ensures a == b || Before(a, b) || Before(b, a)
  {
    if a != "" {
      if b != "" && a[0] == b[0] {
        BeforeTotal(a[1..], b[1..]);
        if a[1..] == b[1..] { assert a == [a[0]] + a[1..] == b; }
      } else {
        BeforeTotal(a[1..], a[1..]);
      }
    }
  }

  lemma {:induction false} BeforeTransitive(a: string, b: string, c: string)
    requires Before(a, b) && Before(b, c)
    ensures Before(a, c)
  {
    if a != "" && b != "" && c != "" && a[0] == b[0] == c[0] {
      BeforeTransitive(a[1..], b[1..], c[1..]);
    }
  }

  lemma BeforeIsOrder()
    ensures StrictTotalOrder(Before)
  {
    forall a, b
      ensures !Before(a, a) && (a == b || Before(a, b) || Before(b, a))
    {
      BeforeTotal(a, b);
    }
    forall a, b, c | Before(a, b) && Before(b, c)
      ensures Before(a, c)
    {
      BeforeTransitive(a, b, c);
    }
  }

  // ---- The sorted keys of a map -------------------------------------------------------------

  lemma {:induction false} Enumerate(keys: set<string>) returns (ks: seq<string>)
    ensures Distinct(ks) && Elements(ks) == keys
    decreases |keys|
  {
    ks := [];
    if keys != {} {
      var k :| k in keys;
      ks := Enumerate(keys - {k});
      AppendElement(ks, k);
      ks := ks + [k];
    }
  }

  ghost predicate AreSortedKeys(ks: seq<string>, keys: set<string>) {
    Increasing(Before, ks) && Elements(ks) == keys
  }

  lemma SortedKeysExist(keys: set<string>)
    ensures exists ks :: AreSortedKeys(ks, keys)
  {
    var ks := Enumerate(keys);
    BeforeIsOrder();
    SortSorts(Before, ks);
    assert AreSortedKeys(Sort(Before, ks), keys);
  }

  // The keys in increasing order; by IncreasingUnique there is one such list.
  ghost function SortedKeys(keys: set<string>): (ks: seq<string>)
    ensures AreSortedKeys(ks, keys)
  {
    SortedKeysExist(keys);
    var ks :| AreSortedKeys(ks, keys);
    ks
  }

  lemma SortedKeysUnique(ks: seq<string>, keys: set<string>)
    requires AreSortedKeys(ks, keys)
    ensures ks == SortedKeys(keys)
  {
    BeforeIsOrder();
    var other := SortedKeys(keys);
    assert forall x :: x in ks <==> x in Elements(ks);
    assert forall x :: x in other <==> x in Elements(other);
    IncreasingUnique(Before, ks, other);
  }

  // The keys come out of the map in any order, and are then sorted.
  method OrderedKeys<V>(m: map<string, V>) returns (keys: seq<string>)
    ensures keys == SortedKeys(m.Keys)
    ensures Elements(keys) == m.Keys
    ensures forall i, j :: 0 <= i < j < |keys| ==> Precedes(keys[i], keys[j])
  {
    keys := [];
    var left := m.Keys;
    while left != {}
      invariant left <= m.Keys
      invariant Distinct(keys) && Elements(keys) == m.Keys - left
      decreases |left|
    {
      var k :| k in left;
      AppendElement(keys, k);
      keys := keys + [k];
      left := left - {k};
    }
    BeforeIsOrder();
    SortSorts(Before, keys);
    keys := Sort(Before, keys);
    SortedKeysUnique(keys, m.Keys);
    forall i, j | 0 <= i < j < |keys|
      ensures Precedes(keys[i], keys[j])
    {
      BeforeMeans(keys[i], keys[j]);
    }
  }
}

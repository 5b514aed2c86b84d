// Paginated collections: the request parameters and links of lib/chainlink/core/web/api.go, and the
// slicing of lib/chainlink/core/chains/config_v2.go.  Integers are Go's 64-bit int, with wrap-around.
module Pagination {
  import opened Basics
  import opened Decimals

  const PAGINATION_DEFAULT := 25

  predicate IsInt64(i: int) { 0 - TWO_63 <= i < TWO_63 }

  // The result of an int operation whose exact value is i.
  function Wrap(i: int): (w: int)
    ensures IsInt64(w)
    ensures IsInt64(i) ==> w == i
    ensures (i - w) % TWO_64 == 0
  {
    (i + TWO_63) % TWO_64 - TWO_63
  }

  function Atoi(s: string): Option<int> {
    match ParseInteger(s)
    case Some(i) => if IsInt64(i) then Some(i) else None
    case None => None
  }

  // A parameter that must be at least one.
  function Param(s: string, default: int): Option<int> {
    if s == "" then Some(default)
    else match Atoi(s)
         case Some(i) => if i < 1 then None else Some(i)
         case None => None
  }

  // Size, page and offset.
  function ParsePaginatedRequest(sizeParam: string, pageParam: string): Option<(int, int, int)> {
    match (Param(sizeParam, PAGINATION_DEFAULT), Param(pageParam, 1))
    case (Some(size), Some(page)) => Some((size, page, Wrap((page - 1) * size)))
    case _ => None
  }

  // The query of a link; the rest of the URL does not change.
  datatype Link = Link(size: string, page: string)

  function LinkTo(size: int, page: int): Link { Link(Integer(size), Integer(page)) }

  const NEXT := "next"
  const PREV := "prev"

  predicate HasNext(size: int, page: int, count: int) { count > size && Wrap(page * size) < count }
  predicate HasPrev(size: int, page: int, count: int) { count > size && page > 1 }

  method PaginatedLinks(size: int, page: int, count: int) returns (links: map<string, Link>)
    ensures (NEXT in links <==> HasNext(size, page, count)) && (PREV in links <==> HasPrev(size, page, count))
    ensures NEXT in links ==> links[NEXT] == LinkTo(size, Wrap(page + 1))
    ensures PREV in links ==> links[PREV] == LinkTo(size, Wrap(page - 1))
    ensures "next" in links <==> count > size && Wrap(page * size) < count
    ensures "prev" in links <==> count > size && page > 1
    ensures forall k :: k in links ==> k == "next" || k == "prev"
  {
    links := map[];
    if count > size {
      if Wrap(page * size) < count {
        links := links[NEXT := LinkTo(size, Wrap(page + 1))];
      }
      if page > 1 {
        links := links[PREV := LinkTo(size, Wrap(page - 1))];
      }
    }
  }

  datatype Slice<T> = Items(items: seq<T>, count: nat) | Panic

  // Chains and NodeStatusesPaged.  A negative offset is a slice bound out of range.
  function Paged<T>(all: seq<T>, offset: int, limit: int): Slice<T> {
    if offset < |all| && offset < 0 then Panic
    else
      var rest := if offset < |all| then all[offset..] else [];
      Items(if limit > 0 && |rest| > limit then rest[..limit] else rest, |all|)
  }

  // ---- Following links ----------------------------------------------------------------------

  // Following a link asks for exactly the page it was made for.
  lemma LinkRoundTrip(size: int, page: int)
    requires 1 <= size < TWO_63 && 1 <= page < TWO_63
    ensures var link := LinkTo(size, page);
            ParsePaginatedRequest(link.size, link.page) == Some((size, page, Wrap((page - 1) * size)))
  {
    IntegerRoundTrip(size);
    IntegerRoundTrip(page);
    assert Integer(size) != "" && Integer(page) != "";
  }

  // Which requests are accepted: the parameters are numbers from 1 to 2^63 - 1, and a missing one
  // means 25 for the size and 1 for the page.
  lemma RequestsAccepted(size: int, page: int)
    ensures ParsePaginatedRequest("", "") == Some((25, 1, 0))
    ensures ParsePaginatedRequest(Integer(size), "") == if 1 <= size < TWO_63 then Some((size, 1, 0)) else None
    ensures ParsePaginatedRequest("", Integer(page))
         == if 1 <= page < TWO_63 then Some((25, page, Wrap((page - 1) * 25))) else None
    ensures ParsePaginatedRequest(Integer(size), Integer(page))
         == if 1 <= size < TWO_63 && 1 <= page < TWO_63 then Some((size, page, Wrap((page - 1) * size))) else None
  {
    hide ParseInteger, Wrap;
    IntegerRoundTrip(size);
    IntegerRoundTrip(page);
    assert Integer(size) != "" && Integer(page) != "";
    assert Wrap(0) == 0;
    assert (1 - 1) * size == 0;
  }

  lemma OnlyNumbersAccepted(sizeParam: string, pageParam: string)
    requires (sizeParam != "" && ParseInteger(sizeParam).None?) || (pageParam != "" && ParseInteger(pageParam).None?)
    ensures ParsePaginatedRequest(sizeParam, pageParam) == None
  {
    hide ParseInteger;
  }

  // A limit of zero or less is no limit.
  lemma UnlimitedPage<T>(all: seq<T>, offset: nat, limit: int)
    requires limit <= 0
    ensures Paged(all, offset, limit) == Items(if offset < |all| then all[offset..] else [], |all|)
  {
  }

  // The previous page of the next page is this page.
  lemma NextThenPrev(size: int, page: int, count: int)
    requires 1 <= page < TWO_63 - 1 && HasNext(size, page, count)
    ensures HasPrev(size, page + 1, count) && Wrap(Wrap(page + 1) - 1) == page
  {
  }

  // The slice that the request for a page returns.
  function PageOf<T>(all: seq<T>, size: int, page: int): Slice<T> {
    Paged(all, Wrap((page - 1) * size), size)
  }

  // The first k slices, one after the other.
  function FirstPages<T>(all: seq<T>, size: int, k: nat): seq<T> {
    if k == 0 then []
    else match PageOf(all, size, k)
         case Items(items, _) => FirstPages(all, size, k - 1) + items
         case Panic => FirstPages(all, size, k - 1)
  }

  // Starting at page 1, the next links lead through exactly the pages 1 to k, none of which panics.
  ghost predicate WalkEndsAt<T>(all: seq<T>, size: int, k: nat) {
    && k >= 1
    && (forall j :: 1 <= j < k ==> HasNext(size, j, |all|))
    && !HasNext(size, k, |all|)
    && forall j :: 1 <= j <= k ==> PageOf(all, size, j).Items?
  }

  // How many pages there are.
  function PageCount(count: nat, size: nat): nat
    requires size > 0
  {
    if count == 0 then 1 else (count + size - 1) / size
  }

  lemma PageCountBounds(count: nat, size: nat)
    requires size > 0
    ensures PageCount(count, size) >= 1
    ensures count > 0 ==> (PageCount(count, size) - 1) * size < count
    ensures count <= PageCount(count, size) * size < count + size || count == 0
  {
    if count > 0 {
      var k := PageCount(count, size);
      var r := (count + size - 1) % size;
      assert k * size + r == count + size - 1;
      assert (k - 1) * size == k * size - size;
      assert k == 0 ==> k * size == 0;
    }
  }

  lemma PagesGrow(j: nat, k: nat, size: nat)
    requires j <= k
    ensures j * size <= k * size
  {
  }

  function Min(a: int, b: int): int { if a < b then a else b }

  // What a page should hold.
  function RangeOf<T>(all: seq<T>, size: nat, page: nat): seq<T>
    requires page > 0
  {
    PagesGrow(page - 1, page, size);
    all[Min((page - 1) * size, |all|)..Min(page * size, |all|)]
  }

  // A page whose offset does not overflow holds it.
  lemma PageWithinInt<T>(all: seq<T>, size: nat, page: nat)
    requires size > 0 && page > 0 && (page - 1) * size < TWO_63
    ensures PageOf(all, size, page) == Items(RangeOf(all, size, page), |all|)
  {
    var offset := (page - 1) * size;
    assert page * size == offset + size;
  }

  // The exact condition, for every size and page that a request may ask for: the offset does not
  // overflow, or wraps to a number that is beyond the list as well.
  lemma PageItems<T>(all: seq<T>, size: nat, page: nat)
    requires 0 < size < TWO_63 && 0 < page < TWO_63 && |all| < TWO_63
    ensures PageOf(all, size, page) == Items(RangeOf(all, size, page), |all|)
        <==> (page - 1) * size < TWO_63 || Wrap((page - 1) * size) >= |all|
    ensures PageOf(all, size, page).Panic? <==> Wrap((page - 1) * size) < 0
  {
    var offset := (page - 1) * size;
    assert page * size == offset + size;
    if offset < TWO_63 {
      PageWithinInt(all, size, page);
    } else {
      assert RangeOf(all, size, page) == [];
    }
  }

  // Two requests that are accepted for every list: the first panics, the second, which should give
  // nothing, is answered with page 1.
  lemma HugePages<T>(all: seq<T>)
    requires |all| < TWO_63
    ensures ParsePaginatedRequest("4", Integer(0x2000_0000_0000_0001)) == Some((4, 0x2000_0000_0000_0001, 0 - TWO_63))
    ensures PageOf(all, 4, 0x2000_0000_0000_0001).Panic?
    ensures ParsePaginatedRequest("4", Integer(0x4000_0000_0000_0001)) == Some((4, 0x4000_0000_0000_0001, 0))
    ensures PageOf(all, 4, 0x4000_0000_0000_0001) == PageOf(all, 4, 1)
    ensures RangeOf(all, 4, 0x4000_0000_0000_0001) == []
  {
    hide Integer;
    LinkRoundTrip(4, 0x2000_0000_0000_0001);
    LinkRoundTrip(4, 0x4000_0000_0000_0001);
    FourIsItsText();
  }

  lemma FourIsItsText()
    ensures Integer(4) == "4"
  {
  }

  // As long as the offsets do not overflow, the first k slices are the first k * size elements.
  lemma {:induction false} FirstPagesAre<T>(all: seq<T>, size: nat, k: nat)
    requires size > 0 && (k == 0 || (k - 1) * size < TWO_63)
    ensures FirstPages(all, size, k) == all[..Min(k * size, |all|)]
  {
    if k > 0 {
      if k > 1 { PagesGrow(k - 2, k - 1, size); }
      FirstPagesAre(all, size, k - 1);
      PageWithinInt(all, size, k);
      PagesGrow(k - 1, k, size);
    } else {
      assert k * size == 0;
    }
  }

  // Before the last page there is a next link; on the last page there is none, unless the product
  // of page and size overflows.
  lemma NextLinks(count: nat, size: nat, j: nat)
    requires 0 < size < TWO_63 && count < TWO_63 && 1 <= j <= PageCount(count, size)
    ensures j < PageCount(count, size) ==> HasNext(size, j, count) && j * size < TWO_63
    ensures j == PageCount(count, size) ==>
              (HasNext(size, j, count) <==> PageCount(count, size) * size >= TWO_63 && count > size)
  {
    var k := PageCount(count, size);
    PageCountBounds(count, size);
    if j < k {
      PagesGrow(j, k - 1, size);
      PagesGrow(1, j, size);
    } else if count > size {
      assert 0 <= k * size < count + size;
    }
  }

  // If the last page fits, following the next links from page 1 ends at the last page, and the
  // slices on the way are the whole list, without gaps or repetitions.
  lemma WalkPartitions<T>(all: seq<T>, size: nat)
    requires 0 < size < TWO_63 && |all| < TWO_63
    requires PageCount(|all|, size) * size < TWO_63
    ensures WalkEndsAt(all, size, PageCount(|all|, size))
    ensures FirstPages(all, size, PageCount(|all|, size)) == all
  {
    var k := PageCount(|all|, size);
    PageCountBounds(|all|, size);
    forall j | 1 <= j <= k
      ensures j < k ==> HasNext(size, j, |all|)
      ensures PageOf(all, size, j).Items?
    {
      NextLinks(|all|, size, j);
      PagesGrow(j - 1, k, size);
      PageWithinInt(all, size, j);
    }
    NextLinks(|all|, size, k);
    PagesGrow(k - 1, k, size);
    FirstPagesAre(all, size, k);
  }

  // Otherwise the last page still has a next link, and the page behind it has a negative offset.
  lemma WalkOverflows<T>(all: seq<T>, size: nat)
    requires 0 < size < TWO_63 && |all| < TWO_63
    requires PageCount(|all|, size) * size >= TWO_63
    ensures forall j :: 1 <= j <= PageCount(|all|, size) ==> HasNext(size, j, |all|)
    ensures PageOf(all, size, PageCount(|all|, size) + 1).Panic?
  {
    var k := PageCount(|all|, size);
    PageCountBounds(|all|, size);
    LastPageBeyond(|all|, size);
    forall j | 1 <= j <= k
      ensures HasNext(size, j, |all|)
    {
      NextLinks(|all|, size, j);
    }
    assert Wrap(k * size) < 0;
  }

  lemma OnePage(count: nat, size: nat)
    requires size > 0
    ensures count <= size ==> PageCount(count, size) * size == size
  {
    if 0 < count <= size {
      PageCountBounds(count, size);
      var k := PageCount(count, size);
      assert k >= 2 ==> (k - 1) * size >= size;
    }
  }

  lemma LastPageBeyond(count: nat, size: nat)
    requires 0 < size < TWO_63 && count < TWO_63 && PageCount(count, size) * size >= TWO_63
    ensures count > size && PageCount(count, size) * size < TWO_64
  {
    PageCountBounds(count, size);
    OnePage(count, size);
  }

  // The walk ends, on some page, exactly when the list rounded up to whole pages has fewer than
  // 2^63 elements; it is then the partition of WalkPartitions.
  lemma WalkEndsIffLastPageFits<T>(all: seq<T>, size: nat)
    requires 0 < size < TWO_63 && |all| < TWO_63
    ensures (exists k: nat :: WalkEndsAt(all, size, k)) <==> PageCount(|all|, size) * size < TWO_63
  {
    if PageCount(|all|, size) * size < TWO_63 {
      WalkPartitions(all, size);
    } else {
      WalkOverflows(all, size);
      var last := PageCount(|all|, size);
      forall k: nat
        ensures !WalkEndsAt(all, size, k)
      {
        if k > last {
          assert 1 <= last + 1 <= k;
        }
      }
    }
  }
}

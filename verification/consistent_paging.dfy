/**
 `Util.getItemsOrderByModifiedAtConsistently`: one page of a collection ordered
 by modification time that never splits a group of equal timestamps across
 the page boundary. The element type is generic; `at` reads `modifiedAt`.
 */
module ConsistentPaging {
  import opened Lists

  datatype ListWithHasNext<T> = ListWithHasNext(items: seq<T>, hasNext: bool)

  /** The test `it.modifiedAt > since`. */
  function ModifiedAfter<T>(at: T -> int, since: int): T -> bool {
    x => at(x) > since
  }

  /** The test `it.modifiedAt == t`. */
  function ModifiedAt<T>(at: T -> int, t: int): T -> bool {
    x => at(x) == t
  }

  /** The elements of `all` modified strictly after `since`, in their original order. */
  function Candidates<T>(all: seq<T>, at: T -> int, since: int): (r: seq<T>)
    ensures forall i :: 0 <= i < |r| ==> r[i] in all && at(r[i]) > since
    ensures forall i :: 0 <= i < |all| && at(all[i]) > since ==> all[i] in r
  {
    Filter(all, ModifiedAfter(at, since))
  }

  /** In a strictly increasing sequence the elements after the `n`-th one's time are those from position `n` on. */
  lemma AfterPositionOfStrict<T>(s: seq<T>, at: T -> int, n: nat)
    requires StrictlySortedBy(s, at)
    requires 0 < n <= |s|
    ensures Candidates(s, at, at(s[n - 1])) == s[n..]
  {
    FilterSplit(s, ModifiedAfter(at, at(s[n - 1])), n);
  }

  /** The pending elements of a sorted copy of `all` are exactly the pending elements of `all`. */
  lemma CandidatesOfSortBy<T>(all: seq<T>, at: T -> int, since: int)
    ensures var c := Candidates(SortBy(all, at), at, since);
      && (forall i :: 0 <= i < |c| ==> c[i] in all && at(c[i]) > since)
      && (forall x :: x in all && at(x) > since ==> x in c)
  {
    var sorted := SortBy(all, at);
    var c := Candidates(sorted, at, since);
    forall i | 0 <= i < |c| ensures c[i] in all {
      InMultiset(c[i], sorted, all);
    }
    forall x | x in all && at(x) > since ensures x in c {
      InMultiset(x, sorted, all);
      var j :| 0 <= j < |sorted| && sorted[j] == x;
    }
  }

  /**
   When the pending elements are strictly increasing in `at`, those pending
   after the `n`-th of them are exactly the ones from position `n` on.
   */
  lemma CandidatesAfterPosition<T>(all: seq<T>, at: T -> int, since: int, n: nat)
    requires StrictlySortedBy(Candidates(all, at, since), at)
    requires 0 < n <= |Candidates(all, at, since)|
    ensures Candidates(all, at, at(Candidates(all, at, since)[n - 1])) == Candidates(all, at, since)[n..]
  {
    var c := Candidates(all, at, since);
    var k := at(c[n - 1]);
    FilterFilter(all, ModifiedAfter(at, since), ModifiedAfter(at, k), ModifiedAfter(at, k));
    FilterSplit(c, ModifiedAfter(at, k), n);
  }

  /** Every element of `all` modified in `(since, upTo]` is on the page `items`. */
  ghost predicate NoneSkipped<T>(all: seq<T>, at: T -> int, since: int, upTo: int, items: seq<T>) {
    forall i :: 0 <= i < |all| && since < at(all[i]) <= upTo ==> all[i] in items
  }

  /** Some element of `all` is modified strictly after `t`. */
  predicate SomeLater<T>(all: seq<T>, at: T -> int, t: int) {
    exists i :: 0 <= i < |all| && at(all[i]) > t
  }

  /** A position in `all` of an element modified after `t`. */
  lemma LaterIndex<T>(all: seq<T>, at: T -> int, t: int) returns (i: nat)
    requires SomeLater(all, at, t)
    ensures i < |all| && at(all[i]) > t
  {
    i :| 0 <= i < |all| && at(all[i]) > t;
  }

  /** The page holds only pending elements of `all`, in modification order. */
  ghost predicate PendingInOrder<T>(all: seq<T>, at: T -> int, since: int, items: seq<T>) {
    && (forall i :: 0 <= i < |items| ==> items[i] in all && at(items[i]) > since)
    && SortedBy(items, at)
  }

  /**
   Nothing up to the page's last timestamp is left for a later page, and
   there is a next page exactly when something is newer than that timestamp.
   */
  ghost predicate NoSplit<T>(all: seq<T>, at: T -> int, since: int, r: ListWithHasNext<T>) {
    && (|r.items| == 0 <==> |Candidates(all, at, since)| == 0)
    && (|r.items| > 0 ==> NoneSkipped(all, at, since, at(Last(r.items)), r.items))
    && (r.hasNext <==> |r.items| > 0 && SomeLater(all, at, at(Last(r.items))))
  }

  /**
   How the page size relates to `limit`: few pending elements come all at
   once; otherwise the `limit` earliest, unless the elements at positions
   `limit` and `limit + 1` tie, in which case the page outgrows the limit.
   */
  ghost predicate SizedByBoundary<T>(all: seq<T>, at: T -> int, since: int, limit: nat, items: seq<T>) {
    var c := Candidates(all, at, since);
    var s := SortBy(c, at);
    && (|c| <= limit ==> multiset(items) == multiset(c))
    && (0 < limit < |s| && at(s[limit - 1]) != at(s[limit]) ==> items == s[..limit])
    && (0 < limit < |s| && at(s[limit - 1]) == at(s[limit]) ==> |items| > limit)
  }

  /**
   What a page of `all` after `since` promises, independently of how it is
   computed.
   */
  ghost predicate ConsistentPage<T>(all: seq<T>, at: T -> int, since: int, limit: nat, r: ListWithHasNext<T>) {
    && PendingInOrder(all, at, since, r.items)
    && NoSplit(all, at, since, r)
    && SizedByBoundary(all, at, since, limit, r.items)
  }

  /**
   The page of `all` after `modifiedSince`: at most `limit` elements in
   modification order, except that a tie at the boundary pulls in every
   element with the boundary timestamp. A `limit` of zero only works when
   nothing is pending (otherwise the Kotlin code indexes position -1).
   */
  function ItemsOrderByModifiedAtConsistently<T(==)>(all: seq<T>, at: T -> int, modifiedSince: int, limit: nat)
    : (r: ListWithHasNext<T>)
    requires limit > 0 || |Candidates(all, at, modifiedSince)| == 0
    ensures ConsistentPage(all, at, modifiedSince, limit, r)
  {
    PageConsistent(all, at, modifiedSince, limit);
    PageByModifiedAt(all, at, modifiedSince, limit)
  }

  /** The computation of the page, step by step as the Kotlin code does it. */
  function PageByModifiedAt<T(==)>(all: seq<T>, at: T -> int, modifiedSince: int, limit: nat): ListWithHasNext<T>
    requires limit > 0 || |Candidates(all, at, modifiedSince)| == 0
  {
    var candidates := Candidates(all, at, modifiedSince);
    var sorted := SortBy(candidates, at);
    var resultItems := Take(sorted, limit + 1);
    if |resultItems| <= limit then
      ListWithHasNext(resultItems, false)
    else
      var last := resultItems[limit - 1];
      var nextOfLast := resultItems[limit];
      if at(last) != at(nextOfLast) then
        ListWithHasNext(Take(resultItems, limit), true)
      else
        var itemsWithSameModifiedAt := Filter(all, ModifiedAt(at, at(last)));
        var hasNext := SomeLater(all, at, at(last));
        ListWithHasNext(DropLast(resultItems, 2) + itemsWithSameModifiedAt, hasNext)
  }

  /**
   A tie that reaches back past the last position of the page repeats an
   element: when the elements at positions `limit - 1` to `limit + 1` of the
   sorted candidates share a timestamp, `dropLast(2)` keeps the first of them
   on the page and the tie group brings it again. Three elements `x`, `y`,
   `z` at one time with a limit of 2 give `[x, x, y, z]`.
   */
  lemma TieRepeats<T>(all: seq<T>, at: T -> int, since: int, limit: nat)
    requires limit > 1
    requires limit < |SortBy(Candidates(all, at, since), at)|
    requires var s := SortBy(Candidates(all, at, since), at); at(s[limit - 2]) == at(s[limit])
    ensures var s := SortBy(Candidates(all, at, since), at);
      var items := ItemsOrderByModifiedAtConsistently(all, at, since, limit).items;
      && |items| > limit - 1 && items[limit - 2] == s[limit - 2]
      && s[limit - 2] in items[limit - 1..]
  {
    var s := SortBy(Candidates(all, at, since), at);
    var b := at(s[limit - 1]);
    SortedOrder(s, at, limit - 2, limit - 1);
    SortedOrder(s, at, limit - 1, limit);
    TieItems(all, at, since, limit);
    var x := s[limit - 2];
    var same := Filter(all, ModifiedAt(at, b));
    assert x in same by {
      SortedCandidates(all, at, since, s);
      FilterMember(all, ModifiedAt(at, b), x);
    }
    var j := IndexOf(same, x);
    var items := s[..limit - 1] + same;
    assert items[limit - 1..][j] == x;
  }

  /** In the tie case the page is the sorted candidates before the boundary element, then its whole tie group. */
  lemma TieItems<T>(all: seq<T>, at: T -> int, since: int, limit: nat)
    requires 0 < limit < |SortBy(Candidates(all, at, since), at)|
    requires var s := SortBy(Candidates(all, at, since), at); at(s[limit - 1]) == at(s[limit])
    ensures var s := SortBy(Candidates(all, at, since), at);
      ItemsOrderByModifiedAtConsistently(all, at, since, limit).items
        == s[..limit - 1] + Filter(all, ModifiedAt(at, at(s[limit - 1])))
  {
    var s := SortBy(Candidates(all, at, since), at);
    assert DropLast(Take(s, limit + 1), 2) == s[..limit - 1];
  }

  /** Each of the three ways of cutting the page keeps the promise. */
  lemma PageConsistent<T>(all: seq<T>, at: T -> int, since: int, limit: nat)
    requires limit > 0 || |Candidates(all, at, since)| == 0
    ensures ConsistentPage(all, at, since, limit, PageByModifiedAt(all, at, since, limit))
  {
    var sorted := SortBy(Candidates(all, at, since), at);
    var resultItems := Take(sorted, limit + 1);
    if |resultItems| <= limit {
      ShortPage(all, at, since, limit, sorted);
    } else if at(resultItems[limit - 1]) != at(resultItems[limit]) {
      BoundaryPage(all, at, since, limit, sorted);
    } else {
      TiePage(all, at, since, limit, sorted, SomeLater(all, at, at(resultItems[limit - 1])));
    }
  }

  /** The pending elements, sorted, are exactly the pending elements of `all`. */
  lemma SortedCandidates<T>(all: seq<T>, at: T -> int, since: int, sorted: seq<T>)
    requires sorted == SortBy(Candidates(all, at, since), at)
    ensures forall i :: 0 <= i < |sorted| ==> sorted[i] in all && at(sorted[i]) > since
    ensures forall i :: 0 <= i < |all| && at(all[i]) > since ==> all[i] in sorted
  {
    var c := Candidates(all, at, since);
    forall i | 0 <= i < |sorted| ensures sorted[i] in all && at(sorted[i]) > since {
      InMultiset(sorted[i], sorted, c);
      var j :| 0 <= j < |c| && c[j] == sorted[i];
    }
    forall i | 0 <= i < |all| && at(all[i]) > since ensures all[i] in sorted {
      InMultiset(all[i], sorted, c);
    }
  }

  lemma ShortPage<T>(all: seq<T>, at: T -> int, since: int, limit: nat, sorted: seq<T>)
    requires sorted == SortBy(Candidates(all, at, since), at)
    requires |sorted| <= limit
    ensures ConsistentPage(all, at, since, limit, ListWithHasNext(Take(sorted, limit + 1), false))
  {
    assert Take(sorted, limit + 1) == sorted;
    ShortNoSplit(all, at, since, sorted);
    SortedCandidates(all, at, since, sorted);
    assert SizedByBoundary(all, at, since, limit, sorted);
  }

  lemma ShortNoSplit<T>(all: seq<T>, at: T -> int, since: int, sorted: seq<T>)
    requires sorted == SortBy(Candidates(all, at, since), at)
    ensures NoSplit(all, at, since, ListWithHasNext(sorted, false))
  {
    SortedCandidates(all, at, since, sorted);
    if |sorted| > 0 {
      assert Last(sorted) == sorted[|sorted| - 1];
      NoneLaterThanLast(all, at, since, sorted);
    }
  }

  lemma BoundaryPage<T>(all: seq<T>, at: T -> int, since: int, limit: nat, sorted: seq<T>)
    requires sorted == SortBy(Candidates(all, at, since), at)
    requires 0 < limit < |sorted|
    requires at(sorted[limit - 1]) != at(sorted[limit])
    ensures ConsistentPage(all, at, since, limit, ListWithHasNext(Take(Take(sorted, limit + 1), limit), true))
  {
    var items := sorted[..limit];
    assert Take(Take(sorted, limit + 1), limit) == items;
    BoundaryPending(all, at, since, limit, sorted);
    BoundaryNoSplit(all, at, since, limit, sorted);
    assert SizedByBoundary(all, at, since, limit, items);
  }

  lemma BoundaryPending<T>(all: seq<T>, at: T -> int, since: int, limit: nat, sorted: seq<T>)
    requires sorted == SortBy(Candidates(all, at, since), at)
    requires 0 < limit < |sorted|
    ensures PendingInOrder(all, at, since, sorted[..limit])
  {
    var items := sorted[..limit];
    SortedCandidates(all, at, since, sorted);
    SortedSlice(sorted, at, 0, limit);
    forall i | 0 <= i < |items| ensures items[i] in all && at(items[i]) > since {
      assert items[i] == sorted[i];
    }
  }

  lemma BoundaryNoSplit<T>(all: seq<T>, at: T -> int, since: int, limit: nat, sorted: seq<T>)
    requires sorted == SortBy(Candidates(all, at, since), at)
    requires 0 < limit < |sorted|
    requires at(sorted[limit - 1]) != at(sorted[limit])
    ensures NoSplit(all, at, since, ListWithHasNext(sorted[..limit], true))
  {
    var items := sorted[..limit];
    assert Last(items) == sorted[limit - 1];
    SortedCandidates(all, at, since, sorted);
    assert OrderedAt(sorted, at, limit);
    forall i | 0 <= i < |all| && since < at(all[i]) <= at(sorted[limit - 1])
      ensures all[i] in items
    {
      BelowBoundaryInPrefix(sorted, at, limit, all[i]);
    }
    var j :| 0 <= j < |all| && all[j] == sorted[limit];
    assert at(all[j]) > at(sorted[limit - 1]);
  }

  lemma TiePage<T>(all: seq<T>, at: T -> int, since: int, limit: nat, sorted: seq<T>, hasNext: bool)
    requires sorted == SortBy(Candidates(all, at, since), at)
    requires 0 < limit < |sorted|
    requires at(sorted[limit - 1]) == at(sorted[limit])
    requires hasNext <==> SomeLater(all, at, at(sorted[limit - 1]))
    ensures var b := at(sorted[limit - 1]);
      ConsistentPage(all, at, since, limit,
        ListWithHasNext(DropLast(Take(sorted, limit + 1), 2) + Filter(all, ModifiedAt(at, b)), hasNext))
  {
    var b := at(sorted[limit - 1]);
    var same := Filter(all, ModifiedAt(at, b));
    var prefix := sorted[..limit - 1];
    assert DropLast(Take(sorted, limit + 1), 2) == prefix;
    TieGroupSize(all, at, since, limit, sorted);
    TiePending(all, at, since, limit, sorted);
    TieNoSplit(all, at, since, limit, sorted, hasNext);
    assert SizedByBoundary(all, at, since, limit, prefix + same);
  }

  lemma TiePending<T>(all: seq<T>, at: T -> int, since: int, limit: nat, sorted: seq<T>)
    requires sorted == SortBy(Candidates(all, at, since), at)
    requires 0 < limit < |sorted|
    ensures var b := at(sorted[limit - 1]);
      PendingInOrder(all, at, since, sorted[..limit - 1] + Filter(all, ModifiedAt(at, b)))
  {
    var b := at(sorted[limit - 1]);
    SortedCandidates(all, at, since, sorted);
    PrefixUpTo(all, at, since, sorted, limit - 1);
    SortedSlice(sorted, at, 0, limit - 1);
    AppendGroup(all, at, since, b, sorted[..limit - 1], Filter(all, ModifiedAt(at, b)));
  }

  /** The elements before position `n` of a sorted run of pending elements are pending up to the key at `n`. */
  lemma PrefixUpTo<T>(all: seq<T>, at: T -> int, since: int, sorted: seq<T>, n: nat)
    requires forall i :: 0 <= i < |sorted| ==> sorted[i] in all && at(sorted[i]) > since
    requires SortedBy(sorted, at)
    requires n < |sorted|
    ensures forall i :: 0 <= i < |sorted[..n]| ==> sorted[..n][i] in all && since < at(sorted[..n][i]) <= at(sorted[n])
  {
    var prefix := sorted[..n];
    forall i | 0 <= i < |prefix| ensures prefix[i] in all && since < at(prefix[i]) <= at(sorted[n]) {
      assert prefix[i] == sorted[i];
      SortedOrder(sorted, at, i, n);
    }
  }

  lemma TieNoSplit<T>(all: seq<T>, at: T -> int, since: int, limit: nat, sorted: seq<T>, hasNext: bool)
    requires sorted == SortBy(Candidates(all, at, since), at)
    requires 0 < limit < |sorted|
    requires hasNext <==> SomeLater(all, at, at(sorted[limit - 1]))
    ensures var b := at(sorted[limit - 1]);
      NoSplit(all, at, since, ListWithHasNext(sorted[..limit - 1] + Filter(all, ModifiedAt(at, b)), hasNext))
  {
    var b := at(sorted[limit - 1]);
    var same := Filter(all, ModifiedAt(at, b));
    var items := sorted[..limit - 1] + same;
    SortedCandidates(all, at, since, sorted);
    assert sorted[limit - 1] in same;
    assert Last(items) == same[|same| - 1];
    forall i | 0 <= i < |all| && since < at(all[i]) <= b
      ensures all[i] in items
    {
      if at(all[i]) < b {
        BelowBoundaryInPrefix(sorted, at, limit - 1, all[i]);
      } else {
        assert all[i] in same;
      }
    }
  }

  /** A sorted pending prefix followed by a group at a later timestamp `b` is pending and sorted. */
  lemma AppendGroup<T>(all: seq<T>, at: T -> int, since: int, b: int, prefix: seq<T>, same: seq<T>)
    requires forall i :: 0 <= i < |prefix| ==> prefix[i] in all && since < at(prefix[i]) <= b
    requires SortedBy(prefix, at)
    requires forall i :: 0 <= i < |same| ==> same[i] in all && at(same[i]) == b
    requires b > since
    ensures PendingInOrder(all, at, since, prefix + same)
  {
    var items := prefix + same;
    forall i | 0 <= i < |items| ensures items[i] in all && at(items[i]) > since {
      if i < |prefix| {
        assert items[i] == prefix[i];
      } else {
        assert items[i] == same[i - |prefix|];
      }
    }
    assert SortedBy(same, at);
    AppendSorted(prefix, same, at);
  }

  /** Both tied boundary elements, and any copies of them, reappear in the appended group. */
  lemma TieGroupSize<T>(all: seq<T>, at: T -> int, since: int, limit: nat, sorted: seq<T>)
    requires sorted == SortBy(Candidates(all, at, since), at)
    requires 0 < limit < |sorted|
    requires at(sorted[limit - 1]) == at(sorted[limit])
    ensures |Filter(all, ModifiedAt(at, at(sorted[limit - 1])))| >= 2
  {
    var b := at(sorted[limit - 1]);
    var q := ModifiedAt(at, b);
    TwoTied(sorted, q, limit);
    assert b > since by {
      SortedCandidates(all, at, since, sorted);
    }
    TiedAreAllTied(all, at, since, b, sorted);
    SubMultisetSize(multiset(Filter(sorted, q)), multiset(Filter(all, q)));
  }

  lemma TwoTied<T>(sorted: seq<T>, q: T -> bool, limit: nat)
    requires 0 < limit < |sorted|
    requires q(sorted[limit - 1]) && q(sorted[limit])
    ensures |Filter(sorted, q)| >= 2
  {
    var pair := [sorted[limit - 1], sorted[limit]];
    assert sorted == sorted[..limit - 1] + pair + sorted[limit + 1..];
    FilterAppend(sorted[..limit - 1] + pair, sorted[limit + 1..], q);
    FilterAppend(sorted[..limit - 1], pair, q);
    assert pair[1..] == [sorted[limit]];
    assert Filter(pair, q) == pair;
  }

  /** Each pending element with timestamp `b` occurs in `all` with that timestamp at least as often. */
  lemma TiedAreAllTied<T>(all: seq<T>, at: T -> int, since: int, b: int, sorted: seq<T>)
    requires sorted == SortBy(Candidates(all, at, since), at)
    requires b > since
    ensures multiset(Filter(sorted, ModifiedAt(at, b))) <= multiset(Filter(all, ModifiedAt(at, b)))
  {
    var q := ModifiedAt(at, b);
    var c := Candidates(all, at, since);
    FilterMultiset(sorted, q);
    FilterMultiset(all, q);
    FilterMultiset(all, ModifiedAfter(at, since));
    forall v ensures multiset(Filter(sorted, q))[v] <= multiset(Filter(all, q))[v] {
      assert multiset(sorted)[v] == multiset(c)[v];
    }
  }

  lemma SubMultisetSize<T>(a: multiset<T>, b: multiset<T>)
    requires a <= b
    ensures |a| <= |b|
  {
    assert b == a + (b - a);
  }

  /**
   A client walking the pages of an unchanging `all`: start after `since`,
   and while a page says there is more, continue after the timestamp of its
   last element.
   */
  function Scan<T(==)>(all: seq<T>, at: T -> int, since: int, limit: nat): (r: seq<T>)
    requires limit > 0
    decreases |Candidates(all, at, since)|
  {
    var page := ItemsOrderByModifiedAtConsistently(all, at, since, limit);
    if page.hasNext then
      var t := at(Last(page.items));
      CandidatesShrink(all, at, since, t, Last(page.items));
      page.items + Scan(all, at, t, limit)
    else
      page.items
  }

  /** Raising the `since` bound past an element's timestamp loses at least that element. */
  lemma {:induction false} CandidatesShrink<T>(all: seq<T>, at: T -> int, s: int, t: int, x: T)
    requires s <= t
    ensures |Candidates(all, at, t)| <= |Candidates(all, at, s)|
    ensures x in all && s < at(x) <= t ==> |Candidates(all, at, t)| < |Candidates(all, at, s)|
    decreases |all|
  {
    if |all| > 0 {
      CandidatesShrink(all[1..], at, s, t, x);
      assert all == [all[0]] + all[1..];
      assert x in all ==> x == all[0] || x in all[1..];
    }
  }

  /**
   On an unchanging collection the walk delivers every element modified
   after `since` and nothing else (elements of a boundary tie may come twice).
   */
  lemma {:induction false} ScanCovers<T>(all: seq<T>, at: T -> int, since: int, limit: nat)
    requires limit > 0
    ensures forall x :: x in all && at(x) > since ==> x in Scan(all, at, since, limit)
    ensures forall x :: x in Scan(all, at, since, limit) ==> x in all && at(x) > since
    decreases |Candidates(all, at, since)|
  {
    var page := ItemsOrderByModifiedAtConsistently(all, at, since, limit);
    var r := Scan(all, at, since, limit);
    if page.hasNext {
      var t := at(Last(page.items));
      CandidatesShrink(all, at, since, t, Last(page.items));
      ScanCovers(all, at, t, limit);
      var rest := Scan(all, at, t, limit);
      assert r == page.items + rest;
      forall x | x in r ensures x in all && at(x) > since {
        if x !in page.items {
          assert x in rest;
        }
      }
    } else {
      assert r == page.items;
      forall x | x in all && at(x) > since ensures x in r {
        var i :| 0 <= i < |all| && all[i] == x;
        assert x in Candidates(all, at, since);
      }
    }
  }

  /**
   What a consistent page delivers: with no next page, every pending
   element; with one, every pending element up to the last timestamp on the
   page, which lies after `since`.
   */
  lemma PageCovers<T>(all: seq<T>, at: T -> int, since: int, limit: nat, r: ListWithHasNext<T>)
    requires ConsistentPage(all, at, since, limit, r)
    ensures !r.hasNext ==> forall x :: x in all && at(x) > since ==> x in r.items
    ensures r.hasNext ==> |r.items| > 0 && at(Last(r.items)) > since
    ensures r.hasNext ==> forall x :: x in all && since < at(x) <= at(Last(r.items)) ==> x in r.items
  {
    forall x | x in all && at(x) > since && (!r.hasNext || at(x) <= at(Last(r.items))) ensures x in r.items {
      var i :| 0 <= i < |all| && all[i] == x;
      assert x in Candidates(all, at, since);
      assert at(all[i]) <= at(Last(r.items));
    }
    if r.hasNext {
      assert Last(r.items) in r.items;
    }
  }

  /**
   A page with a next one ends at a timestamp after `since`, holds everything
   pending up to that timestamp, and leaves fewer elements pending after it.
   */
  lemma PageStep<T>(all: seq<T>, at: T -> int, since: int, limit: nat, r: ListWithHasNext<T>)
    requires ConsistentPage(all, at, since, limit, r)
    requires r.hasNext
    ensures |r.items| > 0 && at(Last(r.items)) > since
    ensures |Candidates(all, at, at(Last(r.items)))| < |Candidates(all, at, since)|
    ensures forall x :: x in all && since < at(x) <= at(Last(r.items)) ==> x in r.items
  {
    PageCovers(all, at, since, limit, r);
    assert Last(r.items) in all by {
      assert r.items[|r.items| - 1] in all;
    }
    CandidatesShrink(all, at, since, at(Last(r.items)), Last(r.items));
  }

  /** When every pending element fits within `limit`, the page is the last one and holds them all. */
  lemma FitsOnOnePage<T>(all: seq<T>, at: T -> int, since: int, limit: nat, r: ListWithHasNext<T>)
    requires ConsistentPage(all, at, since, limit, r)
    requires |Candidates(all, at, since)| <= limit
    ensures !r.hasNext
    ensures forall x :: x in all && at(x) > since ==> x in r.items
  {
    var c := Candidates(all, at, since);
    assert multiset(r.items) == multiset(c);
    forall x | x in all && at(x) > since ensures x in r.items {
      var i :| 0 <= i < |all| && all[i] == x;
      assert x in multiset(c);
    }
    if |r.items| > 0 {
      assert at(Last(r.items)) > since by {
        assert Last(r.items) == r.items[|r.items| - 1];
      }
      NoneLaterThanLast(all, at, since, r.items);
    }
  }

  /** A sorted page holding every pending element leaves nothing newer than its last element. */
  lemma NoneLaterThanLast<T>(all: seq<T>, at: T -> int, since: int, items: seq<T>)
    requires SortedBy(items, at)
    requires |items| > 0 && at(Last(items)) > since
    requires forall x :: x in all && at(x) > since ==> x in items
    ensures !SomeLater(all, at, at(Last(items)))
  {
    var n := |items| - 1;
    forall i | 0 <= i < |all| ensures at(all[i]) <= at(items[n]) {
      if at(all[i]) > since {
        var j :| 0 <= j < |items| && items[j] == all[i];
        SortedOrder(items, at, j, n);
      }
    }
  }

  /**
   `all` is in modification order, wholly modified after `since`, and its
   elements at positions `limit - 1` and `limit` have different timestamps.
   */
  ghost predicate CutBetween<T>(all: seq<T>, at: T -> int, since: int, limit: nat) {
    && SortedBy(all, at)
    && (forall i :: 0 <= i < |all| ==> at(all[i]) > since)
    && 0 < limit < |all| && at(all[limit - 1]) != at(all[limit])
  }

  /**
   When everything in `all` is pending and already in modification order, a
   page whose boundary falls between two different timestamps is the first
   `limit` elements.
   */
  lemma PrefixPage<T>(all: seq<T>, at: T -> int, since: int, limit: nat, r: ListWithHasNext<T>)
    requires ConsistentPage(all, at, since, limit, r)
    requires CutBetween(all, at, since, limit)
    ensures r.items == all[..limit]
  {
    FilterAll(all, ModifiedAfter(at, since));
    SortByOfSorted(all, at);
  }

  /** The test `it.modifiedAt <= t`. */
  function ModifiedBy<T>(at: T -> int, t: int): T -> bool {
    x => at(x) <= t
  }

  /** The test `since < it.modifiedAt <= t`. */
  function ModifiedWithin<T>(at: T -> int, since: int, t: int): T -> bool {
    x => since < at(x) <= t
  }

  /**
   A page of at least `limit` pending elements ends at the timestamp of the
   `limit`-th earliest of them, whichever of the three cases applies.
   */
  lemma PageEnd<T>(all: seq<T>, at: T -> int, since: int, limit: nat)
    requires limit > 0
    requires |Candidates(all, at, since)| >= limit
    ensures var r := ItemsOrderByModifiedAtConsistently(all, at, since, limit);
      var s := SortBy(Candidates(all, at, since), at);
      |r.items| > 0 && at(Last(r.items)) == at(s[limit - 1])
  {
    var s := SortBy(Candidates(all, at, since), at);
    if |s| == limit {
      ShortEnd(all, at, since, limit, s);
    } else if at(s[limit - 1]) != at(s[limit]) {
      BoundaryEnd(all, at, since, limit, s);
    } else {
      TieEnd(all, at, since, limit, s);
    }
  }

  lemma ShortEnd<T>(all: seq<T>, at: T -> int, since: int, limit: nat, s: seq<T>)
    requires s == SortBy(Candidates(all, at, since), at)
    requires 0 < limit == |s|
    ensures var r := ItemsOrderByModifiedAtConsistently(all, at, since, limit);
      |r.items| > 0 && Last(r.items) == s[limit - 1]
  {
    assert Take(s, limit + 1) == s;
  }

  lemma BoundaryEnd<T>(all: seq<T>, at: T -> int, since: int, limit: nat, s: seq<T>)
    requires s == SortBy(Candidates(all, at, since), at)
    requires 0 < limit < |s| && at(s[limit - 1]) != at(s[limit])
    ensures var r := ItemsOrderByModifiedAtConsistently(all, at, since, limit);
      |r.items| > 0 && Last(r.items) == s[limit - 1]
  {
    var resultItems := Take(s, limit + 1);
    assert resultItems[limit - 1] == s[limit - 1] && resultItems[limit] == s[limit];
    assert Take(resultItems, limit)[limit - 1] == s[limit - 1];
  }

  lemma TieEnd<T>(all: seq<T>, at: T -> int, since: int, limit: nat, s: seq<T>)
    requires s == SortBy(Candidates(all, at, since), at)
    requires 0 < limit < |s| && at(s[limit - 1]) == at(s[limit])
    ensures var r := ItemsOrderByModifiedAtConsistently(all, at, since, limit);
      |r.items| > 0 && at(Last(r.items)) == at(s[limit - 1])
  {
    var resultItems := Take(s, limit + 1);
    assert resultItems[limit - 1] == s[limit - 1] && resultItems[limit] == s[limit];
    SortedCandidates(all, at, since, s);
    TieGroupEnd(DropLast(resultItems, 2), all, at, s[limit - 1]);
  }

  /** A page ending in the group of elements tied with `x` ends at `x`'s timestamp. */
  lemma TieGroupEnd<T>(prefix: seq<T>, all: seq<T>, at: T -> int, x: T)
    requires x in all
    ensures var items := prefix + Filter(all, ModifiedAt(at, at(x)));
      |items| > 0 && at(Last(items)) == at(x)
  {
    var same := Filter(all, ModifiedAt(at, at(x)));
    var i :| 0 <= i < |all| && all[i] == x;
    assert x in same;
    assert Last(prefix + same) == same[|same| - 1];
  }

  /**
   When at least `limit` elements of `all` are modified in `(since, t]`,
   the page after `since` ends no later than `t`.
   */
  lemma PageEndsBy<T>(all: seq<T>, at: T -> int, since: int, limit: nat, t: int)
    requires limit > 0
    requires |Filter(all, ModifiedWithin(at, since, t))| >= limit
    ensures var r := ItemsOrderByModifiedAtConsistently(all, at, since, limit);
      |r.items| > 0 && at(Last(r.items)) <= t
  {
    var s := SortBy(Candidates(all, at, since), at);
    PendingByCount(all, at, since, t, s);
    NthBy(s, at, limit, t);
    PageEnd(all, at, since, limit);
  }

  /** The sorted pending elements hold as many elements modified by `t` as `all` holds in `(since, t]`. */
  lemma PendingByCount<T>(all: seq<T>, at: T -> int, since: int, t: int, s: seq<T>)
    requires s == SortBy(Candidates(all, at, since), at)
    ensures |Filter(s, ModifiedBy(at, t))| == |Filter(all, ModifiedWithin(at, since, t))|
  {
    var c := Candidates(all, at, since);
    FilterFilter(all, ModifiedAfter(at, since), ModifiedBy(at, t), ModifiedWithin(at, since, t));
    FilterSizeOfPermutation(s, c, ModifiedBy(at, t));
  }

  /** In a sorted sequence with `n` elements modified by `t`, the `n`-th is modified by `t`. */
  lemma NthBy<T>(s: seq<T>, at: T -> int, n: nat, t: int)
    requires SortedBy(s, at)
    requires 0 < n <= |Filter(s, ModifiedBy(at, t))|
    ensures n <= |s| && at(s[n - 1]) <= t
  {
    if at(s[n - 1]) > t {
      forall j | n - 1 <= j < |s| ensures !ModifiedBy(at, t)(s[j]) {
        SortedOrder(s, at, n - 1, j);
      }
      FilterPrefixBound(s, ModifiedBy(at, t), n - 1);
    }
  }

  /**
   A page of `part ++ rest` (or `rest ++ part`) ends no later than `t` when
   `part` alone holds `limit` elements modified in `(since, t]`.
   */
  lemma PageEndsWithin<T>(all: seq<T>, at: T -> int, since: int, limit: nat, part: seq<T>, rest: seq<T>, t: int)
    requires limit > 0
    requires all == part + rest || all == rest + part
    requires |part| >= limit
    requires forall i :: 0 <= i < |part| ==> since < at(part[i]) <= t
    ensures var r := ItemsOrderByModifiedAtConsistently(all, at, since, limit);
      |r.items| > 0 && at(Last(r.items)) <= t
  {
    var within := ModifiedWithin(at, since, t);
    FilterAll(part, within);
    if all == part + rest {
      FilterAppend(part, rest, within);
    } else {
      FilterAppend(rest, part, within);
    }
    PageEndsBy(all, at, since, limit, t);
  }

  /** A page that announces a next one holds at least `limit` elements. */
  lemma FullPage<T>(all: seq<T>, at: T -> int, since: int, limit: nat, r: ListWithHasNext<T>)
    requires ConsistentPage(all, at, since, limit, r)
    requires r.hasNext
    ensures |r.items| >= limit
  {
    var c := Candidates(all, at, since);
    if |c| <= limit {
      FitsOnOnePage(all, at, since, limit, r);
    }
  }
}

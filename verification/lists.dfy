/**
 The Kotlin collection operations the protocols are built from: `take`, `drop`,
 `filter`, `last` and the stable `sortedBy`.
 */
module Lists {

  function Min(a: int, b: int): int {
    if a <= b then a else b
  }

  /** Kotlin's `take(n)`: the first `n` elements, or all of them when there are fewer. */
  function Take<T>(xs: seq<T>, n: nat): (r: seq<T>)
    ensures |r| == Min(n, |xs|)
    ensures r == xs[..|r|]
  {
    if n <= |xs| then xs[..n] else xs
  }

  /** Kotlin's `drop(n)`: everything after the first `n` elements. */
  function Drop<T>(xs: seq<T>, n: nat): (r: seq<T>)
    ensures |r| == |xs| - Min(n, |xs|)
    ensures xs == xs[..|xs| - |r|] + r
  {
    if n <= |xs| then xs[n..] else []
  }

  /** Kotlin's `dropLast(n)`: everything but the last `n` elements. */
  function DropLast<T>(xs: seq<T>, n: nat): (r: seq<T>)
    ensures |r| == |xs| - Min(n, |xs|)
    ensures r == xs[..|r|]
  {
    if n <= |xs| then xs[..|xs| - n] else []
  }

  function Last<T>(xs: seq<T>): T
    requires |xs| > 0
  {
    xs[|xs| - 1]
  }

  /** Kotlin's `filter(p)`: the elements satisfying `p`, in their original order. */
  function Filter<T>(xs: seq<T>, p: T -> bool): (r: seq<T>)
    ensures |r| <= |xs|
    ensures forall i :: 0 <= i < |r| ==> r[i] in xs && p(r[i])
    ensures forall i :: 0 <= i < |xs| && p(xs[i]) ==> xs[i] in r
  {
    if |xs| == 0 then []
    else (if p(xs[0]) then [xs[0]] else []) + Filter(xs[1..], p)
  }

  /** Kotlin's `max()` on a non-empty list: an element no other element exceeds. */
  function Max(xs: seq<int>): (r: int)
    requires |xs| > 0
    ensures r in xs
    ensures forall i :: 0 <= i < |xs| ==> xs[i] <= r
  {
    if |xs| == 1 then xs[0]
    else
      var m := Max(xs[1..]);
      assert forall i :: 1 <= i < |xs| ==> xs[i] == xs[1..][i - 1];
      if xs[0] >= m then xs[0] else m
  }

  /** Kotlin's `map(f)`. */
  function Map<T, U>(xs: seq<T>, f: T -> U): (r: seq<U>)
    ensures |r| == |xs|
    ensures forall i :: 0 <= i < |xs| ==> r[i] == f(xs[i])
  {
    if |xs| == 0 then [] else [f(xs[0])] + Map(xs[1..], f)
  }

  /** Where positions `i - 1` and `i` both exist, the key does not drop between them. */
  ghost predicate OrderedAt<T>(xs: seq<T>, key: T -> int, i: int) {
    0 < i < |xs| ==> key(xs[i - 1]) <= key(xs[i])
  }

  /** `xs` is non-decreasing under `key`: no element's key exceeds the next one's. */
  ghost predicate SortedBy<T>(xs: seq<T>, key: T -> int) {
    forall i :: OrderedAt(xs, key, i)
  }

  /** In a sorted sequence no key exceeds a later one. */
  lemma {:induction false} SortedOrder<T>(xs: seq<T>, key: T -> int, i: int, j: int)
    requires SortedBy(xs, key)
    requires 0 <= i <= j < |xs|
    ensures key(xs[i]) <= key(xs[j])
    decreases j - i
  {
    if i < j {
      assert OrderedAt(xs, key, j);
      SortedOrder(xs, key, i, j - 1);
    }
  }

  /** Every slice of a sorted sequence is sorted. */
  lemma SortedSlice<T>(xs: seq<T>, key: T -> int, lo: int, hi: int)
    requires SortedBy(xs, key)
    requires 0 <= lo <= hi <= |xs|
    ensures SortedBy(xs[lo..hi], key)
    ensures hi == |xs| ==> SortedBy(xs[lo..], key)
  {
    var r := xs[lo..hi];
    forall i | 0 < i < |r| ensures OrderedAt(r, key, i) {
      assert OrderedAt(xs, key, lo + i);
    }
    if hi == |xs| {
      assert xs[lo..] == r;
    }
  }

  /** Sortedness stated over all pairs of positions. */
  lemma SortedPairs<T>(xs: seq<T>, key: T -> int)
    requires SortedBy(xs, key)
    ensures forall i, j :: 0 <= i < j < |xs| ==> key(xs[i]) <= key(xs[j])
  {
    forall i, j | 0 <= i < j < |xs| ensures key(xs[i]) <= key(xs[j]) {
      SortedOrder(xs, key, i, j);
    }
  }

  /** `xs` is strictly increasing under `key`, so no key occurs twice. */
  ghost predicate StrictlySortedBy<T>(xs: seq<T>, key: T -> int) {
    forall i, j :: 0 <= i < j < |xs| ==> key(xs[i]) < key(xs[j])
  }

  /** Putting `x` in front of a sorted sequence whose keys are all at least `key(x)` keeps it sorted. */
  lemma ConsSorted<T>(x: T, xs: seq<T>, key: T -> int)
    requires SortedBy(xs, key)
    requires |xs| > 0 ==> key(x) <= key(xs[0])
    ensures SortedBy([x] + xs, key)
  {
    var r := [x] + xs;
    forall i ensures OrderedAt(r, key, i) {
      if 1 < i < |r| {
        assert r[i - 1] == xs[i - 2] && r[i] == xs[i - 1];
        assert OrderedAt(xs, key, i - 1);
      }
    }
  }

  /**
   Places `x` in front of the first element whose key is not smaller, so that
   `x` precedes the elements of `xs` it ties with.
   */
  function Insert<T>(x: T, xs: seq<T>, key: T -> int): (r: seq<T>)
    requires SortedBy(xs, key)
    ensures SortedBy(r, key)
    ensures multiset(r) == multiset(xs) + multiset{x}
    ensures |r| == |xs| + 1
    ensures key(r[0]) == key(x) || (|xs| > 0 && key(r[0]) == key(xs[0]))
  {
    if |xs| == 0 || key(x) <= key(xs[0]) then
      ConsSorted(x, xs, key);
      [x] + xs
    else
      SortedSlice(xs, key, 1, |xs|);
      var rest := Insert(x, xs[1..], key);
      InsertBehindHead(x, xs, key, rest);
      [xs[0]] + rest
  }

  lemma InsertBehindHead<T>(x: T, xs: seq<T>, key: T -> int, rest: seq<T>)
    requires SortedBy(xs, key) && |xs| > 0 && key(xs[0]) < key(x)
    requires SortedBy(rest, key) && |rest| > 0
    requires multiset(rest) == multiset(xs[1..]) + multiset{x}
    requires key(rest[0]) == key(x) || (|xs[1..]| > 0 && key(rest[0]) == key(xs[1..][0]))
    ensures SortedBy([xs[0]] + rest, key)
    ensures multiset([xs[0]] + rest) == multiset(xs) + multiset{x}
  {
    if |xs| > 1 {
      assert OrderedAt(xs, key, 1);
    }
    ConsSorted(xs[0], rest, key);
    assert xs == [xs[0]] + xs[1..];
  }

  /**
   Kotlin's `sortedBy(key)`, a stable sort: elements with equal keys keep
   their relative order.
   */
  function SortBy<T>(xs: seq<T>, key: T -> int): (r: seq<T>)
    ensures SortedBy(r, key)
    ensures multiset(r) == multiset(xs)
    ensures |r| == |xs|
  {
    if |xs| == 0 then []
    else
      assert xs == [xs[0]] + xs[1..];
      Insert(xs[0], SortBy(xs[1..], key), key)
  }

  lemma InMultiset<T>(x: T, xs: seq<T>, ys: seq<T>)
    requires multiset(xs) == multiset(ys)
    ensures x in xs <==> x in ys
  {
    assert x in xs <==> x in multiset(xs);
    assert x in ys <==> x in multiset(ys);
  }

  /** Sorting an already sorted sequence returns it unchanged (stability). */
  lemma {:induction false} SortByOfSorted<T>(xs: seq<T>, key: T -> int)
    requires SortedBy(xs, key)
    ensures SortBy(xs, key) == xs
  {
    if |xs| > 0 {
      SortedSlice(xs, key, 1, |xs|);
      SortByOfSorted(xs[1..], key);
      assert OrderedAt(xs, key, 1);
      assert xs == [xs[0]] + xs[1..];
    }
  }

  /** The test "has key `k`". */
  function KeyIs<T>(key: T -> int, k: int): T -> bool {
    (x: T) => key(x) == k
  }

  /**
   Stability of `SortBy`: the elements sharing any one key come out in the
   order they went in.
   */
  lemma {:induction false} SortByStable<T>(xs: seq<T>, key: T -> int, k: int)
    ensures Filter(SortBy(xs, key), KeyIs(key, k)) == Filter(xs, KeyIs(key, k))
  {
    if |xs| > 0 {
      SortByStable(xs[1..], key, k);
      InsertFilter(xs[0], SortBy(xs[1..], key), key, k);
      FilterCons(xs, KeyIs(key, k));
    }
  }

  /** `Insert` puts `x` ahead of every element it ties with. */
  lemma {:induction false} InsertFilter<T>(x: T, ys: seq<T>, key: T -> int, k: int)
    requires SortedBy(ys, key)
    ensures Filter(Insert(x, ys, key), KeyIs(key, k)) == (if key(x) == k then [x] else []) + Filter(ys, KeyIs(key, k))
  {
    var p := KeyIs(key, k);
    if |ys| == 0 || key(x) <= key(ys[0]) {
      assert Insert(x, ys, key) == [x] + ys;
      FilterConsOf(x, ys, p);
    } else {
      SortedSlice(ys, key, 1, |ys|);
      var rest := Insert(x, ys[1..], key);
      InsertFilter(x, ys[1..], key, k);
      assert Insert(x, ys, key) == [ys[0]] + rest;
      FilterBehindHead(x, ys, rest, p, key(x) == k);
    }
  }

  /** The head of `ys` passes `p` only when `x` does not, so it may go either side of `x`. */
  lemma FilterBehindHead<T>(x: T, ys: seq<T>, rest: seq<T>, p: T -> bool, px: bool)
    requires |ys| > 0 && (px ==> !p(ys[0]))
    requires Filter(rest, p) == (if px then [x] else []) + Filter(ys[1..], p)
    ensures Filter([ys[0]] + rest, p) == (if px then [x] else []) + Filter(ys, p)
  {
    FilterConsOf(ys[0], rest, p);
    FilterCons(ys, p);
  }

  /** `Filter` of an element put in front of a sequence. */
  lemma FilterConsOf<T>(x: T, ys: seq<T>, p: T -> bool)
    ensures Filter([x] + ys, p) == (if p(x) then [x] else []) + Filter(ys, p)
  {
    assert ([x] + ys)[1..] == ys;
    FilterCons([x] + ys, p);
  }

  /** A prefix takes no element more often than the whole. */
  lemma TakeMultiset<T>(xs: seq<T>, n: nat)
    ensures multiset(Take(xs, n)) <= multiset(xs)
  {
    var r := Take(xs, n);
    assert xs == r + xs[|r|..];
  }

  /** Filtering keeps a strictly increasing order. */
  lemma {:induction false} FilterKeepsStrictOrder<T>(xs: seq<T>, p: T -> bool, key: T -> int)
    requires StrictlySortedBy(xs, key)
    ensures StrictlySortedBy(Filter(xs, p), key)
  {
    if |xs| > 0 {
      FilterKeepsStrictOrder(xs[1..], p, key);
      var rest := Filter(xs[1..], p);
      FilterCons(xs, p);
      if p(xs[0]) {
        forall i | 0 <= i < |rest| ensures key(xs[0]) < key(rest[i]) {
          var j :| 0 <= j < |xs[1..]| && xs[1..][j] == rest[i];
          assert xs[j + 1] == rest[i];
        }
        StrictCons(xs[0], rest, key);
      }
    }
  }

  /** Filtering keeps a non-decreasing order. */
  lemma {:induction false} SortedFilter<T>(xs: seq<T>, p: T -> bool, key: T -> int)
    requires SortedBy(xs, key)
    ensures SortedBy(Filter(xs, p), key)
  {
    if |xs| > 0 {
      var rest := Filter(xs[1..], p);
      FilterCons(xs, p);
      SortedSlice(xs, key, 1, |xs|);
      SortedFilter(xs[1..], p, key);
      if p(xs[0]) {
        if |rest| > 0 {
          var j := IndexOf(xs[1..], rest[0]);
          SortedOrder(xs, key, 0, j + 1);
        }
        ConsSorted(xs[0], rest, key);
        assert Filter(xs, p) == [xs[0]] + rest;
      } else {
        assert Filter(xs, p) == rest;
      }
    }
  }

  lemma StrictCons<T>(x: T, xs: seq<T>, key: T -> int)
    requires StrictlySortedBy(xs, key)
    requires forall i :: 0 <= i < |xs| ==> key(x) < key(xs[i])
    ensures StrictlySortedBy([x] + xs, key)
  {
    var r := [x] + xs;
    forall i, j | 0 <= i < j < |r| ensures key(r[i]) < key(r[j]) {
      assert r[j] == xs[j - 1];
      if i > 0 { assert r[i] == xs[i - 1]; }
    }
  }

  /** A strictly increasing sequence is sorted. */
  lemma StrictIsSorted<T>(xs: seq<T>, key: T -> int)
    requires StrictlySortedBy(xs, key)
    ensures SortedBy(xs, key)
  {
    forall i ensures OrderedAt(xs, key, i) {
      if 0 < i < |xs| {
        assert key(xs[i - 1]) < key(xs[i]);
      }
    }
  }

  lemma {:induction false} FilterAppend<T>(xs: seq<T>, ys: seq<T>, p: T -> bool)
    ensures Filter(xs + ys, p) == Filter(xs, p) + Filter(ys, p)
  {
    if |xs| > 0 {
      assert (xs + ys)[1..] == xs[1..] + ys;
      FilterAppend(xs[1..], ys, p);
    } else {
      assert xs + ys == ys;
    }
  }

  /** Filtering keeps every element satisfying `p` with its multiplicity and drops the rest. */
  lemma {:induction false} FilterMultiset<T>(xs: seq<T>, p: T -> bool)
    ensures forall v :: multiset(Filter(xs, p))[v] == if p(v) then multiset(xs)[v] else 0
  {
    if |xs| > 0 {
      FilterMultiset(xs[1..], p);
      assert xs == [xs[0]] + xs[1..];
    }
  }

  /** The set of keys of the elements of `xs`. */
  function Keys<T>(xs: seq<T>, key: T -> int): set<int> {
    set i | 0 <= i < |xs| :: key(xs[i])
  }

  /** A strictly increasing sequence has as many distinct keys as elements. */
  lemma {:induction false} StrictKeysCount<T>(xs: seq<T>, key: T -> int)
    requires StrictlySortedBy(xs, key)
    ensures |Keys(xs, key)| == |xs|
  {
    if |xs| > 0 {
      var rest := xs[1..];
      assert StrictlySortedBy(rest, key);
      StrictKeysCount(rest, key);
      assert Keys(xs, key) == {key(xs[0])} + Keys(rest, key) by {
        forall k | k in Keys(xs, key) ensures k in {key(xs[0])} + Keys(rest, key) {
          var i :| 0 <= i < |xs| && key(xs[i]) == k;
          if i > 0 { assert rest[i - 1] == xs[i]; }
        }
        forall k | k in Keys(rest, key) ensures k in Keys(xs, key) {
          var i :| 0 <= i < |rest| && key(rest[i]) == k;
          assert xs[i + 1] == rest[i];
        }
      }
      assert key(xs[0]) !in Keys(rest, key) by {
        forall i | 0 <= i < |rest| ensures key(rest[i]) != key(xs[0]) {
          assert rest[i] == xs[i + 1];
        }
      }
    }
  }

  /** The keys of a non-empty sequence: its head's key and those of its tail. */
  lemma KeysCons<T>(xs: seq<T>, key: T -> int)
    requires |xs| > 0
    ensures Keys(xs, key) == Keys(xs[1..], key) + {key(xs[0])}
  {
    var rest := xs[1..];
    forall k | k in Keys(xs, key) ensures k in Keys(rest, key) + {key(xs[0])} {
      var i :| 0 <= i < |xs| && key(xs[i]) == k;
      if i > 0 { assert rest[i - 1] == xs[i]; }
    }
    forall k | k in Keys(rest, key) ensures k in Keys(xs, key) {
      var i :| 0 <= i < |rest| && key(rest[i]) == k;
      assert xs[i + 1] == rest[i];
    }
  }

  /** A sequence split at `n` joins back into itself. */
  lemma Rejoin<T>(xs: seq<T>, n: nat, front: seq<T>, back: seq<T>)
    requires n <= |xs| && front == xs[..n] && back == xs[n..]
    ensures front + back == xs
  {
  }

  /** A sequence has no more distinct keys than elements. */
  lemma {:induction false} KeysBound<T>(xs: seq<T>, key: T -> int)
    ensures |Keys(xs, key)| <= |xs|
  {
    if |xs| > 0 {
      KeysCons(xs, key);
      KeysBound(xs[1..], key);
    }
  }

  /** A sorted sequence in which no key occurs twice is strictly increasing. */
  lemma {:induction false} SortedDistinctIsStrict<T>(xs: seq<T>, key: T -> int)
    requires SortedBy(xs, key)
    requires |Keys(xs, key)| == |xs|
    ensures StrictlySortedBy(xs, key)
  {
    if |xs| > 0 {
      var rest := xs[1..];
      KeysCons(xs, key);
      KeysBound(rest, key);
      assert key(xs[0]) !in Keys(rest, key) && |Keys(rest, key)| == |rest|;
      SortedSlice(xs, key, 1, |xs|);
      SortedDistinctIsStrict(rest, key);
      forall i | 0 <= i < |rest| ensures key(xs[0]) < key(rest[i]) {
        SortedOrder(xs, key, 0, i + 1);
        assert rest[i] == xs[i + 1];
      }
      StrictCons(xs[0], rest, key);
      assert [xs[0]] + rest == xs;
    }
  }

  /** A sequence whose elements at different positions have different keys has a key per element. */
  lemma {:induction false} DistinctKeysCount<T>(xs: seq<T>, key: T -> int)
    requires forall i, j :: 0 <= i < j < |xs| ==> key(xs[i]) != key(xs[j])
    ensures |Keys(xs, key)| == |xs|
  {
    if |xs| > 0 {
      var rest := xs[1..];
      KeysCons(xs, key);
      forall i, j | 0 <= i < j < |rest| ensures key(rest[i]) != key(rest[j]) {
        assert rest[i] == xs[i + 1] && rest[j] == xs[j + 1];
      }
      DistinctKeysCount(rest, key);
      forall i | 0 <= i < |rest| ensures key(rest[i]) != key(xs[0]) {
        assert rest[i] == xs[i + 1];
      }
    }
  }

  /** Sequences holding the same elements have the same keys. */
  lemma KeysOfPermutation<T>(xs: seq<T>, ys: seq<T>, key: T -> int)
    requires multiset(xs) == multiset(ys)
    ensures Keys(xs, key) == Keys(ys, key)
  {
    forall k | k in Keys(xs, key) ensures k in Keys(ys, key) {
      var i :| 0 <= i < |xs| && key(xs[i]) == k;
      InMultiset(xs[i], xs, ys);
      var j :| 0 <= j < |ys| && ys[j] == xs[i];
    }
    forall k | k in Keys(ys, key) ensures k in Keys(xs, key) {
      var j :| 0 <= j < |ys| && key(ys[j]) == k;
      InMultiset(ys[j], xs, ys);
      var i :| 0 <= i < |xs| && xs[i] == ys[j];
    }
  }

  /** An element below the key at position `n` of a sorted sequence lies before `n`. */
  lemma BelowBoundaryInPrefix<T>(s: seq<T>, key: T -> int, n: int, x: T)
    requires SortedBy(s, key)
    requires 0 <= n < |s|
    requires x in s && key(x) < key(s[n])
    ensures x in s[..n]
  {
    var j :| 0 <= j < |s| && s[j] == x;
    if j >= n {
      SortedOrder(s, key, n, j);
    }
    assert s[..n][j] == x;
  }

  /** Two sorted sequences, the first nowhere above the second, concatenate to a sorted one. */
  lemma AppendSorted<T>(xs: seq<T>, ys: seq<T>, key: T -> int)
    requires SortedBy(xs, key) && SortedBy(ys, key)
    requires forall i, j :: 0 <= i < |xs| && 0 <= j < |ys| ==> key(xs[i]) <= key(ys[j])
    ensures SortedBy(xs + ys, key)
  {
    var r := xs + ys;
    forall i | 0 < i < |r| ensures OrderedAt(r, key, i) {
      if i < |xs| {
        assert r[i - 1] == xs[i - 1] && r[i] == xs[i];
        assert OrderedAt(xs, key, i);
      } else if i - 1 >= |xs| {
        assert r[i - 1] == ys[i - 1 - |xs|] && r[i] == ys[i - |xs|];
        assert OrderedAt(ys, key, i - |xs|);
      } else {
        assert r[i - 1] == xs[i - 1] && r[i] == ys[i - |xs|];
      }
    }
  }

  /** `drop(offset).take(n)` is the window of at most `n` elements starting at `offset`. */
  lemma TakeOfDrop<T>(xs: seq<T>, offset: nat, n: nat)
    ensures Take(Drop(xs, offset), n) == xs[Min(offset, |xs|)..Min(offset + n, |xs|)]
  {
    if offset <= |xs| {
      assert Drop(xs, offset) == xs[offset..];
    }
  }

  /** A prefix of a sorted sequence is sorted. */
  lemma TakeSorted<T>(xs: seq<T>, n: nat, key: T -> int)
    requires SortedBy(xs, key)
    ensures SortedBy(Take(xs, n), key)
  {
    var r := Take(xs, n);
    forall i | 0 < i < |r| ensures OrderedAt(r, key, i) {
      assert r[i - 1] == xs[i - 1] && r[i] == xs[i];
      assert OrderedAt(xs, key, i);
    }
  }

  /** Taking at least as many elements as there are takes them all. */
  lemma TakeAll<T>(xs: seq<T>, n: nat)
    requires |xs| <= n
    ensures Take(xs, n) == xs
  {
  }

  /** Position `i` below `n` survives `take(n)`. */
  lemma TakeIndex<T>(xs: seq<T>, n: nat, i: nat)
    requires i < |xs| && i < n
    ensures i < |Take(xs, n)| && Take(xs, n)[i] == xs[i]
  {
  }

  /** Taking `m` of the first `n` elements, with `m <= n`, is taking `m`. */
  lemma TakeOfTake<T>(xs: seq<T>, n: nat, m: nat)
    requires m <= n
    ensures Take(Take(xs, n), m) == Take(xs, m)
  {
  }

  /** The window of `n` elements at `offset` followed by everything after it is everything from `offset` on. */
  lemma WindowThenRest<T>(xs: seq<T>, offset: nat, n: nat)
    requires offset + n <= |xs|
    ensures Take(Drop(xs, offset), n) + Drop(xs, offset + n) == Drop(xs, offset)
  {
    assert Drop(xs, offset) == xs[offset..];
    assert Drop(xs, offset + n) == xs[offset + n..];
    assert xs[offset..] == xs[offset..][..n] + xs[offset + n..];
  }

  /** `Filter` on a non-empty sequence: its head, when kept, then the filtered tail. */
  lemma FilterCons<T>(xs: seq<T>, p: T -> bool)
    requires |xs| > 0
    ensures Filter(xs, p) == (if p(xs[0]) then [xs[0]] else []) + Filter(xs[1..], p)
  {
  }

  /** Filtering by a test no element passes leaves nothing. */
  lemma {:induction false} FilterNone<T>(xs: seq<T>, p: T -> bool)
    requires forall i :: 0 <= i < |xs| ==> !p(xs[i])
    ensures Filter(xs, p) == []
  {
    if |xs| > 0 {
      FilterNone(xs[1..], p);
    }
  }

  /** When the first `n` elements fail `p` and the rest pass it, filtering drops exactly the first `n`. */
  lemma {:induction false} FilterSplit<T>(xs: seq<T>, p: T -> bool, n: nat)
    requires n <= |xs|
    requires forall i :: 0 <= i < n ==> !p(xs[i])
    requires forall i :: n <= i < |xs| ==> p(xs[i])
    ensures Filter(xs, p) == xs[n..]
  {
    if n == 0 {
      FilterAll(xs, p);
    } else {
      FilterSplit(xs[1..], p, n - 1);
      assert xs[1..][n - 1..] == xs[n..];
    }
  }

  /** An element survives `filter(p)` exactly when it occurs and passes `p`. */
  lemma FilterMember<T>(xs: seq<T>, p: T -> bool, x: T)
    ensures x in Filter(xs, p) <==> x in xs && p(x)
  {
    if x in xs && p(x) {
      var i := IndexOf(xs, x);
    }
  }

  /** In a sorted sequence an element left out of the first `n` has a key no lower than the last of them. */
  lemma LeftOutOfTake<T>(sorted: seq<T>, key: T -> int, n: nat, x: T)
    requires SortedBy(sorted, key) && n > 0
    requires x in sorted && x !in Take(sorted, n)
    ensures |Take(sorted, n)| == n
    ensures key(Last(Take(sorted, n))) <= key(x)
  {
    var i := IndexOf(sorted, x);
    if i < n {
      assert false;
    }
    SortedOrder(sorted, key, n - 1, i);
    TakeIndex(sorted, n, n - 1);
  }

  /** A subset is no larger than its superset. */
  lemma {:induction false} SubsetSize<T>(a: set<T>, b: set<T>)
    requires a <= b
    ensures |a| <= |b|
    decreases |a|
  {
    if a != {} {
      var x :| x in a;
      SubsetSize(a - {x}, b - {x});
    }
  }

  /** Filtering by a test every element passes keeps the sequence whole. */
  lemma {:induction false} FilterAll<T>(xs: seq<T>, p: T -> bool)
    requires forall i :: 0 <= i < |xs| ==> p(xs[i])
    ensures Filter(xs, p) == xs
  {
    if |xs| > 0 {
      FilterAll(xs[1..], p);
    }
  }

  /** When no element from position `m` on passes `p`, at most `m` elements pass. */
  lemma {:induction false} FilterPrefixBound<T>(xs: seq<T>, p: T -> bool, m: nat)
    requires forall j :: m <= j < |xs| ==> !p(xs[j])
    ensures |Filter(xs, p)| <= m
  {
    if m == 0 {
      FilterNone(xs, p);
    } else if |xs| > 0 {
      FilterPrefixBound(xs[1..], p, m - 1);
    }
  }

  /** Two filters in a row are one filter by the conjunction of their tests. */
  lemma {:induction false} FilterFilter<T>(xs: seq<T>, p: T -> bool, q: T -> bool, both: T -> bool)
    requires forall x :: both(x) == (p(x) && q(x))
    ensures Filter(Filter(xs, p), q) == Filter(xs, both)
  {
    if |xs| > 0 {
      FilterFilter(xs[1..], p, q, both);
      var rest := Filter(xs[1..], p);
      if p(xs[0]) {
        var ys := [xs[0]] + rest;
        assert Filter(xs, p) == ys;
        assert ys[0] == xs[0] && ys[1..] == rest;
        assert Filter(ys, q) == (if q(xs[0]) then [xs[0]] else []) + Filter(rest, q);
      } else {
        assert Filter(xs, p) == rest;
      }
    }
  }

  /** Sequences holding the same elements have equally many elements passing any test. */
  lemma FilterSizeOfPermutation<T>(xs: seq<T>, ys: seq<T>, p: T -> bool)
    requires multiset(xs) == multiset(ys)
    ensures |Filter(xs, p)| == |Filter(ys, p)|
  {
    FilterMultiset(xs, p);
    FilterMultiset(ys, p);
    assert multiset(Filter(xs, p)) == multiset(Filter(ys, p));
    assert |multiset(Filter(xs, p))| == |Filter(xs, p)|;
    assert |multiset(Filter(ys, p))| == |Filter(ys, p)|;
  }

  /** Mapping keeps every element's image. */
  lemma MapMember<T, U>(xs: seq<T>, f: T -> U, x: T)
    requires x in xs
    ensures f(x) in Map(xs, f)
  {
    var i :| 0 <= i < |xs| && xs[i] == x;
    assert Map(xs, f)[i] == f(x);
  }

  /** An element of two mapped sequences joined is the image of an element of one of them. */
  lemma MapAppendIndex<T, U, V>(a: seq<T>, f: T -> V, b: seq<U>, g: U -> V, x: V) returns (left: bool, i: nat)
    requires x in Map(a, f) + Map(b, g)
    ensures left ==> i < |a| && f(a[i]) == x
    ensures !left ==> i < |b| && g(b[i]) == x
  {
    var fa := Map(a, f);
    var j :| 0 <= j < |fa + Map(b, g)| && (fa + Map(b, g))[j] == x;
    if j < |fa| {
      left, i := true, j;
    } else {
      left, i := false, j - |fa|;
      assert Map(b, g)[i] == x;
    }
  }

  /** A position at which `x` occurs in `xs`. */
  lemma IndexOf<T>(xs: seq<T>, x: T) returns (i: nat)
    requires x in xs
    ensures i < |xs| && xs[i] == x
  {
    i :| 0 <= i < |xs| && xs[i] == x;
  }
}

/**
 `Filter` and sortedness spelled out on the three- and four-element sequences
 the concrete scenarios use.
 */
module SmallLists {
  import opened Lists

  /** `Filter` spelled out on a three-element sequence. */
  lemma FilterThree<T>(xs: seq<T>, p: T -> bool)
    requires |xs| == 3
    ensures Filter(xs, p) ==
      (if p(xs[0]) then [xs[0]] else []) + (if p(xs[1]) then [xs[1]] else []) + (if p(xs[2]) then [xs[2]] else [])
  {
    var t1 := xs[1..];
    var t2 := t1[1..];
    assert t1[0] == xs[1] && t2[0] == xs[2] && t2[1..] == [];
    FilterCons(t2, p);
    FilterCons(t1, p);
    FilterCons(xs, p);
  }

  /** Filtering three elements of which only the first fails the test. */
  lemma KeepLastTwoOfThree<T>(xs: seq<T>, p: T -> bool)
    requires |xs| == 3 && !p(xs[0]) && p(xs[1]) && p(xs[2])
    ensures Filter(xs, p) == [xs[1], xs[2]]
  {
    FilterThree(xs, p);
  }

  /** Three elements in non-decreasing key order are sorted. */
  lemma SortedThree<T>(xs: seq<T>, key: T -> int)
    requires |xs| == 3 && key(xs[0]) <= key(xs[1]) <= key(xs[2])
    ensures SortedBy(xs, key)
  {
  }

  /** Four elements in non-decreasing key order are sorted. */
  lemma SortedFour<T>(xs: seq<T>, key: T -> int)
    requires |xs| == 4 && key(xs[0]) <= key(xs[1]) <= key(xs[2]) <= key(xs[3])
    ensures SortedBy(xs, key)
  {
  }

  /** `Filter` spelled out on a four-element sequence. */
  lemma FilterFour<T>(xs: seq<T>, p: T -> bool)
    requires |xs| == 4
    ensures Filter(xs, p) ==
      (if p(xs[0]) then [xs[0]] else []) + (if p(xs[1]) then [xs[1]] else [])
      + (if p(xs[2]) then [xs[2]] else []) + (if p(xs[3]) then [xs[3]] else [])
  {
    var tail := xs[1..];
    assert tail[0] == xs[1] && tail[1] == xs[2] && tail[2] == xs[3];
    FilterThree(tail, p);
    FilterCons(xs, p);
  }

  /** Filtering four elements of which only the second fails the test. */
  lemma DropSecondOfFour<T>(xs: seq<T>, p: T -> bool)
    requires |xs| == 4
    requires p(xs[0]) && !p(xs[1]) && p(xs[2]) && p(xs[3])
    ensures Filter(xs, p) == [xs[0], xs[2], xs[3]]
  {
    var tail := xs[1..];
    assert tail[0] == xs[1] && tail[1] == xs[2] && tail[2] == xs[3];
    FilterThree(tail, p);
    FilterCons(xs, p);
  }

  /** Filtering four elements of which only the first fails the test. */
  lemma DropFirstOfFour<T>(xs: seq<T>, p: T -> bool)
    requires |xs| == 4
    requires !p(xs[0]) && p(xs[1]) && p(xs[2]) && p(xs[3])
    ensures Filter(xs, p) == xs[1..]
  {
    var tail := xs[1..];
    assert tail[0] == xs[1] && tail[1] == xs[2] && tail[2] == xs[3];
    FilterThree(tail, p);
    FilterCons(xs, p);
  }
}

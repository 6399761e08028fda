/**
 The records shared by the store, the client mirror and the five protocol
 variants, and the id-keyed map operations they are built from.
 */
module Common {
  import opened Lists

  type AnimeId = int

  /** Kotlin's `PseudoDateTime`, a logical clock value. */
  type Timestamp = int

  /**
   A live list entry. common.kt's `MyListItem` has no `score`; the
   score-ordered test builds entries with one, so the field is an assumption
   taken from that test. Only the score-ordered protocol reads it; entries
   built without one carry `DefaultScore`.
   */
  datatype MyListItem = MyListItem(animeId: AnimeId, updatedAt: Timestamp, score: int)

  /** A tombstone: the entry `animeId` was deleted at `deletedAt`. */
  datatype DeletedMyListItem = DeletedMyListItem(animeId: AnimeId, deletedAt: Timestamp)

  /** An entry of a bulk page that mixes live entries and tombstones. */
  datatype SyncItem = SyncItem(animeId: AnimeId, isDeleted: bool, modifiedAt: Timestamp)

  const DefaultScore: int := 0

  /** `HasModifiedAt.modifiedAt` of a live entry. */
  function ItemModifiedAt(x: MyListItem): Timestamp {
    x.updatedAt
  }

  /** `HasModifiedAt.modifiedAt` of a tombstone. */
  function TombstoneModifiedAt(x: DeletedMyListItem): Timestamp {
    x.deletedAt
  }

  function SyncModifiedAt(x: SyncItem): Timestamp {
    x.modifiedAt
  }

  /** A live entry as a bulk item. */
  function LiveItem(x: MyListItem): SyncItem {
    SyncItem(x.animeId, false, x.updatedAt)
  }

  /** A tombstone as a bulk item. */
  function DeletedItem(x: DeletedMyListItem): SyncItem {
    SyncItem(x.animeId, true, x.deletedAt)
  }

  function ItemId(x: MyListItem): AnimeId {
    x.animeId
  }

  /** The test `it.animeId > after` of the id-cursor filters. */
  function IdAbove(after: AnimeId): MyListItem -> bool {
    (x: MyListItem) => x.animeId > after
  }

  function TombstoneId(x: DeletedMyListItem): AnimeId {
    x.animeId
  }

  /** Every entry of `m` is stored under its own id. */
  ghost predicate KeyedItems(m: map<AnimeId, MyListItem>) {
    forall k :: k in m ==> m[k].animeId == k
  }

  ghost predicate KeyedTombstones(m: map<AnimeId, DeletedMyListItem>) {
    forall k :: k in m ==> m[k].animeId == k
  }

  function Ids(items: seq<MyListItem>): set<AnimeId> {
    set i | 0 <= i < |items| :: items[i].animeId
  }

  /** No later element of `items` has the id of `items[i]`. */
  ghost predicate LastWithId(items: seq<MyListItem>, i: int)
    requires 0 <= i < |items|
  {
    forall j :: i < j < |items| ==> items[j].animeId != items[i].animeId
  }

  /**
   `putAll(items.map { it.animeId to it })`: each id ends up mapped to the last
   element of `items` carrying it; ids not in `items` keep their entry.
   */
  function PutAll(m: map<AnimeId, MyListItem>, items: seq<MyListItem>): (r: map<AnimeId, MyListItem>)
    ensures r.Keys == m.Keys + Ids(items)
    ensures forall i :: 0 <= i < |items| && LastWithId(items, i) ==> r[items[i].animeId] == items[i]
    ensures forall k :: k in m && k !in Ids(items) ==> r[k] == m[k]
    ensures KeyedItems(m) ==> KeyedItems(r)
    decreases |items|
  {
    if |items| == 0 then m
    else
      var rest := PutAll(m[items[0].animeId := items[0]], items[1..]);
      assert Ids(items) == {items[0].animeId} + Ids(items[1..]) by {
        forall k | k in Ids(items) ensures k in {items[0].animeId} + Ids(items[1..]) {
          var i :| 0 <= i < |items| && items[i].animeId == k;
          if i > 0 { assert items[1..][i - 1] == items[i]; }
        }
      }
      assert forall i :: 0 < i < |items| && LastWithId(items, i) ==> LastWithId(items[1..], i - 1);
      assert LastWithId(items, 0) ==> items[0].animeId !in Ids(items[1..]);
      rest
  }

  /** The ids of a non-empty finite set have a least element. */
  lemma LeastExists(s: set<AnimeId>)
    requires |s| > 0
    ensures exists k :: k in s && IsLeast(k, s)
    decreases |s|
  {
    HasElement(s);
    var y :| y in s;
    var t := s - {y};
    if |t| > 0 {
      LeastExists(t);
      var k :| k in t && IsLeast(k, t);
      if y < k {
        forall j | j in s ensures y <= j { if j != y { assert j in t; } }
        assert IsLeast(y, s);
      } else {
        forall j | j in s ensures k <= j { if j != y { assert j in t; } }
        assert IsLeast(k, s);
      }
    } else {
      forall j | j in s ensures y <= j { assert j !in t; }
      assert IsLeast(y, s);
    }
  }

  lemma HasElement(s: set<AnimeId>)
    requires |s| > 0
    ensures exists y :: y in s
  {
    if forall y :: y !in s {
      assert false;
    }
  }

  predicate IsLeast(k: AnimeId, s: set<AnimeId>) {
    forall j :: j in s ==> k <= j
  }

  function Least(s: set<AnimeId>): (k: AnimeId)
    requires |s| > 0
    ensures k in s && IsLeast(k, s)
  {
    LeastExists(s);
    var k :| k in s && IsLeast(k, s); k
  }

  /** The ids of `s` in ascending order: `sortedBy { it.animeId }` over a key set. */
  function AscendingIds(s: set<AnimeId>): (r: seq<AnimeId>)
    ensures |r| == |s|
    ensures forall k :: k in r <==> k in s
    ensures forall i, j :: 0 <= i < j < |r| ==> r[i] < r[j]
    decreases |s|
  {
    if |s| == 0 then []
    else
      var k := Least(s);
      var rest := AscendingIds(s - {k});
      [k] + rest
  }

  /** A strictly increasing sequence is determined by its set of elements. */
  lemma {:induction false} AscendingIdsUnique(s: set<AnimeId>, ks: seq<AnimeId>)
    requires forall k :: k in ks <==> k in s
    requires forall i, j :: 0 <= i < j < |ks| ==> ks[i] < ks[j]
    ensures AscendingIds(s) == ks
    decreases |s|
  {
    if |s| == 0 {
      FirstInSet(s, ks);
      assert |ks| == 0;
    } else {
      var k := Least(s);
      HeadIsLeast(s, ks, k);
      var tail := ks[1..];
      TailElements(s, ks, k);
      AscendingIdsUnique(s - {k}, tail);
      assert AscendingIds(s) == [k] + AscendingIds(s - {k});
      assert ks == [k] + tail;
    }
  }

  lemma FirstInSet(s: set<AnimeId>, ks: seq<AnimeId>)
    requires forall x :: x in ks <==> x in s
    ensures |ks| > 0 ==> ks[0] in s
  {
    if |ks| > 0 {
      var x := ks[0];
      assert x in ks;
      assert x in s;
    }
  }

  lemma TailElements(s: set<AnimeId>, ks: seq<AnimeId>, k: AnimeId)
    requires forall x :: x in ks <==> x in s
    requires forall i, j :: 0 <= i < j < |ks| ==> ks[i] < ks[j]
    requires |ks| > 0 && ks[0] == k
    ensures forall z :: z in ks[1..] <==> z in s - {k}
    ensures forall i, j :: 0 <= i < j < |ks[1..]| ==> ks[1..][i] < ks[1..][j]
  {
    forall z ensures z in ks[1..] <==> z in s - {k} {
      if z in ks[1..] {
        var i :| 1 <= i < |ks| && ks[i] == z;
        assert ks[0] < ks[i];
      }
      if z in s - {k} {
        var i :| 0 <= i < |ks| && ks[i] == z;
        assert ks[1..][i - 1] == z;
      }
    }
  }

  lemma HeadIsLeast(s: set<AnimeId>, ks: seq<AnimeId>, k: AnimeId)
    requires forall x :: x in ks <==> x in s
    requires forall i, j :: 0 <= i < j < |ks| ==> ks[i] < ks[j]
    requires k in s && IsLeast(k, s)
    ensures |ks| > 0 && ks[0] == k
  {
    assert k in ks;
    var i :| 0 <= i < |ks| && ks[i] == k;
    assert ks[0] in s;
  }

  /** The entries of `m` at the ids `ks`, in that order. */
  function ValuesAt<V>(m: map<AnimeId, V>, ks: seq<AnimeId>): (r: seq<V>)
    requires forall i :: 0 <= i < |ks| ==> ks[i] in m
    ensures |r| == |ks|
    ensures forall i :: 0 <= i < |ks| ==> r[i] == m[ks[i]]
  {
    if |ks| == 0 then [] else [m[ks[0]]] + ValuesAt(m, ks[1..])
  }

  /** Reading back the ids of entries stored under their own ids gives the entries. */
  lemma ValuesAtOwnIds(m: map<AnimeId, MyListItem>, items: seq<MyListItem>)
    requires forall i :: 0 <= i < |items| ==> items[i].animeId in m && m[items[i].animeId] == items[i]
    ensures ValuesAt(m, Map(items, ItemId)) == items
  {
  }

  /** Listing a map's entries in ascending key order misses none of them. */
  lemma EveryValueListed<V>(m: map<AnimeId, V>)
    ensures forall k :: k in m ==> m[k] in ValuesAt(m, AscendingIds(m.Keys))
  {
    var ks := AscendingIds(m.Keys);
    var r := ValuesAt(m, ks);
    forall k | k in m ensures m[k] in r {
      assert k in ks;
      var i :| 0 <= i < |ks| && ks[i] == k;
      assert r[i] == m[k];
    }
  }

  /**
   Listing a map whose values sit under their own `key` in ascending key order
   lists each value under its key, with strictly increasing keys.
   */
  lemma ListedInKeyOrder<V>(m: map<AnimeId, V>, key: V -> AnimeId)
    requires forall k :: k in m ==> key(m[k]) == k
    ensures var r := ValuesAt(m, AscendingIds(m.Keys));
      (forall i :: 0 <= i < |r| ==> key(r[i]) in m && m[key(r[i])] == r[i])
      && StrictlySortedBy(r, key)
  {
    var ks := AscendingIds(m.Keys);
    assert forall i :: 0 <= i < |ks| ==> ks[i] in m;
    ValuesUnderKeys(m, key, ks);
  }

  lemma ValuesUnderKeys<V>(m: map<AnimeId, V>, key: V -> AnimeId, ks: seq<AnimeId>)
    requires forall k :: k in m ==> key(m[k]) == k
    requires forall i :: 0 <= i < |ks| ==> ks[i] in m
    requires forall i, j :: 0 <= i < j < |ks| ==> ks[i] < ks[j]
    ensures var r := ValuesAt(m, ks);
      (forall i :: 0 <= i < |r| ==> key(r[i]) in m && m[key(r[i])] == r[i])
      && StrictlySortedBy(r, key)
  {
    var r := ValuesAt(m, ks);
    forall i | 0 <= i < |r| ensures key(r[i]) == ks[i] {
      assert r[i] == m[ks[i]];
    }
  }

  /** `v` is stored under some key of `m`: membership in `m.Values`, stated through its key. */
  ghost predicate HeldIn<V>(v: V, m: map<AnimeId, V>) {
    exists k :: k in m && m[k] == v
  }

  /** Whatever a map's ascending-key listing shows is stored in the map. */
  lemma ListedIsHeld<V>(m: map<AnimeId, V>, v: V)
    requires v in ValuesAt(m, AscendingIds(m.Keys))
    ensures HeldIn(v, m)
  {
    var ks := AscendingIds(m.Keys);
    var r := ValuesAt(m, ks);
    var j :| 0 <= j < |r| && r[j] == v;
    assert ks[j] in m && m[ks[j]] == v;
  }

  /** `ValuesAt` spelled out on three keys. */
  lemma ValuesAtThree<V>(m: map<AnimeId, V>, k0: AnimeId, k1: AnimeId, k2: AnimeId)
    requires k0 in m && k1 in m && k2 in m
    ensures ValuesAt(m, [k0, k1, k2]) == [m[k0], m[k1], m[k2]]
  {
    var r := ValuesAt(m, [k0, k1, k2]);
    assert |r| == 3 && r[0] == m[k0] && r[1] == m[k1] && r[2] == m[k2];
  }
}

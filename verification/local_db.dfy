/**
 The client mirror (`LocalMyListDb`): list entries keyed by anime id, changed
 only by upserting and deleting batches. The insertion order the Kotlin map
 keeps for listing is not modelled; mirrors are compared as id-keyed maps.
 */
module LocalDb {
  import opened Lists
  import opened Common
  import opened ServerDb

  type LocalMyListDb = map<AnimeId, MyListItem>

  /** The ids listed in `animeIds`. */
  function IdSet(animeIds: seq<AnimeId>): set<AnimeId> {
    set i | 0 <= i < |animeIds| :: animeIds[i]
  }

  /** `upsert(items)`: each id maps to the last of `items` carrying it. */
  function Upsert(db: LocalMyListDb, items: seq<MyListItem>): (r: LocalMyListDb)
    ensures r.Keys == db.Keys + Ids(items)
    ensures forall i :: 0 <= i < |items| && LastWithId(items, i) ==> r[items[i].animeId] == items[i]
    ensures forall k :: k in db && k !in Ids(items) ==> r[k] == db[k]
  {
    PutAll(db, items)
  }

  /** `delete(animeIds)`: the listed ids are gone, absent ones are ignored, the rest is untouched. */
  function Delete(db: LocalMyListDb, animeIds: seq<AnimeId>): (r: LocalMyListDb)
    ensures r.Keys == db.Keys - IdSet(animeIds)
    ensures forall k :: k in r ==> r[k] == db[k]
    decreases |animeIds|
  {
    if |animeIds| == 0 then db
    else
      assert IdSet(animeIds) == {animeIds[0]} + IdSet(animeIds[1..]) by {
        forall k | k in IdSet(animeIds) ensures k in {animeIds[0]} + IdSet(animeIds[1..]) {
          var i :| 0 <= i < |animeIds| && animeIds[i] == k;
          if i > 0 { assert animeIds[1..][i - 1] == k; }
        }
      }
      Delete(db - {animeIds[0]}, animeIds[1..])
  }

  /** Upserting a batch into an empty mirror keys it by exactly the batch's ids. */
  lemma UpsertIntoEmpty(items: seq<MyListItem>)
    ensures Upsert(map[], items).Keys == Ids(items)
  {
  }

  /** An id neither in the mirror nor in the batch stays out of the mirror. */
  lemma StaysOut(db: LocalMyListDb, items: seq<MyListItem>, k: AnimeId)
    requires k !in db && k !in Ids(items)
    ensures k !in Upsert(db, items)
  {
  }

  /** Every id of a batch is carried by a last occurrence. */
  lemma LastOccurrenceExists(items: seq<MyListItem>, k: AnimeId)
    requires k in Ids(items)
    ensures exists i :: 0 <= i < |items| && items[i].animeId == k && LastWithId(items, i)
  {
    var i :| 0 <= i < |items| && items[i].animeId == k;
    while !LastWithId(items, i)
      invariant 0 <= i < |items| && items[i].animeId == k
      decreases |items| - i
    {
      var j :| i < j < |items| && items[j].animeId == items[i].animeId;
      i := j;
    }
  }

  /** Two mirrors with the same ids and the same entry under each id are equal. */
  lemma SameEntries(r: LocalMyListDb, m: LocalMyListDb)
    requires forall k :: k in m ==> k in r && r[k] == m[k]
    requires forall k :: k in r ==> k in m
    ensures r == m
  {
    assert r.Keys == m.Keys by {
      forall k ensures k in r <==> k in m {
        if k in m {
          assert r[k] == m[k];
        }
      }
    }
    forall k | k in r ensures r[k] == m[k] {
      assert k in m;
    }
  }

  /** A mirror holding exactly three given entries is the three-entry map of them. */
  lemma MapOfThree(m: LocalMyListDb, k0: AnimeId, v0: MyListItem, k1: AnimeId, v1: MyListItem, k2: AnimeId, v2: MyListItem)
    requires k0 in m && m[k0] == v0 && k1 in m && m[k1] == v1 && k2 in m && m[k2] == v2
    requires forall k :: k in m ==> k == k0 || k == k1 || k == k2
    ensures m == map[k0 := v0, k1 := v1, k2 := v2]
  {
    SameEntries(m, map[k0 := v0, k1 := v1, k2 := v2]);
  }

  /** Applying the same upsert batch twice leaves the mirror as applying it once. */
  lemma UpsertIdempotent(db: LocalMyListDb, items: seq<MyListItem>)
    ensures Upsert(Upsert(db, items), items) == Upsert(db, items)
  {
    var once := Upsert(db, items);
    var twice := Upsert(once, items);
    forall k | k in once ensures twice[k] == once[k] {
      if k in Ids(items) {
        LastOccurrenceExists(items, k);
      }
    }
  }

  /** Upserting two batches one after the other is upserting their concatenation. */
  lemma UpsertConcat(db: LocalMyListDb, a: seq<MyListItem>, b: seq<MyListItem>)
    ensures Upsert(Upsert(db, a), b) == Upsert(db, a + b)
  {
    var lhs := Upsert(Upsert(db, a), b);
    var rhs := Upsert(db, a + b);
    IdsConcat(a, b);
    assert lhs.Keys == rhs.Keys;
    forall k | k in lhs ensures lhs[k] == rhs[k] {
      if k in Ids(b) {
        LaterBatchWins(db, a, b, k);
      } else if k in Ids(a) {
        EarlierBatchKept(db, a, b, k);
      }
    }
  }

  lemma IdsConcat(a: seq<MyListItem>, b: seq<MyListItem>)
    ensures Ids(a + b) == Ids(a) + Ids(b)
  {
    forall k | k in Ids(a + b) ensures k in Ids(a) + Ids(b) {
      var i :| 0 <= i < |a + b| && (a + b)[i].animeId == k;
      if i >= |a| { assert b[i - |a|].animeId == k; }
    }
    forall k | k in Ids(a) ensures k in Ids(a + b) {
      var i :| 0 <= i < |a| && a[i].animeId == k;
      assert (a + b)[i].animeId == k;
    }
    forall k | k in Ids(b) ensures k in Ids(a + b) {
      var i :| 0 <= i < |b| && b[i].animeId == k;
      assert (a + b)[|a| + i].animeId == k;
    }
  }

  lemma LaterBatchWins(db: LocalMyListDb, a: seq<MyListItem>, b: seq<MyListItem>, k: AnimeId)
    requires k in Ids(b)
    ensures k in Upsert(Upsert(db, a), b) && k in Upsert(db, a + b)
      && Upsert(Upsert(db, a), b)[k] == Upsert(db, a + b)[k]
  {
    IdsConcat(a, b);
    LastOccurrenceExists(b, k);
    var i :| 0 <= i < |b| && b[i].animeId == k && LastWithId(b, i);
    assert (a + b)[|a| + i] == b[i];
    assert LastWithId(a + b, |a| + i) by {
      forall j | |a| + i < j < |a + b| ensures (a + b)[j].animeId != k {
        assert (a + b)[j] == b[j - |a|];
      }
    }
  }

  lemma EarlierBatchKept(db: LocalMyListDb, a: seq<MyListItem>, b: seq<MyListItem>, k: AnimeId)
    requires k in Ids(a) && k !in Ids(b)
    ensures k in Upsert(Upsert(db, a), b) && k in Upsert(db, a + b)
      && Upsert(Upsert(db, a), b)[k] == Upsert(db, a + b)[k]
  {
    IdsConcat(a, b);
    LastOccurrenceExists(a, k);
    var i :| 0 <= i < |a| && a[i].animeId == k && LastWithId(a, i);
    assert (a + b)[i] == a[i];
    assert LastWithId(a + b, i) by {
      forall j | i < j < |a + b| ensures (a + b)[j].animeId != k {
        if j >= |a| {
          assert (a + b)[j] == b[j - |a|];
        }
      }
    }
  }

  /**
   Upserting into an empty mirror a batch made only of the entries of `m`,
   each of them at least once, in any order, gives `m`.
   */
  lemma UpsertOfEntries(items: seq<MyListItem>, m: map<AnimeId, MyListItem>)
    requires KeyedItems(m)
    requires forall x :: x in items ==> x.animeId in m && m[x.animeId] == x
    requires forall k :: k in m ==> m[k] in items
    ensures Upsert(map[], items) == m
  {
    var r := Upsert(map[], items);
    forall k | k in m ensures k in Ids(items) {
      var i :| 0 <= i < |items| && items[i] == m[k];
    }
    assert r.Keys == m.Keys;
    forall k | k in r ensures r[k] == m[k] {
      LastOccurrenceExists(items, k);
    }
  }

  /** Upserting the whole id-ordered listing of a keyed store into an empty mirror reproduces the store. */
  lemma UpsertListing(db: ApiServerDb)
    requires KeyedItems(db.live)
    ensures Upsert(map[], MyListItems(db)) == db.live
  {
    ListedAreLive(db);
    UpsertOfEntries(MyListItems(db), db.live);
  }

  /** Applying the same delete batch twice leaves the mirror as applying it once. */
  lemma DeleteIdempotent(db: LocalMyListDb, animeIds: seq<AnimeId>)
    ensures Delete(Delete(db, animeIds), animeIds) == Delete(db, animeIds)
  {
    var once := Delete(db, animeIds);
    assert Delete(once, animeIds).Keys == once.Keys;
  }

  /** Whichever ids the last element of a bulk page with that id describes. */
  ghost predicate LastSyncWithId(items: seq<SyncItem>, i: int)
    requires 0 <= i < |items|
  {
    forall j :: i < j < |items| ==> items[j].animeId != items[i].animeId
  }

  function SyncIds(items: seq<SyncItem>): set<AnimeId> {
    set i | 0 <= i < |items| :: items[i].animeId
  }

  /** The live entry a bulk page item stands for; a bulk page carries no score. */
  function ToMyListItem(item: SyncItem): MyListItem {
    MyListItem(item.animeId, item.modifiedAt, DefaultScore)
  }

  /**
   `upsertOrDelete(items)` of the bulk-page tests: in page order, a tombstone
   item deletes its id and a live item upserts it. The last item with an id
   decides that id's fate; other ids are untouched.
   */
  function UpsertOrDelete(db: LocalMyListDb, items: seq<SyncItem>): (r: LocalMyListDb)
    ensures forall i :: 0 <= i < |items| && LastSyncWithId(items, i) && items[i].isDeleted ==>
      items[i].animeId !in r
    ensures forall i :: 0 <= i < |items| && LastSyncWithId(items, i) && !items[i].isDeleted ==>
      items[i].animeId in r && r[items[i].animeId] == ToMyListItem(items[i])
    ensures forall k :: k !in SyncIds(items) ==> (k in r <==> k in db)
    ensures forall k :: k !in SyncIds(items) && k in db ==> r[k] == db[k]
    decreases |items|
  {
    if |items| == 0 then db
    else
      var item := items[0];
      var next := if item.isDeleted then Delete(db, [item.animeId]) else Upsert(db, [ToMyListItem(item)]);
      assert IdSet([item.animeId]) == {item.animeId} by {
        assert [item.animeId][0] == item.animeId;
      }
      assert Ids([ToMyListItem(item)]) == {item.animeId} by {
        assert [ToMyListItem(item)][0].animeId == item.animeId;
      }
      assert LastWithId([ToMyListItem(item)], 0);
      assert SyncIds(items) == {item.animeId} + SyncIds(items[1..]) by {
        forall k | k in SyncIds(items) ensures k in {item.animeId} + SyncIds(items[1..]) {
          var i :| 0 <= i < |items| && items[i].animeId == k;
          if i > 0 { assert items[1..][i - 1] == items[i]; }
        }
      }
      assert forall i :: 0 < i < |items| && LastSyncWithId(items, i) ==> LastSyncWithId(items[1..], i - 1);
      assert LastSyncWithId(items, 0) ==> item.animeId !in SyncIds(items[1..]);
      UpsertOrDelete(next, items[1..])
  }
}

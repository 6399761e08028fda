/**
 The pseudo server's store (`ApiServerDb`): live list entries and tombstones,
 each keyed by anime id, plus the server clock `now`. common.kt's store has
 no clock; the id-cursor and score-ordered tests set `serverDb.now`, so the
 field is an assumption taken from those tests.
 */
module ServerDb {
  import opened Lists
  import opened Common
  import opened ConsistentPaging

  datatype ApiServerDb = ApiServerDb(
    live: map<AnimeId, MyListItem>,
    deleted: map<AnimeId, DeletedMyListItem>,
    now: Timestamp)

  /**
   Every reachable store: entries sit under their own id, and no id is both
   live and tombstoned.
   */
  ghost predicate Valid(db: ApiServerDb) {
    && KeyedItems(db.live)
    && KeyedTombstones(db.deleted)
    && db.live.Keys !! db.deleted.Keys
  }

  /** `myListItems`: the live entries ordered by anime id. */
  function MyListItems(db: ApiServerDb): (r: seq<MyListItem>)
    ensures |r| == |db.live|
    ensures forall k :: k in db.live ==> db.live[k] in r
    ensures KeyedItems(db.live) ==>
      forall i :: 0 <= i < |r| ==> r[i].animeId in db.live && db.live[r[i].animeId] == r[i]
    ensures KeyedItems(db.live) ==> StrictlySortedBy(r, ItemId)
  {
    ItemsListed(db.live);
    ValuesAt(db.live, AscendingIds(db.live.Keys))
  }

  lemma ItemsListed(m: map<AnimeId, MyListItem>)
    ensures var r := ValuesAt(m, AscendingIds(m.Keys));
      && |r| == |m|
      && (forall k :: k in m ==> m[k] in r)
      && (KeyedItems(m) ==> forall i :: 0 <= i < |r| ==> r[i].animeId in m && m[r[i].animeId] == r[i])
      && (KeyedItems(m) ==> StrictlySortedBy(r, ItemId))
  {
    EveryValueListed(m);
    ItemsUnderIds(m);
    ItemsInIdOrder(m);
  }

  lemma ItemsUnderIds(m: map<AnimeId, MyListItem>)
    ensures var r := ValuesAt(m, AscendingIds(m.Keys));
      KeyedItems(m) ==> forall i :: 0 <= i < |r| ==> r[i].animeId in m && m[r[i].animeId] == r[i]
  {
    if KeyedItems(m) {
      assert forall k :: k in m ==> ItemId(m[k]) == k;
      ListedInKeyOrder(m, ItemId);
    }
  }

  lemma ItemsInIdOrder(m: map<AnimeId, MyListItem>)
    ensures KeyedItems(m) ==> StrictlySortedBy(ValuesAt(m, AscendingIds(m.Keys)), ItemId)
  {
    if KeyedItems(m) {
      assert forall k :: k in m ==> ItemId(m[k]) == k;
      ListedInKeyOrder(m, ItemId);
    }
  }

  /** `deletedMyListItems`: the tombstones ordered by anime id. */
  function DeletedMyListItems(db: ApiServerDb): (r: seq<DeletedMyListItem>)
    ensures |r| == |db.deleted|
    ensures forall k :: k in db.deleted ==> db.deleted[k] in r
    ensures KeyedTombstones(db.deleted) ==>
      forall i :: 0 <= i < |r| ==> r[i].animeId in db.deleted && db.deleted[r[i].animeId] == r[i]
    ensures KeyedTombstones(db.deleted) ==> StrictlySortedBy(r, TombstoneId)
  {
    TombstonesListed(db.deleted);
    ValuesAt(db.deleted, AscendingIds(db.deleted.Keys))
  }

  lemma TombstonesListed(m: map<AnimeId, DeletedMyListItem>)
    ensures var r := ValuesAt(m, AscendingIds(m.Keys));
      && |r| == |m|
      && (forall k :: k in m ==> m[k] in r)
      && (KeyedTombstones(m) ==> forall i :: 0 <= i < |r| ==> r[i].animeId in m && m[r[i].animeId] == r[i])
      && (KeyedTombstones(m) ==> StrictlySortedBy(r, TombstoneId))
  {
    EveryValueListed(m);
    TombstonesUnderIds(m);
    TombstonesInIdOrder(m);
  }

  lemma TombstonesUnderIds(m: map<AnimeId, DeletedMyListItem>)
    ensures var r := ValuesAt(m, AscendingIds(m.Keys));
      KeyedTombstones(m) ==> forall i :: 0 <= i < |r| ==> r[i].animeId in m && m[r[i].animeId] == r[i]
  {
    if KeyedTombstones(m) {
      assert forall k :: k in m ==> TombstoneId(m[k]) == k;
      ListedInKeyOrder(m, TombstoneId);
    }
  }

  lemma TombstonesInIdOrder(m: map<AnimeId, DeletedMyListItem>)
    ensures KeyedTombstones(m) ==> StrictlySortedBy(ValuesAt(m, AscendingIds(m.Keys)), TombstoneId)
  {
    if KeyedTombstones(m) {
      assert forall k :: k in m ==> TombstoneId(m[k]) == k;
      ListedInKeyOrder(m, TombstoneId);
    }
  }

  /**
   `addMyListItems`: every added id becomes live with the last entry carrying
   it and loses its tombstone; every other id keeps its state.
   */
  function AddMyListItems(db: ApiServerDb, items: seq<MyListItem>): (r: ApiServerDb)
    ensures r.live.Keys == db.live.Keys + Ids(items)
    ensures forall i :: 0 <= i < |items| && LastWithId(items, i) ==> r.live[items[i].animeId] == items[i]
    ensures forall k :: k in db.live && k !in Ids(items) ==> r.live[k] == db.live[k]
    ensures r.deleted.Keys == db.deleted.Keys - Ids(items)
    ensures forall k :: k in r.deleted ==> r.deleted[k] == db.deleted[k]
    ensures r.now == db.now
    ensures Valid(db) ==> Valid(r)
  {
    ApiServerDb(PutAll(db.live, items), db.deleted - Ids(items), db.now)
  }

  /** `reset`: the store holds exactly `items` and no tombstones. */
  function Reset(db: ApiServerDb, items: seq<MyListItem>): (r: ApiServerDb)
    ensures r.live.Keys == Ids(items)
    ensures forall i :: 0 <= i < |items| && LastWithId(items, i) ==> r.live[items[i].animeId] == items[i]
    ensures r.deleted == map[]
    ensures r.now == db.now
    ensures Valid(r)
  {
    AddMyListItems(ApiServerDb(map[], map[], db.now), items)
  }

  /**
   `deleteMyListItem`: `animeId` stops being live and gets a tombstone dated
   `now`, whether or not it was live before; every other id keeps its state.
   */
  function DeleteMyListItem(db: ApiServerDb, animeId: AnimeId, now: Timestamp): (r: ApiServerDb)
    ensures animeId !in r.live
    ensures animeId in r.deleted && r.deleted[animeId] == DeletedMyListItem(animeId, now)
    ensures forall k :: k != animeId ==> (k in r.live <==> k in db.live)
    ensures forall k :: k != animeId && k in db.live ==> r.live[k] == db.live[k]
    ensures forall k :: k != animeId ==> (k in r.deleted <==> k in db.deleted)
    ensures forall k :: k != animeId && k in db.deleted ==> r.deleted[k] == db.deleted[k]
    ensures r.now == db.now
    ensures Valid(db) ==> Valid(r)
  {
    ApiServerDb(db.live - {animeId}, db.deleted[animeId := DeletedMyListItem(animeId, now)], db.now)
  }

  /** `getDeletedMyListItem`: the tombstones dated after `deletedSince`, by anime id. */
  function GetDeletedMyListItem(db: ApiServerDb, deletedSince: Timestamp): (r: seq<DeletedMyListItem>)
    ensures forall i :: 0 <= i < |r| ==> HeldIn(r[i], db.deleted) && r[i].deletedAt > deletedSince
    ensures forall k :: k in db.deleted && db.deleted[k].deletedAt > deletedSince ==> db.deleted[k] in r
    ensures KeyedTombstones(db.deleted) ==> StrictlySortedBy(r, TombstoneId)
  {
    var r := Candidates(DeletedMyListItems(db), TombstoneModifiedAt, deletedSince);
    RecentTombstonesListed(db, deletedSince, r);
    r
  }

  lemma RecentTombstonesListed(db: ApiServerDb, since: Timestamp, r: seq<DeletedMyListItem>)
    requires r == Candidates(DeletedMyListItems(db), TombstoneModifiedAt, since)
    ensures forall i :: 0 <= i < |r| ==> HeldIn(r[i], db.deleted) && r[i].deletedAt > since
    ensures forall k :: k in db.deleted && db.deleted[k].deletedAt > since ==> db.deleted[k] in r
    ensures KeyedTombstones(db.deleted) ==> StrictlySortedBy(r, TombstoneId)
  {
    forall i | 0 <= i < |r| ensures HeldIn(r[i], db.deleted) {
      ListedTombstoneIsStored(db, since, r, i);
    }
    forall k | k in db.deleted && db.deleted[k].deletedAt > since ensures db.deleted[k] in r {
      StoredTombstoneIsListed(db, since, r, k);
    }
    if KeyedTombstones(db.deleted) {
      FilterKeepsStrictOrder(DeletedMyListItems(db), ModifiedAfter(TombstoneModifiedAt, since), TombstoneId);
    }
  }

  lemma ListedTombstoneIsStored(db: ApiServerDb, since: Timestamp, r: seq<DeletedMyListItem>, i: int)
    requires r == Candidates(DeletedMyListItems(db), TombstoneModifiedAt, since)
    requires 0 <= i < |r|
    ensures HeldIn(r[i], db.deleted)
  {
    assert r[i] in DeletedMyListItems(db);
    ListedIsHeld(db.deleted, r[i]);
  }

  lemma StoredTombstoneIsListed(db: ApiServerDb, since: Timestamp, r: seq<DeletedMyListItem>, k: AnimeId)
    requires r == Candidates(DeletedMyListItems(db), TombstoneModifiedAt, since)
    requires k in db.deleted && db.deleted[k].deletedAt > since
    ensures db.deleted[k] in r
  {
    var dead := DeletedMyListItems(db);
    var j :| 0 <= j < |dead| && dead[j] == db.deleted[k];
  }

  /** A store whose live ids are exactly the increasing `ks` lists its entries in that order. */
  lemma LiveListedAs(db: ApiServerDb, ks: seq<AnimeId>)
    requires forall i :: 0 <= i < |ks| ==> ks[i] in db.live
    requires forall k :: k in db.live ==> k in ks
    requires forall i, j :: 0 <= i < j < |ks| ==> ks[i] < ks[j]
    ensures MyListItems(db) == ValuesAt(db.live, ks)
  {
    AscendingIdsUnique(db.live.Keys, ks);
  }

  /** A store whose tombstoned ids are exactly the increasing `ks` lists its tombstones in that order. */
  lemma TombstonesListedAs(db: ApiServerDb, ks: seq<AnimeId>)
    requires forall i :: 0 <= i < |ks| ==> ks[i] in db.deleted
    requires forall k :: k in db.deleted ==> k in ks
    requires forall i, j :: 0 <= i < j < |ks| ==> ks[i] < ks[j]
    ensures DeletedMyListItems(db) == ValuesAt(db.deleted, ks)
  {
    AscendingIdsUnique(db.deleted.Keys, ks);
  }

  /** A store holding three tombstones under increasing ids lists them in that order. */
  lemma ThreeTombstonesListed(db: ApiServerDb, x0: DeletedMyListItem, x1: DeletedMyListItem, x2: DeletedMyListItem)
    requires x0.animeId < x1.animeId < x2.animeId
    requires db.deleted == map[x0.animeId := x0, x1.animeId := x1, x2.animeId := x2]
    ensures DeletedMyListItems(db) == [x0, x1, x2]
  {
    TombstonesListedAs(db, [x0.animeId, x1.animeId, x2.animeId]);
    ValuesAtThree(db.deleted, x0.animeId, x1.animeId, x2.animeId);
  }

  /** Every listed entry is the live entry stored under its own id. */
  lemma ListedAreLive(db: ApiServerDb)
    requires KeyedItems(db.live)
    ensures forall x :: x in MyListItems(db) ==> x.animeId in db.live && db.live[x.animeId] == x
  {
    var all := MyListItems(db);
    forall x | x in all ensures x.animeId in db.live && db.live[x.animeId] == x {
      var i :| 0 <= i < |all| && all[i] == x;
    }
  }

  /** The deleted feed after `since` takes its tombstones from the id-ordered listing. */
  lemma FeedFromListing(db: ApiServerDb, since: Timestamp)
    ensures forall x :: x in GetDeletedMyListItem(db, since) ==> x in DeletedMyListItems(db) && x.deletedAt > since
  {
    FeedPositionsFromListing(db, since);
  }

  lemma FeedPositionsFromListing(db: ApiServerDb, since: Timestamp)
    ensures var feed := GetDeletedMyListItem(db, since);
      forall i :: 0 <= i < |feed| ==> feed[i] in DeletedMyListItems(db) && feed[i].deletedAt > since
  {
    assert GetDeletedMyListItem(db, since) == Candidates(DeletedMyListItems(db), TombstoneModifiedAt, since);
  }

  /** Every tombstone the feed after `since` lists is the one stored under its own id. */
  lemma FeedIsTombstoned(db: ApiServerDb, since: Timestamp)
    requires KeyedTombstones(db.deleted)
    ensures forall x :: x in GetDeletedMyListItem(db, since) ==>
      x.animeId in db.deleted && db.deleted[x.animeId] == x && x.deletedAt > since
  {
    var feed := GetDeletedMyListItem(db, since);
    forall x | x in feed ensures x.animeId in db.deleted && db.deleted[x.animeId] == x && x.deletedAt > since {
      var i :| 0 <= i < |feed| && feed[i] == x;
      assert HeldIn(feed[i], db.deleted);
    }
  }

  /** A store holding all of the distinct-id `items` and no more entries than them holds nothing else. */
  lemma EveryKeyListed(db: ApiServerDb, items: seq<MyListItem>)
    requires StrictlySortedBy(items, ItemId)
    requires forall i :: 0 <= i < |items| ==> items[i].animeId in db.live
    requires |db.live| == |items|
    ensures db.live.Keys == Keys(items, ItemId)
  {
    assert Keys(items, ItemId) <= db.live.Keys;
    StrictKeysCount(items, ItemId);
    assert |db.live.Keys - Keys(items, ItemId)| == 0;
  }

  /** A freshly constructed `ApiServerDb()`: no entries, no tombstones, clock at zero. */
  const EmptyServerDb: ApiServerDb := ApiServerDb(map[], map[], 0)

  /**
   A store holding as many live entries as `items`, all of them, listed with
   increasing ids, lists exactly `items`.
   */
  lemma ListedExactly(db: ApiServerDb, items: seq<MyListItem>)
    requires StrictlySortedBy(items, ItemId)
    requires forall i :: 0 <= i < |items| ==> items[i].animeId in db.live && db.live[items[i].animeId] == items[i]
    requires |db.live| == |items|
    ensures MyListItems(db) == items
  {
    var ks := Map(items, ItemId);
    assert forall k :: k in db.live ==> k in ks by {
      EveryKeyListed(db, items);
      forall k | k in db.live ensures k in ks {
        var i :| 0 <= i < |items| && ItemId(items[i]) == k;
        assert ks[i] == k;
      }
    }
    assert forall i :: 0 <= i < |ks| ==> ks[i] in db.live;
    assert forall i, j :: 0 <= i < j < |ks| ==> ks[i] < ks[j];
    LiveListedAs(db, ks);
    ValuesAtOwnIds(db.live, items);
  }

  /** Resetting a store to entries with increasing ids makes it list exactly those entries. */
  lemma ResetLists(db: ApiServerDb, items: seq<MyListItem>)
    requires StrictlySortedBy(items, ItemId)
    ensures MyListItems(Reset(db, items)) == items
  {
    var r := Reset(db, items);
    forall i | 0 <= i < |items| ensures items[i].animeId in r.live && r.live[items[i].animeId] == items[i] {
      assert LastWithId(items, i);
    }
    assert |r.live| == |items| by {
      assert Ids(items) == Keys(items, ItemId);
      StrictKeysCount(items, ItemId);
      assert |r.live.Keys| == |Ids(items)|;
    }
    ListedExactly(r, items);
  }

  /** The deleted feed never lists more tombstones than the store holds. */
  lemma FeedWithinStore(db: ApiServerDb, deletedSince: Timestamp)
    requires Valid(db)
    ensures |GetDeletedMyListItem(db, deletedSince)| <= |db.deleted|
  {
    var feed := GetDeletedMyListItem(db, deletedSince);
    StrictKeysCount(feed, TombstoneId);
    forall k | k in Keys(feed, TombstoneId) ensures k in db.deleted.Keys {
      var i :| 0 <= i < |feed| && TombstoneId(feed[i]) == k;
      assert HeldIn(feed[i], db.deleted);
    }
    SubsetSize(Keys(feed, TombstoneId), db.deleted.Keys);
  }

  /** The live ids are exactly the ids the list shows. */
  lemma LiveIdsListed(db: ApiServerDb)
    requires KeyedItems(db.live)
    ensures db.live.Keys == Ids(MyListItems(db))
  {
    var all := MyListItems(db);
    forall k | k in db.live ensures k in Ids(all) {
      var i :| 0 <= i < |all| && all[i] == db.live[k];
    }
  }

  /** The test `it.animeId != animeId`. */
  function OtherThan(animeId: AnimeId): MyListItem -> bool {
    (x: MyListItem) => x.animeId != animeId
  }

  /** Deleting `animeId` takes exactly its entry out of the id-ordered list and keeps the order of the rest. */
  lemma DeleteUnlists(db: ApiServerDb, animeId: AnimeId, now: Timestamp)
    requires Valid(db)
    ensures MyListItems(DeleteMyListItem(db, animeId, now)) == Filter(MyListItems(db), OtherThan(animeId))
  {
    var r := DeleteMyListItem(db, animeId, now);
    var items := Filter(MyListItems(db), OtherThan(animeId));
    FilterKeepsStrictOrder(MyListItems(db), OtherThan(animeId), ItemId);
    RemainingStillLive(db, animeId, now, items);
    LiveStillListed(db, animeId, now, items);
    ListedCovering(r, items);
  }

  /** A store whose live ids are exactly those of `items`, listed with increasing ids and stored as given, lists exactly `items`. */
  lemma ListedCovering(db: ApiServerDb, items: seq<MyListItem>)
    requires StrictlySortedBy(items, ItemId)
    requires forall i :: 0 <= i < |items| ==> items[i].animeId in db.live && db.live[items[i].animeId] == items[i]
    requires forall k :: k in db.live ==> k in Map(items, ItemId)
    ensures MyListItems(db) == items
  {
    var ks := Map(items, ItemId);
    IdsOfStored(db, items, ks);
    LiveListedAs(db, ks);
    ValuesAtOwnIds(db.live, items);
  }

  lemma IdsOfStored(db: ApiServerDb, items: seq<MyListItem>, ks: seq<AnimeId>)
    requires StrictlySortedBy(items, ItemId) && ks == Map(items, ItemId)
    requires forall i :: 0 <= i < |items| ==> items[i].animeId in db.live
    ensures forall i :: 0 <= i < |ks| ==> ks[i] in db.live
    ensures forall i, j :: 0 <= i < j < |ks| ==> ks[i] < ks[j]
  {
  }

  lemma RemainingStillLive(db: ApiServerDb, animeId: AnimeId, now: Timestamp, items: seq<MyListItem>)
    requires Valid(db)
    requires items == Filter(MyListItems(db), OtherThan(animeId))
    ensures forall i :: 0 <= i < |items| ==>
      items[i].animeId in DeleteMyListItem(db, animeId, now).live
      && DeleteMyListItem(db, animeId, now).live[items[i].animeId] == items[i]
  {
    var all := MyListItems(db);
    forall i | 0 <= i < |items|
      ensures items[i].animeId in db.live && db.live[items[i].animeId] == items[i]
    {
      var j :| 0 <= j < |all| && all[j] == items[i];
    }
  }

  lemma LiveStillListed(db: ApiServerDb, animeId: AnimeId, now: Timestamp, items: seq<MyListItem>)
    requires Valid(db)
    requires items == Filter(MyListItems(db), OtherThan(animeId))
    ensures forall k :: k in DeleteMyListItem(db, animeId, now).live ==> k in Map(items, ItemId)
  {
    var all := MyListItems(db);
    var ks := Map(items, ItemId);
    forall k | k in DeleteMyListItem(db, animeId, now).live ensures k in ks {
      var j :| 0 <= j < |all| && all[j] == db.live[k];
      assert OtherThan(animeId)(all[j]);
      var i :| 0 <= i < |items| && items[i] == all[j];
      assert ks[i] == k;
    }
  }

  /**
   The store `ApiServerDb(items)` that the id-cursor and score-ordered tests
   build. `ApiServerDb` in common.kt has no such constructor; this is an
   assumption: the store as `reset(items)` leaves it, with its clock at 0.
   */
  function NewServerDb(items: seq<MyListItem>): (r: ApiServerDb)
    ensures r.live.Keys == Ids(items)
    ensures forall i :: 0 <= i < |items| && LastWithId(items, i) ==> r.live[items[i].animeId] == items[i]
    ensures r.deleted == map[]
    ensures Valid(r)
  {
    Reset(ApiServerDb(map[], map[], 0), items)
  }

  /**
   `addMyListItem(animeId, now)`, which the id-cursor test calls but common.kt
   does not define. Assumed: a fresh entry for `animeId` modified at `now`,
   scored `DefaultScore`, put as `addMyListItems` puts entries.
   */
  function AddMyListItem(db: ApiServerDb, animeId: AnimeId, now: Timestamp): (r: ApiServerDb)
    ensures animeId in r.live && r.live[animeId] == MyListItem(animeId, now, DefaultScore)
    ensures animeId !in r.deleted
    ensures forall k :: k != animeId ==> (k in r.live <==> k in db.live) && (k in r.deleted <==> k in db.deleted)
    ensures forall k :: k != animeId && k in db.live ==> r.live[k] == db.live[k]
    ensures forall k :: k in r.deleted ==> r.deleted[k] == db.deleted[k]
    ensures Valid(db) ==> Valid(r)
  {
    var items := [MyListItem(animeId, now, DefaultScore)];
    assert LastWithId(items, 0);
    assert Ids(items) == {animeId} by {
      assert items[0].animeId == animeId;
    }
    AddMyListItems(db, items)
  }

  /**
   `update(item)`, which the score-ordered test calls but common.kt does not
   define. Assumed: `item` replaces the live entry with its id, as
   `addMyListItems` puts entries.
   */
  function Update(db: ApiServerDb, item: MyListItem): (r: ApiServerDb)
    ensures item.animeId in r.live && r.live[item.animeId] == item
    ensures item.animeId !in r.deleted
    ensures forall k :: k != item.animeId ==> (k in r.live <==> k in db.live) && (k in r.deleted <==> k in db.deleted)
    ensures forall k :: k != item.animeId && k in db.live ==> r.live[k] == db.live[k]
    ensures forall k :: k in r.deleted ==> r.deleted[k] == db.deleted[k]
    ensures Valid(db) ==> Valid(r)
  {
    var items := [item];
    assert LastWithId(items, 0);
    assert Ids(items) == {item.animeId} by {
      assert items[0].animeId == item.animeId;
    }
    AddMyListItems(db, items)
  }
}

/**
 Proposal 1: the full list paged by offset or by update time, plus a feed of
 deleted ids paged by deletion time.
 */
module Proposal1 {
  import opened Wrappers
  import opened Lists
  import opened SmallLists
  import opened Common
  import opened ServerDb
  import opened LocalDb
  import opened ConsistentPaging
  import opened Diff
  import opened AnimeIds

  /** `MyListWithOffsetResponse`: `next` carries the offset of the following page. */
  datatype MyListWithOffsetResponse = MyListWithOffsetResponse(data: seq<MyListItem>, next: Option<nat>)

  /** `MyListWithUpdatedSinceResponse`: `next` carries `latestUpdatedAt`. */
  datatype MyListWithUpdatedSinceResponse = MyListWithUpdatedSinceResponse(data: seq<MyListItem>, next: Option<Timestamp>)

  /** `DeletedUserListResponse`: `next` carries `latestDeletedAt`. */
  datatype DeletedUserListResponse = DeletedUserListResponse(data: seq<AnimeId>, next: Option<Timestamp>)

  /**
   `get_users_me_animelist(offset, limit)`: the slice of the id-ordered list
   starting at `offset`, at most `limit` long, with a next offset exactly
   when the list goes on past the slice.
   */
  function OffsetPage(db: ApiServerDb, offset: nat, limit: nat): (r: MyListWithOffsetResponse)
    ensures var all := MyListItems(db); r.data == all[Min(offset, |all|)..Min(offset + limit, |all|)]
    ensures r.next.Some? <==> offset + limit < |MyListItems(db)|
    ensures r.next.Some? ==> r.next.value == offset + limit
  {
    var resultItems := Take(Drop(MyListItems(db), offset), limit + 1);
    var hasNext := |resultItems| > limit;
    TakeOfDrop(MyListItems(db), offset, limit + 1);
    TakeOfDrop(MyListItems(db), offset, limit);
    TakeOfTake(Drop(MyListItems(db), offset), limit + 1, limit);
    MyListWithOffsetResponse(Take(resultItems, limit), if hasNext then Some(offset + limit) else None)
  }

  /**
   The client loop of the offset tests: upsert each page into the mirror and
   follow `next` until there is none. A `limit` of zero would repeat the
   same offset forever.
   */
  function OffsetSync(mirror: LocalMyListDb, db: ApiServerDb, offset: nat, limit: nat): LocalMyListDb
    requires limit > 0
    decreases Remaining(db, offset)
  {
    var page := OffsetPage(db, offset, limit);
    var next := Upsert(mirror, page.data);
    if page.next.Some? then OffsetSync(next, db, page.next.value, limit) else next
  }

  /** On an unchanging store the offset loop upserts the rest of the list from `offset` on. */
  lemma {:induction false} OffsetSyncUpsertsRest(mirror: LocalMyListDb, db: ApiServerDb, offset: nat, limit: nat)
    requires limit > 0
    ensures OffsetSync(mirror, db, offset, limit) == Upsert(mirror, Drop(MyListItems(db), offset))
    decreases Remaining(db, offset)
  {
    var all := MyListItems(db);
    var page := OffsetPage(db, offset, limit);
    if page.next.Some? {
      var m := Upsert(mirror, page.data);
      var next := offset + limit;
      OffsetSyncStep(mirror, db, offset, limit);
      OffsetProgress(db, offset, limit);
      OffsetSyncUpsertsRest(m, db, next, limit);
      UpsertConcat(mirror, page.data, Drop(all, next));
      OffsetPageThenRest(db, offset, limit);
    } else {
      OffsetSyncLast(mirror, db, offset, limit);
    }
  }

  /** One step of the offset loop, when the page has a next one: the loop goes on at the offset the page names. */
  lemma OffsetSyncStep(mirror: LocalMyListDb, db: ApiServerDb, offset: nat, limit: nat)
    requires limit > 0
    requires OffsetPage(db, offset, limit).next.Some?
    ensures OffsetSync(mirror, db, offset, limit)
      == OffsetSync(Upsert(mirror, OffsetPage(db, offset, limit).data), db, OffsetPage(db, offset, limit).next.value, limit)
  {
  }

  /** A page with a next one leaves fewer entries for the rest of the loop. */
  lemma OffsetProgress(db: ApiServerDb, offset: nat, limit: nat)
    requires limit > 0
    requires OffsetPage(db, offset, limit).next.Some?
    ensures Remaining(db, offset + limit) < Remaining(db, offset)
  {
    assert offset + limit < |MyListItems(db)|;
  }

  /** The last step of the offset loop upserts the rest of the list. */
  lemma OffsetSyncLast(mirror: LocalMyListDb, db: ApiServerDb, offset: nat, limit: nat)
    requires limit > 0
    requires OffsetPage(db, offset, limit).next.None?
    ensures OffsetSync(mirror, db, offset, limit) == Upsert(mirror, Drop(MyListItems(db), offset))
  {
    assert OffsetPage(db, offset, limit).data == Drop(MyListItems(db), offset);
  }

  /** A page with a next one, followed by the rest of the list after it, is the list from `offset` on. */
  lemma OffsetPageThenRest(db: ApiServerDb, offset: nat, limit: nat)
    requires OffsetPage(db, offset, limit).next.Some?
    ensures OffsetPage(db, offset, limit).data + Drop(MyListItems(db), offset + limit) == Drop(MyListItems(db), offset)
  {
    var all := MyListItems(db);
    TakeOfDrop(all, offset, limit);
    WindowThenRest(all, offset, limit);
  }

  /** How many listed entries lie at or after `offset`. */
  function Remaining(db: ApiServerDb, offset: nat): nat {
    |MyListItems(db)| - Min(offset, |MyListItems(db)|)
  }

  /** Paging an unchanging store by offset from zero into an empty mirror copies the store's list. */
  lemma OffsetSyncOfUnchangedStore(db: ApiServerDb, limit: nat)
    requires Valid(db)
    requires limit > 0
    ensures OffsetSync(map[], db, 0, limit) == db.live
  {
    OffsetSyncUpsertsRest(map[], db, 0, limit);
    assert Drop(MyListItems(db), 0) == MyListItems(db);
    UpsertListing(db);
  }

  /** The live entries pending for a page after `updatedSince`. */
  function PendingItems(db: ApiServerDb, updatedSince: Timestamp): seq<MyListItem> {
    Candidates(MyListItems(db), ItemModifiedAt, updatedSince)
  }

  /**
   `get_users_me_animelist(updatedSince, limit)`: a consistent page of the
   list by update time, with `latestUpdatedAt` the update time of its last
   entry exactly when more entries were updated later. A `limit` of zero only
   works when nothing is pending.
   */
  function UpdatedSincePage(db: ApiServerDb, updatedSince: Timestamp, limit: nat): (r: MyListWithUpdatedSinceResponse)
    requires limit > 0 || |PendingItems(db, updatedSince)| == 0
    ensures ConsistentPage(MyListItems(db), ItemModifiedAt, updatedSince, limit, ListWithHasNext(r.data, r.next.Some?))
    ensures r.next.Some? ==> |r.data| > 0 && r.next.value == Last(r.data).updatedAt
  {
    var page := ItemsOrderByModifiedAtConsistently(MyListItems(db), ItemModifiedAt, updatedSince, limit);
    var next := if page.hasNext then Some(Last(page.items).updatedAt) else None;
    MyListWithUpdatedSinceResponse(page.items, next)
  }

  /**
   The client loop of the update-time tests: upsert each page into the
   mirror and continue after `latestUpdatedAt` until there is no next page.
   */
  function TimeSync(mirror: LocalMyListDb, db: ApiServerDb, updatedSince: Timestamp, limit: nat): LocalMyListDb
    requires limit > 0
    decreases |PendingItems(db, updatedSince)|
  {
    var page := UpdatedSincePage(db, updatedSince, limit);
    var next := Upsert(mirror, page.data);
    if page.next.Some? then
      CandidatesShrink(MyListItems(db), ItemModifiedAt, updatedSince, page.next.value, Last(page.data));
      TimeSync(next, db, page.next.value, limit)
    else
      next
  }

  /** The update-time loop upserts exactly what the generic page walk delivers. */
  lemma {:induction false} TimeSyncUpsertsScan(mirror: LocalMyListDb, db: ApiServerDb, updatedSince: Timestamp, limit: nat)
    requires limit > 0
    ensures TimeSync(mirror, db, updatedSince, limit) == Upsert(mirror, Scan(MyListItems(db), ItemModifiedAt, updatedSince, limit))
    decreases |PendingItems(db, updatedSince)|
  {
    var page := UpdatedSincePage(db, updatedSince, limit);
    if page.next.Some? {
      var t := page.next.value;
      var m := Upsert(mirror, page.data);
      var rest := Scan(MyListItems(db), ItemModifiedAt, t, limit);
      TimePageProgress(db, updatedSince, limit);
      TimeSyncStep(mirror, db, updatedSince, limit);
      TimeScanStep(db, updatedSince, limit);
      TimeSyncUpsertsScan(m, db, t, limit);
      UpsertConcat(mirror, page.data, rest);
    } else {
      TimeSyncLast(mirror, db, updatedSince, limit);
    }
  }

  /** A page with a next one makes progress: fewer entries are pending after its `latestUpdatedAt`. */
  lemma TimePageProgress(db: ApiServerDb, updatedSince: Timestamp, limit: nat)
    requires limit > 0
    requires UpdatedSincePage(db, updatedSince, limit).next.Some?
    ensures var t := UpdatedSincePage(db, updatedSince, limit).next.value;
      t > updatedSince && |PendingItems(db, t)| < |PendingItems(db, updatedSince)|
  {
    var page := UpdatedSincePage(db, updatedSince, limit);
    CandidatesShrink(MyListItems(db), ItemModifiedAt, updatedSince, page.next.value, Last(page.data));
  }

  /** One step of the loop, when the page has a next one. */
  lemma TimeSyncStep(mirror: LocalMyListDb, db: ApiServerDb, updatedSince: Timestamp, limit: nat)
    requires limit > 0
    requires UpdatedSincePage(db, updatedSince, limit).next.Some?
    ensures var page := UpdatedSincePage(db, updatedSince, limit);
      TimeSync(mirror, db, updatedSince, limit) == TimeSync(Upsert(mirror, page.data), db, page.next.value, limit)
  {
    TimePageProgress(db, updatedSince, limit);
  }

  /** One step of the walk, when the page has a next one. */
  lemma TimeScanStep(db: ApiServerDb, updatedSince: Timestamp, limit: nat)
    requires limit > 0
    requires UpdatedSincePage(db, updatedSince, limit).next.Some?
    ensures var page := UpdatedSincePage(db, updatedSince, limit);
      Scan(MyListItems(db), ItemModifiedAt, updatedSince, limit)
      == page.data + Scan(MyListItems(db), ItemModifiedAt, page.next.value, limit)
  {
    TimePageProgress(db, updatedSince, limit);
  }

  /** The last step of the loop and of the walk. */
  lemma TimeSyncLast(mirror: LocalMyListDb, db: ApiServerDb, updatedSince: Timestamp, limit: nat)
    requires limit > 0
    requires UpdatedSincePage(db, updatedSince, limit).next.None?
    ensures var page := UpdatedSincePage(db, updatedSince, limit);
      && TimeSync(mirror, db, updatedSince, limit) == Upsert(mirror, page.data)
      && Scan(MyListItems(db), ItemModifiedAt, updatedSince, limit) == page.data
  {
    TimeSyncEnds(mirror, db, updatedSince, limit);
    TimeScanEnds(db, updatedSince, limit);
  }

  lemma TimeSyncEnds(mirror: LocalMyListDb, db: ApiServerDb, updatedSince: Timestamp, limit: nat)
    requires limit > 0
    requires UpdatedSincePage(db, updatedSince, limit).next.None?
    ensures TimeSync(mirror, db, updatedSince, limit) == Upsert(mirror, UpdatedSincePage(db, updatedSince, limit).data)
  {
  }

  lemma TimeScanEnds(db: ApiServerDb, updatedSince: Timestamp, limit: nat)
    requires limit > 0
    requires UpdatedSincePage(db, updatedSince, limit).next.None?
    ensures Scan(MyListItems(db), ItemModifiedAt, updatedSince, limit) == UpdatedSincePage(db, updatedSince, limit).data
  {
  }

  /**
   Paging an unchanging store by update time into an empty mirror, starting
   before every entry's update time, copies the store's list.
   */
  lemma TimeSyncOfUnchangedStore(db: ApiServerDb, updatedSince: Timestamp, limit: nat)
    requires Valid(db)
    requires limit > 0
    requires forall k :: k in db.live ==> db.live[k].updatedAt > updatedSince
    ensures TimeSync(map[], db, updatedSince, limit) == db.live
  {
    var scan := Scan(MyListItems(db), ItemModifiedAt, updatedSince, limit);
    assert TimeSync(map[], db, updatedSince, limit) == Upsert(map[], scan) by {
      TimeSyncUpsertsScan(map[], db, updatedSince, limit);
    }
    assert Upsert(map[], scan) == db.live by {
      ScannedAreLive(db, updatedSince, limit, scan);
      LiveAreScanned(db, updatedSince, limit, scan);
      UpsertOfEntries(scan, db.live);
    }
  }

  lemma ScannedAreLive(db: ApiServerDb, updatedSince: Timestamp, limit: nat, scan: seq<MyListItem>)
    requires Valid(db)
    requires limit > 0
    requires scan == Scan(MyListItems(db), ItemModifiedAt, updatedSince, limit)
    ensures forall x :: x in scan ==> x.animeId in db.live && db.live[x.animeId] == x
  {
    var all := MyListItems(db);
    ListedAreLive(db);
    ScanCovers(all, ItemModifiedAt, updatedSince, limit);
  }

  lemma LiveAreScanned(db: ApiServerDb, updatedSince: Timestamp, limit: nat, scan: seq<MyListItem>)
    requires limit > 0
    requires forall k :: k in db.live ==> db.live[k].updatedAt > updatedSince
    requires scan == Scan(MyListItems(db), ItemModifiedAt, updatedSince, limit)
    ensures forall k :: k in db.live ==> db.live[k] in scan
  {
    var all := MyListItems(db);
    assert forall k :: k in db.live ==> db.live[k] in all && ItemModifiedAt(db.live[k]) > updatedSince;
    ScanCovers(all, ItemModifiedAt, updatedSince, limit);
  }

  /**
   `get_users_me_animelist_deleted(deletedSince, limit)`: the ids of the
   first `limit` tombstones dated after `deletedSince`, in id order. When
   more remain, `latestDeletedAt` is the deletion time of the first tombstone
   NOT returned, and tombstones are ordered by id rather than by time.
   */
  function DeletedPage(db: ApiServerDb, deletedSince: Timestamp, limit: nat): (r: DeletedUserListResponse)
    ensures var feed := GetDeletedMyListItem(db, deletedSince);
      && |r.data| == Min(limit, |feed|)
      && (forall i :: 0 <= i < |r.data| ==> r.data[i] == feed[i].animeId)
    ensures r.next.Some? <==> |GetDeletedMyListItem(db, deletedSince)| > limit
    ensures r.next.Some? ==> r.next.value == GetDeletedMyListItem(db, deletedSince)[limit].deletedAt
  {
    FeedPage(GetDeletedMyListItem(db, deletedSince), limit)
  }

  /** The page `DeletedPage` cuts from a feed of tombstones. */
  function FeedPage(feed: seq<DeletedMyListItem>, limit: nat): (r: DeletedUserListResponse)
    ensures |r.data| == Min(limit, |feed|)
    ensures forall i :: 0 <= i < |r.data| ==> r.data[i] == feed[i].animeId
    ensures r.next.Some? <==> |feed| > limit
    ensures r.next.Some? ==> r.next.value == feed[limit].deletedAt
  {
    var items := Take(feed, limit + 1);
    var hasNext := |items| > limit;
    var next := if hasNext then Some(Last(items).deletedAt) else None;
    DeletedUserListResponse(Map(Take(items, limit), TombstoneId), next)
  }

  /** Every id on a deleted-feed page of a consistent store is tombstoned after `deletedSince`. */
  lemma DeletedPageIdsTombstoned(db: ApiServerDb, deletedSince: Timestamp, limit: nat)
    requires Valid(db)
    ensures var r := DeletedPage(db, deletedSince, limit);
      forall i :: 0 <= i < |r.data| ==> r.data[i] in db.deleted && db.deleted[r.data[i]].deletedAt > deletedSince
  {
    FeedIsTombstoned(db, deletedSince);
    FeedPageIdsStored(GetDeletedMyListItem(db, deletedSince), limit, db.deleted, deletedSince);
  }

  lemma FeedPageIdsStored(feed: seq<DeletedMyListItem>, limit: nat, m: map<AnimeId, DeletedMyListItem>, since: Timestamp)
    requires forall x :: x in feed ==> x.animeId in m && m[x.animeId] == x && x.deletedAt > since
    ensures var r := FeedPage(feed, limit);
      forall i :: 0 <= i < |r.data| ==> r.data[i] in m && m[r.data[i]].deletedAt > since
  {
    var r := FeedPage(feed, limit);
    forall i | 0 <= i < |r.data| ensures r.data[i] in m && m[r.data[i]].deletedAt > since {
      assert feed[i] in feed;
    }
  }

  /** A deleted-feed page with a next one leaves fewer tombstones after its `latestDeletedAt`. */
  lemma DeletedPageProgress(db: ApiServerDb, deletedSince: Timestamp, limit: nat)
    requires DeletedPage(db, deletedSince, limit).next.Some?
    ensures var t := DeletedPage(db, deletedSince, limit).next.value;
      t > deletedSince && |GetDeletedMyListItem(db, t)| < |GetDeletedMyListItem(db, deletedSince)|
  {
    var feed := GetDeletedMyListItem(db, deletedSince);
    var t := feed[limit].deletedAt;
    assert feed[limit] in DeletedMyListItems(db);
    CandidatesShrink(DeletedMyListItems(db), TombstoneModifiedAt, deletedSince, t, feed[limit]);
  }

  /** The ids a client collects following the deleted feed's `next` on an unchanging store. */
  function DeletedWalk(db: ApiServerDb, deletedSince: Timestamp, limit: nat): seq<AnimeId>
    decreases |GetDeletedMyListItem(db, deletedSince)|
  {
    var page := DeletedPage(db, deletedSince, limit);
    if page.next.Some? then
      DeletedPageProgress(db, deletedSince, limit);
      page.data + DeletedWalk(db, page.next.value, limit)
    else
      page.data
  }

  /** Three tombstones whose deletion times do not follow their ids, in id order. */
  const SkipTombstones: seq<DeletedMyListItem> :=
    [DeletedMyListItem(A, 5), DeletedMyListItem(B, 3), DeletedMyListItem(C, 4)]

  /** A store holding exactly the skip tombstones. */
  ghost predicate SkipStore(db: ApiServerDb) {
    db.deleted == map[A := SkipTombstones[0], B := SkipTombstones[1], C := SkipTombstones[2]]
  }

  /**
   Walking the deleted feed one id per page never delivers `B` or `C`,
   although both were deleted after the walk's start: the cursor jumps to the
   deletion time of the first tombstone left out, while `A`, deleted last, is
   listed first again.
   */
  lemma DeletedWalkSkips(db: ApiServerDb)
    requires SkipStore(db)
    ensures GetDeletedMyListItem(db, 0) == SkipTombstones
    ensures DeletedWalk(db, 0, 1) == [A, A, A]
  {
    assert GetDeletedMyListItem(db, 0) == SkipTombstones by {
      SkipStoreAfter(db, 0);
      SkipFeed(0);
    }
    SkipWalk(db);
  }

  lemma SkipWalk(db: ApiServerDb)
    requires SkipStore(db)
    ensures DeletedWalk(db, 0, 1) == [A, A, A]
  {
    SkipWalkLast(db);
    SkipWalkStep(db, 3, 4);
    SkipWalkStep(db, 0, 3);
    ThreePages(DeletedWalk(db, 0, 1), DeletedWalk(db, 3, 1), DeletedWalk(db, 4, 1));
  }

  lemma ThreePages(w0: seq<AnimeId>, w1: seq<AnimeId>, w2: seq<AnimeId>)
    requires w0 == [A] + w1 && w1 == [A] + w2 && w2 == [A]
    ensures w0 == [A, A, A]
  {
  }

  /** One page of the walk over a skip store: `A` comes first, and the cursor moves to the second tombstone's time. */
  lemma SkipWalkStep(db: ApiServerDb, since: Timestamp, t: Timestamp)
    requires SkipStore(db)
    requires (since == 0 && t == 3) || (since == 3 && t == 4)
    ensures DeletedWalk(db, since, 1) == [A] + DeletedWalk(db, t, 1)
  {
    var feed := GetDeletedMyListItem(db, since);
    assert |feed| > 1 && feed[0].animeId == A && feed[1].deletedAt == t by {
      SkipStoreAfter(db, since);
      SkipFeed(since);
    }
    var page := DeletedPage(db, since, 1);
    assert page.data == [A] && page.next == Some(t);
  }

  /** The last page of the walk over a skip store holds `A` alone. */
  lemma SkipWalkLast(db: ApiServerDb)
    requires SkipStore(db)
    ensures DeletedWalk(db, 4, 1) == [A]
  {
    var feed := GetDeletedMyListItem(db, 4);
    assert |feed| == 1 && feed[0].animeId == A by {
      SkipStoreAfter(db, 4);
      SkipFeed(4);
    }
    var page := DeletedPage(db, 4, 1);
    assert page.data == [A] && page.next == None;
  }

  /** The deleted feed of a skip store is the skip tombstones filtered by deletion time. */
  lemma SkipStoreAfter(db: ApiServerDb, since: Timestamp)
    requires SkipStore(db)
    ensures GetDeletedMyListItem(db, since) == Candidates(SkipTombstones, TombstoneModifiedAt, since)
  {
    SkipListing(db);
  }

  lemma SkipListing(db: ApiServerDb)
    requires SkipStore(db)
    ensures DeletedMyListItems(db) == SkipTombstones
  {
    var x0, x1, x2 := SkipTombstones[0], SkipTombstones[1], SkipTombstones[2];
    assert x0.animeId == A && x1.animeId == B && x2.animeId == C;
    ThreeTombstonesListed(db, x0, x1, x2);
    assert SkipTombstones == [x0, x1, x2];
  }

  /** The skip tombstones deleted after 0, 3 and 4. */
  lemma SkipFeed(since: Timestamp)
    requires since == 0 || since == 3 || since == 4
    ensures var feed := Candidates(SkipTombstones, TombstoneModifiedAt, since);
      && |feed| == (if since == 0 then 3 else if since == 3 then 2 else 1)
      && feed[0].animeId == A
      && (since == 0 ==> feed == SkipTombstones && feed[1].deletedAt == 3)
      && (since == 3 ==> feed[1].deletedAt == 4)
  {
    FilterThree(SkipTombstones, ModifiedAfter(TombstoneModifiedAt, since));
  }

  /**
   The deleted feed paged the way the update-time list is: consistently by
   deletion time, with `latestDeletedAt` the deletion time of the last
   tombstone returned. A `limit` of zero only works when nothing is pending.
   */
  function DeletedPageByTime(db: ApiServerDb, deletedSince: Timestamp, limit: nat): (r: DeletedUserListResponse)
    requires limit > 0 || |GetDeletedMyListItem(db, deletedSince)| == 0
    ensures Valid(db) ==> forall k :: k in r.data ==> k in db.deleted && db.deleted[k].deletedAt > deletedSince
    ensures r.next.None? ==> forall x :: x in GetDeletedMyListItem(db, deletedSince) ==> x.animeId in r.data
    ensures r.next.Some? ==> r.next.value > deletedSince
    ensures r.next.Some? ==> |GetDeletedMyListItem(db, r.next.value)| < |GetDeletedMyListItem(db, deletedSince)|
    ensures r.next.Some? ==> forall x :: x in GetDeletedMyListItem(db, deletedSince) && x.deletedAt <= r.next.value ==>
      x.animeId in r.data
  {
    var page := ItemsOrderByModifiedAtConsistently(DeletedMyListItems(db), TombstoneModifiedAt, deletedSince, limit);
    var next := if page.hasNext then Some(Last(page.items).deletedAt) else None;
    var r := DeletedUserListResponse(Map(page.items, TombstoneId), next);
    TimeOrderedFeedPage(db, deletedSince, limit, page, r);
    r
  }

  /** What a consistent page of tombstones by deletion time says about the ids it returns and its cursor. */
  lemma TimeOrderedFeedPage(db: ApiServerDb, since: Timestamp, limit: nat,
                            page: ListWithHasNext<DeletedMyListItem>, r: DeletedUserListResponse)
    requires ConsistentPage(DeletedMyListItems(db), TombstoneModifiedAt, since, limit, page)
    requires r.data == Map(page.items, TombstoneId)
    requires r.next == if page.hasNext then Some(Last(page.items).deletedAt) else None
    ensures Valid(db) ==> forall k :: k in r.data ==> k in db.deleted && db.deleted[k].deletedAt > since
    ensures r.next.None? ==> forall x :: x in GetDeletedMyListItem(db, since) ==> x.animeId in r.data
    ensures r.next.Some? ==> r.next.value > since
    ensures r.next.Some? ==> |GetDeletedMyListItem(db, r.next.value)| < |GetDeletedMyListItem(db, since)|
    ensures r.next.Some? ==> forall x :: x in GetDeletedMyListItem(db, since) && x.deletedAt <= r.next.value ==>
      x.animeId in r.data
  {
    FeedPageIds(db, since, page.items, r.data);
    if page.hasNext {
      TimeOrderedFeedProgress(db, since, limit, page, r.next.value);
    } else {
      TimeOrderedFeedComplete(db, since, limit, page);
    }
  }

  /** A consistent page of tombstones without a next one holds every tombstone after `since`. */
  lemma TimeOrderedFeedComplete(db: ApiServerDb, since: Timestamp, limit: nat, page: ListWithHasNext<DeletedMyListItem>)
    requires ConsistentPage(DeletedMyListItems(db), TombstoneModifiedAt, since, limit, page)
    requires !page.hasNext
    ensures forall x :: x in GetDeletedMyListItem(db, since) ==> x in page.items
  {
    PageCovers(DeletedMyListItems(db), TombstoneModifiedAt, since, limit, page);
  }

  /**
   With a next page, the cursor `t` of a consistent page of tombstones lies
   after `since`, leaves fewer tombstones after it, and nothing up to it is
   left out.
   */
  lemma TimeOrderedFeedProgress(db: ApiServerDb, since: Timestamp, limit: nat, page: ListWithHasNext<DeletedMyListItem>, t: Timestamp)
    requires ConsistentPage(DeletedMyListItems(db), TombstoneModifiedAt, since, limit, page)
    requires page.hasNext && |page.items| > 0 && t == Last(page.items).deletedAt
    ensures t > since && |GetDeletedMyListItem(db, t)| < |GetDeletedMyListItem(db, since)|
    ensures forall x :: x in GetDeletedMyListItem(db, since) && x.deletedAt <= t ==> x in page.items
  {
    PageStep(DeletedMyListItems(db), TombstoneModifiedAt, since, limit, page);
    FeedFromListing(db, since);
  }

  lemma FeedPageIds(db: ApiServerDb, since: Timestamp, items: seq<DeletedMyListItem>, ids: seq<AnimeId>)
    requires PendingInOrder(DeletedMyListItems(db), TombstoneModifiedAt, since, items)
    requires ids == Map(items, TombstoneId)
    ensures forall x :: x in items ==> x.animeId in ids
    ensures Valid(db) ==> forall k :: k in ids ==> k in db.deleted && db.deleted[k].deletedAt > since
  {
    forall x | x in items ensures x.animeId in ids {
      var i :| 0 <= i < |items| && items[i] == x;
      assert ids[i] == x.animeId;
    }
    if Valid(db) {
      var all := DeletedMyListItems(db);
      forall k | k in ids ensures k in db.deleted && db.deleted[k].deletedAt > since {
        var i :| 0 <= i < |ids| && ids[i] == k;
        assert items[i] in all;
      }
    }
  }

  /** The ids a client collects following the time-ordered deleted feed on an unchanging store. */
  function DeletedWalkByTime(db: ApiServerDb, deletedSince: Timestamp, limit: nat): seq<AnimeId>
    requires limit > 0
    decreases |GetDeletedMyListItem(db, deletedSince)|
  {
    var page := DeletedPageByTime(db, deletedSince, limit);
    if page.next.Some? then page.data + DeletedWalkByTime(db, page.next.value, limit) else page.data
  }

  /**
   Following the time-ordered deleted feed from `deletedSince` collects
   exactly the ids tombstoned after `deletedSince`.
   */
  lemma {:induction false} DeletedWalkByTimeComplete(db: ApiServerDb, deletedSince: Timestamp, limit: nat)
    requires Valid(db)
    requires limit > 0
    ensures forall k :: k in db.deleted && db.deleted[k].deletedAt > deletedSince ==> k in DeletedWalkByTime(db, deletedSince, limit)
    ensures forall k :: k in DeletedWalkByTime(db, deletedSince, limit) ==> k in db.deleted && db.deleted[k].deletedAt > deletedSince
    decreases |GetDeletedMyListItem(db, deletedSince)|
  {
    var page := DeletedPageByTime(db, deletedSince, limit);
    var w := DeletedWalkByTime(db, deletedSince, limit);
    FeedIsTombstoned(db, deletedSince);
    if page.next.Some? {
      var t := page.next.value;
      DeletedWalkByTimeComplete(db, t, limit);
      var rest := DeletedWalkByTime(db, t, limit);
      assert w == page.data + rest;
      forall k | k in db.deleted && db.deleted[k].deletedAt > deletedSince ensures k in w {
        if db.deleted[k].deletedAt <= t {
          assert db.deleted[k] in GetDeletedMyListItem(db, deletedSince);
          assert k in page.data;
        } else {
          assert k in rest;
        }
      }
      assert forall k :: k in w ==> k in page.data || k in rest;
    } else {
      forall k | k in db.deleted && db.deleted[k].deletedAt > deletedSince ensures k in w {
        assert db.deleted[k] in GetDeletedMyListItem(db, deletedSince);
      }
    }
  }

  /**
   The catch-up of the update-time tests: a mirror in step as of
   `updatedSince` that upserts the update-time page and then deletes the
   deleted-feed page, both after `updatedSince` and both without a next
   page, equals the store's list.
   */
  lemma TimeCatchUpConverges(db: ApiServerDb, mirror: LocalMyListDb, updatedSince: Timestamp, limit: nat)
    requires Valid(db)
    requires InStepAsOf(db, mirror, updatedSince)
    requires limit > 0
    requires UpdatedSincePage(db, updatedSince, limit).next.None?
    requires DeletedPage(db, updatedSince, limit).next.None?
    ensures Delete(Upsert(mirror, UpdatedSincePage(db, updatedSince, limit).data), DeletedPage(db, updatedSince, limit).data) == db.live
  {
    LastPagesCoverChanges(db, updatedSince, limit);
    CatchUpWith(db, mirror, updatedSince, UpdatedSincePage(db, updatedSince, limit).data, DeletedPage(db, updatedSince, limit).data);
  }

  /** The last update-time page and the last deleted-feed page together name every change after `since`. */
  lemma LastPagesCoverChanges(db: ApiServerDb, since: Timestamp, limit: nat)
    requires Valid(db) && limit > 0
    requires UpdatedSincePage(db, since, limit).next.None?
    requires DeletedPage(db, since, limit).next.None?
    ensures CoversChanges(db, since, UpdatedSincePage(db, since, limit).data, DeletedPage(db, since, limit).data)
  {
    LastPageCoversUpdates(db, since, limit);
    LastPageCoversDeletions(db, since, limit);
  }

  /** An update-time page without a next page holds every live entry updated after `updatedSince`, and only those. */
  lemma LastPageCoversUpdates(db: ApiServerDb, updatedSince: Timestamp, limit: nat)
    requires Valid(db)
    requires limit > 0
    requires UpdatedSincePage(db, updatedSince, limit).next.None?
    ensures CoversUpdates(db, updatedSince, UpdatedSincePage(db, updatedSince, limit).data)
  {
    var all := MyListItems(db);
    var r := UpdatedSincePage(db, updatedSince, limit);
    var page := ListWithHasNext(r.data, r.next.Some?);
    PageCovers(all, ItemModifiedAt, updatedSince, limit, page);
    ListedAreLive(db);
    forall i | 0 <= i < |r.data| ensures HeldIn(r.data[i], db.live) {
      assert r.data[i] in all;
      assert db.live[r.data[i].animeId] == r.data[i];
    }
  }

  /** A deleted-feed page without a next page names every id tombstoned after `deletedSince`, and only those. */
  lemma LastPageCoversDeletions(db: ApiServerDb, deletedSince: Timestamp, limit: nat)
    requires Valid(db)
    requires DeletedPage(db, deletedSince, limit).next.None?
    ensures CoversDeletions(db, deletedSince, DeletedPage(db, deletedSince, limit).data)
  {
    var feed := GetDeletedMyListItem(db, deletedSince);
    DeletedPageIdsTombstoned(db, deletedSince, limit);
    assert forall k :: k in db.deleted && db.deleted[k].deletedAt > deletedSince ==> db.deleted[k] in feed;
    FeedPageCoversAll(feed, limit, db.deleted, deletedSince);
  }

  lemma FeedPageCoversAll(feed: seq<DeletedMyListItem>, limit: nat, m: map<AnimeId, DeletedMyListItem>, since: Timestamp)
    requires KeyedTombstones(m)
    requires |feed| <= limit
    requires forall k :: k in m && m[k].deletedAt > since ==> m[k] in feed
    ensures forall k :: k in m && m[k].deletedAt > since ==> k in FeedPage(feed, limit).data
  {
    var d := FeedPage(feed, limit).data;
    forall k | k in m && m[k].deletedAt > since ensures k in d {
      var j :| 0 <= j < |feed| && feed[j] == m[k];
      assert d[j] == k;
    }
  }

  /**
   When everything updated after `updatedSince` fits within `limit`, the
   update-time page is the last one and holds all of it.
   */
  lemma AllPendingFits(db: ApiServerDb, updatedSince: Timestamp, limit: nat)
    requires limit > 0 && |PendingItems(db, updatedSince)| <= limit
    ensures UpdatedSincePage(db, updatedSince, limit).next.None?
    ensures forall x :: x in MyListItems(db) && x.updatedAt > updatedSince ==> x in UpdatedSincePage(db, updatedSince, limit).data
  {
    var r := UpdatedSincePage(db, updatedSince, limit);
    FitsOnOnePage(MyListItems(db), ItemModifiedAt, updatedSince, limit, ListWithHasNext(r.data, r.next.Some?));
  }

  /**
   Over a list already in update-time order and wholly updated after
   `updatedSince`, an update-time page whose boundary falls between two
   update times is the first `limit` entries, and `latestUpdatedAt` is the
   last of them.
   */
  lemma SortedPrefixPage(db: ApiServerDb, updatedSince: Timestamp, limit: nat)
    requires CutBetween(MyListItems(db), ItemModifiedAt, updatedSince, limit)
    ensures UpdatedSincePage(db, updatedSince, limit).data == MyListItems(db)[..limit]
    ensures UpdatedSincePage(db, updatedSince, limit).next == Some(MyListItems(db)[limit - 1].updatedAt)
  {
    var all := MyListItems(db);
    var r := UpdatedSincePage(db, updatedSince, limit);
    PrefixPage(all, ItemModifiedAt, updatedSince, limit, ListWithHasNext(r.data, r.next.Some?));
    assert OrderedAt(all, ItemModifiedAt, limit);
    assert ItemModifiedAt(all[limit]) > ItemModifiedAt(Last(r.data));
  }

  /** A `limit` no smaller than the number of tombstones gives a single deleted-feed page. */
  lemma WholeFeedFits(db: ApiServerDb, deletedSince: Timestamp, limit: nat)
    requires Valid(db) && |db.deleted| <= limit
    ensures DeletedPage(db, deletedSince, limit).next.None?
  {
    FeedWithinStore(db, deletedSince);
  }
}

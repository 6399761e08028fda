/**
 `GET /users/{user_id}/animelist/diff` of the id-ordered and score-ordered
 protocols (both copies are the same code): every change after a watermark
 in one response, or an error when either part would exceed the fixed
 maximum; and the client step that applies such a response to its mirror.
 */
module Diff {
  import opened Wrappers
  import opened Lists
  import opened Common
  import opened ServerDb
  import opened LocalDb
  import opened ConsistentPaging

  /** `MAX_DIFF_SIZE`. */
  const MaxDiffSize: nat := 200

  datatype MyListDiffResponse = MyListDiffResponse(
    maxModifiedAt: Timestamp,
    deletedMyListItems: seq<DeletedMyListItem>,
    updatedMyListItems: seq<MyListItem>)

  /**
   Why a diff request fails: the `RuntimeException("diff size too large")`, or
   the null dereference of `max()!!` when nothing changed since the watermark.
   */
  datatype DiffError = DiffSizeTooLarge | EmptyDiff

  /** The live entries updated after `since`, ordered by anime id. */
  function UpdatedSince(db: ApiServerDb, since: Timestamp): seq<MyListItem> {
    Candidates(MyListItems(db), ItemModifiedAt, since)
  }

  /** Nothing in the store is modified after `since`. */
  ghost predicate UnchangedSince(db: ApiServerDb, since: Timestamp) {
    && (forall k :: k in db.live ==> db.live[k].updatedAt <= since)
    && (forall k :: k in db.deleted ==> db.deleted[k].deletedAt <= since)
  }

  /**
   `resp` carries every change after `since` and nothing else: the live
   entries updated and the tombstones dated after `since`, each part ordered
   by anime id when the store is consistent and no longer than
   `MaxDiffSize`, with `maxModifiedAt` the latest of their timestamps.
   */
  ghost predicate CompleteDiff(db: ApiServerDb, since: Timestamp, resp: MyListDiffResponse) {
    && (forall i :: 0 <= i < |resp.updatedMyListItems| ==>
          HeldIn(resp.updatedMyListItems[i], db.live) && resp.updatedMyListItems[i].updatedAt > since)
    && (forall k :: k in db.live && db.live[k].updatedAt > since ==> db.live[k] in resp.updatedMyListItems)
    && (forall i :: 0 <= i < |resp.deletedMyListItems| ==>
          HeldIn(resp.deletedMyListItems[i], db.deleted) && resp.deletedMyListItems[i].deletedAt > since)
    && (forall k :: k in db.deleted && db.deleted[k].deletedAt > since ==> db.deleted[k] in resp.deletedMyListItems)
    && (Valid(db) ==> StrictlySortedBy(resp.updatedMyListItems, ItemId))
    && (Valid(db) ==> StrictlySortedBy(resp.deletedMyListItems, TombstoneId))
    && |resp.updatedMyListItems| <= MaxDiffSize
    && |resp.deletedMyListItems| <= MaxDiffSize
    && MaxModifiedAt(resp)
  }

  /** `get_users_me_animelist_diff(modifiedSince)`. */
  function GetDiff(db: ApiServerDb, modifiedSince: Timestamp): (r: Result<MyListDiffResponse, DiffError>)
    ensures r.Success? ==> CompleteDiff(db, modifiedSince, r.value)
    ensures r == Failure(EmptyDiff) <==> UnchangedSince(db, modifiedSince)
    ensures r == Failure(DiffSizeTooLarge) <==>
      |UpdatedSince(db, modifiedSince)| > MaxDiffSize || |GetDeletedMyListItem(db, modifiedSince)| > MaxDiffSize
  {
    var updatedItems := Take(UpdatedSince(db, modifiedSince), MaxDiffSize + 1);
    if |updatedItems| > MaxDiffSize then
      PendingUpdate(db, modifiedSince);
      Failure(DiffSizeTooLarge)
    else
      var deletedItems := Take(GetDeletedMyListItem(db, modifiedSince), MaxDiffSize + 1);
      if |deletedItems| > MaxDiffSize then
        PendingDeletion(db, modifiedSince);
        Failure(DiffSizeTooLarge)
      else
        DiffWithinLimit(db, modifiedSince, updatedItems, deletedItems)
  }

  /**
   The rest of `get_users_me_animelist_diff` once both parts fit under
   `MaxDiffSize`: a diff with no change at all is refused, otherwise the
   response carries both parts and the latest of their timestamps.
   */
  function DiffWithinLimit(db: ApiServerDb, modifiedSince: Timestamp,
                           updatedItems: seq<MyListItem>, deletedItems: seq<DeletedMyListItem>): (r: Result<MyListDiffResponse, DiffError>)
    requires updatedItems == Take(UpdatedSince(db, modifiedSince), MaxDiffSize + 1) && |updatedItems| <= MaxDiffSize
    requires deletedItems == Take(GetDeletedMyListItem(db, modifiedSince), MaxDiffSize + 1) && |deletedItems| <= MaxDiffSize
    ensures r.Success? ==> CompleteDiff(db, modifiedSince, r.value)
    ensures r == Failure(EmptyDiff) <==> UnchangedSince(db, modifiedSince)
    ensures r != Failure(DiffSizeTooLarge)
  {
    var modifiedAts := Map(updatedItems, ItemModifiedAt) + Map(deletedItems, TombstoneModifiedAt);
    if |modifiedAts| == 0 then
      NothingPending(db, modifiedSince);
      Failure(EmptyDiff)
    else
      var response := MyListDiffResponse(Max(modifiedAts), deletedItems, updatedItems);
      MaxOfBoth(response, modifiedAts);
      SomethingPending(db, modifiedSince, updatedItems, deletedItems);
      ChangesComplete(db, modifiedSince, response);
      Success(response)
  }

  /** A response made of all the changes after `since`, within the size limit, is complete. */
  lemma ChangesComplete(db: ApiServerDb, since: Timestamp, resp: MyListDiffResponse)
    requires resp.updatedMyListItems == UpdatedSince(db, since) && |resp.updatedMyListItems| <= MaxDiffSize
    requires resp.deletedMyListItems == GetDeletedMyListItem(db, since) && |resp.deletedMyListItems| <= MaxDiffSize
    requires MaxModifiedAt(resp)
    ensures CompleteDiff(db, since, resp)
  {
    UpdatedSinceExact(db, since);
    ListedByIdWhenValid(db, since);
  }

  /** `maxModifiedAt` is the latest timestamp in the response and is carried by one of its entries. */
  ghost predicate MaxModifiedAt(resp: MyListDiffResponse) {
    && (forall i :: 0 <= i < |resp.updatedMyListItems| ==> resp.updatedMyListItems[i].updatedAt <= resp.maxModifiedAt)
    && (forall i :: 0 <= i < |resp.deletedMyListItems| ==> resp.deletedMyListItems[i].deletedAt <= resp.maxModifiedAt)
    && ((exists i :: 0 <= i < |resp.updatedMyListItems| && resp.updatedMyListItems[i].updatedAt == resp.maxModifiedAt)
        || (exists i :: 0 <= i < |resp.deletedMyListItems| && resp.deletedMyListItems[i].deletedAt == resp.maxModifiedAt))
  }

  lemma MaxOfBoth(resp: MyListDiffResponse, modifiedAts: seq<int>)
    requires |modifiedAts| > 0
    requires modifiedAts == Map(resp.updatedMyListItems, ItemModifiedAt) + Map(resp.deletedMyListItems, TombstoneModifiedAt)
    requires resp.maxModifiedAt == Max(modifiedAts)
    ensures MaxModifiedAt(resp)
  {
    var u := resp.updatedMyListItems;
    var d := resp.deletedMyListItems;
    var mu := Map(u, ItemModifiedAt);
    var md := Map(d, TombstoneModifiedAt);
    assert |mu| == |u|;
    forall i | 0 <= i < |u| ensures u[i].updatedAt <= resp.maxModifiedAt {
      assert modifiedAts[i] == mu[i];
    }
    forall i | 0 <= i < |d| ensures d[i].deletedAt <= resp.maxModifiedAt {
      assert modifiedAts[|u| + i] == md[i];
    }
    var j :| 0 <= j < |modifiedAts| && modifiedAts[j] == resp.maxModifiedAt;
    if j < |u| {
      assert modifiedAts[j] == mu[j];
      assert u[j].updatedAt == resp.maxModifiedAt;
    } else {
      assert modifiedAts[j] == md[j - |u|];
      assert d[j - |u|].deletedAt == resp.maxModifiedAt;
    }
  }

  lemma NothingPending(db: ApiServerDb, since: Timestamp)
    requires |UpdatedSince(db, since)| == 0 && |GetDeletedMyListItem(db, since)| == 0
    ensures UnchangedSince(db, since)
  {
    forall k | k in db.live ensures db.live[k].updatedAt <= since {
      if db.live[k].updatedAt > since {
        LiveEntryIsUpdated(db, since, k);
      }
    }
    assert forall k :: k in db.deleted ==> db.deleted[k].deletedAt <= since;
  }

  lemma SomethingPending(db: ApiServerDb, since: Timestamp, u: seq<MyListItem>, d: seq<DeletedMyListItem>)
    requires u == Take(UpdatedSince(db, since), MaxDiffSize + 1) && |u| <= MaxDiffSize
    requires d == Take(GetDeletedMyListItem(db, since), MaxDiffSize + 1) && |d| <= MaxDiffSize
    requires |u| + |d| > 0
    ensures u == UpdatedSince(db, since) && d == GetDeletedMyListItem(db, since)
    ensures !UnchangedSince(db, since)
  {
    if |u| > 0 {
      UpdatedEntryIsLive(db, since, 0);
      var k :| k in db.live && db.live[k] == u[0];
      assert db.live[k].updatedAt > since;
    } else {
      var k :| k in db.deleted && db.deleted[k] == d[0];
      assert db.deleted[k].deletedAt > since;
    }
  }

  /** `UpdatedSince` lists exactly the live entries updated after `since`. */
  lemma UpdatedSinceExact(db: ApiServerDb, since: Timestamp)
    ensures forall i :: 0 <= i < |UpdatedSince(db, since)| ==>
      HeldIn(UpdatedSince(db, since)[i], db.live) && UpdatedSince(db, since)[i].updatedAt > since
    ensures forall k :: k in db.live && db.live[k].updatedAt > since ==> db.live[k] in UpdatedSince(db, since)
  {
    var u := UpdatedSince(db, since);
    forall i | 0 <= i < |u| ensures HeldIn(u[i], db.live) {
      UpdatedEntryIsLive(db, since, i);
    }
    forall k | k in db.live && db.live[k].updatedAt > since ensures db.live[k] in u {
      LiveEntryIsUpdated(db, since, k);
    }
  }

  lemma UpdatedEntryIsLive(db: ApiServerDb, since: Timestamp, i: int)
    requires 0 <= i < |UpdatedSince(db, since)|
    ensures HeldIn(UpdatedSince(db, since)[i], db.live)
  {
    var live := MyListItems(db);
    var x := UpdatedSince(db, since)[i];
    var j :| 0 <= j < |live| && live[j] == x;
    var ks := AscendingIds(db.live.Keys);
    assert ks[j] in db.live && db.live[ks[j]] == x;
  }

  lemma LiveEntryIsUpdated(db: ApiServerDb, since: Timestamp, k: AnimeId)
    requires k in db.live && db.live[k].updatedAt > since
    ensures db.live[k] in UpdatedSince(db, since)
  {
    var live := MyListItems(db);
    var j :| 0 <= j < |live| && live[j] == db.live[k];
  }

  /** A non-empty `UpdatedSince` means the store changed after `since`. */
  lemma PendingUpdate(db: ApiServerDb, since: Timestamp)
    requires |UpdatedSince(db, since)| > 0
    ensures !UnchangedSince(db, since)
  {
    UpdatedEntryIsLive(db, since, 0);
  }

  /** A non-empty `GetDeletedMyListItem` means the store changed after `since`. */
  lemma PendingDeletion(db: ApiServerDb, since: Timestamp)
    requires |GetDeletedMyListItem(db, since)| > 0
    ensures !UnchangedSince(db, since)
  {
    var d := GetDeletedMyListItem(db, since);
    assert HeldIn(d[0], db.deleted);
    var k :| k in db.deleted && db.deleted[k] == d[0];
    assert db.deleted[k].deletedAt > since;
  }

  /** In a consistent store both parts of the diff are ordered by anime id, so no id repeats. */
  lemma ListedByIdWhenValid(db: ApiServerDb, since: Timestamp)
    ensures Valid(db) ==> StrictlySortedBy(UpdatedSince(db, since), ItemId)
    ensures Valid(db) ==> StrictlySortedBy(GetDeletedMyListItem(db, since), TombstoneId)
  {
    if Valid(db) {
      FilterKeepsStrictOrder(MyListItems(db), ModifiedAfter(ItemModifiedAt, since), ItemId);
    }
  }

  /** The ids of the live entries updated after `since`. */
  ghost function UpdatedIds(db: ApiServerDb, since: Timestamp): set<AnimeId> {
    set k | k in db.live && db.live[k].updatedAt > since
  }

  /** The ids tombstoned after `since`. */
  ghost function DeletedIds(db: ApiServerDb, since: Timestamp): set<AnimeId> {
    set k | k in db.deleted && db.deleted[k].deletedAt > since
  }

  /** A list holding exactly the updated entries of a keyed store carries exactly their ids. */
  lemma UpdatedKeys(db: ApiServerDb, since: Timestamp, u: seq<MyListItem>)
    requires KeyedItems(db.live)
    requires forall i :: 0 <= i < |u| ==> HeldIn(u[i], db.live) && u[i].updatedAt > since
    requires forall k :: k in db.live && db.live[k].updatedAt > since ==> db.live[k] in u
    ensures Keys(u, ItemId) == UpdatedIds(db, since)
  {
    forall k | k in Keys(u, ItemId) ensures k in UpdatedIds(db, since) {
      var i :| 0 <= i < |u| && ItemId(u[i]) == k;
      var j :| j in db.live && db.live[j] == u[i];
    }
    forall k | k in UpdatedIds(db, since) ensures k in Keys(u, ItemId) {
      var i :| 0 <= i < |u| && u[i] == db.live[k];
      assert ItemId(u[i]) == k;
    }
  }

  /** A list holding exactly the recent tombstones of a keyed store carries exactly their ids. */
  lemma DeletedKeys(db: ApiServerDb, since: Timestamp, d: seq<DeletedMyListItem>)
    requires KeyedTombstones(db.deleted)
    requires forall i :: 0 <= i < |d| ==> HeldIn(d[i], db.deleted) && d[i].deletedAt > since
    requires forall k :: k in db.deleted && db.deleted[k].deletedAt > since ==> db.deleted[k] in d
    ensures Keys(d, TombstoneId) == DeletedIds(db, since)
  {
    forall k | k in Keys(d, TombstoneId) ensures k in DeletedIds(db, since) {
      var i :| 0 <= i < |d| && TombstoneId(d[i]) == k;
      var j :| j in db.deleted && db.deleted[j] == d[i];
    }
    forall k | k in DeletedIds(db, since) ensures k in Keys(d, TombstoneId) {
      var i :| 0 <= i < |d| && d[i] == db.deleted[k];
      assert TombstoneId(d[i]) == k;
    }
  }

  /**
   A diff fails as too large exactly when more than `MaxDiffSize` entries were
   updated, or more than `MaxDiffSize` ids deleted, after the watermark.
   */
  lemma DiffFailsIffOversized(db: ApiServerDb, since: Timestamp)
    requires Valid(db)
    ensures GetDiff(db, since) == Failure(DiffSizeTooLarge) <==>
      |UpdatedIds(db, since)| > MaxDiffSize || |DeletedIds(db, since)| > MaxDiffSize
  {
    var u := UpdatedSince(db, since);
    var d := GetDeletedMyListItem(db, since);
    UpdatedSinceExact(db, since);
    ListedByIdWhenValid(db, since);
    UpdatedKeys(db, since, u);
    DeletedKeys(db, since, d);
    StrictKeysCount(u, ItemId);
    StrictKeysCount(d, TombstoneId);
  }

  /** The ids a diff response deletes. */
  function DeletedIdsOf(resp: MyListDiffResponse): seq<AnimeId> {
    Map(resp.deletedMyListItems, TombstoneId)
  }

  /**
   The documented promise that a response never carries the same anime id
   both as updated and as deleted.
   */
  lemma DiffIdsDisjoint(db: ApiServerDb, since: Timestamp, resp: MyListDiffResponse)
    requires Valid(db)
    requires GetDiff(db, since) == Success(resp)
    ensures Ids(resp.updatedMyListItems) !! IdSet(DeletedIdsOf(resp))
  {
    assert CompleteDiff(db, since, resp);
    CompleteDiffIds(db, since, resp);
  }

  /** The updated ids of a complete diff are live and its deleted ids are tombstoned. */
  lemma CompleteDiffIds(db: ApiServerDb, since: Timestamp, resp: MyListDiffResponse)
    requires Valid(db)
    requires CompleteDiff(db, since, resp)
    ensures Ids(resp.updatedMyListItems) <= db.live.Keys
    ensures IdSet(DeletedIdsOf(resp)) <= db.deleted.Keys
  {
    var u := resp.updatedMyListItems;
    var dIds := DeletedIdsOf(resp);
    forall k | k in Ids(u) ensures k in db.live.Keys {
      var i :| 0 <= i < |u| && u[i].animeId == k;
      var j :| j in db.live && db.live[j] == u[i];
    }
    forall k | k in IdSet(dIds) ensures k in db.deleted.Keys {
      var i :| 0 <= i < |dIds| && dIds[i] == k;
      var j :| j in db.deleted && db.deleted[j] == resp.deletedMyListItems[i];
    }
  }

  /** The client step after a diff: upsert the updated entries, then delete the tombstoned ids. */
  function ApplyDiff(mirror: LocalMyListDb, resp: MyListDiffResponse): LocalMyListDb {
    Delete(Upsert(mirror, resp.updatedMyListItems), DeletedIdsOf(resp))
  }

  /**
   The mirror agrees with the store on everything not modified after
   `since`: each entry last updated by then is mirrored as it is, and an id
   the store no longer lists was deleted after `since`.
   */
  ghost predicate InStepAsOf(db: ApiServerDb, mirror: LocalMyListDb, since: Timestamp) {
    && (forall k :: k in db.live && db.live[k].updatedAt <= since ==> k in mirror && mirror[k] == db.live[k])
    && (forall k :: k in mirror && k !in db.live ==> k in db.deleted && db.deleted[k].deletedAt > since)
  }

  /** Applying the diff after `since` to a mirror in step as of `since` reproduces the store's list. */
  lemma DiffCatchUpConverges(db: ApiServerDb, mirror: LocalMyListDb, since: Timestamp, resp: MyListDiffResponse)
    requires Valid(db)
    requires InStepAsOf(db, mirror, since)
    requires GetDiff(db, since) == Success(resp)
    ensures ApplyDiff(mirror, resp) == db.live
  {
    assert CompleteDiff(db, since, resp);
    CatchUp(db, mirror, since, resp);
  }

  /** Applying a complete diff after `since` to a mirror in step as of `since` reproduces the store's list. */
  lemma CatchUp(db: ApiServerDb, mirror: LocalMyListDb, since: Timestamp, resp: MyListDiffResponse)
    requires Valid(db)
    requires InStepAsOf(db, mirror, since)
    requires CompleteDiff(db, since, resp)
    ensures ApplyDiff(mirror, resp) == db.live
  {
    var d := resp.deletedMyListItems;
    var dIds := DeletedIdsOf(resp);
    forall k | k in db.deleted && db.deleted[k].deletedAt > since ensures k in dIds {
      var i :| 0 <= i < |d| && d[i] == db.deleted[k];
      assert dIds[i] == k;
    }
    forall i | 0 <= i < |dIds| ensures dIds[i] in db.deleted {
      var j :| j in db.deleted && db.deleted[j] == d[i];
    }
    CatchUpWith(db, mirror, since, resp.updatedMyListItems, dIds);
  }

  /**
   `updated` holds the live entries updated after `since` and nothing else;
   `deletedIds` names every id tombstoned after `since`, and only tombstoned
   ids. Order and repetitions do not matter.
   */
  ghost predicate CoversChanges(db: ApiServerDb, since: Timestamp, updated: seq<MyListItem>, deletedIds: seq<AnimeId>) {
    CoversUpdates(db, since, updated) && CoversDeletions(db, since, deletedIds)
  }

  /** `updated` holds live entries updated after `since`, and all of them. */
  ghost predicate CoversUpdates(db: ApiServerDb, since: Timestamp, updated: seq<MyListItem>) {
    && (forall i :: 0 <= i < |updated| ==> HeldIn(updated[i], db.live) && updated[i].updatedAt > since)
    && (forall k :: k in db.live && db.live[k].updatedAt > since ==> db.live[k] in updated)
  }

  /** `deletedIds` names every id tombstoned after `since`, and only tombstoned ids. */
  ghost predicate CoversDeletions(db: ApiServerDb, since: Timestamp, deletedIds: seq<AnimeId>) {
    && (forall k :: k in db.deleted && db.deleted[k].deletedAt > since ==> k in deletedIds)
    && (forall i :: 0 <= i < |deletedIds| ==> deletedIds[i] in db.deleted)
  }

  /**
   Catching up a mirror in step as of `since` by upserting the entries
   updated after `since` and deleting the ids tombstoned after `since`
   reproduces the store's list, however those changes were paged.
   */
  lemma CatchUpWith(db: ApiServerDb, mirror: LocalMyListDb, since: Timestamp, updated: seq<MyListItem>, deletedIds: seq<AnimeId>)
    requires Valid(db)
    requires InStepAsOf(db, mirror, since)
    requires CoversChanges(db, since, updated, deletedIds)
    ensures Delete(Upsert(mirror, updated), deletedIds) == db.live
  {
    var r := Delete(Upsert(mirror, updated), deletedIds);
    CaughtUpLive(db, mirror, since, updated, deletedIds);
    NothingStale(db, mirror, since, updated, deletedIds);
    SameEntries(r, db.live);
  }

  /** Every id left after the catch-up is live in the store. */
  lemma NothingStale(db: ApiServerDb, mirror: LocalMyListDb, since: Timestamp, updated: seq<MyListItem>, deletedIds: seq<AnimeId>)
    requires KeyedItems(db.live)
    requires InStepAsOf(db, mirror, since)
    requires CoversChanges(db, since, updated, deletedIds)
    ensures forall k :: k in Delete(Upsert(mirror, updated), deletedIds) ==> k in db.live
  {
    var up := Upsert(mirror, updated);
    forall k | k in Delete(up, deletedIds) ensures k in db.live {
      assert k in up && k !in IdSet(deletedIds);
      if k in Ids(updated) {
        var i :| 0 <= i < |updated| && updated[i].animeId == k;
        var j :| j in db.live && db.live[j] == updated[i];
      } else {
        assert k in mirror;
      }
    }
  }

  /** Every live id is present after the catch-up, with the store's entry. */
  lemma CaughtUpLive(db: ApiServerDb, mirror: LocalMyListDb, since: Timestamp, updated: seq<MyListItem>, deletedIds: seq<AnimeId>)
    requires Valid(db)
    requires InStepAsOf(db, mirror, since)
    requires CoversChanges(db, since, updated, deletedIds)
    ensures forall k :: k in db.live ==>
      k in Delete(Upsert(mirror, updated), deletedIds) && Delete(Upsert(mirror, updated), deletedIds)[k] == db.live[k]
  {
    forall k | k in db.live
      ensures k in Delete(Upsert(mirror, updated), deletedIds) && Delete(Upsert(mirror, updated), deletedIds)[k] == db.live[k]
    {
      CaughtUpEntry(db, mirror, since, updated, deletedIds, k);
    }
  }

  /** One live id after the catch-up: present and equal to the store's entry. */
  lemma CaughtUpEntry(db: ApiServerDb, mirror: LocalMyListDb, since: Timestamp,
                      updated: seq<MyListItem>, deletedIds: seq<AnimeId>, k: AnimeId)
    requires Valid(db)
    requires InStepAsOf(db, mirror, since)
    requires CoversChanges(db, since, updated, deletedIds)
    requires k in db.live
    ensures k in Delete(Upsert(mirror, updated), deletedIds)
      && Delete(Upsert(mirror, updated), deletedIds)[k] == db.live[k]
  {
    var up := Upsert(mirror, updated);
    if db.live[k].updatedAt > since {
      UpdatedEntryUpserted(db, since, updated, mirror, k);
    } else {
      UnchangedEntryKept(db, since, updated, mirror, k);
    }
  }

  /** An entry updated after `since` is upserted from the updated entries, whatever their order. */
  lemma UpdatedEntryUpserted(db: ApiServerDb, since: Timestamp, u: seq<MyListItem>, mirror: LocalMyListDb, k: AnimeId)
    requires KeyedItems(db.live)
    requires forall i :: 0 <= i < |u| ==> HeldIn(u[i], db.live) && u[i].updatedAt > since
    requires forall k :: k in db.live && db.live[k].updatedAt > since ==> db.live[k] in u
    requires k in db.live && db.live[k].updatedAt > since
    ensures k in Upsert(mirror, u) && Upsert(mirror, u)[k] == db.live[k]
  {
    assert k in Ids(u) by {
      var i :| 0 <= i < |u| && u[i] == db.live[k];
    }
    LastOccurrenceExists(u, k);
    var i :| 0 <= i < |u| && u[i].animeId == k && LastWithId(u, i);
    var j :| j in db.live && db.live[j] == u[i];
  }

  /** An entry last updated by `since` is not in the diff and keeps its mirrored value. */
  lemma UnchangedEntryKept(db: ApiServerDb, since: Timestamp, u: seq<MyListItem>, mirror: LocalMyListDb, k: AnimeId)
    requires KeyedItems(db.live)
    requires forall i :: 0 <= i < |u| ==> HeldIn(u[i], db.live) && u[i].updatedAt > since
    requires k in db.live && db.live[k].updatedAt <= since
    requires k in mirror && mirror[k] == db.live[k]
    ensures k in Upsert(mirror, u) && Upsert(mirror, u)[k] == db.live[k]
  {
    assert k !in Ids(u);
  }

  /** With nothing modified after `since`, a mirror in step as of `since` already equals the store's list. */
  lemma EmptyDiffMeansInStep(db: ApiServerDb, mirror: LocalMyListDb, since: Timestamp)
    requires InStepAsOf(db, mirror, since)
    requires GetDiff(db, since) == Failure(EmptyDiff)
    ensures mirror == db.live
  {
    assert UnchangedSince(db, since);
    InStepWhenUnchanged(db, mirror, since);
  }

  /** A mirror in step as of `since` with a store unchanged since then is the store's list. */
  lemma InStepWhenUnchanged(db: ApiServerDb, mirror: LocalMyListDb, since: Timestamp)
    requires InStepAsOf(db, mirror, since)
    requires UnchangedSince(db, since)
    ensures mirror == db.live
  {
    assert forall k :: k in mirror ==> k in db.live;
    forall k | k in db.live ensures k in mirror && mirror[k] == db.live[k] {
      assert db.live[k].updatedAt <= since;
    }
    assert mirror.Keys == db.live.Keys;
  }

  /**
   Asking again from the returned `maxModifiedAt` of an unchanged store finds
   nothing: the watermark covers every change the response carried.
   */
  lemma DiffAtOwnWatermarkIsEmpty(db: ApiServerDb, since: Timestamp, resp: MyListDiffResponse)
    requires GetDiff(db, since) == Success(resp)
    ensures GetDiff(db, resp.maxModifiedAt) == Failure(EmptyDiff)
  {
    assert CompleteDiff(db, since, resp);
    WatermarkCoversChanges(db, since, resp);
  }

  /** Every timestamp in the store is at most the `maxModifiedAt` of a complete diff. */
  lemma WatermarkCoversChanges(db: ApiServerDb, since: Timestamp, resp: MyListDiffResponse)
    requires CompleteDiff(db, since, resp)
    requires |resp.updatedMyListItems| + |resp.deletedMyListItems| > 0
    ensures UnchangedSince(db, resp.maxModifiedAt)
  {
    var m := resp.maxModifiedAt;
    var u := resp.updatedMyListItems;
    var d := resp.deletedMyListItems;
    assert m > since by {
      if exists i :: 0 <= i < |u| && u[i].updatedAt == m {
        var i :| 0 <= i < |u| && u[i].updatedAt == m;
      } else {
        var i :| 0 <= i < |d| && d[i].deletedAt == m;
      }
    }
    forall k | k in db.live ensures db.live[k].updatedAt <= m {
      if db.live[k].updatedAt > since {
        var i :| 0 <= i < |u| && u[i] == db.live[k];
      }
    }
    forall k | k in db.deleted ensures db.deleted[k].deletedAt <= m {
      if db.deleted[k].deletedAt > since {
        var i :| 0 <= i < |d| && d[i] == db.deleted[k];
      }
    }
  }
}

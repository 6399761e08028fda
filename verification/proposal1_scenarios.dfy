/**
 The scenarios of the Proposal 1 tests, replayed against the model: each
 request and each mirror update in the order the test makes them, with the
 test's checks as assertions and the final state as postconditions.
 */
module Proposal1Scenarios {
  import opened Wrappers
  import opened Lists
  import opened SmallLists
  import opened Common
  import opened ServerDb
  import opened LocalDb
  import opened ConsistentPaging
  import opened Diff
  import opened AnimeIds
  import opened Proposal1

  /** The list of the first tests: `C` shares `B`'s update time. */
  const InitialMyList: seq<MyListItem> :=
    [MyListItem(A, 1, DefaultScore), MyListItem(B, 2, DefaultScore), MyListItem(C, 2, DefaultScore), MyListItem(D, 3, DefaultScore)]

  /** `serverDb.reset(*initialMyList)`: the shared store now lists exactly the initial list. */
  method ResetToInitial(serverDb: ApiServerDb) returns (server: ApiServerDb)
    ensures Valid(server)
    ensures MyListItems(server) == InitialMyList
    ensures server.deleted == map[]
  {
    server := Reset(serverDb, InitialMyList);
    ResetLists(serverDb, InitialMyList);
  }

  /**
   Two offset pages of two entries over an unchanging store fill the mirror
   with the store's list. `serverDb` is the store the tests share; each
   test resets it first.
   */
  method OffsetSimpleCase(serverDb: ApiServerDb) returns (server: ApiServerDb, mirror: LocalMyListDb)
    ensures MyListItems(server) == InitialMyList
    ensures mirror == server.live
  {
    server := ResetToInitial(serverDb);
    TwoOffsetPages(server);
    TwoOffsetPagesCover(server);
    mirror := map[];

    var res1 := OffsetPage(server, 0, 2);
    assert res1.next.Some?;
    mirror := Upsert(mirror, res1.data);

    var res2 := OffsetPage(server, 2, 2);
    assert res2.next.None?;
    mirror := Upsert(mirror, res2.data);

    UpsertConcat(map[], res1.data, res2.data);
    UpsertListing(server);
  }

  /** Offset pages of two over a list of four: one at offset 0 with a next page, one at offset 2 without. */
  lemma TwoOffsetPages(server: ApiServerDb)
    requires |MyListItems(server)| == 4
    ensures OffsetPage(server, 0, 2).next == Some(2)
    ensures OffsetPage(server, 2, 2).next.None?
  {
  }

  /** The two offset pages over a list of four together hold the whole list. */
  lemma TwoOffsetPagesCover(server: ApiServerDb)
    requires |MyListItems(server)| == 4
    ensures OffsetPage(server, 0, 2).data + OffsetPage(server, 2, 2).data == MyListItems(server)
  {
    WindowThenRest(MyListItems(server), 0, 2);
  }

  /**
   Deleting `B` between the two offset pages shifts `C` into the first page's
   range, so no page ever carries it; the catch-up by update time after 3
   does not carry it either, since `C` was last updated at 2. The mirror ends
   without `C` while the store still lists it: the test's final equality
   does not hold.
   */
  method OffsetEdgeCase(serverDb: ApiServerDb) returns (server: ApiServerDb, mirror: LocalMyListDb)
    ensures C in server.live && C !in mirror
    ensures mirror != server.live
  {
    var loadedAt := 3;
    server, mirror := OffsetEdgePaging(serverDb);

    var res3 := UpdatedSincePage(server, loadedAt, 100);
    assert res3.next.None?;
    mirror := Upsert(mirror, res3.data);

    var res4 := DeletedPage(server, loadedAt, 100);
    mirror := Delete(mirror, res4.data);
  }

  /**
   The pagination half of the edge case: two offset pages with `B` deleted
   between them. The mirror still holds `B` and never received `C`, and no
   entry left in the store was updated after 3.
   */
  method OffsetEdgePaging(serverDb: ApiServerDb) returns (server: ApiServerDb, mirror: LocalMyListDb)
    ensures Valid(server)
    ensures UpdatedSincePage(server, 3, 100).data == [] && UpdatedSincePage(server, 3, 100).next.None?
    ensures B in mirror && B !in server.live
    ensures C in server.live && C !in mirror
  {
    var before;
    before, mirror := EdgeFirstPage(serverDb);
    server := DeleteMyListItem(before, B, 4);
    EdgeAfterDelete(before, server);

    var res2 := OffsetPage(server, 2, 2);
    EdgeSecondPage(server, res2);
    assert res2.next.None?;
    StaysOut(mirror, res2.data, C);
    mirror := Upsert(mirror, res2.data);
    NothingAfterThree(server, UpdatedSincePage(server, 3, 100));
  }

  /** Deleting `B` from the initial list leaves `A`, `C`, `D` listed; `C` is still live, `B` is not. */
  lemma EdgeAfterDelete(before: ApiServerDb, server: ApiServerDb)
    requires Valid(before) && MyListItems(before) == InitialMyList
    requires server == DeleteMyListItem(before, B, 4)
    ensures Valid(server)
    ensures MyListItems(server) == [InitialMyList[0], InitialMyList[2], InitialMyList[3]]
    ensures C in server.live && B !in server.live
  {
    ListedAfterDeletingSecond(before, B, 4);
    assert MyListItems(server)[1].animeId == C;
  }

  /** The second offset page after deleting `B` holds `D` alone and has no next page. */
  lemma EdgeSecondPage(server: ApiServerDb, res: MyListWithOffsetResponse)
    requires MyListItems(server) == [InitialMyList[0], InitialMyList[2], InitialMyList[3]]
    requires res == OffsetPage(server, 2, 2)
    ensures res.next.None?
    ensures Ids(res.data) == {D}
  {
    LastOfThree(server, res);
    assert res.data[0].animeId == D;
  }

  /** The first offset page of the edge case, upserted into an empty mirror: `A` and `B`. */
  method EdgeFirstPage(serverDb: ApiServerDb) returns (server: ApiServerDb, mirror: LocalMyListDb)
    ensures Valid(server)
    ensures MyListItems(server) == InitialMyList
    ensures mirror.Keys == {A, B}
  {
    server := ResetToInitial(serverDb);
    var res1 := OffsetPage(server, 0, 2);
    FirstOffsetPage(server, res1);
    assert res1.next.Some?;
    InitialHead();
    UpsertIntoEmpty(res1.data);
    mirror := Upsert(map[], res1.data);
  }

  /** After deleting `B`, no listed entry was updated after 3. */
  lemma UpToThree(server: ApiServerDb)
    requires MyListItems(server) == [InitialMyList[0], InitialMyList[2], InitialMyList[3]]
    ensures forall i :: 0 <= i < |MyListItems(server)| ==> MyListItems(server)[i].updatedAt <= 3
  {
  }

  /** The first offset page of two over a list of four is its first two entries, with a next page. */
  lemma FirstOffsetPage(server: ApiServerDb, res: MyListWithOffsetResponse)
    requires |MyListItems(server)| == 4
    requires res == OffsetPage(server, 0, 2)
    ensures res.next.Some?
    ensures res.data == MyListItems(server)[..2]
  {
  }

  /** The first two entries of the initial list are `A` and `B`. */
  lemma InitialHead()
    ensures Ids(InitialMyList[..2]) == {A, B}
  {
    assert InitialMyList[..2] == [InitialMyList[0], InitialMyList[1]];
  }

  /** The ids of a batch of two. */
  lemma IdsOfTwo(x: MyListItem, y: MyListItem)
    ensures Ids([x, y]) == {x.animeId, y.animeId}
  {
    assert [x, y][0] == x && [x, y][1] == y;
  }

  /** Deleting the second of four listed entries leaves the other three in order. */
  lemma ListedAfterDeletingSecond(before: ApiServerDb, animeId: AnimeId, now: Timestamp)
    requires Valid(before) && |MyListItems(before)| == 4
    requires var xs := MyListItems(before);
      xs[1].animeId == animeId && xs[0].animeId != animeId && xs[2].animeId != animeId && xs[3].animeId != animeId
    ensures var xs := MyListItems(before);
      MyListItems(DeleteMyListItem(before, animeId, now)) == [xs[0], xs[2], xs[3]]
  {
    DeleteUnlists(before, animeId, now);
    DropSecondOfFour(MyListItems(before), OtherThan(animeId));
  }

  /** The offset page at 2 over a list of three is its last entry alone, with no next page. */
  lemma LastOfThree(server: ApiServerDb, res: MyListWithOffsetResponse)
    requires |MyListItems(server)| == 3
    requires res == OffsetPage(server, 2, 2)
    ensures res.next.None?
    ensures res.data == [MyListItems(server)[2]]
  {
  }

  /** After deleting `B`, nothing was updated after 3: the update-time page after 3 is empty and final. */
  lemma NothingAfterThree(server: ApiServerDb, res: MyListWithUpdatedSinceResponse)
    requires MyListItems(server) == [InitialMyList[0], InitialMyList[2], InitialMyList[3]]
    requires res == UpdatedSincePage(server, 3, 100)
    ensures res.data == [] && res.next.None?
  {
    UpToThree(server);
    NothingUpdatedAfter(server, 3, 100);
  }

  /** When nothing was updated after `since`, the update-time page is empty and final. */
  lemma NothingUpdatedAfter(server: ApiServerDb, since: Timestamp, limit: nat)
    requires limit > 0
    requires forall i :: 0 <= i < |MyListItems(server)| ==> MyListItems(server)[i].updatedAt <= since
    ensures UpdatedSincePage(server, since, limit).data == []
    ensures UpdatedSincePage(server, since, limit).next.None?
  {
  }

  /** The list of the Proposal 1-B test: every entry has its own update time. */
  const TimeOrderedList: seq<MyListItem> :=
    [MyListItem(A, 1, DefaultScore), MyListItem(B, 2, DefaultScore), MyListItem(C, 3, DefaultScore), MyListItem(D, 4, DefaultScore)]

  /** `serverDb.reset(*initialMyList)` of the Proposal 1-B test. */
  method ResetToTimeOrdered(serverDb: ApiServerDb) returns (server: ApiServerDb)
    ensures Valid(server)
    ensures MyListItems(server) == TimeOrderedList
    ensures server.live.Keys == Ids(TimeOrderedList)
    ensures server.deleted == map[]
  {
    server := Reset(serverDb, TimeOrderedList);
    ResetToTimeOrderedLists(serverDb);
  }

  /** The 1-B list has strictly increasing ids. */
  lemma TimeOrderedByIds()
    ensures StrictlySortedBy(TimeOrderedList, ItemId)
  {
    var xs := TimeOrderedList;
    assert xs[0].animeId == A && xs[1].animeId == B && xs[2].animeId == C && xs[3].animeId == D;
  }

  /** A store reset to the 1-B list lists it by id. */
  lemma ResetToTimeOrderedLists(serverDb: ApiServerDb)
    ensures MyListItems(Reset(serverDb, TimeOrderedList)) == TimeOrderedList
  {
    TimeOrderedByIds();
    ResetLists(serverDb, TimeOrderedList);
  }

  /** Every entry of the mirror is an entry of the store, unchanged. */
  ghost predicate Mirrors(server: ApiServerDb, mirror: LocalMyListDb) {
    forall k :: k in mirror ==> k in server.live && mirror[k] == server.live[k]
  }

  /** Upserting entries the store lists keeps the mirror a part of the store. */
  lemma UpsertFromStore(server: ApiServerDb, mirror: LocalMyListDb, data: seq<MyListItem>)
    requires Valid(server) && Mirrors(server, mirror)
    requires forall x :: x in data ==> x in MyListItems(server)
    ensures Mirrors(server, Upsert(mirror, data))
  {
    var r := Upsert(mirror, data);
    ListedAreLive(server);
    forall k | k in r && k in Ids(data) ensures k in server.live && r[k] == server.live[k] {
      LastOccurrenceExists(data, k);
    }
  }

  /**
   Proposal 1-B: paging by update time, with `B` deleted between the pages.
   The second page starts after the first page's `latestUpdatedAt`; the
   catch-up by update time and by deletion time after 3 then brings the
   mirror level with the store.
   */
  method TimeEdgeCase(serverDb: ApiServerDb) returns (server: ApiServerDb, mirror: LocalMyListDb)
    ensures mirror == server.live
  {
    var loadedAt := 3;
    server, mirror := TimeEdgePaging(serverDb);

    var res3 := UpdatedSincePage(server, loadedAt, 100);
    assert res3.next.None?;
    var res4 := DeletedPage(server, loadedAt, 100);
    TimeCatchUpConverges(server, mirror, loadedAt, 100);
    mirror := Upsert(mirror, res3.data);
    mirror := Delete(mirror, res4.data);
  }

  /**
   The pagination half of Proposal 1-B. The mirror still holds `B`, so it
   differs from the store, but it is in step with the store as of 3, and
   the catch-up pages after 3 each fit on one page.
   */
  method TimeEdgePaging(serverDb: ApiServerDb) returns (server: ApiServerDb, mirror: LocalMyListDb)
    ensures Valid(server)
    ensures mirror != server.live
    ensures InStepAsOf(server, mirror, 3)
    ensures UpdatedSincePage(server, 3, 100).next.None? && DeletedPage(server, 3, 100).next.None?
  {
    var before, latest;
    before, mirror, latest := TimeFirstPage(serverDb);

    server := DeleteMyListItem(before, B, 5);
    ListedAfterDeletingSecond(before, B, 5);

    var res2 := UpdatedSincePage(server, latest, 2);
    TimeSecondPage(server, res2);
    assert res2.next.None?;
    StillListedBefore(before, server, res2.data);
    UpsertFromStore(before, mirror, res2.data);
    InIds(TimeOrderedList[2], res2.data);
    InIds(TimeOrderedList[3], res2.data);
    mirror := Upsert(mirror, res2.data);
    assert B in mirror && B !in server.live;

    CatchUpReady(before, server, mirror);
  }

  /** The first update-time page of Proposal 1-B, upserted into an empty mirror: `A` and `B`, next after 2. */
  method TimeFirstPage(serverDb: ApiServerDb) returns (server: ApiServerDb, mirror: LocalMyListDb, latest: Timestamp)
    ensures Valid(server) && MyListItems(server) == TimeOrderedList && server.deleted == map[]
    ensures Mirrors(server, mirror)
    ensures server.live.Keys <= mirror.Keys + {C, D}
    ensures latest == 2
  {
    server := ResetToTimeOrdered(serverDb);
    var res1 := UpdatedSincePage(server, 0, 2);
    FirstTimePageHoldsAB(server, res1);
    latest := res1.next.value;
    UpsertFromStore(server, map[], res1.data);
    TimeOrderedIds();
    mirror := Upsert(map[], res1.data);
  }

  /** The update-time page after 0 with limit 2 over the 1-B list: `A` and `B`, with `latestUpdatedAt` 2. */
  lemma FirstTimePageHoldsAB(server: ApiServerDb, res: MyListWithUpdatedSinceResponse)
    requires MyListItems(server) == TimeOrderedList
    requires res == UpdatedSincePage(server, 0, 2)
    ensures res.data == TimeOrderedList[..2] && res.next == Some(2)
  {
    TimeOrderedCut();
    SortedPrefixPage(server, 0, 2);
  }

  /** The 1-B list holds `A` to `D`, the first two being `A` and `B`. */
  lemma TimeOrderedIds()
    ensures Ids(TimeOrderedList) == {A, B, C, D}
    ensures Ids(TimeOrderedList[..2]) == {A, B}
  {
    var xs := TimeOrderedList;
    assert xs[0].animeId == A && xs[1].animeId == B && xs[2].animeId == C && xs[3].animeId == D;
    assert xs[..2] == [xs[0], xs[1]];
  }

  /** The 1-B list is in update-time order, wholly updated after 0, with 2 and 3 at positions 1 and 2. */
  lemma TimeOrderedCut()
    ensures CutBetween(TimeOrderedList, ItemModifiedAt, 0, 2)
    ensures TimeOrderedList[1].updatedAt == 2
  {
  }

  /** The update-time page after 2 with limit 2 over `A`, `C`, `D`: `C` and `D`, with no next page. */
  lemma TimeSecondPage(server: ApiServerDb, res: MyListWithUpdatedSinceResponse)
    requires MyListItems(server) == TimeOrderedAfterDelete()
    requires res == UpdatedSincePage(server, 2, 2)
    ensures res.next.None?
    ensures TimeOrderedList[2] in res.data && TimeOrderedList[3] in res.data
  {
    PendingAfterTwo();
    AllPendingFits(server, 2, 2);
  }

  /** The 1-B list without `B`. */
  function TimeOrderedAfterDelete(): seq<MyListItem> {
    [TimeOrderedList[0], TimeOrderedList[2], TimeOrderedList[3]]
  }

  /** Of `A`, `C`, `D`, only `C` and `D` were updated after 2. */
  lemma PendingAfterTwo()
    ensures |Candidates(TimeOrderedAfterDelete(), ItemModifiedAt, 2)| == 2
    ensures TimeOrderedList[2] in TimeOrderedAfterDelete() && TimeOrderedList[2].updatedAt > 2
    ensures TimeOrderedList[3] in TimeOrderedAfterDelete() && TimeOrderedList[3].updatedAt > 2
  {
    FilterThree(TimeOrderedAfterDelete(), ModifiedAfter(ItemModifiedAt, 2));
  }

  /** Entries listed after a deletion were listed, unchanged, before it. */
  lemma StillListedBefore(before: ApiServerDb, after: ApiServerDb, data: seq<MyListItem>)
    requires Valid(before)
    requires after == DeleteMyListItem(before, B, 5)
    requires forall i :: 0 <= i < |data| ==> data[i] in MyListItems(after)
    ensures forall i :: 0 <= i < |data| ==> data[i] in MyListItems(before)
  {
    ListedAreLive(after);
    forall i | 0 <= i < |data| ensures data[i] in MyListItems(before) {
      assert before.live[data[i].animeId] == data[i];
    }
  }

  /** An entry of a batch puts its id among the batch's ids. */
  lemma InIds(x: MyListItem, data: seq<MyListItem>)
    requires x in data
    ensures x.animeId in Ids(data)
  {
  }

  /**
   After both 1-B pages: the mirror holds, unchanged, every entry the store
   had before deleting `B` at 5, so it is in step with the store as of 3;
   and the catch-up pages after 3 with limit 100 each fit on one page.
   */
  lemma CatchUpReady(before: ApiServerDb, server: ApiServerDb, mirror: LocalMyListDb)
    requires Valid(before) && Mirrors(before, mirror)
    requires before.live.Keys <= mirror.Keys
    requires before.deleted == map[]
    requires server == DeleteMyListItem(before, B, 5)
    requires |MyListItems(server)| <= 100
    ensures InStepAsOf(server, mirror, 3)
    ensures UpdatedSincePage(server, 3, 100).next.None? && DeletedPage(server, 3, 100).next.None?
  {
    InStepAfterDelete(before, mirror, B, 5, 3);
    AllPendingFits(server, 3, 100);
    OneTombstone(before, server);
    WholeFeedFits(server, 3, 100);
  }

  /**
   A mirror holding, unchanged, every entry the store held before deleting
   one id at a time later than `since` is in step with the store as of
   `since`.
   */
  lemma InStepAfterDelete(before: ApiServerDb, mirror: LocalMyListDb, animeId: AnimeId, now: Timestamp, since: Timestamp)
    requires Valid(before) && Mirrors(before, mirror)
    requires before.live.Keys <= mirror.Keys
    requires now > since
    ensures InStepAsOf(DeleteMyListItem(before, animeId, now), mirror, since)
  {
  }

  /** Deleting `B` from a store without tombstones leaves exactly one tombstone. */
  lemma OneTombstone(before: ApiServerDb, after: ApiServerDb)
    requires before.deleted == map[]
    requires after == DeleteMyListItem(before, B, 5)
    ensures |after.deleted| == 1
  {
    assert after.deleted.Keys == {B};
  }
}

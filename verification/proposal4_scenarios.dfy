/**
 The scenario of the Proposal 4 test, replayed against the model: two `after`
 pages with `B` added and `C` deleted between them, then the diff catch-up
 from one tick before the first page's server time.
 */
module Proposal4Scenarios {
  import opened Wrappers
  import opened Lists
  import opened Common
  import opened ServerDb
  import opened LocalDb
  import opened Diff
  import opened AnimeIds
  import opened Proposal4

  /** The list of the test: there is no `B`. */
  const InitialMyList: seq<MyListItem> :=
    [MyListItem(A, 1, DefaultScore), MyListItem(C, 2, DefaultScore), MyListItem(D, 3, DefaultScore)]

  /** The store's list once `B` was added at 4 and `C` deleted at 4. */
  const ChangedMyList: seq<MyListItem> :=
    [MyListItem(A, 1, DefaultScore), MyListItem(B, 4, DefaultScore), MyListItem(D, 3, DefaultScore)]

  /**
   `ApiServerDb(initialMyList)` with its clock at 3, paged by two with `after`;
   `B` is added and `C` deleted between the two pages. The pages alone leave
   the mirror holding `C` and missing `B`, as the test's first check says;
   the diff after `serverTime - 1` then brings it level with the store.
   */
  method AddAndDeleteDuringPagination() returns (server: ApiServerDb, mirror: LocalMyListDb)
    ensures Valid(server)
    ensures MyListItems(server) == ChangedMyList
    ensures mirror == server.live
  {
    var lastLoadedAt1;
    server, mirror, lastLoadedAt1 := PageWhileChanging();
    assert lastLoadedAt1 == 2;

    var res3 := GetDiff(server, lastLoadedAt1);
    DiffSucceeds(server);
    StepAsOfTwo(server, mirror);
    DiffCatchUpConverges(server, mirror, lastLoadedAt1, res3.value);
    mirror := ApplyDiff(mirror, res3.value);
  }

  /**
   The pagination half: the first page holds `A` and `C` and names `C` as
   `after`; after the changes the second page holds `D` alone and is the
   last. The mirror then differs from the store.
   */
  method PageWhileChanging() returns (server: ApiServerDb, mirror: LocalMyListDb, lastLoadedAt1: Timestamp)
    ensures Valid(server)
    ensures server.live == ChangedStore && server.deleted == map[C := DeletedMyListItem(C, 4)]
    ensures MyListItems(server) == ChangedMyList
    ensures mirror == InitialStore && mirror != server.live
    ensures lastLoadedAt1 == 2
  {
    var before, res1 := FirstRound();
    lastLoadedAt1 := res1.serverTime - 1;

    server := AddMyListItem(before, B, 4);
    server := DeleteMyListItem(server, C, 4);
    Changed(before, server);
    SecondPage(server);

    var res2 := AfterPage(server, res1.after.value, 2);
    assert res2.after.None?;
    MirrorAfterPages(res1.data, res2.data);
    mirror := Upsert(Upsert(map[], res1.data), res2.data);
    assert C in mirror && C !in server.live;
  }

  /** The store made from the initial list with its clock at 3, and the first page of two from the start. */
  method FirstRound() returns (server: ApiServerDb, res1: MyListWithAfterResponse)
    ensures Valid(server) && server.live == InitialStore && server.deleted == map[]
    ensures res1 == MyListWithAfterResponse(InitialMyList[..2], Some(C), 3)
  {
    server := NewServerDb(InitialMyList).(now := 3);
    NewStore(server);
    FirstPage(server);
    res1 := AfterPage(server, 0, 2);
  }

  /** The initial list as the store keeps it: each entry under its id. */
  const InitialStore: map<AnimeId, MyListItem> :=
    map[A := InitialMyList[0], C := InitialMyList[1], D := InitialMyList[2]]

  /** The changed list as the store keeps it. */
  const ChangedStore: map<AnimeId, MyListItem> :=
    map[A := ChangedMyList[0], B := ChangedMyList[1], D := ChangedMyList[2]]

  /** A store made from the initial list holds it under its ids, has no tombstones and lists it in order. */
  lemma NewStore(server: ApiServerDb)
    requires server == NewServerDb(InitialMyList).(now := 3)
    ensures Valid(server) && server.now == 3
    ensures server.live == InitialStore && server.deleted == map[]
    ensures MyListItems(server) == InitialMyList
  {
    var xs := InitialMyList;
    assert Ids(xs) == {A, C, D} by {
      assert xs[0].animeId == A && xs[1].animeId == C && xs[2].animeId == D;
    }
    assert LastWithId(xs, 0) && LastWithId(xs, 1) && LastWithId(xs, 2);
    SameEntries(server.live, InitialStore);
    ThreeListed(server, xs);
  }

  /** A store holding exactly three entries of increasing ids lists those three. */
  lemma ThreeListed(server: ApiServerDb, xs: seq<MyListItem>)
    requires |xs| == 3 && xs[0].animeId < xs[1].animeId < xs[2].animeId
    requires server.live == map[xs[0].animeId := xs[0], xs[1].animeId := xs[1], xs[2].animeId := xs[2]]
    ensures MyListItems(server) == xs
  {
    assert StrictlySortedBy(xs, ItemId);
    assert |server.live| == 3 by {
      assert server.live.Keys == {xs[0].animeId, xs[1].animeId, xs[2].animeId};
    }
    ListedExactly(server, xs);
  }

  /** The first page of two from the start holds `A` and `C` and names `C` as `after`, at server time 3. */
  lemma FirstPage(server: ApiServerDb)
    requires Valid(server) && server.now == 3
    requires server.live == InitialStore && MyListItems(server) == InitialMyList
    ensures |ListedAfter(server, 0)| > 0
    ensures AfterPage(server, 0, 2) == MyListWithAfterResponse(InitialMyList[..2], Some(C), 3)
  {
    AllAboveZero(server);
    AfterPageIsPrefix(server, 0, 2);
  }

  /** Adding `B` at 4 and then deleting `C` at 4 leaves `A`, `B`, `D` listed and `C` tombstoned. */
  lemma Changed(before: ApiServerDb, server: ApiServerDb)
    requires Valid(before) && before.live == InitialStore && before.deleted == map[]
    requires server == DeleteMyListItem(AddMyListItem(before, B, 4), C, 4)
    ensures Valid(server)
    ensures server.live == ChangedStore && server.deleted == map[C := DeletedMyListItem(C, 4)]
    ensures MyListItems(server) == ChangedMyList
  {
    SameEntries(server.live, ChangedStore);
    assert server.deleted.Keys == {C};
    ThreeListed(server, ChangedMyList);
  }

  /** After `C` the changed store has `D` alone: the second page holds it and is the last. */
  lemma SecondPage(server: ApiServerDb)
    requires Valid(server) && MyListItems(server) == ChangedMyList
    ensures |ListedAfter(server, C)| > 0
    ensures AfterPage(server, C, 2).data == [ChangedMyList[2]]
    ensures AfterPage(server, C, 2).after.None?
  {
    OnlyDAfterC(server);
    AfterPageIsPrefix(server, C, 2);
  }

  lemma OnlyDAfterC(server: ApiServerDb)
    requires MyListItems(server) == ChangedMyList
    ensures ListedAfter(server, C) == [ChangedMyList[2]]
  {
    var xs := ChangedMyList;
    forall i | 0 <= i < 2 ensures !IdAbove(C)(xs[i]) {
    }
    FilterSplit(xs, IdAbove(C), 2);
    assert xs[2..] == [xs[2]];
  }

  /** Upserting the two pages into an empty mirror gives the initial list under its ids. */
  lemma MirrorAfterPages(page1: seq<MyListItem>, page2: seq<MyListItem>)
    requires page1 == InitialMyList[..2] && page2 == [ChangedMyList[2]]
    ensures Upsert(Upsert(map[], page1), page2) == InitialStore
  {
    var m := Upsert(Upsert(map[], page1), page2);
    assert Ids(page1) == {A, C} by {
      assert page1[0].animeId == A && page1[1].animeId == C;
    }
    assert Ids(page2) == {D} by {
      assert page2[0].animeId == D;
    }
    assert LastWithId(page1, 0) && LastWithId(page1, 1) && LastWithId(page2, 0);
    assert page1[0] == InitialMyList[0] && page1[1] == InitialMyList[1];
    assert m.Keys == {A, C, D};
    MapOfThree(m, A, InitialMyList[0], C, InitialMyList[1], D, InitialMyList[2]);
  }

  /**
   The diff after 2 succeeds: `B` was updated at 4, so it is not empty, and
   three entries and one tombstone are far from the size limit.
   */
  lemma DiffSucceeds(server: ApiServerDb)
    requires Valid(server)
    requires server.live == ChangedStore && server.deleted == map[C := DeletedMyListItem(C, 4)]
    ensures GetDiff(server, 2).Success?
  {
    ChangedAfterTwo(server);
    FewChanges(server);
    DiffFailsIffOversized(server, 2);
  }

  /** `B` was updated at 4, so the store changed after 2. */
  lemma ChangedAfterTwo(server: ApiServerDb)
    requires server.live == ChangedStore
    ensures !UnchangedSince(server, 2)
  {
    assert B in server.live && server.live[B].updatedAt > 2;
  }

  /** At most three entries were updated and one tombstoned after 2. */
  lemma FewChanges(server: ApiServerDb)
    requires server.live == ChangedStore && server.deleted == map[C := DeletedMyListItem(C, 4)]
    ensures |UpdatedIds(server, 2)| <= 3 && |DeletedIds(server, 2)| <= 1
  {
    SubsetSize(UpdatedIds(server, 2), {A, B, D});
    SubsetSize(DeletedIds(server, 2), {C});
  }

  /**
   The mirror after paging agrees with the changed store on everything not
   modified after 2: `A` is mirrored as it is, and `C`, which the store no
   longer lists, was deleted at 4.
   */
  lemma StepAsOfTwo(server: ApiServerDb, mirror: LocalMyListDb)
    requires server.live == ChangedStore && server.deleted == map[C := DeletedMyListItem(C, 4)]
    requires mirror == InitialStore
    ensures InStepAsOf(server, mirror, 2)
  {
  }
}

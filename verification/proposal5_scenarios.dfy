/**
 The two scenarios of the Proposal 5 test, replayed against the model: three
 score-ordered pages of two with `B` deleted, or `B`'s score lowered, after
 the first page, then the diff catch-up from one tick before the first page's
 server time.
 */
module Proposal5Scenarios {
  import opened Wrappers
  import opened Lists
  import opened Common
  import opened ServerDb
  import opened LocalDb
  import opened Diff
  import opened AnimeIds
  import opened Proposal5

  /** The list of the test, in the order the test gives it: by score, highest first. */
  const TestMyList: seq<MyListItem> :=
    [MyListItem(C, 1, 10), MyListItem(B, 1, 9), MyListItem(D, 1, 9), MyListItem(E, 1, 9), MyListItem(A, 1, 8)]

  /** The same entries as the store lists them: by id. */
  const InitialListing: seq<MyListItem> :=
    [MyListItem(A, 1, 8), MyListItem(B, 1, 9), MyListItem(C, 1, 10), MyListItem(D, 1, 9), MyListItem(E, 1, 9)]

  const InitialStore: map<AnimeId, MyListItem> :=
    map[A := InitialListing[0], B := InitialListing[1], C := InitialListing[2], D := InitialListing[3], E := InitialListing[4]]

  /** The list once `B` is deleted. */
  const DeletedListing: seq<MyListItem> :=
    [InitialListing[0], InitialListing[2], InitialListing[3], InitialListing[4]]

  /** `B` as the second test leaves it: scored 8, updated at 4. */
  const LoweredB: MyListItem := MyListItem(B, 4, 8)

  /** The list once `B`'s score is lowered. */
  const UpdatedListing: seq<MyListItem> :=
    [InitialListing[0], LoweredB, InitialListing[2], InitialListing[3], InitialListing[4]]

  /** The cursor of the first page, on `B`, and of the second, on `D`. */
  const CursorOnB: Cursor := Cursor(B, 9)
  const CursorOnD: Cursor := Cursor(D, 9)

  /**
   Deleting `B` after the first page: the anchor of the first cursor is gone,
   so the second page falls back to the entries scored 9 or more; the third
   resumes after `D`. The pages leave the mirror still holding `B`; the diff
   after `serverTime - 1` removes it.
   */
  method DeleteDuringPagination() returns (server: ApiServerDb, mirror: LocalMyListDb)
    ensures Valid(server)
    ensures MyListItems(server) == DeletedListing
    ensures mirror == server.live
  {
    var lastLoadedAt1;
    server, mirror, lastLoadedAt1 := PageWhileDeleting();
    var res4 := GetDiff(server, lastLoadedAt1);
    DeleteDiffSucceeds(server);
    DiffCatchUpConverges(server, mirror, lastLoadedAt1, res4.value);
    mirror := ApplyDiff(mirror, res4.value);
  }

  /**
   Lowering `B`'s score to 8 after the first page: the anchor of the first
   cursor no longer matches, so the second page falls back as above and never
   carries the new `B`; the diff after `serverTime - 1` brings it.
   */
  method UpdateScoreDuringPagination() returns (server: ApiServerDb, mirror: LocalMyListDb)
    ensures Valid(server)
    ensures MyListItems(server) == UpdatedListing
    ensures mirror == server.live
  {
    var lastLoadedAt1;
    server, mirror, lastLoadedAt1 := PageWhileUpdating();
    var res4 := GetDiff(server, lastLoadedAt1);
    UpdateDiffSucceeds(server);
    DiffCatchUpConverges(server, mirror, lastLoadedAt1, res4.value);
    mirror := ApplyDiff(mirror, res4.value);
  }

  /**
   The pagination half with `B` deleted: `A`, `B` with a cursor on `B`; then
   `C`, `D` with a cursor on `D`; then `E` alone. The mirror ends with every
   initial entry, `B` included, while the store no longer has `B`; it is in
   step with the store as of 2.
   */
  method PageWhileDeleting() returns (server: ApiServerDb, mirror: LocalMyListDb, lastLoadedAt1: Timestamp)
    ensures Valid(server)
    ensures server.live == InitialStore - {B} && server.deleted == map[B := DeletedMyListItem(B, 4)]
    ensures MyListItems(server) == DeletedListing
    ensures mirror == InitialStore && mirror != server.live
    ensures lastLoadedAt1 == 2 && InStepAsOf(server, mirror, lastLoadedAt1)
  {
    var before, res1 := FirstRound();
    lastLoadedAt1 := res1.serverTime - 1;
    server := DeleteMyListItem(before, B, 4);
    Deleted(before, server);
    ListedAfterDelete(server);
    SecondPage(server);
    var res2 := ScorePage(server, res1.after, 2);
    ThirdPage(server);
    var res3 := ScorePage(server, res2.after, 2);
    assert res3.after.None?;
    MirrorAfterPages(before, res1.data, res2.data, res3.data);
    mirror := Upsert(Upsert(Upsert(map[], res1.data), res2.data), res3.data);
    assert B in mirror && B !in server.live;
    StepAfterDelete(server, mirror);
  }

  /**
   The pagination half with `B`'s score lowered: the same three pages as
   with `B` deleted. The mirror ends with every initial entry, `B` with its
   old score, while the store has the lowered `B`; it is in step with the
   store as of 2.
   */
  method PageWhileUpdating() returns (server: ApiServerDb, mirror: LocalMyListDb, lastLoadedAt1: Timestamp)
    ensures Valid(server)
    ensures server.live == InitialStore[B := LoweredB] && server.deleted == map[]
    ensures MyListItems(server) == UpdatedListing
    ensures mirror == InitialStore && mirror != server.live
    ensures lastLoadedAt1 == 2 && InStepAsOf(server, mirror, lastLoadedAt1)
  {
    var before, res1 := FirstRound();
    lastLoadedAt1 := res1.serverTime - 1;
    server := Update(before, LoweredB);
    Updated(before, server);
    ListedAfterUpdate(server);
    SecondPage(server);
    var res2 := ScorePage(server, res1.after, 2);
    ThirdPage(server);
    var res3 := ScorePage(server, res2.after, 2);
    assert res3.after.None?;
    MirrorAfterPages(before, res1.data, res2.data, res3.data);
    mirror := Upsert(Upsert(Upsert(map[], res1.data), res2.data), res3.data);
    assert mirror[B] != server.live[B];
    StepAfterUpdate(server, mirror);
  }

  /** The store made from the test's list with its clock at 3, and the first page of two: `A` and `B`, with a cursor on `B`. */
  method FirstRound() returns (server: ApiServerDb, res1: MyListWithAfterResponse)
    ensures Valid(server) && server.live == InitialStore && server.deleted == map[]
    ensures MyListItems(server) == InitialListing
    ensures res1 == MyListWithAfterResponse(InitialListing[..2], Some(CursorOnB), 3)
  {
    server := NewServerDb(TestMyList).(now := 3);
    NewStore(server);
    FirstPage(server);
    res1 := ScorePage(server, None, 2);
  }

  /** A store made from the test's list holds it under its ids, has no tombstones and lists it by id. */
  lemma NewStore(server: ApiServerDb)
    requires server == NewServerDb(TestMyList).(now := 3)
    ensures Valid(server) && server.now == 3
    ensures server.live == InitialStore && server.deleted == map[]
    ensures MyListItems(server) == InitialListing
  {
    TestListKeyed();
    SameEntries(server.live, InitialStore);
    InitialListed(server);
  }

  /** Each entry of the test's list has its own id, and the ids are `A` to `E`. */
  lemma TestListKeyed()
    ensures Ids(TestMyList) == {A, B, C, D, E}
    ensures forall i | 0 <= i < 5 :: LastWithId(TestMyList, i)
  {
    var xs := TestMyList;
    assert xs[0].animeId == C && xs[1].animeId == B && xs[2].animeId == D;
    assert xs[3].animeId == E && xs[4].animeId == A;
  }

  /** A store holding the initial entries lists them by id. */
  lemma InitialListed(server: ApiServerDb)
    requires server.live == InitialStore
    ensures MyListItems(server) == InitialListing
  {
    var xs := InitialListing;
    assert StrictlySortedBy(xs, ItemId);
    assert |server.live| == 5 by {
      assert server.live.Keys == {A, B, C, D, E};
    }
    ListedExactly(server, xs);
  }

  /** The keys `score - 100000 + animeId` of the initial listing do not drop from one entry to the next (`C` and `D` tie). */
  lemma InitialInKeyOrder()
    ensures SortedBy(InitialListing, ScoreKey)
    ensures CursorOf(InitialListing[1]) == CursorOnB
  {
    forall i ensures OrderedAt(InitialListing, ScoreKey, i) {
    }
  }

  /** Without a cursor the first page of two is the first two listed, with a cursor on `B`. */
  lemma FirstPage(server: ApiServerDb)
    requires MyListItems(server) == InitialListing && server.now == 3
    ensures ScorePage(server, None, 2) == MyListWithAfterResponse(InitialListing[..2], Some(CursorOnB), 3)
  {
    InitialInKeyOrder();
    NoCursorListsAll(server);
    FullPage(server, None, 2, InitialListing, InitialListing[..2], CursorOnB);
  }

  /** The first two of `C`, `D`, `E` are `C`, `D`, and the second names the cursor on `D`. */
  lemma SecondPageParts()
    ensures InitialListing[2..][..2] == InitialListing[2..4]
    ensures CursorOf(InitialListing[2..][1]) == CursorOnD
  {
  }

  /** Deleting `B` at 4 leaves `A`, `C`, `D`, `E` listed and `B` tombstoned. */
  lemma Deleted(before: ApiServerDb, server: ApiServerDb)
    requires Valid(before) && before.live == InitialStore && before.deleted == map[]
    requires server == DeleteMyListItem(before, B, 4)
    ensures Valid(server)
    ensures server.live == InitialStore - {B} && server.deleted == map[B := DeletedMyListItem(B, 4)]
    ensures MyListItems(server) == DeletedListing
  {
    assert server.live == InitialStore - {B};
    assert server.deleted.Keys == {B};
    DeletedListed(server);
  }

  lemma DeletedListed(server: ApiServerDb)
    requires server.live == InitialStore - {B}
    ensures MyListItems(server) == DeletedListing
  {
    var xs := DeletedListing;
    assert StrictlySortedBy(xs, ItemId);
    assert |server.live| == 4 by {
      assert server.live.Keys == {A, C, D, E};
    }
    ListedExactly(server, xs);
  }

  /** Lowering `B`'s score leaves every id listed, `B` with its new entry, and no tombstone. */
  lemma Updated(before: ApiServerDb, server: ApiServerDb)
    requires Valid(before) && before.live == InitialStore && before.deleted == map[]
    requires server == Update(before, LoweredB)
    ensures Valid(server)
    ensures server.live == InitialStore[B := LoweredB] && server.deleted == map[]
    ensures MyListItems(server) == UpdatedListing
  {
    assert server.live == InitialStore[B := LoweredB];
    assert server.deleted.Keys == {};
    UpdatedListed(server);
  }

  lemma UpdatedListed(server: ApiServerDb)
    requires server.live == InitialStore[B := LoweredB]
    ensures MyListItems(server) == UpdatedListing
  {
    var xs := UpdatedListing;
    assert StrictlySortedBy(xs, ItemId);
    assert |server.live| == 5 by {
      assert server.live.Keys == {A, B, C, D, E};
    }
    ListedExactly(server, xs);
  }

  /** `C`, `D`, `E` are in key order; so is any single entry. */
  lemma LastThreeInKeyOrder()
    ensures SortedBy(InitialListing[2..], ScoreKey)
    ensures SortedBy([InitialListing[4]], ScoreKey)
  {
    var xs := InitialListing[2..];
    forall i ensures OrderedAt(xs, ScoreKey, i) {
    }
    forall i ensures OrderedAt([InitialListing[4]], ScoreKey, i) {
    }
  }

  /**
   With `B` gone the cursor on `B` finds no anchor; the fallback keeps the
   entries scored 9 or more, `C`, `D`, `E`. The cursor on `D` finds its
   anchor and only `E` has a higher id.
   */
  lemma CandidatesAfterDelete()
    ensures CandidatesIn(DeletedListing, Some(CursorOnB)) == InitialListing[2..]
    ensures CandidatesIn(DeletedListing, Some(CursorOnD)) == [InitialListing[4]]
  {
    var xs := DeletedListing;
    assert CursorOf(xs[2]) == CursorOnD;
    forall i | 0 <= i < 1 ensures !ScoreAtLeast(9)(xs[i]) {
    }
    FilterSplit(xs, ScoreAtLeast(9), 1);
    forall i | 0 <= i < 3 ensures !IdAbove(D)(xs[i]) {
    }
    FilterSplit(xs, IdAbove(D), 3);
  }

  /** As after the delete: `B` scored 8 matches no cursor on `B` scored 9. */
  lemma CandidatesAfterUpdate()
    ensures CandidatesIn(UpdatedListing, Some(CursorOnB)) == InitialListing[2..]
    ensures CandidatesIn(UpdatedListing, Some(CursorOnD)) == [InitialListing[4]]
  {
    var xs := UpdatedListing;
    assert CursorOf(xs[3]) == CursorOnD;
    forall i | 0 <= i < 2 ensures !ScoreAtLeast(9)(xs[i]) {
    }
    FilterSplit(xs, ScoreAtLeast(9), 2);
    forall i | 0 <= i < 4 ensures !IdAbove(D)(xs[i]) {
    }
    FilterSplit(xs, IdAbove(D), 4);
  }

  /** After the delete the cursor on `B` falls back to `C`, `D`, `E`, and the cursor on `D` keeps `E` alone. */
  lemma ListedAfterDelete(server: ApiServerDb)
    requires MyListItems(server) == DeletedListing
    ensures ScoreCandidates(server, Some(CursorOnB)) == InitialListing[2..]
    ensures ScoreCandidates(server, Some(CursorOnD)) == [InitialListing[4]]
  {
    CandidatesAfterDelete();
    assert ScoreCandidates(server, Some(CursorOnB)) == CandidatesIn(DeletedListing, Some(CursorOnB));
  }

  /** After the update the cursor on `B` falls back to `C`, `D`, `E`, and the cursor on `D` keeps `E` alone. */
  lemma ListedAfterUpdate(server: ApiServerDb)
    requires MyListItems(server) == UpdatedListing
    ensures ScoreCandidates(server, Some(CursorOnB)) == InitialListing[2..]
    ensures ScoreCandidates(server, Some(CursorOnD)) == [InitialListing[4]]
  {
    CandidatesAfterUpdate();
    assert ScoreCandidates(server, Some(CursorOnB)) == CandidatesIn(UpdatedListing, Some(CursorOnB));
  }

  /** When the cursor on `B` leaves `C`, `D`, `E`, the second page is `C`, `D` with a cursor on `D`. */
  lemma SecondPage(server: ApiServerDb)
    requires ScoreCandidates(server, Some(CursorOnB)) == InitialListing[2..]
    ensures ScorePage(server, Some(CursorOnB), 2) == MyListWithAfterResponse(InitialListing[2..4], Some(CursorOnD), server.now)
  {
    LastThreeInKeyOrder();
    SecondPageParts();
    FullPage(server, Some(CursorOnB), 2, InitialListing[2..], InitialListing[2..4], CursorOnD);
  }

  /** When the cursor on `D` leaves `E` alone, the third page is `E` and the last. */
  lemma ThirdPage(server: ApiServerDb)
    requires ScoreCandidates(server, Some(CursorOnD)) == [InitialListing[4]]
    ensures ScorePage(server, Some(CursorOnD), 2) == MyListWithAfterResponse([InitialListing[4]], None, server.now)
  {
    LastThreeInKeyOrder();
    LastPage(server, Some(CursorOnD), 2, [InitialListing[4]]);
  }

  /** Upserting the three pages, which together are the initial listing, into an empty mirror reproduces the initial store. */
  lemma MirrorAfterPages(before: ApiServerDb, page1: seq<MyListItem>, page2: seq<MyListItem>, page3: seq<MyListItem>)
    requires KeyedItems(before.live) && before.live == InitialStore && MyListItems(before) == InitialListing
    requires page1 == InitialListing[..2] && page2 == InitialListing[2..4] && page3 == [InitialListing[4]]
    ensures Upsert(Upsert(Upsert(map[], page1), page2), page3) == InitialStore
  {
    UpsertConcat(map[], page1, page2);
    UpsertConcat(map[], page1 + page2, page3);
    PagesJoin();
    UpsertListing(before);
  }

  lemma PagesJoin()
    ensures InitialListing[..2] + InitialListing[2..4] + [InitialListing[4]] == InitialListing
  {
  }

  /** The diff after 2 of the first scenario succeeds. */
  lemma DeleteDiffSucceeds(server: ApiServerDb)
    requires Valid(server)
    requires server.live == InitialStore - {B} && server.deleted == map[B := DeletedMyListItem(B, 4)]
    ensures GetDiff(server, 2).Success?
  {
    DeletedAfterTwo(server);
    FewDeleteChanges(server);
    DiffFailsIffOversized(server, 2);
  }

  /** `B` was deleted at 4, so the store changed after 2. */
  lemma DeletedAfterTwo(server: ApiServerDb)
    requires server.deleted == map[B := DeletedMyListItem(B, 4)]
    ensures !UnchangedSince(server, 2)
  {
    assert B in server.deleted && server.deleted[B].deletedAt > 2;
  }

  /** At most four entries were updated and one tombstoned after 2. */
  lemma FewDeleteChanges(server: ApiServerDb)
    requires server.live == InitialStore - {B} && server.deleted == map[B := DeletedMyListItem(B, 4)]
    ensures |UpdatedIds(server, 2)| <= 4 && |DeletedIds(server, 2)| <= 1
  {
    SubsetSize(UpdatedIds(server, 2), {A, C, D, E});
    SubsetSize(DeletedIds(server, 2), {B});
  }

  /** The diff after 2 of the second scenario succeeds. */
  lemma UpdateDiffSucceeds(server: ApiServerDb)
    requires Valid(server)
    requires server.live == InitialStore[B := LoweredB] && server.deleted == map[]
    ensures GetDiff(server, 2).Success?
  {
    UpdatedAfterTwo(server);
    FewUpdateChanges(server);
    DiffFailsIffOversized(server, 2);
  }

  /** `B` was updated at 4, so the store changed after 2. */
  lemma UpdatedAfterTwo(server: ApiServerDb)
    requires server.live == InitialStore[B := LoweredB]
    ensures !UnchangedSince(server, 2)
  {
    assert B in server.live && server.live[B].updatedAt > 2;
  }

  /** At most five entries were updated and none tombstoned after 2. */
  lemma FewUpdateChanges(server: ApiServerDb)
    requires server.live == InitialStore[B := LoweredB] && server.deleted == map[]
    ensures |UpdatedIds(server, 2)| <= 5 && |DeletedIds(server, 2)| == 0
  {
    SubsetSize(UpdatedIds(server, 2), {A, B, C, D, E});
    assert DeletedIds(server, 2) == {};
  }

  /**
   The paged mirror agrees with the store after the delete on everything not
   modified after 2: `B`, which the store no longer lists, was deleted at 4.
   */
  lemma StepAfterDelete(server: ApiServerDb, mirror: LocalMyListDb)
    requires server.live == InitialStore - {B} && server.deleted == map[B := DeletedMyListItem(B, 4)]
    requires mirror == InitialStore
    ensures InStepAsOf(server, mirror, 2)
  {
  }

  /**
   The paged mirror agrees with the store after the update on everything not
   modified after 2: only `B` differs, and it was updated at 4.
   */
  lemma StepAfterUpdate(server: ApiServerDb, mirror: LocalMyListDb)
    requires server.live == InitialStore[B := LoweredB] && server.deleted == map[]
    requires mirror == InitialStore
    ensures InStepAsOf(server, mirror, 2)
  {
  }
}

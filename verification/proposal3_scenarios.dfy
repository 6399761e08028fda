/**
 The scenario of the Proposal 3 test, replayed against the model: a bulk
 page of two from the start pulls in the tie at timestamp 2, `A` is deleted,
 and the page after timestamp 2 delivers `D` and the tombstone of `A` and is
 the last, leaving the mirror equal to the store.
 */
module Proposal3Scenarios {
  import opened Wrappers
  import opened Lists
  import opened SmallLists
  import opened Common
  import opened ServerDb
  import opened LocalDb
  import opened ConsistentPaging
  import opened AnimeIds
  import opened Proposal1Scenarios
  import opened Proposal2Scenarios
  import opened Proposal3

  /**
   Deleting `A` between two bulk pages of two: the first page has a next
   page starting after 2, the second has none, and the mirror ends equal to
   the store.
   */
  method DeleteDuringPagination(serverDb: ApiServerDb) returns (server: ApiServerDb, mirror: LocalMyListDb)
    ensures MyListItems(server) == InitialMyList[1..]
    ensures DeletedMyListItems(server) == [DeadA]
    ensures mirror == server.live
  {
    var before, next1;
    before, mirror, next1 := FirstBulk2Round(serverDb);

    server := DeleteMyListItem(before, A, 4);
    ListedAfterDeletingFirst(before, server);

    mirror := SecondBulk2Round(server, mirror, next1);
    StoreOfThree(server);
  }

  method FirstBulk2Round(serverDb: ApiServerDb) returns (server: ApiServerDb, mirror: LocalMyListDb, next: NextUrl)
    ensures Valid(server) && MyListItems(server) == InitialMyList && server.deleted == map[]
    ensures mirror == TieMirror
    ensures next == NextUrl(2)
  {
    server := ResetToInitial(serverDb);
    var res1 := Bulk2(server, 0, 2);
    FirstBulk2Page(server);
    assert res1.next.Some?;
    next := res1.next.value;
    mirror := UpsertOrDelete(map[], res1.data);
    TiePageApplied(res1.data);
  }

  method SecondBulk2Round(server: ApiServerDb, mirror0: LocalMyListDb, next1: NextUrl) returns (mirror: LocalMyListDb)
    requires MyListItems(server) == InitialMyList[1..] && DeletedMyListItems(server) == [DeadA]
    requires mirror0 == TieMirror && next1 == NextUrl(2)
    ensures mirror == ThirdMirror
  {
    var res2 := Bulk2(server, next1.latestUpdatedAt, 2);
    SecondBulk2Page(server);
    assert res2.next.None?;
    mirror := UpsertOrDelete(mirror0, res2.data);
    LastPageApplied(res2.data);
  }

  /** The mirror after the first page: `A`, `B` and `C`. */
  const TieMirror: LocalMyListDb := map[A := LiveA, B := LiveB, C := LiveC]

  /**
   The first page of two from the start: `B` and `C` tie at 2, so the page
   holds `A`, `B` and `C`; `D` is newer, so there is a next page after 2.
   */
  lemma FirstBulk2Page(server: ApiServerDb)
    requires MyListItems(server) == InitialMyList && server.deleted == map[]
    ensures Bulk2(server, 0, 2) ==
      MyListResponse([LiveItem(LiveA), LiveItem(LiveB), LiveItem(LiveC)], Some(NextUrl(2)))
  {
    NoTombstones(server);
    FirstPageOfListing(MyListItems(server), DeletedMyListItems(server));
  }

  lemma FirstPageOfListing(xs: seq<MyListItem>, ds: seq<DeletedMyListItem>)
    requires xs == InitialMyList && ds == []
    ensures Bulk2Page(xs, ds, 0, 2) ==
      MyListResponse([LiveItem(LiveA), LiveItem(LiveB), LiveItem(LiveC)], Some(NextUrl(2)))
  {
    FirstLivePage(xs);
    FirstMerged(xs, ds);
    TieOfThree([LiveItem(LiveA), LiveItem(LiveB), LiveItem(LiveC)], SyncModifiedAt, 0);
  }

  /** The first live page as bulk items, with no tombstones beside it. */
  lemma FirstMerged(xs: seq<MyListItem>, ds: seq<DeletedMyListItem>)
    requires xs == InitialMyList && ds == []
    ensures Merged(xs, ds, 0, 2) == [LiveItem(LiveA), LiveItem(LiveB), LiveItem(LiveC)]
  {
    FirstLivePage(xs);
    NoTombstonePage(xs, ds, 0);
    MapThree(InitialMyList[..3], LiveItem);
  }

  lemma FirstLivePage(xs: seq<MyListItem>)
    requires xs == InitialMyList
    ensures LivePage(xs, 0, 2) == ListWithHasNext(InitialMyList[..3], true)
  {
    assert xs[0] == LiveA && xs[1] == LiveB && xs[2] == LiveC && xs[3] == LiveD;
    TieOfFour(xs, ItemModifiedAt, 0);
  }

  /** A store without tombstones lists none. */
  lemma NoTombstones(server: ApiServerDb)
    requires server.deleted == map[]
    ensures DeletedMyListItems(server) == []
  {
  }

  lemma NoTombstonePage(xs: seq<MyListItem>, ds: seq<DeletedMyListItem>, since: Timestamp)
    requires ds == []
    ensures PageableWith(xs, ds, since, 2)
    ensures TombstonePage(ds, since, 2) == ListWithHasNext([], false)
  {
  }

  lemma MapOne<T, U>(xs: seq<T>, f: T -> U)
    requires |xs| == 1
    ensures Map(xs, f) == [f(xs[0])]
  {
  }

  lemma MapThree<T, U>(xs: seq<T>, f: T -> U)
    requires |xs| == 3
    ensures Map(xs, f) == [f(xs[0]), f(xs[1]), f(xs[2])]
  {
  }

  /**
   Four elements after `since` in time order whose middle two tie: a page
   of two takes the first three and reports more.
   */
  lemma TieOfFour<T>(all: seq<T>, at: T -> int, since: int)
    requires |all| == 4
    requires since < at(all[0]) < at(all[1]) == at(all[2]) < at(all[3])
    ensures ItemsOrderByModifiedAtConsistently(all, at, since, 2) == ListWithHasNext(all[..3], true)
  {
    FourInOrder(all, at, since);
    TieResult(all, at, since, 2, all);
    TieOfFourItems(all, at);
  }

  lemma FourInOrder<T>(all: seq<T>, at: T -> int, since: int)
    requires |all| == 4
    requires since < at(all[0]) < at(all[1]) == at(all[2]) < at(all[3])
    ensures SortBy(Candidates(all, at, since), at) == all
  {
    SortedFour(all, at);
    AllPendingInOrder(all, at, since);
  }

  /** The first three, with the tied pair replaced by its group, are the first three; the fourth is later. */
  lemma TieOfFourItems<T>(all: seq<T>, at: T -> int)
    requires |all| == 4
    requires at(all[0]) < at(all[1]) == at(all[2]) < at(all[3])
    ensures DropLast(Take(all, 3), 2) + Filter(all, ModifiedAt(at, at(all[1]))) == all[..3]
    ensures SomeLater(all, at, at(all[1]))
  {
    assert Take(all, 3) == all[..3];
    TieGroupOfFour(all, at);
    TieSplice(all[..3], Filter(all, ModifiedAt(at, at(all[1]))));
    assert at(all[3]) > at(all[1]);
  }

  /**
   Three elements after `since` in time order whose last two tie: a page of
   two takes all three and reports nothing more.
   */
  lemma TieOfThree<T>(all: seq<T>, at: T -> int, since: int)
    requires |all| == 3
    requires since < at(all[0]) < at(all[1]) == at(all[2])
    ensures ItemsOrderByModifiedAtConsistently(all, at, since, 2) == ListWithHasNext(all, false)
  {
    AllPendingInOrder(all, at, since);
    TieResult(all, at, since, 2, all);
    TieGroupOfThree(all, at);
    TieSplice(all, Filter(all, ModifiedAt(at, at(all[1]))));
    NoneLaterThanSecond(all, at);
  }

  /** The page in the tie case, spelled out. */
  lemma TieResult<T>(all: seq<T>, at: T -> int, since: int, limit: nat, s: seq<T>)
    requires s == SortBy(Candidates(all, at, since), at)
    requires 0 < limit < |s| && at(s[limit - 1]) == at(s[limit])
    ensures ItemsOrderByModifiedAtConsistently(all, at, since, limit) ==
      ListWithHasNext(DropLast(Take(s, limit + 1), 2) + Filter(all, ModifiedAt(at, at(s[limit - 1]))),
        SomeLater(all, at, at(s[limit - 1])))
  {
    var resultItems := Take(s, limit + 1);
    assert resultItems[limit - 1] == s[limit - 1] && resultItems[limit] == s[limit];
  }

  lemma TieGroupOfFour<T>(all: seq<T>, at: T -> int)
    requires |all| == 4
    requires at(all[0]) < at(all[1]) == at(all[2]) < at(all[3])
    ensures Filter(all, ModifiedAt(at, at(all[1]))) == [all[1], all[2]]
  {
    FilterFour(all, ModifiedAt(at, at(all[1])));
  }

  lemma TieGroupOfThree<T>(all: seq<T>, at: T -> int)
    requires |all| == 3
    requires at(all[0]) < at(all[1]) == at(all[2])
    ensures Filter(all, ModifiedAt(at, at(all[1]))) == [all[1], all[2]]
  {
    FilterThree(all, ModifiedAt(at, at(all[1])));
  }

  /** The first three of a page of three, with the last two replaced by the tied group. */
  lemma TieSplice<T>(three: seq<T>, group: seq<T>)
    requires |three| == 3 && group == [three[1], three[2]]
    ensures Take(three, 3) == three
    ensures DropLast(three, 2) + group == three
  {
  }

  lemma NoneLaterThanSecond<T>(all: seq<T>, at: T -> int)
    requires |all| == 3 && at(all[0]) < at(all[1]) == at(all[2])
    ensures !SomeLater(all, at, at(all[1]))
  {
  }

  /** Elements all after `since` and in time order are their own sorted candidates. */
  lemma AllPendingInOrder<T>(all: seq<T>, at: T -> int, since: int)
    requires SortedBy(all, at)
    requires forall i :: 0 <= i < |all| ==> at(all[i]) > since
    ensures SortBy(Candidates(all, at, since), at) == all
  {
    FilterAll(all, ModifiedAfter(at, since));
    SortByOfSorted(all, at);
  }

  /** Applying the first page to an empty mirror stores `A`, `B` and `C`. */
  lemma TiePageApplied(data: seq<SyncItem>)
    requires data == [LiveItem(LiveA), LiveItem(LiveB), LiveItem(LiveC)]
    ensures UpsertOrDelete(map[], data) == TieMirror
  {
    var r := UpsertOrDelete(map[], data);
    assert LastSyncWithId(data, 0) && LastSyncWithId(data, 1) && LastSyncWithId(data, 2);
    assert SyncIds(data) == {A, B, C} by {
      assert data[0].animeId == A && data[1].animeId == B && data[2].animeId == C;
    }
    SameEntries(r, TieMirror);
  }

  /**
   The page after 2 once `A` is deleted: `D` and the tombstone of `A`, and
   nothing more.
   */
  lemma SecondBulk2Page(server: ApiServerDb)
    requires MyListItems(server) == InitialMyList[1..] && DeletedMyListItems(server) == [DeadA]
    ensures Bulk2(server, 2, 2) == MyListResponse([LiveItem(LiveD), DeletedItem(DeadA)], None)
  {
    SecondPageOfListing(MyListItems(server), DeletedMyListItems(server));
  }

  lemma SecondPageOfListing(xs: seq<MyListItem>, ds: seq<DeletedMyListItem>)
    requires xs == InitialMyList[1..] && ds == [DeadA]
    ensures Bulk2Page(xs, ds, 2, 2) == MyListResponse([LiveItem(LiveD), DeletedItem(DeadA)], None)
  {
    LaterLivePage(xs);
    OneTombstonePage(ds);
    MergedOfOnes(xs, ds, 2, 2, LiveD, DeadA);
    TwoInOrder([LiveItem(LiveD), DeletedItem(DeadA)], SyncModifiedAt, 2);
  }

  /** A live page of one entry merged with a tombstone page of one. */
  lemma MergedOfOnes(xs: seq<MyListItem>, ds: seq<DeletedMyListItem>, since: Timestamp, limit: nat, x: MyListItem, t: DeletedMyListItem)
    requires PageableWith(xs, ds, since, limit)
    requires LivePage(xs, since, limit).items == [x]
    requires TombstonePage(ds, since, limit).items == [t]
    ensures Merged(xs, ds, since, limit) == [LiveItem(x), DeletedItem(t)]
  {
    MergeOfOnes(LivePage(xs, since, limit).items, TombstonePage(ds, since, limit).items, x, t);
  }

  lemma MergeOfOnes(live: seq<MyListItem>, dead: seq<DeletedMyListItem>, x: MyListItem, t: DeletedMyListItem)
    requires live == [x] && dead == [t]
    ensures Map(live, LiveItem) + Map(dead, DeletedItem) == [LiveItem(x), DeletedItem(t)]
  {
    MapOne(live, LiveItem);
    MapOne(dead, DeletedItem);
  }

  lemma LaterLivePage(xs: seq<MyListItem>)
    requires xs == InitialMyList[1..]
    ensures LivePage(xs, 2, 2) == ListWithHasNext([LiveD], false)
  {
    assert xs[0] == LiveB && xs[1] == LiveC && xs[2] == LiveD;
    LastOfThree(xs, ItemModifiedAt, 2);
  }

  lemma OneTombstonePage(ds: seq<DeletedMyListItem>)
    requires ds == [DeadA]
    ensures TombstonePage(ds, 2, 2) == ListWithHasNext([DeadA], false)
  {
    OneAfter(ds, TombstoneModifiedAt, 2);
  }

  /** Three elements of which only the last is after `since`: a page of two holds it alone. */
  lemma LastOfThree<T>(all: seq<T>, at: T -> int, since: int)
    requires |all| == 3
    requires at(all[0]) <= since && at(all[1]) <= since < at(all[2])
    ensures ItemsOrderByModifiedAtConsistently(all, at, since, 2) == ListWithHasNext([all[2]], false)
  {
    FilterThree(all, ModifiedAfter(at, since));
    SortByOfSorted([all[2]], at);
  }

  /** One element after `since`: a page of two holds it. */
  lemma OneAfter<T>(all: seq<T>, at: T -> int, since: int)
    requires |all| == 1 && at(all[0]) > since
    ensures ItemsOrderByModifiedAtConsistently(all, at, since, 2) == ListWithHasNext(all, false)
  {
    AllPendingInOrder(all, at, since);
  }

  /** Two elements after `since` in time order: a page of two holds both. */
  lemma TwoInOrder<T>(all: seq<T>, at: T -> int, since: int)
    requires |all| == 2 && since < at(all[0]) <= at(all[1])
    ensures ItemsOrderByModifiedAtConsistently(all, at, since, 2) == ListWithHasNext(all, false)
  {
    AllPendingInOrder(all, at, since);
  }

  /** Applying the second page: `D` comes in and `A` goes. */
  lemma LastPageApplied(data: seq<SyncItem>)
    requires data == [LiveItem(LiveD), DeletedItem(DeadA)]
    ensures UpsertOrDelete(TieMirror, data) == ThirdMirror
  {
    assert ToMyListItem(data[0]) == LiveD;
    assert UpsertOrDelete(TieMirror, data) == UpsertOrDelete(Upsert(TieMirror, [LiveD]), data[1..]);
    UpsertD();
    DeleteA();
  }

  lemma UpsertD()
    ensures Upsert(TieMirror, [LiveD]) == map[A := LiveA, B := LiveB, C := LiveC, D := LiveD]
  {
    assert Ids([LiveD]) == {D} by {
      assert [LiveD][0].animeId == D;
    }
    assert LastWithId([LiveD], 0);
    SameEntries(Upsert(TieMirror, [LiveD]), map[A := LiveA, B := LiveB, C := LiveC, D := LiveD]);
  }

  lemma DeleteA()
    ensures Delete(map[A := LiveA, B := LiveB, C := LiveC, D := LiveD], [A]) == ThirdMirror
  {
    assert IdSet([A]) == {A} by {
      assert [A][0] == A;
    }
    SameEntries(Delete(map[A := LiveA, B := LiveB, C := LiveC, D := LiveD], [A]), ThirdMirror);
  }
}

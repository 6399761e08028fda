/**
 The scenario of the Proposal 2 test, replayed against the model: three
 bulk pages of two with `A` deleted after the first, each page applied to
 the mirror by `upsertOrDelete`, ending with the mirror equal to the store.
 */
module Proposal2Scenarios {
  import opened Wrappers
  import opened Lists
  import opened SmallLists
  import opened Common
  import opened ServerDb
  import opened LocalDb
  import opened ConsistentPaging
  import opened AnimeIds
  import opened Proposal1Scenarios
  import opened Proposal2

  /**
   Deleting `A` while paging the bulk feed: the tombstone of `A`, dated 4,
   sorts after every live entry, so the third page delivers it and the
   mirror ends equal to the store.
   */
  method DeleteDuringPagination(serverDb: ApiServerDb) returns (server: ApiServerDb, mirror: LocalMyListDb)
    ensures MyListItems(server) == InitialMyList[1..]
    ensures DeletedMyListItems(server) == [DeletedMyListItem(A, 4)]
    ensures mirror == server.live
  {
    var before, after1;
    before, mirror, after1 := FirstBulkRound(serverDb);

    server := DeleteMyListItem(before, A, 4);
    ListedAfterDeletingFirst(before, server);

    mirror := LaterBulkRounds(server, mirror, after1);
  }

  /** The second and third pages applied to the mirror, which ends equal to the store. */
  method LaterBulkRounds(server: ApiServerDb, mirror0: LocalMyListDb, after1: Cursor) returns (mirror: LocalMyListDb)
    requires Valid(server) && MyListItems(server) == InitialMyList[1..] && DeletedMyListItems(server) == [DeadA]
    requires mirror0 == FirstMirror && after1 == Cursor(2, B)
    ensures mirror == server.live
  {
    var after2;
    mirror, after2 := SecondBulkRound(server, mirror0, after1);
    mirror := ThirdBulkRound(server, mirror, after2);
    StoreOfThree(server);
  }

  /** The first page of two from the start, applied to an empty mirror; it has a next page. */
  method FirstBulkRound(serverDb: ApiServerDb) returns (server: ApiServerDb, mirror: LocalMyListDb, after: Cursor)
    ensures Valid(server) && MyListItems(server) == InitialMyList && server.deleted == map[]
    ensures mirror == FirstMirror
    ensures after == Cursor(2, B)
  {
    server := ResetToInitial(serverDb);
    var res1 := Bulk(server, FirstCursor, 2);
    FirstBulkPage(server);
    assert res1.after.Some?;
    after := res1.after.value;
    mirror := UpsertOrDelete(map[], res1.data);
    FirstPageApplied(res1.data);
  }

  /** The second page, after `A` was deleted, applied to the mirror; it has a next page. */
  method SecondBulkRound(server: ApiServerDb, mirror0: LocalMyListDb, after1: Cursor) returns (mirror: LocalMyListDb, after: Cursor)
    requires MyListItems(server) == InitialMyList[1..] && DeletedMyListItems(server) == [DeadA]
    requires mirror0 == FirstMirror && after1 == Cursor(2, B)
    ensures mirror == SecondMirror
    ensures after == Cursor(3, D)
  {
    var res2 := Bulk(server, after1, 2);
    SecondBulkPage(server);
    assert res2.after.Some?;
    after := res2.after.value;
    mirror := UpsertOrDelete(mirror0, res2.data);
    SecondPageApplied(res2.data);
  }

  /** The third page applied to the mirror; it is the last. */
  method ThirdBulkRound(server: ApiServerDb, mirror0: LocalMyListDb, after2: Cursor) returns (mirror: LocalMyListDb)
    requires MyListItems(server) == InitialMyList[1..] && DeletedMyListItems(server) == [DeadA]
    requires mirror0 == SecondMirror && after2 == Cursor(3, D)
    ensures mirror == ThirdMirror
  {
    var res3 := Bulk(server, after2, 2);
    ThirdBulkPage(server);
    assert res3.after.None?;
    mirror := UpsertOrDelete(mirror0, res3.data);
    ThirdPageApplied(res3.data);
  }

  /**
   A bulk page whose pool is already in time order: the first `limit` items
   of the pool, and the cursor of the last of them when the pool holds more.
   */
  lemma PageOfOrderedPool(live: seq<MyListItem>, dead: seq<DeletedMyListItem>, after: Cursor, limit: nat, pool: seq<SyncItem>)
    requires limit > 0
    requires pool == Pool(live, dead, after, limit)
    requires SortedBy(pool, SyncModifiedAt)
    ensures BulkPage(live, dead, after, limit).data == Take(pool, limit)
    ensures BulkPage(live, dead, after, limit).after ==
      if |pool| > limit then Some(SyncCursor(pool[limit - 1])) else None
  {
    BulkPageOfPool(live, dead, after, limit);
    SortByOfSorted(pool, SyncModifiedAt);
  }

  const LiveA: MyListItem := InitialMyList[0]
  const LiveB: MyListItem := InitialMyList[1]
  const LiveC: MyListItem := InitialMyList[2]
  const LiveD: MyListItem := InitialMyList[3]
  const DeadA: DeletedMyListItem := DeletedMyListItem(A, 4)

  /** The first page from the start: `A` and `B`, with `(2, B)` as the next cursor. */
  lemma FirstBulkPage(server: ApiServerDb)
    requires MyListItems(server) == InitialMyList && server.deleted == map[]
    ensures Bulk(server, FirstCursor, 2) ==
      MyListResponse([LiveItem(LiveA), LiveItem(LiveB)], Some(Cursor(2, B)))
  {
    var xs := MyListItems(server);
    assert DeletedMyListItems(server) == [];
    assert xs[0] == LiveA && xs[1] == LiveB && xs[2] == LiveC && xs[3] == LiveD;
    HeadPage(xs, [], FirstCursor);
  }

  /**
   Four live entries in cursor order, all after `after`, and no tombstone:
   the page of two holds the first two, and the next page starts at the
   second.
   */
  lemma HeadPage(xs: seq<MyListItem>, dead: seq<DeletedMyListItem>, after: Cursor)
    requires |xs| == 4 && dead == []
    requires Encode(after) < LiveKey(xs[0]) < LiveKey(xs[1]) < LiveKey(xs[2]) < LiveKey(xs[3])
    requires xs[0].updatedAt <= xs[1].updatedAt <= xs[2].updatedAt
    ensures BulkPage(xs, dead, after, 2) == MyListResponse([LiveItem(xs[0]), LiveItem(xs[1])], Some(LiveCursor(xs[1])))
  {
    AllLiveAfter(xs, after);
    var pool := [LiveItem(xs[0]), LiveItem(xs[1]), LiveItem(xs[2])];
    LivePool(xs, dead, after, xs[..3], pool);
    SortedThree(pool, SyncModifiedAt);
    PageOfOrderedPool(xs, dead, after, 2, pool);
    TakeTwo(pool);
  }

  lemma AllLiveAfter(xs: seq<MyListItem>, after: Cursor)
    requires |xs| == 4
    requires Encode(after) < LiveKey(xs[0]) < LiveKey(xs[1]) < LiveKey(xs[2]) < LiveKey(xs[3])
    ensures LiveAfter(xs, after) == xs
  {
    AllOfFourAfter(xs, LiveKey, Encode(after));
  }

  /** Four elements in key order, all after `since`: sorting and selecting keeps all four. */
  lemma AllOfFourAfter<T>(xs: seq<T>, key: T -> int, since: int)
    requires |xs| == 4
    requires since < key(xs[0]) <= key(xs[1]) <= key(xs[2]) <= key(xs[3])
    ensures Candidates(SortBy(xs, key), key, since) == xs
  {
    SortedFour(xs, key);
    SortByOfSorted(xs, key);
    FilterAll(xs, ModifiedAfter(key, since));
  }

  /** The pool when no tombstone is a candidate and `taken` are the first three live candidates. */
  lemma LivePool(xs: seq<MyListItem>, dead: seq<DeletedMyListItem>, after: Cursor, taken: seq<MyListItem>, pool: seq<SyncItem>)
    requires dead == [] && |taken| == 3 && Take(LiveAfter(xs, after), 3) == taken
    requires pool == [LiveItem(taken[0]), LiveItem(taken[1]), LiveItem(taken[2])]
    ensures pool == Pool(xs, dead, after, 2)
  {
    assert TombstonesAfter(dead, after) == [];
  }

  lemma TakeTwo<T>(xs: seq<T>)
    requires |xs| >= 2
    ensures Take(xs, 2) == [xs[0], xs[1]]
  {
  }

  /** Deleting `A` from the initial list leaves `B`, `C`, `D` listed and the one tombstone of `A`. */
  lemma ListedAfterDeletingFirst(before: ApiServerDb, server: ApiServerDb)
    requires Valid(before) && MyListItems(before) == InitialMyList && before.deleted == map[]
    requires server == DeleteMyListItem(before, A, 4)
    ensures Valid(server)
    ensures MyListItems(server) == InitialMyList[1..]
    ensures DeletedMyListItems(server) == [DeadA]
  {
    var xs := MyListItems(before);
    assert xs[0].animeId == A && xs[1].animeId != A && xs[2].animeId != A && xs[3].animeId != A;
    ListedAfterDeletingHead(before, A, 4);
    OnlyTombstone(before, A, 4);
  }

  /** Deleting the first-listed id lists the rest in the same order. */
  lemma ListedAfterDeletingHead(before: ApiServerDb, animeId: AnimeId, now: Timestamp)
    requires Valid(before) && |MyListItems(before)| == 4
    requires var xs := MyListItems(before);
      xs[0].animeId == animeId && xs[1].animeId != animeId && xs[2].animeId != animeId && xs[3].animeId != animeId
    ensures MyListItems(DeleteMyListItem(before, animeId, now)) == MyListItems(before)[1..]
  {
    DeleteUnlists(before, animeId, now);
    DropFirstOfFour(MyListItems(before), OtherThan(animeId));
  }

  /** Deleting an id from a store without tombstones leaves that id's tombstone alone. */
  lemma OnlyTombstone(before: ApiServerDb, animeId: AnimeId, now: Timestamp)
    requires before.deleted == map[]
    ensures DeletedMyListItems(DeleteMyListItem(before, animeId, now)) == [DeletedMyListItem(animeId, now)]
  {
    var server := DeleteMyListItem(before, animeId, now);
    assert server.deleted == map[animeId := DeletedMyListItem(animeId, now)];
    TombstonesListedAs(server, [animeId]);
  }

  /** From `(2, B)`: `C` and `D`, with `(3, D)` as the next cursor. */
  lemma SecondBulkPage(server: ApiServerDb)
    requires MyListItems(server) == InitialMyList[1..] && DeletedMyListItems(server) == [DeadA]
    ensures Bulk(server, Cursor(2, B), 2) ==
      MyListResponse([LiveItem(LiveC), LiveItem(LiveD)], Some(Cursor(3, D)))
  {
    var xs := MyListItems(server);
    assert xs[0] == LiveB && xs[1] == LiveC && xs[2] == LiveD;
    MiddlePage(xs, [DeadA], Cursor(2, B));
  }

  /**
   Three live entries in cursor order of which the first is not after
   `after`, and one tombstone after `after` and no earlier than the live
   entries: the page of two holds the last two live entries, and the next
   page starts at the last of them.
   */
  lemma MiddlePage(xs: seq<MyListItem>, dead: seq<DeletedMyListItem>, after: Cursor)
    requires |xs| == 3 && |dead| == 1
    requires LiveKey(xs[0]) <= Encode(after) < LiveKey(xs[1]) < LiveKey(xs[2])
    requires Encode(after) < TombstoneKey(dead[0])
    requires xs[1].updatedAt <= xs[2].updatedAt <= dead[0].deletedAt
    ensures BulkPage(xs, dead, after, 2) == MyListResponse([LiveItem(xs[1]), LiveItem(xs[2])], Some(LiveCursor(xs[2])))
  {
    LaterLiveAfter(xs, after);
    OneTombstoneAfter(dead, after);
    var pool := [LiveItem(xs[1]), LiveItem(xs[2]), DeletedItem(dead[0])];
    MixedPool(xs, dead, after, [xs[1], xs[2]], pool);
    SortedThree(pool, SyncModifiedAt);
    PageOfOrderedPool(xs, dead, after, 2, pool);
    TakeTwo(pool);
  }

  lemma LaterLiveAfter(xs: seq<MyListItem>, after: Cursor)
    requires |xs| == 3
    requires LiveKey(xs[0]) <= Encode(after) < LiveKey(xs[1]) < LiveKey(xs[2])
    ensures LiveAfter(xs, after) == [xs[1], xs[2]]
  {
    LastTwoOfThreeAfter(xs, LiveKey, Encode(after));
  }

  /** Three elements in key order of which the last two are after `since`: those two are selected. */
  lemma LastTwoOfThreeAfter<T>(xs: seq<T>, key: T -> int, since: int)
    requires |xs| == 3
    requires key(xs[0]) <= since < key(xs[1]) <= key(xs[2])
    ensures Candidates(SortBy(xs, key), key, since) == [xs[1], xs[2]]
  {
    SortedThree(xs, key);
    SortByOfSorted(xs, key);
    var p := ModifiedAfter(key, since);
    assert !p(xs[0]) && p(xs[1]) && p(xs[2]);
    KeepLastTwoOfThree(xs, p);
  }

  /** The pool when two live entries and one tombstone are the candidates. */
  lemma MixedPool(xs: seq<MyListItem>, dead: seq<DeletedMyListItem>, after: Cursor, live: seq<MyListItem>, pool: seq<SyncItem>)
    requires |live| == 2 && |dead| == 1
    requires LiveAfter(xs, after) == live && TombstonesAfter(dead, after) == dead
    requires pool == [LiveItem(live[0]), LiveItem(live[1]), DeletedItem(dead[0])]
    ensures pool == Pool(xs, dead, after, 2)
  {
    assert Take(live, 3) == live;
    assert Take(dead, 3) == dead;
  }

  /** A single tombstone after `after` is the one tombstone candidate. */
  lemma OneTombstoneAfter(dead: seq<DeletedMyListItem>, after: Cursor)
    requires |dead| == 1 && Encode(after) < TombstoneKey(dead[0])
    ensures TombstonesAfter(dead, after) == dead
  {
    SortByOfSorted(dead, TombstoneKey);
    FilterAll(dead, ModifiedAfter(TombstoneKey, Encode(after)));
  }

  /** From `(3, D)`: the tombstone of `A` alone, and no next page. */
  lemma ThirdBulkPage(server: ApiServerDb)
    requires MyListItems(server) == InitialMyList[1..] && DeletedMyListItems(server) == [DeadA]
    ensures Bulk(server, Cursor(3, D), 2) == MyListResponse([DeletedItem(DeadA)], None)
  {
    var xs := MyListItems(server);
    assert xs[0] == LiveB && xs[1] == LiveC && xs[2] == LiveD;
    TailPage(xs, [DeadA], Cursor(3, D));
  }

  /**
   Three live entries in cursor order, none after `after`, and one
   tombstone after it: the page holds the tombstone alone and is the last.
   */
  lemma TailPage(xs: seq<MyListItem>, dead: seq<DeletedMyListItem>, after: Cursor)
    requires |xs| == 3 && |dead| == 1
    requires LiveKey(xs[0]) < LiveKey(xs[1]) < LiveKey(xs[2]) <= Encode(after) < TombstoneKey(dead[0])
    ensures BulkPage(xs, dead, after, 2) == MyListResponse([DeletedItem(dead[0])], None)
  {
    NoLiveAfter(xs, after);
    OneTombstoneAfter(dead, after);
    var pool := [DeletedItem(dead[0])];
    TombstonePool(xs, dead, after, pool);
    PageOfOrderedPool(xs, dead, after, 2, pool);
  }

  lemma NoLiveAfter(xs: seq<MyListItem>, after: Cursor)
    requires |xs| == 3
    requires LiveKey(xs[0]) < LiveKey(xs[1]) < LiveKey(xs[2]) <= Encode(after)
    ensures LiveAfter(xs, after) == []
  {
    NoneOfThreeAfter(xs, LiveKey, Encode(after));
  }

  /** Three elements in key order, none after `since`: nothing is selected. */
  lemma NoneOfThreeAfter<T>(xs: seq<T>, key: T -> int, since: int)
    requires |xs| == 3
    requires key(xs[0]) <= key(xs[1]) <= key(xs[2]) <= since
    ensures Candidates(SortBy(xs, key), key, since) == []
  {
    SortedThree(xs, key);
    SortByOfSorted(xs, key);
    FilterNone(xs, ModifiedAfter(key, since));
  }

  /** The pool when one tombstone is the only candidate. */
  lemma TombstonePool(xs: seq<MyListItem>, dead: seq<DeletedMyListItem>, after: Cursor, pool: seq<SyncItem>)
    requires |dead| == 1
    requires LiveAfter(xs, after) == [] && TombstonesAfter(dead, after) == dead
    requires pool == [DeletedItem(dead[0])]
    ensures pool == Pool(xs, dead, after, 2)
  {
    assert Take(dead, 3) == dead;
  }

  /** The mirror after the first page: `A` and `B` as listed. */
  const FirstMirror: LocalMyListDb := map[A := LiveA, B := LiveB]

  /** The mirror after the second page: all four initial entries. */
  const SecondMirror: LocalMyListDb := map[A := LiveA, B := LiveB, C := LiveC, D := LiveD]

  /** The mirror after the third page: `B`, `C` and `D`. */
  const ThirdMirror: LocalMyListDb := map[B := LiveB, C := LiveC, D := LiveD]

  /** Applying the first page to an empty mirror stores `A` and `B`. */
  lemma FirstPageApplied(data: seq<SyncItem>)
    requires data == [LiveItem(LiveA), LiveItem(LiveB)]
    ensures UpsertOrDelete(map[], data) == FirstMirror
  {
    var r := UpsertOrDelete(map[], data);
    assert LastSyncWithId(data, 0) && LastSyncWithId(data, 1);
    assert SyncIds(data) == {A, B} by {
      assert data[0].animeId == A && data[1].animeId == B;
    }
    SameEntries(r, FirstMirror);
  }

  /** Applying the second page adds `C` and `D`. */
  lemma SecondPageApplied(data: seq<SyncItem>)
    requires data == [LiveItem(LiveC), LiveItem(LiveD)]
    ensures UpsertOrDelete(FirstMirror, data) == SecondMirror
  {
    var r := UpsertOrDelete(FirstMirror, data);
    assert LastSyncWithId(data, 0) && LastSyncWithId(data, 1);
    assert SyncIds(data) == {C, D} by {
      assert data[0].animeId == C && data[1].animeId == D;
    }
    SameEntries(r, SecondMirror);
  }

  /** Applying the third page, the tombstone of `A`, takes `A` out. */
  lemma ThirdPageApplied(data: seq<SyncItem>)
    requires data == [DeletedItem(DeadA)]
    ensures UpsertOrDelete(SecondMirror, data) == ThirdMirror
  {
    var r := UpsertOrDelete(SecondMirror, data);
    assert LastSyncWithId(data, 0);
    assert SyncIds(data) == {A} by {
      assert data[0].animeId == A;
    }
    SameEntries(r, ThirdMirror);
  }

  /** A store listing `B`, `C` and `D` as initially stored holds exactly those three entries. */
  lemma StoreOfThree(server: ApiServerDb)
    requires KeyedItems(server.live) && MyListItems(server) == InitialMyList[1..]
    ensures server.live == ThirdMirror
  {
    HoldsListed(server);
    OnlyListed(server);
    MapOfThree(server.live, B, LiveB, C, LiveC, D, LiveD);
  }

  lemma HoldsListed(server: ApiServerDb)
    requires KeyedItems(server.live) && MyListItems(server) == InitialMyList[1..]
    ensures B in server.live && server.live[B] == LiveB
    ensures C in server.live && server.live[C] == LiveC
    ensures D in server.live && server.live[D] == LiveD
  {
    var xs := MyListItems(server);
    assert xs[0] == LiveB && xs[1] == LiveC && xs[2] == LiveD;
  }

  lemma OnlyListed(server: ApiServerDb)
    requires KeyedItems(server.live) && MyListItems(server) == InitialMyList[1..]
    ensures forall k :: k in server.live ==> k == B || k == C || k == D
  {
    var xs := MyListItems(server);
    LiveIdsListed(server, xs);
    assert xs[0].animeId == B && xs[1].animeId == C && xs[2].animeId == D;
  }

  /** Every live id of a keyed store is the id of a listed entry. */
  lemma LiveIdsListed(server: ApiServerDb, xs: seq<MyListItem>)
    requires KeyedItems(server.live) && MyListItems(server) == xs
    ensures forall k :: k in server.live ==> exists i :: 0 <= i < |xs| && xs[i].animeId == k
  {
    forall k | k in server.live ensures exists i :: 0 <= i < |xs| && xs[i].animeId == k {
      assert server.live[k] in xs;
    }
  }
}

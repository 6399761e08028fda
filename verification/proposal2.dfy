/**
 Proposal 2: one bulk feed of live entries and tombstones, paged by a
 composite `(modifiedAt, animeId)` cursor that is compared through the
 number `modifiedAt * 10000 + animeId`.
 */
module Proposal2 {
  import opened Wrappers
  import opened Lists
  import opened Common
  import opened ServerDb
  import opened ConsistentPaging

  /** The id range in which the cursor number keeps ids apart. */
  const IdBound: int := 10000

  /** `ApiProposal2.Cursor`. */
  datatype Cursor = Cursor(nextUpdatedSince: Timestamp, nextAnimeId: AnimeId)

  /** The number `compareTo` compares: `nextUpdatedSince * 10000 + nextAnimeId`. */
  function Encode(c: Cursor): int {
    c.nextUpdatedSince * IdBound + c.nextAnimeId
  }

  /** `Cursor.compareTo`: negative, zero or positive as `c` sorts before, with or after `other`. */
  function CompareTo(c: Cursor, other: Cursor): int {
    Encode(c) - Encode(other)
  }

  /** The cursor a bulk request starts from by default, `Cursor(0, 0)`. */
  const FirstCursor: Cursor := Cursor(0, 0)

  /** Lexicographic order on `(modifiedAt, animeId)`. */
  predicate Before(c: Cursor, other: Cursor) {
    c.nextUpdatedSince < other.nextUpdatedSince
    || (c.nextUpdatedSince == other.nextUpdatedSince && c.nextAnimeId < other.nextAnimeId)
  }

  predicate IdInRange(c: Cursor) {
    0 <= c.nextAnimeId < IdBound
  }

  /** Reading a cursor number back into its two parts. */
  function Decode(n: int): Cursor {
    Cursor(n / IdBound, n % IdBound)
  }

  /**
   For ids in `[0, 10000)`, `compareTo` is the lexicographic order on
   `(modifiedAt, animeId)`, and it says "equal" only of equal cursors.
   */
  lemma CompareToIsLexicographic(c: Cursor, other: Cursor)
    requires IdInRange(c) && IdInRange(other)
    ensures CompareTo(c, other) < 0 <==> Before(c, other)
    ensures CompareTo(c, other) == 0 <==> c == other
  {
    if c.nextUpdatedSince < other.nextUpdatedSince {
      assert c.nextUpdatedSince * IdBound + IdBound <= other.nextUpdatedSince * IdBound;
    } else if c.nextUpdatedSince > other.nextUpdatedSince {
      assert other.nextUpdatedSince * IdBound + IdBound <= c.nextUpdatedSince * IdBound;
    }
  }

  /** For ids in `[0, 10000)` the cursor number determines the cursor. */
  lemma DecodeEncode(c: Cursor)
    requires IdInRange(c)
    ensures Decode(Encode(c)) == c
  {
    var n := Encode(c);
    assert n == c.nextUpdatedSince * IdBound + c.nextAnimeId;
    assert n / IdBound == c.nextUpdatedSince && n % IdBound == c.nextAnimeId by {
      DivModUnique(n, c.nextUpdatedSince, c.nextAnimeId);
    }
  }

  lemma DivModUnique(n: int, q: int, r: int)
    requires n == q * IdBound + r && 0 <= r < IdBound
    ensures n / IdBound == q && n % IdBound == r
  {
    var q' := n / IdBound;
    var r' := n % IdBound;
    assert (q - q') * IdBound == r' - r;
  }

  /** An id outside `[0, 10000)` makes two different cursors compare equal. */
  lemma CursorCollision()
    ensures CompareTo(Cursor(0, IdBound), Cursor(1, 0)) == 0
    ensures Cursor(0, IdBound) != Cursor(1, 0)
  {
  }

  /** `MyListResponse`: `after` is the cursor of the next page. */
  datatype MyListResponse = MyListResponse(data: seq<SyncItem>, after: Option<Cursor>)

  function LiveCursor(x: MyListItem): Cursor {
    Cursor(x.updatedAt, x.animeId)
  }

  function TombstoneCursor(x: DeletedMyListItem): Cursor {
    Cursor(x.deletedAt, x.animeId)
  }

  function SyncCursor(x: SyncItem): Cursor {
    Cursor(x.modifiedAt, x.animeId)
  }

  function LiveKey(x: MyListItem): int {
    Encode(LiveCursor(x))
  }

  function TombstoneKey(x: DeletedMyListItem): int {
    Encode(TombstoneCursor(x))
  }

  function SyncKey(x: SyncItem): int {
    Encode(SyncCursor(x))
  }

  /** The live entries sorted by cursor and kept when their cursor is after `after`. */
  function LiveAfter(live: seq<MyListItem>, after: Cursor): seq<MyListItem> {
    Candidates(SortBy(live, LiveKey), LiveKey, Encode(after))
  }

  /** The tombstones sorted by cursor and kept when their cursor is after `after`. */
  function TombstonesAfter(dead: seq<DeletedMyListItem>, after: Cursor): seq<DeletedMyListItem> {
    Candidates(SortBy(dead, TombstoneKey), TombstoneKey, Encode(after))
  }

  /**
   The page the bulk endpoint computes from the id-ordered live entries
   `live` and tombstones `dead`: up to `limit + 1` candidates of each kind,
   merged by modification time alone (a stable sort, so live items come
   first among equal times), cut to `limit`. A `limit` of zero with some
   candidate makes `allItems.last()` fail on an empty list.
   */
  function BulkPage(live: seq<MyListItem>, dead: seq<DeletedMyListItem>, after: Cursor, limit: nat): (r: MyListResponse)
    requires limit > 0 || |LiveAfter(live, after)| + |TombstonesAfter(dead, after)| == 0
    ensures |r.data| <= limit
  {
    var items := Map(Take(LiveAfter(live, after), limit + 1), LiveItem);
    var deletedItems := Map(Take(TombstonesAfter(dead, after), limit + 1), DeletedItem);
    var hasNext := |items| + |deletedItems| > limit;
    var allItems := Take(SortBy(items + deletedItems, SyncModifiedAt), limit);
    MyListResponse(
      Take(allItems, limit),
      if hasNext then Some(Cursor(Last(allItems).modifiedAt, Last(allItems).animeId)) else None)
  }

  /** `get_users_me_animelist_bulk(after, limit)`. */
  function Bulk(db: ApiServerDb, after: Cursor, limit: nat): MyListResponse
    requires limit > 0 || |LiveAfter(MyListItems(db), after)| + |TombstonesAfter(DeletedMyListItems(db), after)| == 0
  {
    BulkPage(MyListItems(db), DeletedMyListItems(db), after, limit)
  }

  /** The live and deleted items a bulk page can choose from, each already mapped to a bulk item. */
  function Pool(live: seq<MyListItem>, dead: seq<DeletedMyListItem>, after: Cursor, limit: nat): seq<SyncItem> {
    Map(Take(LiveAfter(live, after), limit + 1), LiveItem) + Map(Take(TombstonesAfter(dead, after), limit + 1), DeletedItem)
  }

  /**
   A bulk page is the first `limit` items of the time-sorted pool, with the
   cursor of the last of them when the pool holds more than `limit`.
   */
  lemma BulkPageOfPool(live: seq<MyListItem>, dead: seq<DeletedMyListItem>, after: Cursor, limit: nat)
    requires limit > 0 || |LiveAfter(live, after)| + |TombstonesAfter(dead, after)| == 0
    ensures var sorted := SortBy(Pool(live, dead, after, limit), SyncModifiedAt);
      && BulkPage(live, dead, after, limit).data == Take(sorted, limit)
      && BulkPage(live, dead, after, limit).after ==
        if |sorted| > limit then Some(SyncCursor(sorted[limit - 1])) else None
  {
    var sorted := SortBy(Pool(live, dead, after, limit), SyncModifiedAt);
    TakeOfTake(sorted, limit, limit);
    if |sorted| > limit {
      assert Last(Take(sorted, limit)) == sorted[limit - 1];
    }
  }

  /** Every item on a bulk page comes from the pool of capped candidates. */
  lemma PageFromPool(live: seq<MyListItem>, dead: seq<DeletedMyListItem>, after: Cursor, limit: nat)
    requires limit > 0 || |LiveAfter(live, after)| + |TombstonesAfter(dead, after)| == 0
    ensures var data := BulkPage(live, dead, after, limit).data;
      forall i :: 0 <= i < |data| ==> data[i] in Pool(live, dead, after, limit)
  {
    var pool := Pool(live, dead, after, limit);
    var sorted := SortBy(pool, SyncModifiedAt);
    var data := BulkPage(live, dead, after, limit).data;
    assert data == Take(Take(sorted, limit), limit);
    forall i | 0 <= i < |data| ensures data[i] in pool {
      assert data[i] == sorted[i];
      InMultiset(sorted[i], sorted, pool);
    }
  }

  /**
   Every item of the pool is a live entry or a tombstone of the input whose
   cursor is after `after`, flagged `isDeleted` exactly when it is a
   tombstone.
   */
  lemma PoolStandsForCandidates(live: seq<MyListItem>, dead: seq<DeletedMyListItem>, after: Cursor, limit: nat, x: SyncItem)
    requires x in Pool(live, dead, after, limit)
    ensures SyncKey(x) > Encode(after)
    ensures !x.isDeleted ==> exists y :: y in live && LiveItem(y) == x
    ensures x.isDeleted ==> DeletedMyListItem(x.animeId, x.modifiedAt) in dead
  {
    var l := Take(LiveAfter(live, after), limit + 1);
    var d := Take(TombstonesAfter(dead, after), limit + 1);
    var ls := Map(l, LiveItem);
    var ds := Map(d, DeletedItem);
    if x in ls {
      var i :| 0 <= i < |ls| && ls[i] == x;
      var y := l[i];
      assert y in LiveAfter(live, after);
      var sorted := SortBy(live, LiveKey);
      assert y in sorted && LiveKey(y) > Encode(after);
      InMultiset(y, sorted, live);
    } else {
      assert x in ds;
      var i :| 0 <= i < |ds| && ds[i] == x;
      var y := d[i];
      assert y in TombstonesAfter(dead, after);
      var sorted := SortBy(dead, TombstoneKey);
      assert y in sorted && TombstoneKey(y) > Encode(after);
      InMultiset(y, sorted, dead);
      assert y == DeletedMyListItem(x.animeId, x.modifiedAt);
    }
  }

  /**
   Every item on a bulk page of a consistent store has a cursor after
   `after` and is flagged `isDeleted` exactly when it stands for a
   tombstone: a deleted item names a tombstoned id with its deletion time,
   any other item a live id with its update time.
   */
  lemma BulkItemsAreStored(db: ApiServerDb, after: Cursor, limit: nat)
    requires Valid(db)
    requires limit > 0 || |LiveAfter(MyListItems(db), after)| + |TombstonesAfter(DeletedMyListItems(db), after)| == 0
    ensures var data := Bulk(db, after, limit).data;
      forall i :: 0 <= i < |data| ==>
        && SyncKey(data[i]) > Encode(after)
        && (data[i].isDeleted ==> data[i].animeId in db.deleted && db.deleted[data[i].animeId].deletedAt == data[i].modifiedAt)
        && (!data[i].isDeleted ==> data[i].animeId in db.live && db.live[data[i].animeId].updatedAt == data[i].modifiedAt)
  {
    var data := Bulk(db, after, limit).data;
    PageFromPool(MyListItems(db), DeletedMyListItems(db), after, limit);
    forall i | 0 <= i < |data|
      ensures && SyncKey(data[i]) > Encode(after)
        && (data[i].isDeleted ==> data[i].animeId in db.deleted && db.deleted[data[i].animeId].deletedAt == data[i].modifiedAt)
        && (!data[i].isDeleted ==> data[i].animeId in db.live && db.live[data[i].animeId].updatedAt == data[i].modifiedAt)
    {
      PoolItemIsStored(db, after, limit, data[i]);
    }
  }

  lemma PoolItemIsStored(db: ApiServerDb, after: Cursor, limit: nat, x: SyncItem)
    requires Valid(db)
    requires x in Pool(MyListItems(db), DeletedMyListItems(db), after, limit)
    ensures SyncKey(x) > Encode(after)
    ensures x.isDeleted ==> x.animeId in db.deleted && db.deleted[x.animeId].deletedAt == x.modifiedAt
    ensures !x.isDeleted ==> x.animeId in db.live && db.live[x.animeId].updatedAt == x.modifiedAt
  {
    PoolStandsForCandidates(MyListItems(db), DeletedMyListItems(db), after, limit, x);
    if x.isDeleted {
      var dead := DeletedMyListItems(db);
      var i :| 0 <= i < |dead| && dead[i] == DeletedMyListItem(x.animeId, x.modifiedAt);
    } else {
      var y :| y in MyListItems(db) && LiveItem(y) == x;
      ListedAreLive(db);
    }
  }

  /**
   A bulk page announces a next one exactly when the live and deleted items
   with a cursor after `after` together outnumber `limit`.
   */
  lemma BulkHasNext(live: seq<MyListItem>, dead: seq<DeletedMyListItem>, after: Cursor, limit: nat)
    requires limit > 0 || |LiveAfter(live, after)| + |TombstonesAfter(dead, after)| == 0
    ensures BulkPage(live, dead, after, limit).after.Some? <==>
      |LiveAfter(live, after)| + |TombstonesAfter(dead, after)| > limit
  {
  }

  /** A bulk page is ordered by modification time. */
  lemma BulkInTimeOrder(live: seq<MyListItem>, dead: seq<DeletedMyListItem>, after: Cursor, limit: nat)
    requires limit > 0 || |LiveAfter(live, after)| + |TombstonesAfter(dead, after)| == 0
    ensures SortedBy(BulkPage(live, dead, after, limit).data, SyncModifiedAt)
  {
    var sorted := SortBy(Pool(live, dead, after, limit), SyncModifiedAt);
    TakeSorted(sorted, limit, SyncModifiedAt);
    TakeSorted(Take(sorted, limit), limit, SyncModifiedAt);
  }

  /** The cursor of the next page, when there is one, is that of the page's last item. */
  lemma BulkNextCursor(live: seq<MyListItem>, dead: seq<DeletedMyListItem>, after: Cursor, limit: nat)
    requires limit > 0 || |LiveAfter(live, after)| + |TombstonesAfter(dead, after)| == 0
    ensures var r := BulkPage(live, dead, after, limit);
      r.after.Some? ==> |r.data| > 0 && r.after.value == SyncCursor(Last(r.data))
  {
    var pool := Pool(live, dead, after, limit);
    var allItems := Take(SortBy(pool, SyncModifiedAt), limit);
    var r := BulkPage(live, dead, after, limit);
    assert r.data == Take(allItems, limit);
    if r.after.Some? {
      assert |pool| > limit > 0;
      assert |allItems| == limit;
      assert r.data == allItems;
    }
  }

  /** A live entry and a tombstone modified at the same time, the tombstone under the lower id. */
  const SkipLive: MyListItem := MyListItem(5, 2, DefaultScore)
  const SkipTombstone: DeletedMyListItem := DeletedMyListItem(1, 2)

  /**
   The time-only merge skips a tombstone. With `limit` 1 the first page
   holds the live entry, because the stable sort by time keeps live items
   ahead of tombstones of equal time, and its cursor `(2, 5)` already lies
   beyond the tombstone's `(2, 1)`; the next page is empty and the last,
   so tombstone 1 is never delivered although it was pending at the start.
   */
  lemma BulkWalkSkips()
    ensures TombstoneKey(SkipTombstone) > Encode(FirstCursor)
    ensures BulkPage([SkipLive], [SkipTombstone], FirstCursor, 1) == MyListResponse([LiveItem(SkipLive)], Some(Cursor(2, 5)))
    ensures BulkPage([SkipLive], [SkipTombstone], Cursor(2, 5), 1) == MyListResponse([], None)
  {
    SkipFirstPage();
    SkipSecondPage();
  }

  lemma SkipFirstPage()
    ensures BulkPage([SkipLive], [SkipTombstone], FirstCursor, 1) == MyListResponse([LiveItem(SkipLive)], Some(Cursor(2, 5)))
  {
    SkipPool();
    BulkPageOfPool([SkipLive], [SkipTombstone], FirstCursor, 1);
  }

  /** From the first cursor both are candidates, and sorting them by time keeps the live entry first. */
  lemma SkipPool()
    ensures var pool := [LiveItem(SkipLive), DeletedItem(SkipTombstone)];
      && Pool([SkipLive], [SkipTombstone], FirstCursor, 1) == pool
      && SortBy(pool, SyncModifiedAt) == pool
  {
    var pool := [LiveItem(SkipLive), DeletedItem(SkipTombstone)];
    SkipCandidates(FirstCursor);
    assert OrderedAt(pool, SyncModifiedAt, 1);
    SortByOfSorted(pool, SyncModifiedAt);
  }

  lemma SkipSecondPage()
    ensures BulkPage([SkipLive], [SkipTombstone], Cursor(2, 5), 1) == MyListResponse([], None)
  {
    SkipCandidates(Cursor(2, 5));
  }

  /** Each of the two is a candidate exactly when its cursor number exceeds the cursor's. */
  lemma SkipCandidates(after: Cursor)
    ensures LiveAfter([SkipLive], after) == if LiveKey(SkipLive) > Encode(after) then [SkipLive] else []
    ensures TombstonesAfter([SkipTombstone], after) == if TombstoneKey(SkipTombstone) > Encode(after) then [SkipTombstone] else []
  {
    var live := [SkipLive];
    var dead := [SkipTombstone];
    SortByOfSorted(live, LiveKey);
    SortByOfSorted(dead, TombstoneKey);
    FilterCons(live, ModifiedAfter(LiveKey, Encode(after)));
    FilterCons(dead, ModifiedAfter(TombstoneKey, Encode(after)));
  }

  /** The live entries and tombstones as one list of bulk items. */
  function Merged(live: seq<MyListItem>, dead: seq<DeletedMyListItem>): seq<SyncItem> {
    Map(live, LiveItem) + Map(dead, DeletedItem)
  }

  /** Every bulk item with a cursor after `after`, in cursor order. */
  function Pending(live: seq<MyListItem>, dead: seq<DeletedMyListItem>, after: Cursor): seq<SyncItem> {
    Candidates(SortBy(Merged(live, dead), SyncKey), SyncKey, Encode(after))
  }

  /** The pending items are exactly the bulk items with a cursor after `after`. */
  lemma PendingMembers(live: seq<MyListItem>, dead: seq<DeletedMyListItem>, after: Cursor)
    ensures var r := Pending(live, dead, after);
      && (forall i :: 0 <= i < |r| ==> r[i] in Merged(live, dead) && SyncKey(r[i]) > Encode(after))
      && (forall x :: x in Merged(live, dead) && SyncKey(x) > Encode(after) ==> x in r)
  {
    var all := Merged(live, dead);
    CandidatesOfSortBy(all, SyncKey, Encode(after));
    assert Pending(live, dead, after) == Candidates(SortBy(all, SyncKey), SyncKey, Encode(after));
  }

  /** No two bulk items share a cursor number. */
  ghost predicate DistinctCursors(live: seq<MyListItem>, dead: seq<DeletedMyListItem>) {
    |Keys(Merged(live, dead), SyncKey)| == |Merged(live, dead)|
  }

  /** Every id of the store lies in `[0, 10000)`, where the cursor number keeps ids apart. */
  ghost predicate IdsInRange(db: ApiServerDb) {
    && (forall k :: k in db.live ==> 0 <= k < IdBound)
    && (forall k :: k in db.deleted ==> 0 <= k < IdBound)
  }

  /**
   In a consistent store with ids below 10000 no two bulk items share a
   cursor number: every id is live or tombstoned at most once.
   */
  lemma StoreCursorsDistinct(db: ApiServerDb)
    requires Valid(db) && IdsInRange(db)
    ensures DistinctCursors(MyListItems(db), DeletedMyListItems(db))
  {
    var live := MyListItems(db);
    var dead := DeletedMyListItems(db);
    assert forall p :: 0 <= p < |live| ==> live[p].animeId in db.live;
    assert forall q :: 0 <= q < |dead| ==> dead[q].animeId in db.deleted;
    MergedCursorsDistinct(live, dead);
  }

  /**
   No two bulk items share a cursor number when each kind has increasing
   ids below 10000 and no id is both live and tombstoned.
   */
  lemma MergedCursorsDistinct(live: seq<MyListItem>, dead: seq<DeletedMyListItem>)
    requires StrictlySortedBy(live, ItemId) && StrictlySortedBy(dead, TombstoneId)
    requires forall p, q :: 0 <= p < |live| && 0 <= q < |dead| ==> live[p].animeId != dead[q].animeId
    requires forall p :: 0 <= p < |live| ==> 0 <= live[p].animeId < IdBound
    requires forall q :: 0 <= q < |dead| ==> 0 <= dead[q].animeId < IdBound
    ensures DistinctCursors(live, dead)
  {
    var all := Merged(live, dead);
    forall i, j | 0 <= i < j < |all| ensures SyncKey(all[i]) != SyncKey(all[j]) {
      var a := MergedId(live, dead, i);
      var b := MergedId(live, dead, j);
      var n := |live|;
      if j < n {
        assert ItemId(live[i]) < ItemId(live[j]);
      } else if i >= n {
        assert TombstoneId(dead[i - n]) < TombstoneId(dead[j - n]);
      }
      CompareToIsLexicographic(SyncCursor(all[i]), SyncCursor(all[j]));
    }
    DistinctKeysCount(all, SyncKey);
  }

  /** The id at position `i` of the merged list: a live entry's before `|live|`, a tombstone's after. */
  lemma MergedId(live: seq<MyListItem>, dead: seq<DeletedMyListItem>, i: int) returns (id: AnimeId)
    requires 0 <= i < |Merged(live, dead)|
    ensures id == Merged(live, dead)[i].animeId
    ensures i < |live| ==> id == live[i].animeId
    ensures i >= |live| ==> id == dead[i - |live|].animeId
  {
    var m := Map(live, LiveItem);
    if i < |live| {
      assert Merged(live, dead)[i] == m[i];
    } else {
      assert Merged(live, dead)[i] == Map(dead, DeletedItem)[i - |live|];
    }
    id := Merged(live, dead)[i].animeId;
  }

  /**
   A bulk page merged by the whole cursor rather than by time alone: the
   first `limit` pending items in cursor order, with the cursor of the last
   of them when more are pending. It draws on every pending item instead of
   capping each kind at `limit + 1` candidates first.
   */
  function BulkPageByCursor(live: seq<MyListItem>, dead: seq<DeletedMyListItem>, after: Cursor, limit: nat): (r: MyListResponse)
    requires limit > 0 || |Pending(live, dead, after)| == 0
    ensures |r.data| <= limit
    ensures forall i :: 0 <= i < |r.data| ==> r.data[i] in Merged(live, dead) && SyncKey(r.data[i]) > Encode(after)
    ensures SortedBy(r.data, SyncKey)
    ensures r.after.Some? <==> |Pending(live, dead, after)| > limit
    ensures r.after.Some? ==> |r.data| == limit && r.after.value == SyncCursor(Last(r.data))
  {
    var c := Pending(live, dead, after);
    var page := Take(c, limit);
    PendingMembers(live, dead, after);
    PendingSorted(live, dead, after);
    TakeSorted(c, limit, SyncKey);
    MyListResponse(page, if |c| > limit then Some(SyncCursor(Last(page))) else None)
  }

  lemma PendingSorted(live: seq<MyListItem>, dead: seq<DeletedMyListItem>, after: Cursor)
    ensures SortedBy(Pending(live, dead, after), SyncKey)
  {
    var sorted := SortBy(Merged(live, dead), SyncKey);
    SortedFilter(sorted, ModifiedAfter(SyncKey, Encode(after)), SyncKey);
  }

  /** With distinct cursors the pending items are strictly increasing in cursor order. */
  lemma PendingStrict(live: seq<MyListItem>, dead: seq<DeletedMyListItem>, after: Cursor)
    requires DistinctCursors(live, dead)
    ensures StrictlySortedBy(Pending(live, dead, after), SyncKey)
  {
    var all := Merged(live, dead);
    var sorted := SortBy(all, SyncKey);
    KeysOfPermutation(sorted, all, SyncKey);
    SortedDistinctIsStrict(sorted, SyncKey);
    FilterKeepsStrictOrder(sorted, ModifiedAfter(SyncKey, Encode(after)), SyncKey);
  }

  /**
   With distinct cursors, a page merged by cursor and everything pending
   after its next cursor make up exactly what was pending before it:
   nothing is skipped and nothing repeats. A last page holds everything
   pending, and a page with a next one is non-empty.
   */
  lemma BulkByCursorStep(live: seq<MyListItem>, dead: seq<DeletedMyListItem>, after: Cursor, limit: nat)
    requires limit > 0 || |Pending(live, dead, after)| == 0
    requires DistinctCursors(live, dead)
    ensures var r := BulkPageByCursor(live, dead, after, limit);
      && (r.after.None? ==> r.data == Pending(live, dead, after))
      && (r.after.Some? ==> |r.data| > 0 && r.data + Pending(live, dead, r.after.value) == Pending(live, dead, after))
  {
    if |Pending(live, dead, after)| > limit {
      FullPageByCursor(live, dead, after, limit);
    } else {
      TakeAll(Pending(live, dead, after), limit);
    }
  }

  lemma FullPageByCursor(live: seq<MyListItem>, dead: seq<DeletedMyListItem>, after: Cursor, limit: nat)
    requires |Pending(live, dead, after)| > limit > 0
    requires DistinctCursors(live, dead)
    ensures var r := BulkPageByCursor(live, dead, after, limit);
      r.after.Some? && r.data + Pending(live, dead, r.after.value) == Pending(live, dead, after)
  {
    var c := Pending(live, dead, after);
    var r := BulkPageByCursor(live, dead, after, limit);
    PendingAfterPage(live, dead, after, limit);
    assert r.after.value == SyncCursor(c[limit - 1]);
    Rejoin(c, limit, r.data, Pending(live, dead, r.after.value));
  }

  /** What is pending after a full page's next cursor is what the page left out. */
  lemma PendingAfterPage(live: seq<MyListItem>, dead: seq<DeletedMyListItem>, after: Cursor, limit: nat)
    requires |Pending(live, dead, after)| > limit > 0
    requires DistinctCursors(live, dead)
    ensures var c := Pending(live, dead, after);
      Pending(live, dead, SyncCursor(c[limit - 1])) == c[limit..]
  {
    var c := Pending(live, dead, after);
    var sorted := SortBy(Merged(live, dead), SyncKey);
    PendingStrict(live, dead, after);
    CandidatesAfterPosition(sorted, SyncKey, Encode(after), limit);
  }

  /** Following the cursor of the corrected merge from `after` until no next page is announced. */
  function WalkByCursor(live: seq<MyListItem>, dead: seq<DeletedMyListItem>, after: Cursor, limit: nat): seq<SyncItem>
    requires limit > 0 && DistinctCursors(live, dead)
    decreases |Pending(live, dead, after)|
  {
    var r := BulkPageByCursor(live, dead, after, limit);
    if r.after.Some? then
      BulkByCursorStep(live, dead, after, limit);
      r.data + WalkByCursor(live, dead, r.after.value, limit)
    else
      r.data
  }

  /**
   The corrected walk delivers every bulk item with a cursor after
   `after` exactly once, in cursor order.
   */
  lemma {:induction false} WalkByCursorComplete(live: seq<MyListItem>, dead: seq<DeletedMyListItem>, after: Cursor, limit: nat)
    requires limit > 0 && DistinctCursors(live, dead)
    ensures WalkByCursor(live, dead, after, limit) == Pending(live, dead, after)
    decreases |Pending(live, dead, after)|
  {
    var r := BulkPageByCursor(live, dead, after, limit);
    BulkByCursorStep(live, dead, after, limit);
    if r.after.Some? {
      WalkByCursorComplete(live, dead, r.after.value, limit);
    }
  }

  /** On the input that the time-only merge skips, the corrected walk delivers the tombstone. */
  lemma WalkByCursorDeliversSkipped()
    ensures DistinctCursors([SkipLive], [SkipTombstone])
    ensures DeletedItem(SkipTombstone) in WalkByCursor([SkipLive], [SkipTombstone], FirstCursor, 1)
  {
    var all := Merged([SkipLive], [SkipTombstone]);
    assert all == [LiveItem(SkipLive), DeletedItem(SkipTombstone)];
    assert Keys(all, SyncKey) == {SyncKey(all[0]), SyncKey(all[1])};
    WalkByCursorComplete([SkipLive], [SkipTombstone], FirstCursor, 1);
    PendingMembers([SkipLive], [SkipTombstone], FirstCursor);
  }
}

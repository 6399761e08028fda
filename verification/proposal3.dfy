/**
 Proposal 3: one bulk feed of live entries and tombstones paged by
 modification time alone. Each collection is paged with the tie-keeping
 helper, the two pages are merged and paged once more, and the next page
 starts after the last timestamp delivered.

 The page is computed from the store's two listings, `live` (its
 `myListItems`) and `dead` (its `deletedMyListItems`); `Bulk2` applies it to
 a store.
 */
module Proposal3 {
  import opened Wrappers
  import opened Lists
  import opened Common
  import opened ServerDb
  import opened ConsistentPaging

  /** `MyListResponse.NextUrl`: the next page is everything modified after `latestUpdatedAt`. */
  datatype NextUrl = NextUrl(latestUpdatedAt: Timestamp)

  datatype MyListResponse = MyListResponse(data: seq<SyncItem>, next: Option<NextUrl>)

  /**
   The helper accepts `limit` for both collections: it may be zero only when
   nothing is pending in either of them.
   */
  predicate PageableWith(live: seq<MyListItem>, dead: seq<DeletedMyListItem>, since: Timestamp, limit: nat) {
    || limit > 0
    || (&& |Candidates(live, ItemModifiedAt, since)| == 0
        && |Candidates(dead, TombstoneModifiedAt, since)| == 0)
  }

  /** The first helper call: a page of live entries. */
  function LivePage(live: seq<MyListItem>, since: Timestamp, limit: nat): (r: ListWithHasNext<MyListItem>)
    requires limit > 0 || |Candidates(live, ItemModifiedAt, since)| == 0
    ensures ConsistentPage(live, ItemModifiedAt, since, limit, r)
  {
    ItemsOrderByModifiedAtConsistently(live, ItemModifiedAt, since, limit)
  }

  /** The second helper call: a page of tombstones. */
  function TombstonePage(dead: seq<DeletedMyListItem>, since: Timestamp, limit: nat): (r: ListWithHasNext<DeletedMyListItem>)
    requires limit > 0 || |Candidates(dead, TombstoneModifiedAt, since)| == 0
    ensures ConsistentPage(dead, TombstoneModifiedAt, since, limit, r)
  {
    ItemsOrderByModifiedAtConsistently(dead, TombstoneModifiedAt, since, limit)
  }

  /** `items + deletedItems`: both pages as bulk items, live entries first. */
  function Merged(live: seq<MyListItem>, dead: seq<DeletedMyListItem>, since: Timestamp, limit: nat): seq<SyncItem>
    requires PageableWith(live, dead, since, limit)
  {
    Map(LivePage(live, since, limit).items, LiveItem) + Map(TombstonePage(dead, since, limit).items, DeletedItem)
  }

  /** The third helper call: a page of the merged pages. */
  function MergedPage(live: seq<MyListItem>, dead: seq<DeletedMyListItem>, since: Timestamp, limit: nat): (r: ListWithHasNext<SyncItem>)
    requires PageableWith(live, dead, since, limit)
    ensures ConsistentPage(Merged(live, dead, since, limit), SyncModifiedAt, since, limit, r)
    ensures forall i :: 0 <= i < |r.items| ==> r.items[i].modifiedAt > since
  {
    MergedPageable(live, dead, since, limit);
    var r := ItemsOrderByModifiedAtConsistently(Merged(live, dead, since, limit), SyncModifiedAt, since, limit);
    PendingAfter(Merged(live, dead, since, limit), since, r.items);
    r
  }

  lemma PendingAfter(all: seq<SyncItem>, since: Timestamp, items: seq<SyncItem>)
    requires PendingInOrder(all, SyncModifiedAt, since, items)
    ensures forall i :: 0 <= i < |items| ==> items[i].modifiedAt > since
  {
    forall i | 0 <= i < |items| ensures items[i].modifiedAt > since {
      assert SyncModifiedAt(items[i]) > since;
    }
  }

  /** With a zero `limit` both pages are empty, so the merged page may be asked for too. */
  lemma MergedPageable(live: seq<MyListItem>, dead: seq<DeletedMyListItem>, since: Timestamp, limit: nat)
    requires PageableWith(live, dead, since, limit)
    ensures limit > 0 || |Candidates(Merged(live, dead, since, limit), SyncModifiedAt, since)| == 0
  {
    if limit == 0 {
      assert Merged(live, dead, since, limit) == [];
    }
  }

  /**
   The bulk page of `get_users_me_animelist_bulk2`: the merged page, and a
   next page when any of the three helper calls reports more. The next page
   starts after the last timestamp delivered.
   */
  function Bulk2Page(live: seq<MyListItem>, dead: seq<DeletedMyListItem>, since: Timestamp, limit: nat): (r: MyListResponse)
    requires PageableWith(live, dead, since, limit)
    ensures SortedBy(r.data, SyncModifiedAt)
    ensures forall i :: 0 <= i < |r.data| ==> r.data[i].modifiedAt > since
    ensures r.next.Some? ==> |r.data| > 0 && r.next.value.latestUpdatedAt == Last(r.data).modifiedAt
  {
    var livePage := LivePage(live, since, limit);
    var deadPage := TombstonePage(dead, since, limit);
    var merged := MergedPage(live, dead, since, limit);
    var hasNext := merged.hasNext || livePage.hasNext || deadPage.hasNext;
    if hasNext then
      NextPageNonEmpty(live, dead, since, limit);
      MyListResponse(merged.items, Some(NextUrl(Last(merged.items).modifiedAt)))
    else
      MyListResponse(merged.items, None)
  }

  /** `get_users_me_animelist_bulk2(modifiedSince, limit)` against a store. */
  function Bulk2(db: ApiServerDb, modifiedSince: Timestamp, limit: nat): MyListResponse
    requires PageableWith(MyListItems(db), DeletedMyListItems(db), modifiedSince, limit)
  {
    Bulk2Page(MyListItems(db), DeletedMyListItems(db), modifiedSince, limit)
  }

  /** Whichever helper call reports more, the merged page is not empty. */
  lemma NextPageNonEmpty(live: seq<MyListItem>, dead: seq<DeletedMyListItem>, since: Timestamp, limit: nat)
    requires PageableWith(live, dead, since, limit)
    requires || MergedPage(live, dead, since, limit).hasNext
             || LivePage(live, since, limit).hasNext
             || TombstonePage(dead, since, limit).hasNext
    ensures |MergedPage(live, dead, since, limit).items| > 0
  {
    var livePage := LivePage(live, since, limit).items;
    var deadPage := TombstonePage(dead, since, limit).items;
    var all := Merged(live, dead, since, limit);
    if |livePage| > 0 {
      assert all[0] == LiveItem(livePage[0]);
      PendingMakesPage(all, SyncModifiedAt, since, MergedPage(live, dead, since, limit), 0);
    } else if |deadPage| > 0 {
      assert all[|livePage|] == DeletedItem(deadPage[0]);
      PendingMakesPage(all, SyncModifiedAt, since, MergedPage(live, dead, since, limit), |livePage|);
    }
  }

  /** A page of a collection with a pending element is not empty. */
  lemma PendingMakesPage<T>(all: seq<T>, at: T -> int, since: int, r: ListWithHasNext<T>, i: nat)
    requires i < |all| && at(all[i]) > since
    requires |r.items| == 0 <==> |Candidates(all, at, since)| == 0
    ensures |r.items| > 0
  {
    assert all[i] in Candidates(all, at, since);
  }

  /**
   Every entry of the merged pages stands for a listed live entry or a
   listed tombstone; `j` is its position in its listing.
   */
  lemma MergedFromListing(live: seq<MyListItem>, dead: seq<DeletedMyListItem>, since: Timestamp, limit: nat, x: SyncItem)
    returns (j: nat)
    requires PageableWith(live, dead, since, limit)
    requires x in Merged(live, dead, since, limit)
    ensures !x.isDeleted ==> j < |live| && LiveItem(live[j]) == x
    ensures x.isDeleted ==> j < |dead| && DeletedItem(dead[j]) == x
  {
    var livePage := LivePage(live, since, limit).items;
    var deadPage := TombstonePage(dead, since, limit).items;
    var left, i := MapAppendIndex(livePage, LiveItem, deadPage, DeletedItem, x);
    if left {
      j := IndexOf(live, livePage[i]);
    } else {
      j := IndexOf(dead, deadPage[i]);
    }
  }

  /** A merged entry newer than `t` means something listed is newer than `t`. */
  lemma MergedLater(live: seq<MyListItem>, dead: seq<DeletedMyListItem>, since: Timestamp, limit: nat, x: SyncItem, t: Timestamp)
    requires PageableWith(live, dead, since, limit)
    requires x in Merged(live, dead, since, limit) && x.modifiedAt > t
    ensures NewerThan(live, dead, t)
  {
    var j := MergedFromListing(live, dead, since, limit, x);
    if x.isDeleted {
      assert TombstoneModifiedAt(dead[j]) > t;
    } else {
      assert ItemModifiedAt(live[j]) > t;
    }
  }

  /** `x` stands for an element of `live` or, when it is a tombstone item, of `dead`. */
  ghost predicate Listed(x: SyncItem, live: seq<MyListItem>, dead: seq<DeletedMyListItem>) {
    if x.isDeleted then exists j :: 0 <= j < |dead| && DeletedItem(dead[j]) == x
    else exists j :: 0 <= j < |live| && LiveItem(live[j]) == x
  }

  /** Every bulk item stands for a listed live entry or a listed tombstone. */
  lemma Bulk2ItemsListed(live: seq<MyListItem>, dead: seq<DeletedMyListItem>, since: Timestamp, limit: nat)
    requires PageableWith(live, dead, since, limit)
    ensures var data := Bulk2Page(live, dead, since, limit).data;
      forall i :: 0 <= i < |data| ==> Listed(data[i], live, dead)
  {
    var data := MergedPage(live, dead, since, limit).items;
    forall i | 0 <= i < |data| ensures Listed(data[i], live, dead) {
      var j := MergedFromListing(live, dead, since, limit, data[i]);
    }
  }

  /** What a store lists, it stores under the listed id. */
  lemma ListedIsStored(db: ApiServerDb, x: SyncItem)
    requires Valid(db)
    requires Listed(x, MyListItems(db), DeletedMyListItems(db))
    ensures x.isDeleted ==> x.animeId in db.deleted && DeletedItem(db.deleted[x.animeId]) == x
    ensures !x.isDeleted ==> x.animeId in db.live && LiveItem(db.live[x.animeId]) == x
  {
  }

  /**
   Every bulk item describes the store: a tombstone item the tombstone of
   its id with its deletion time, a live item the live entry of its id with
   its update time.
   */
  lemma Bulk2ItemsAreStored(db: ApiServerDb, modifiedSince: Timestamp, limit: nat)
    requires Valid(db)
    requires PageableWith(MyListItems(db), DeletedMyListItems(db), modifiedSince, limit)
    ensures var data := Bulk2(db, modifiedSince, limit).data;
      forall i :: 0 <= i < |data| ==>
        && (data[i].isDeleted ==> data[i].animeId in db.deleted && DeletedItem(db.deleted[data[i].animeId]) == data[i])
        && (!data[i].isDeleted ==> data[i].animeId in db.live && LiveItem(db.live[data[i].animeId]) == data[i])
  {
    var data := Bulk2(db, modifiedSince, limit).data;
    Bulk2ItemsListed(MyListItems(db), DeletedMyListItems(db), modifiedSince, limit);
    forall i | 0 <= i < |data|
      ensures && (data[i].isDeleted ==> data[i].animeId in db.deleted && DeletedItem(db.deleted[data[i].animeId]) == data[i])
        && (!data[i].isDeleted ==> data[i].animeId in db.live && LiveItem(db.live[data[i].animeId]) == data[i])
    {
      ListedIsStored(db, data[i]);
    }
  }

  /** Every live entry and tombstone modified in `(since, upTo]` is on the page `data`. */
  ghost predicate DeliveredUpTo(live: seq<MyListItem>, dead: seq<DeletedMyListItem>, since: Timestamp, upTo: Timestamp, data: seq<SyncItem>) {
    && (forall x :: x in live && since < x.updatedAt <= upTo ==> LiveItem(x) in data)
    && (forall x :: x in dead && since < x.deletedAt <= upTo ==> DeletedItem(x) in data)
  }

  /** Every live entry and tombstone modified after `since` is on the page `data`. */
  ghost predicate DeliveredAll(live: seq<MyListItem>, dead: seq<DeletedMyListItem>, since: Timestamp, data: seq<SyncItem>) {
    && (forall x :: x in live && since < x.updatedAt ==> LiveItem(x) in data)
    && (forall x :: x in dead && since < x.deletedAt ==> DeletedItem(x) in data)
  }

  /** Some live entry or tombstone is modified after `t`. */
  predicate NewerThan(live: seq<MyListItem>, dead: seq<DeletedMyListItem>, t: Timestamp) {
    || SomeLater(live, ItemModifiedAt, t)
    || SomeLater(dead, TombstoneModifiedAt, t)
  }

  /**
   Nothing modified after `since` is skipped: without a next page the
   response holds every such live entry and tombstone; with one, every such
   entry up to the timestamp the next page starts after.
   */
  lemma Bulk2Complete(live: seq<MyListItem>, dead: seq<DeletedMyListItem>, since: Timestamp, limit: nat)
    requires PageableWith(live, dead, since, limit)
    ensures var r := Bulk2Page(live, dead, since, limit);
      r.next.None? ==> DeliveredAll(live, dead, since, r.data)
    ensures var r := Bulk2Page(live, dead, since, limit);
      r.next.Some? ==> DeliveredUpTo(live, dead, since, r.next.value.latestUpdatedAt, r.data)
  {
    var r := Bulk2Page(live, dead, since, limit);
    if r.next.None? {
      CompleteWithoutNext(live, dead, since, limit);
    } else {
      CompleteUpToNext(live, dead, since, limit);
    }
  }

  lemma CompleteWithoutNext(live: seq<MyListItem>, dead: seq<DeletedMyListItem>, since: Timestamp, limit: nat)
    requires PageableWith(live, dead, since, limit)
    requires Bulk2Page(live, dead, since, limit).next.None?
    ensures DeliveredAll(live, dead, since, Bulk2Page(live, dead, since, limit).data)
  {
    LiveAllReach(live, dead, since, limit);
    TombstonesAllReach(live, dead, since, limit);
  }

  lemma LiveAllReach(live: seq<MyListItem>, dead: seq<DeletedMyListItem>, since: Timestamp, limit: nat)
    requires PageableWith(live, dead, since, limit)
    requires !LivePage(live, since, limit).hasNext && !MergedPage(live, dead, since, limit).hasNext
    ensures forall x :: x in live && since < x.updatedAt ==> LiveItem(x) in MergedPage(live, dead, since, limit).items
  {
    LiveReachesAll(live, since, limit);
    MergedReachesAll(live, dead, since, limit);
    LiveInMerged(live, dead, since, limit);
    ThroughMergeAll(live, ItemModifiedAt, since, LivePage(live, since, limit).items, LiveItem,
      Merged(live, dead, since, limit), MergedPage(live, dead, since, limit).items);
  }

  lemma TombstonesAllReach(live: seq<MyListItem>, dead: seq<DeletedMyListItem>, since: Timestamp, limit: nat)
    requires PageableWith(live, dead, since, limit)
    requires !TombstonePage(dead, since, limit).hasNext && !MergedPage(live, dead, since, limit).hasNext
    ensures forall x :: x in dead && since < x.deletedAt ==> DeletedItem(x) in MergedPage(live, dead, since, limit).items
  {
    TombstonesReachAll(dead, since, limit);
    MergedReachesAll(live, dead, since, limit);
    TombstonesInMerged(live, dead, since, limit);
    ThroughMergeAll(dead, TombstoneModifiedAt, since, TombstonePage(dead, since, limit).items, DeletedItem,
      Merged(live, dead, since, limit), MergedPage(live, dead, since, limit).items);
  }

  lemma CompleteUpToNext(live: seq<MyListItem>, dead: seq<DeletedMyListItem>, since: Timestamp, limit: nat)
    requires PageableWith(live, dead, since, limit)
    requires Bulk2Page(live, dead, since, limit).next.Some?
    ensures var r := Bulk2Page(live, dead, since, limit);
      DeliveredUpTo(live, dead, since, r.next.value.latestUpdatedAt, r.data)
  {
    var b := SyncModifiedAt(Last(MergedPage(live, dead, since, limit).items));
    LiveEndsLater(live, dead, since, limit);
    TombstoneEndsLater(live, dead, since, limit);
    LiveUpTo(live, dead, since, limit, b);
    TombstonesUpTo(live, dead, since, limit, b);
  }

  lemma LiveUpTo(live: seq<MyListItem>, dead: seq<DeletedMyListItem>, since: Timestamp, limit: nat, b: Timestamp)
    requires PageableWith(live, dead, since, limit)
    requires var page := LivePage(live, since, limit); page.hasNext ==> |page.items| > 0 && b <= ItemModifiedAt(Last(page.items))
    requires var page := MergedPage(live, dead, since, limit); page.hasNext ==> |page.items| > 0 && b <= SyncModifiedAt(Last(page.items))
    ensures forall x :: x in live && since < x.updatedAt <= b ==> LiveItem(x) in MergedPage(live, dead, since, limit).items
  {
    LiveReachesUpTo(live, since, limit, b);
    MergedReachesUpTo(live, dead, since, limit, b);
    LiveInMerged(live, dead, since, limit);
    ThroughMergeUpTo(live, ItemModifiedAt, since, b, LivePage(live, since, limit).items, LiveItem,
      Merged(live, dead, since, limit), MergedPage(live, dead, since, limit).items);
  }

  lemma TombstonesUpTo(live: seq<MyListItem>, dead: seq<DeletedMyListItem>, since: Timestamp, limit: nat, b: Timestamp)
    requires PageableWith(live, dead, since, limit)
    requires var page := TombstonePage(dead, since, limit); page.hasNext ==> |page.items| > 0 && b <= TombstoneModifiedAt(Last(page.items))
    requires var page := MergedPage(live, dead, since, limit); page.hasNext ==> |page.items| > 0 && b <= SyncModifiedAt(Last(page.items))
    ensures forall x :: x in dead && since < x.deletedAt <= b ==> DeletedItem(x) in MergedPage(live, dead, since, limit).items
  {
    TombstonesReachUpTo(dead, since, limit, b);
    MergedReachesUpTo(live, dead, since, limit, b);
    TombstonesInMerged(live, dead, since, limit);
    ThroughMergeUpTo(dead, TombstoneModifiedAt, since, b, TombstonePage(dead, since, limit).items, DeletedItem,
      Merged(live, dead, since, limit), MergedPage(live, dead, since, limit).items);
  }

  lemma LiveReachesUpTo(live: seq<MyListItem>, since: Timestamp, limit: nat, b: Timestamp)
    requires limit > 0 || |Candidates(live, ItemModifiedAt, since)| == 0
    requires var page := LivePage(live, since, limit); page.hasNext ==> |page.items| > 0 && b <= ItemModifiedAt(Last(page.items))
    ensures ReachesUpTo(live, ItemModifiedAt, since, b, LivePage(live, since, limit).items)
  {
    PageReachesUpTo(live, ItemModifiedAt, since, limit, LivePage(live, since, limit), b);
  }

  lemma TombstonesReachUpTo(dead: seq<DeletedMyListItem>, since: Timestamp, limit: nat, b: Timestamp)
    requires limit > 0 || |Candidates(dead, TombstoneModifiedAt, since)| == 0
    requires var page := TombstonePage(dead, since, limit); page.hasNext ==> |page.items| > 0 && b <= TombstoneModifiedAt(Last(page.items))
    ensures ReachesUpTo(dead, TombstoneModifiedAt, since, b, TombstonePage(dead, since, limit).items)
  {
    PageReachesUpTo(dead, TombstoneModifiedAt, since, limit, TombstonePage(dead, since, limit), b);
  }

  lemma LiveReachesAll(live: seq<MyListItem>, since: Timestamp, limit: nat)
    requires limit > 0 || |Candidates(live, ItemModifiedAt, since)| == 0
    requires !LivePage(live, since, limit).hasNext
    ensures ReachesAll(live, ItemModifiedAt, since, LivePage(live, since, limit).items)
  {
    PageReachesAll(live, ItemModifiedAt, since, limit, LivePage(live, since, limit));
  }

  lemma TombstonesReachAll(dead: seq<DeletedMyListItem>, since: Timestamp, limit: nat)
    requires limit > 0 || |Candidates(dead, TombstoneModifiedAt, since)| == 0
    requires !TombstonePage(dead, since, limit).hasNext
    ensures ReachesAll(dead, TombstoneModifiedAt, since, TombstonePage(dead, since, limit).items)
  {
    PageReachesAll(dead, TombstoneModifiedAt, since, limit, TombstonePage(dead, since, limit));
  }

  /** Every live entry of the live page is in the merge, as a live item. */
  lemma LiveInMerged(live: seq<MyListItem>, dead: seq<DeletedMyListItem>, since: Timestamp, limit: nat)
    requires PageableWith(live, dead, since, limit)
    ensures forall y :: y in LivePage(live, since, limit).items ==> LiveItem(y) in Merged(live, dead, since, limit)
  {
    MappedInJoin(LivePage(live, since, limit).items, LiveItem, Map(TombstonePage(dead, since, limit).items, DeletedItem));
  }

  /** Every tombstone of the tombstone page is in the merge, as a deleted item. */
  lemma TombstonesInMerged(live: seq<MyListItem>, dead: seq<DeletedMyListItem>, since: Timestamp, limit: nat)
    requires PageableWith(live, dead, since, limit)
    ensures forall y :: y in TombstonePage(dead, since, limit).items ==> DeletedItem(y) in Merged(live, dead, since, limit)
  {
    MappedInJoin(TombstonePage(dead, since, limit).items, DeletedItem, Map(LivePage(live, since, limit).items, LiveItem));
  }

  /** Every element of `all` modified after `since` is among `items`. */
  ghost predicate ReachesAll<T>(all: seq<T>, at: T -> int, since: int, items: seq<T>) {
    forall x :: x in all && since < at(x) ==> x in items
  }

  /** Every element of `all` modified in `(since, b]` is among `items`. */
  ghost predicate ReachesUpTo<T>(all: seq<T>, at: T -> int, since: int, b: int, items: seq<T>) {
    forall x :: x in all && since < at(x) <= b ==> x in items
  }

  /** A page that reports nothing more holds everything pending. */
  lemma PageReachesAll<T>(all: seq<T>, at: T -> int, since: int, limit: nat, r: ListWithHasNext<T>)
    requires ConsistentPage(all, at, since, limit, r) && !r.hasNext
    ensures ReachesAll(all, at, since, r.items)
  {
    PageCovers(all, at, since, limit, r);
  }

  /** A page holds everything pending up to `b` unless it reports more and ends before `b`. */
  lemma PageReachesUpTo<T>(all: seq<T>, at: T -> int, since: int, limit: nat, r: ListWithHasNext<T>, b: int)
    requires ConsistentPage(all, at, since, limit, r)
    requires r.hasNext ==> |r.items| > 0 && b <= at(Last(r.items))
    ensures ReachesUpTo(all, at, since, b, r.items)
  {
    PageCovers(all, at, since, limit, r);
  }

  lemma MergedReachesAll(live: seq<MyListItem>, dead: seq<DeletedMyListItem>, since: Timestamp, limit: nat)
    requires PageableWith(live, dead, since, limit)
    requires !MergedPage(live, dead, since, limit).hasNext
    ensures ReachesAll(Merged(live, dead, since, limit), SyncModifiedAt, since, MergedPage(live, dead, since, limit).items)
  {
    PageReachesAll(Merged(live, dead, since, limit), SyncModifiedAt, since, limit, MergedPage(live, dead, since, limit));
  }

  lemma MergedReachesUpTo(live: seq<MyListItem>, dead: seq<DeletedMyListItem>, since: Timestamp, limit: nat, b: Timestamp)
    requires PageableWith(live, dead, since, limit)
    requires var page := MergedPage(live, dead, since, limit); page.hasNext ==> |page.items| > 0 && b <= SyncModifiedAt(Last(page.items))
    ensures ReachesUpTo(Merged(live, dead, since, limit), SyncModifiedAt, since, b, MergedPage(live, dead, since, limit).items)
  {
    PageReachesUpTo(Merged(live, dead, since, limit), SyncModifiedAt, since, limit, MergedPage(live, dead, since, limit), b);
  }

  /** The images of a page's elements are in any join of the mapped page with another sequence. */
  lemma MappedInJoin<T>(items: seq<T>, f: T -> SyncItem, other: seq<SyncItem>)
    ensures forall y :: y in items ==> f(y) in Map(items, f) + other && f(y) in other + Map(items, f)
  {
    forall y | y in items ensures f(y) in Map(items, f) + other && f(y) in other + Map(items, f) {
      MapMember(items, f, y);
    }
  }

  /**
   What a page holds reaches the page of a merge that includes its images,
   for everything the merged page holds.
   */
  lemma ThroughMergeAll<T>(all: seq<T>, at: T -> int, since: int, items: seq<T>,
      f: T -> SyncItem, merged: seq<SyncItem>, mergedItems: seq<SyncItem>)
    requires ReachesAll(all, at, since, items)
    requires ReachesAll(merged, SyncModifiedAt, since, mergedItems)
    requires forall y :: y in items ==> f(y) in merged
    requires forall y :: SyncModifiedAt(f(y)) == at(y)
    ensures forall x :: x in all && since < at(x) ==> f(x) in mergedItems
  {
    forall x | x in all && since < at(x) ensures f(x) in mergedItems {
      assert SyncModifiedAt(f(x)) == at(x);
    }
  }

  lemma ThroughMergeUpTo<T>(all: seq<T>, at: T -> int, since: int, b: int, items: seq<T>,
      f: T -> SyncItem, merged: seq<SyncItem>, mergedItems: seq<SyncItem>)
    requires ReachesUpTo(all, at, since, b, items)
    requires ReachesUpTo(merged, SyncModifiedAt, since, b, mergedItems)
    requires forall y :: y in items ==> f(y) in merged
    requires forall y :: SyncModifiedAt(f(y)) == at(y)
    ensures forall x :: x in all && since < at(x) <= b ==> f(x) in mergedItems
  {
    forall x | x in all && since < at(x) <= b ensures f(x) in mergedItems {
      assert SyncModifiedAt(f(x)) == at(x);
    }
  }

  /**
   When the live page reports more, it holds at least `limit` entries no
   later than its last one, so the merged page ends no later than it.
   */
  lemma LiveEndsLater(live: seq<MyListItem>, dead: seq<DeletedMyListItem>, since: Timestamp, limit: nat)
    requires PageableWith(live, dead, since, limit)
    ensures var livePage := LivePage(live, since, limit);
      var merged := MergedPage(live, dead, since, limit);
      livePage.hasNext ==>
        && |livePage.items| > 0 && |merged.items| > 0
        && SyncModifiedAt(Last(merged.items)) <= ItemModifiedAt(Last(livePage.items))
  {
    var livePage := LivePage(live, since, limit);
    if livePage.hasNext {
      var other := Map(TombstonePage(dead, since, limit).items, DeletedItem);
      EndsWithinMerged(live, ItemModifiedAt, since, limit, livePage, LiveItem, other, Merged(live, dead, since, limit));
    }
  }

  lemma TombstoneEndsLater(live: seq<MyListItem>, dead: seq<DeletedMyListItem>, since: Timestamp, limit: nat)
    requires PageableWith(live, dead, since, limit)
    ensures var deadPage := TombstonePage(dead, since, limit);
      var merged := MergedPage(live, dead, since, limit);
      deadPage.hasNext ==>
        && |deadPage.items| > 0 && |merged.items| > 0
        && SyncModifiedAt(Last(merged.items)) <= TombstoneModifiedAt(Last(deadPage.items))
  {
    var deadPage := TombstonePage(dead, since, limit);
    if deadPage.hasNext {
      var other := Map(LivePage(live, since, limit).items, LiveItem);
      EndsWithinMerged(dead, TombstoneModifiedAt, since, limit, deadPage, DeletedItem, other, Merged(live, dead, since, limit));
    }
  }

  /**
   A page that reports more holds at least `limit` elements, all modified
   in `(since, t]` for its last timestamp `t`; so a page of any merge that
   includes them ends no later than `t`.
   */
  lemma EndsWithinMerged<T>(all: seq<T>, at: T -> int, since: int, limit: nat, page: ListWithHasNext<T>,
      f: T -> SyncItem, other: seq<SyncItem>, merged: seq<SyncItem>)
    requires ConsistentPage(all, at, since, limit, page)
    requires page.hasNext
    requires merged == Map(page.items, f) + other || merged == other + Map(page.items, f)
    requires forall y :: SyncModifiedAt(f(y)) == at(y)
    requires limit > 0 || |Candidates(merged, SyncModifiedAt, since)| == 0
    ensures var mergedPage := ItemsOrderByModifiedAtConsistently(merged, SyncModifiedAt, since, limit);
      && |page.items| > 0 && |mergedPage.items| > 0
      && SyncModifiedAt(Last(mergedPage.items)) <= at(Last(page.items))
  {
    FullPage(all, at, since, limit, page);
    var t := at(Last(page.items));
    PositiveLimit(all, at, since, limit, page, f, other, merged);
    var part := Map(page.items, f);
    forall i | 0 <= i < |part| ensures since < SyncModifiedAt(part[i]) <= t {
      SortedOrder(page.items, at, i, |page.items| - 1);
    }
    assert part[0] in merged;
    PageEndsWithin(merged, SyncModifiedAt, since, limit, part, other, t);
  }

  /** A page with elements in it that are part of a merge makes the merge non-empty, so a zero `limit` is excluded. */
  lemma PositiveLimit<T>(all: seq<T>, at: T -> int, since: int, limit: nat, page: ListWithHasNext<T>,
      f: T -> SyncItem, other: seq<SyncItem>, merged: seq<SyncItem>)
    requires PendingInOrder(all, at, since, page.items)
    requires |page.items| > 0
    requires merged == Map(page.items, f) + other || merged == other + Map(page.items, f)
    requires SyncModifiedAt(f(page.items[0])) == at(page.items[0])
    requires limit > 0 || |Candidates(merged, SyncModifiedAt, since)| == 0
    ensures limit > 0
  {
    var j := if merged == Map(page.items, f) + other then 0 else |other|;
    assert merged[j] == f(page.items[0]);
    assert merged[j] in Candidates(merged, SyncModifiedAt, since);
  }

  /**
   There is a next page exactly when the response is not empty and something
   listed is newer than its last item.
   */
  lemma Bulk2HasNext(live: seq<MyListItem>, dead: seq<DeletedMyListItem>, since: Timestamp, limit: nat)
    requires PageableWith(live, dead, since, limit)
    ensures var r := Bulk2Page(live, dead, since, limit);
      r.next.Some? <==> |r.data| > 0 && NewerThan(live, dead, Last(r.data).modifiedAt)
  {
    var r := Bulk2Page(live, dead, since, limit);
    if r.next.Some? {
      NextMeansNewer(live, dead, since, limit);
    } else if |r.data| > 0 && NewerThan(live, dead, Last(r.data).modifiedAt) {
      NoNextMeansNothingNewer(live, dead, since, limit);
    }
  }

  lemma NextMeansNewer(live: seq<MyListItem>, dead: seq<DeletedMyListItem>, since: Timestamp, limit: nat)
    requires PageableWith(live, dead, since, limit)
    requires Bulk2Page(live, dead, since, limit).next.Some?
    ensures var r := Bulk2Page(live, dead, since, limit);
      |r.data| > 0 && NewerThan(live, dead, Last(r.data).modifiedAt)
  {
    if MergedPage(live, dead, since, limit).hasNext {
      MergedNewer(live, dead, since, limit);
    } else if LivePage(live, since, limit).hasNext {
      LiveNewer(live, dead, since, limit);
    } else {
      TombstoneNewer(live, dead, since, limit);
    }
  }

  /** A merged page that reports more leaves something listed newer than it. */
  lemma MergedNewer(live: seq<MyListItem>, dead: seq<DeletedMyListItem>, since: Timestamp, limit: nat)
    requires PageableWith(live, dead, since, limit)
    requires MergedPage(live, dead, since, limit).hasNext
    ensures var merged := MergedPage(live, dead, since, limit);
      |merged.items| > 0 && NewerThan(live, dead, SyncModifiedAt(Last(merged.items)))
  {
    var all := Merged(live, dead, since, limit);
    var b := SyncModifiedAt(Last(MergedPage(live, dead, since, limit).items));
    var i := LaterIndex(all, SyncModifiedAt, b);
    MergedLater(live, dead, since, limit, all[i], b);
  }

  /** A live page that reports more leaves a live entry newer than the merged page. */
  lemma LiveNewer(live: seq<MyListItem>, dead: seq<DeletedMyListItem>, since: Timestamp, limit: nat)
    requires PageableWith(live, dead, since, limit)
    requires LivePage(live, since, limit).hasNext
    ensures var merged := MergedPage(live, dead, since, limit);
      |merged.items| > 0 && SomeLater(live, ItemModifiedAt, SyncModifiedAt(Last(merged.items)))
  {
    var livePage := LivePage(live, since, limit);
    LiveEndsLater(live, dead, since, limit);
    SomeLaterThanEarlier(live, ItemModifiedAt, ItemModifiedAt(Last(livePage.items)),
      SyncModifiedAt(Last(MergedPage(live, dead, since, limit).items)));
  }

  lemma TombstoneNewer(live: seq<MyListItem>, dead: seq<DeletedMyListItem>, since: Timestamp, limit: nat)
    requires PageableWith(live, dead, since, limit)
    requires TombstonePage(dead, since, limit).hasNext
    ensures var merged := MergedPage(live, dead, since, limit);
      |merged.items| > 0 && SomeLater(dead, TombstoneModifiedAt, SyncModifiedAt(Last(merged.items)))
  {
    var deadPage := TombstonePage(dead, since, limit);
    TombstoneEndsLater(live, dead, since, limit);
    SomeLaterThanEarlier(dead, TombstoneModifiedAt, TombstoneModifiedAt(Last(deadPage.items)),
      SyncModifiedAt(Last(MergedPage(live, dead, since, limit).items)));
  }

  lemma SomeLaterThanEarlier<T>(all: seq<T>, at: T -> int, t: int, earlier: int)
    requires SomeLater(all, at, t) && earlier <= t
    ensures SomeLater(all, at, earlier)
  {
    var i := LaterIndex(all, at, t);
  }

  lemma NoNextMeansNothingNewer(live: seq<MyListItem>, dead: seq<DeletedMyListItem>, since: Timestamp, limit: nat)
    requires PageableWith(live, dead, since, limit)
    requires Bulk2Page(live, dead, since, limit).next.None?
    ensures var r := Bulk2Page(live, dead, since, limit);
      |r.data| > 0 ==> !NewerThan(live, dead, Last(r.data).modifiedAt)
  {
    var data := Bulk2Page(live, dead, since, limit).data;
    CompleteWithoutNext(live, dead, since, limit);
    if |data| > 0 {
      assert Last(data).modifiedAt > since by {
        assert data[|data| - 1].modifiedAt > since;
      }
      NothingLaterThanLast(live, ItemModifiedAt, LiveItem, since, data);
      NothingLaterThanLast(dead, TombstoneModifiedAt, DeletedItem, since, data);
    }
  }

  /**
   A page in time order holding every element of `all` modified after
   `since` leaves nothing in `all` newer than its last item.
   */
  lemma NothingLaterThanLast<T>(all: seq<T>, at: T -> int, f: T -> SyncItem, since: int, data: seq<SyncItem>)
    requires SortedBy(data, SyncModifiedAt)
    requires |data| > 0 && Last(data).modifiedAt > since
    requires forall x :: x in all && since < at(x) ==> f(x) in data
    requires forall x :: f(x).modifiedAt == at(x)
    ensures !SomeLater(all, at, Last(data).modifiedAt)
  {
    forall i | 0 <= i < |all| ensures at(all[i]) <= Last(data).modifiedAt {
      if at(all[i]) > Last(data).modifiedAt {
        LaterThanLast(data, f(all[i]));
      }
    }
  }

  /** No item of a page in time order is newer than its last item. */
  lemma LaterThanLast(data: seq<SyncItem>, x: SyncItem)
    requires SortedBy(data, SyncModifiedAt)
    requires x in data
    ensures x.modifiedAt <= Last(data).modifiedAt
  {
    var i :| 0 <= i < |data| && data[i] == x;
    SortedOrder(data, SyncModifiedAt, i, |data| - 1);
  }
}

/**
 Proposal 4: the full list paged by anime id with an `after` cursor (the
 last id of the page), and the bounded diff for catching up afterwards.
 */
module Proposal4 {
  import opened Wrappers
  import opened Lists
  import opened Common
  import opened ServerDb
  import opened LocalDb

  /** `MyListWithAfterResponse`: `after` carries the last id of the page when more follow. */
  datatype MyListWithAfterResponse = MyListWithAfterResponse(data: seq<MyListItem>, after: Option<AnimeId>, serverTime: Timestamp)

  /** The listed entries with an id above `after`, in listing order. */
  function ListedAfter(db: ApiServerDb, after: AnimeId): seq<MyListItem> {
    Filter(MyListItems(db), IdAbove(after))
  }

  /**
   `get_users_me_animelist(after, limit)`: the entries with ids above `after`,
   in id order, at most `limit` of them, with `after` naming the last id of
   the page exactly when more entries follow, and the store's clock. The page
   must not be empty: `.last()` of an empty page throws.
   */
  function AfterPage(db: ApiServerDb, after: AnimeId, limit: nat): (r: MyListWithAfterResponse)
    requires limit > 0 && |ListedAfter(db, after)| > 0
    ensures SortedBy(r.data, ItemId)
    ensures AllAbove(db, after, r.data)
    ensures 0 < |r.data| <= limit
    ensures r.after.Some? <==> |ListedAfter(db, after)| > limit
    ensures r.after.Some? ==> |r.data| == limit && r.after.value == Last(r.data).animeId
    ensures r.serverTime == db.now
  {
    var sorted := SortedAfter(db, after);
    var items := Take(sorted, limit + 1);
    var resultItems := Take(items, limit);
    var hasNext := |items| > limit;
    TakeOfTake(sorted, limit + 1, limit);
    TakeSorted(sorted, limit, ItemId);
    TakeAllAbove(db, after, sorted, limit);
    var lastAnimeId := Last(resultItems).animeId;
    MyListWithAfterResponse(resultItems, if hasNext then Some(lastAnimeId) else None, db.now)
  }

  /** Every element of `items` is a listed entry with an id above `after`. */
  ghost predicate AllAbove(db: ApiServerDb, after: AnimeId, items: seq<MyListItem>) {
    forall i :: 0 <= i < |items| ==> items[i].animeId > after && items[i] in MyListItems(db)
  }

  lemma TakeAllAbove(db: ApiServerDb, after: AnimeId, items: seq<MyListItem>, n: nat)
    requires AllAbove(db, after, items)
    ensures AllAbove(db, after, Take(items, n))
  {
    var page := Take(items, n);
    forall i | 0 <= i < |page| ensures page[i].animeId > after && page[i] in MyListItems(db) {
      assert page[i] == items[i];
    }
  }

  /** `filter { it.animeId > after }.sortedBy { it.animeId }`: the candidates, in id order. */
  function SortedAfter(db: ApiServerDb, after: AnimeId): (r: seq<MyListItem>)
    ensures SortedBy(r, ItemId)
    ensures |r| == |ListedAfter(db, after)|
    ensures AllAbove(db, after, r)
  {
    var c := ListedAfter(db, after);
    var sorted := SortBy(c, ItemId);
    SortedAreCandidates(db, after, sorted);
    sorted
  }

  /** Every element of the sorted candidates is a listed entry above `after`. */
  lemma SortedAreCandidates(db: ApiServerDb, after: AnimeId, sorted: seq<MyListItem>)
    requires multiset(sorted) == multiset(ListedAfter(db, after))
    ensures AllAbove(db, after, sorted)
  {
    var c := ListedAfter(db, after);
    forall i | 0 <= i < |sorted| ensures sorted[i].animeId > after && sorted[i] in MyListItems(db) {
      InMultiset(sorted[i], sorted, c);
      var j := IndexOf(c, sorted[i]);
    }
  }

  /**
   In a store whose entries sit under their own ids the candidates are
   already in strictly increasing id order, so the page is their first
   `limit` entries.
   */
  lemma AfterPageIsPrefix(db: ApiServerDb, after: AnimeId, limit: nat)
    requires KeyedItems(db.live)
    requires limit > 0 && |ListedAfter(db, after)| > 0
    ensures StrictlySortedBy(ListedAfter(db, after), ItemId)
    ensures AfterPage(db, after, limit).data == Take(ListedAfter(db, after), limit)
  {
    var c := ListedAfter(db, after);
    FilterKeepsStrictOrder(MyListItems(db), IdAbove(after), ItemId);
    StrictIsSorted(c, ItemId);
    SortByOfSorted(c, ItemId);
    assert SortedAfter(db, after) == c;
    TakeOfTake(c, limit + 1, limit);
  }

  /**
   No entry is skipped: every live entry with an id above `after` is on the
   page, up to the page's own `after` when there is one.
   */
  lemma AfterPageComplete(db: ApiServerDb, after: AnimeId, limit: nat, k: AnimeId)
    requires KeyedItems(db.live)
    requires limit > 0 && |ListedAfter(db, after)| > 0
    requires k in db.live && after < k
    requires AfterPage(db, after, limit).after.Some? ==> k <= AfterPage(db, after, limit).after.value
    ensures db.live[k] in AfterPage(db, after, limit).data
  {
    var c := ListedAfter(db, after);
    var r := AfterPage(db, after, limit);
    AfterPageIsPrefix(db, after, limit);
    var x := db.live[k];
    var j := IndexOf(MyListItems(db), x);
    assert IdAbove(after)(MyListItems(db)[j]);
    var i := IndexOf(c, x);
    if r.after.Some? && i >= limit {
      assert false;
    }
    TakeIndex(c, limit, i);
  }

  /**
   The candidates after the page's own `after` are exactly the candidates
   that did not fit on the page.
   */
  lemma NextAfter(db: ApiServerDb, after: AnimeId, limit: nat)
    requires KeyedItems(db.live)
    requires limit > 0 && |ListedAfter(db, after)| > limit
    ensures AfterPage(db, after, limit).after.Some?
    ensures ListedAfter(db, AfterPage(db, after, limit).after.value) == Drop(ListedAfter(db, after), limit)
  {
    var c := ListedAfter(db, after);
    var b := c[limit - 1].animeId;
    AfterPageIsPrefix(db, after, limit);
    FilterFilter(MyListItems(db), IdAbove(after), IdAbove(b), IdAbove(b));
    AboveNth(c, limit);
  }

  /** In a strictly increasing sequence the elements above the `n`-th one's id are those after it. */
  lemma AboveNth(c: seq<MyListItem>, n: nat)
    requires StrictlySortedBy(c, ItemId) && 0 < n < |c|
    ensures Filter(c, IdAbove(c[n - 1].animeId)) == c[n..]
  {
    var above := IdAbove(c[n - 1].animeId);
    forall i | 0 <= i < n ensures !above(c[i]) {
      if i < n - 1 {
        assert ItemId(c[i]) < ItemId(c[n - 1]);
      }
    }
    forall i | n <= i < |c| ensures above(c[i]) {
      assert ItemId(c[n - 1]) < ItemId(c[i]);
    }
    FilterSplit(c, above, n);
  }

  /**
   The client loop of the test: upsert each page into the mirror and follow
   `after` until there is none.
   */
  function AfterSync(mirror: LocalMyListDb, db: ApiServerDb, after: AnimeId, limit: nat): LocalMyListDb
    requires KeyedItems(db.live)
    requires limit > 0 && |ListedAfter(db, after)| > 0
    decreases |ListedAfter(db, after)|
  {
    var page := AfterPage(db, after, limit);
    var next := Upsert(mirror, page.data);
    if page.after.Some? then
      NextAfter(db, after, limit);
      AfterSync(next, db, page.after.value, limit)
    else next
  }

  /** One step of the `after` loop, when the page has a next one: the loop goes on after the id the page names. */
  lemma AfterSyncStep(mirror: LocalMyListDb, db: ApiServerDb, after: AnimeId, limit: nat)
    requires KeyedItems(db.live)
    requires limit > 0 && |ListedAfter(db, after)| > limit
    ensures AfterPage(db, after, limit).after.Some?
    ensures 0 < |ListedAfter(db, AfterPage(db, after, limit).after.value)| < |ListedAfter(db, after)|
    ensures AfterSync(mirror, db, after, limit)
      == AfterSync(Upsert(mirror, AfterPage(db, after, limit).data), db, AfterPage(db, after, limit).after.value, limit)
  {
    NextAfter(db, after, limit);
  }

  /** A page with a next one, followed by the candidates after its `after`, is all the candidates. */
  lemma AfterPageThenRest(db: ApiServerDb, after: AnimeId, limit: nat)
    requires KeyedItems(db.live)
    requires limit > 0 && |ListedAfter(db, after)| > limit
    ensures AfterPage(db, after, limit).after.Some?
    ensures AfterPage(db, after, limit).data + ListedAfter(db, AfterPage(db, after, limit).after.value) == ListedAfter(db, after)
  {
    var c := ListedAfter(db, after);
    NextAfter(db, after, limit);
    AfterPageIsPrefix(db, after, limit);
    assert c[..limit] + c[limit..] == c;
  }

  /** The last step of the `after` loop upserts every remaining candidate. */
  lemma AfterSyncLast(mirror: LocalMyListDb, db: ApiServerDb, after: AnimeId, limit: nat)
    requires KeyedItems(db.live)
    requires limit > 0 && 0 < |ListedAfter(db, after)| <= limit
    ensures AfterSync(mirror, db, after, limit) == Upsert(mirror, ListedAfter(db, after))
  {
    AfterSyncEnd(mirror, db, after, limit);
    AfterPageIsPrefix(db, after, limit);
    TakeAll(ListedAfter(db, after), limit);
  }

  /** One step of the `after` loop, when the page is the last: the loop ends with that page upserted. */
  lemma AfterSyncEnd(mirror: LocalMyListDb, db: ApiServerDb, after: AnimeId, limit: nat)
    requires KeyedItems(db.live)
    requires limit > 0 && 0 < |ListedAfter(db, after)| <= limit
    ensures AfterSync(mirror, db, after, limit) == Upsert(mirror, AfterPage(db, after, limit).data)
  {
  }

  /** On an unchanging store the `after` loop upserts every listed entry above `after`. */
  lemma {:induction false} AfterSyncUpsertsRest(mirror: LocalMyListDb, db: ApiServerDb, after: AnimeId, limit: nat)
    requires KeyedItems(db.live)
    requires limit > 0 && |ListedAfter(db, after)| > 0
    ensures AfterSync(mirror, db, after, limit) == Upsert(mirror, ListedAfter(db, after))
    decreases |ListedAfter(db, after)|
  {
    if |ListedAfter(db, after)| > limit {
      var page := AfterPage(db, after, limit);
      var next := page.after.value;
      AfterSyncStep(mirror, db, after, limit);
      AfterSyncUpsertsRest(Upsert(mirror, page.data), db, next, limit);
      UpsertConcat(mirror, page.data, ListedAfter(db, next));
      AfterPageThenRest(db, after, limit);
    } else {
      AfterSyncLast(mirror, db, after, limit);
    }
  }

  /**
   On an unchanging store whose ids are all positive, paging from the
   default `after = 0` into an empty mirror reproduces the store's list.
   */
  lemma AfterSyncOfUnchangedStore(db: ApiServerDb, limit: nat)
    requires KeyedItems(db.live)
    requires limit > 0 && |db.live| > 0
    requires forall k :: k in db.live ==> k > 0
    ensures |ListedAfter(db, 0)| > 0
    ensures AfterSync(map[], db, 0, limit) == db.live
  {
    AllAboveZero(db);
    AfterSyncUpsertsRest(map[], db, 0, limit);
    UpsertListing(db);
  }

  /** When every id is positive, the default `after = 0` excludes nothing. */
  lemma AllAboveZero(db: ApiServerDb)
    requires KeyedItems(db.live)
    requires forall k :: k in db.live ==> k > 0
    ensures ListedAfter(db, 0) == MyListItems(db)
  {
    var all := MyListItems(db);
    forall i | 0 <= i < |all| ensures IdAbove(0)(all[i]) {
      assert all[i].animeId in db.live;
    }
    FilterAll(all, IdAbove(0));
  }
}

/**
 Proposal 5: the full list paged in score order with a cursor naming the last
 entry's id and score. When the entry the cursor names is still there with
 that score the next page resumes after its id; otherwise it falls back to
 every entry scored at least as high, accepting repeats.
 */
module Proposal5 {
  import opened Wrappers
  import opened Lists
  import opened Common
  import opened ServerDb
  import opened ConsistentPaging

  /** `Cursor(lastAnimeId, lastScore)`. */
  datatype Cursor = Cursor(lastAnimeId: AnimeId, lastScore: int)

  /** `MyListWithAfterResponse` of this proposal: `after` is a cursor. */
  datatype MyListWithAfterResponse = MyListWithAfterResponse(data: seq<MyListItem>, after: Option<Cursor>, serverTime: Timestamp)

  /** The sort key `score - 100000 + animeId`: a sum, not an order by score then id. */
  function ScoreKey(x: MyListItem): int {
    x.score - 100000 + x.animeId
  }

  /** The cursor the page ends with: the id and score of its last entry. */
  function CursorOf(x: MyListItem): Cursor {
    Cursor(x.animeId, x.score)
  }

  /** The test `it.score >= after.lastScore` of the fallback. */
  function ScoreAtLeast(lastScore: int): MyListItem -> bool {
    (x: MyListItem) => x.score >= lastScore
  }

  /** `find { it.animeId == after.lastAnimeId && it.score == after.lastScore } != null`. */
  predicate HasAnchor(items: seq<MyListItem>, c: Cursor) {
    exists i | 0 <= i < |items| :: CursorOf(items[i]) == c
  }

  /**
   `filteredItems`: the whole list without a cursor; the entries with ids above
   the cursor's when the anchor is still listed with the cursor's score; the
   entries scored at least the cursor's score otherwise.
   */
  function ScoreCandidates(db: ApiServerDb, after: Option<Cursor>): seq<MyListItem> {
    CandidatesIn(MyListItems(db), after)
  }

  /** The candidate filter applied to a given listing `all`. */
  function CandidatesIn(all: seq<MyListItem>, after: Option<Cursor>): seq<MyListItem> {
    if after.None? then all
    else if HasAnchor(all, after.value) then Filter(all, IdAbove(after.value.lastAnimeId))
    else Filter(all, ScoreAtLeast(after.value.lastScore))
  }

  /** Every element of `items` occurs in `pool`. */
  ghost predicate Among(items: seq<MyListItem>, pool: seq<MyListItem>) {
    forall i :: 0 <= i < |items| ==> items[i] in pool
  }

  lemma TakeAmong(items: seq<MyListItem>, pool: seq<MyListItem>, n: nat)
    requires Among(items, pool)
    ensures Among(Take(items, n), pool)
  {
    var page := Take(items, n);
    forall i | 0 <= i < |page| ensures page[i] in pool {
      assert page[i] == items[i];
    }
  }

  /** `filteredItems.sortedBy { it.score - 100000 + it.animeId }`. */
  function SortedByScore(db: ApiServerDb, after: Option<Cursor>): (r: seq<MyListItem>)
    ensures SortedBy(r, ScoreKey)
    ensures multiset(r) == multiset(ScoreCandidates(db, after))
    ensures |r| == |ScoreCandidates(db, after)|
    ensures Among(r, ScoreCandidates(db, after))
  {
    var sorted := SortBy(ScoreCandidates(db, after), ScoreKey);
    SortedAmong(sorted, ScoreCandidates(db, after));
    sorted
  }

  lemma SortedAmong(sorted: seq<MyListItem>, pool: seq<MyListItem>)
    requires multiset(sorted) == multiset(pool)
    ensures Among(sorted, pool)
  {
    forall i | 0 <= i < |sorted| ensures sorted[i] in pool {
      InMultiset(sorted[i], sorted, pool);
    }
  }

  /**
   `get_users_me_animelist_order_by_score(after, limit)`: the candidates in
   key order, at most `limit` of them, with a cursor on the last one exactly
   when more candidates follow, and the store's clock. With a `limit` of zero
   and some candidate, `.last()` of the empty page throws.
   */
  function ScorePage(db: ApiServerDb, after: Option<Cursor>, limit: nat): (r: MyListWithAfterResponse)
    requires limit > 0 || |ScoreCandidates(db, after)| == 0
    ensures SortedBy(r.data, ScoreKey)
    ensures Among(r.data, ScoreCandidates(db, after))
    ensures multiset(r.data) <= multiset(ScoreCandidates(db, after))
    ensures |r.data| == Min(limit, |ScoreCandidates(db, after)|)
    ensures r.after.Some? <==> |ScoreCandidates(db, after)| > limit
    ensures r.after.Some? ==> r.after.value == CursorOf(Last(r.data))
    ensures r.serverTime == db.now
  {
    var sorted := SortedByScore(db, after);
    var items := Take(sorted, limit + 1);
    var resultItems := Take(items, limit);
    var hasNext := |items| > limit;
    TakeOfTake(sorted, limit + 1, limit);
    TakeSorted(sorted, limit, ScoreKey);
    TakeAmong(sorted, ScoreCandidates(db, after), limit);
    TakeMultiset(sorted, limit);
    var nextCursor := if hasNext then Some(CursorOf(Last(resultItems))) else None;
    MyListWithAfterResponse(resultItems, nextCursor, db.now)
  }

  /** In a keyed store the anchor is listed exactly when its id is live with the cursor's score. */
  lemma AnchorInStore(db: ApiServerDb, c: Cursor)
    requires KeyedItems(db.live)
    ensures HasAnchor(MyListItems(db), c) <==> c.lastAnimeId in db.live && db.live[c.lastAnimeId].score == c.lastScore
  {
    var all := MyListItems(db);
    if c.lastAnimeId in db.live && db.live[c.lastAnimeId].score == c.lastScore {
      var j := IndexOf(all, db.live[c.lastAnimeId]);
      assert CursorOf(all[j]) == c;
    }
  }

  /**
   Which live entries are candidates: all of them without a cursor; with a
   cursor whose anchor is live with its score, those with a higher id; with
   any other cursor, those scored at least the cursor's score.
   */
  lemma CandidateMembership(db: ApiServerDb, after: Option<Cursor>, x: MyListItem)
    requires KeyedItems(db.live)
    ensures x in ScoreCandidates(db, after) <==>
      && x.animeId in db.live && db.live[x.animeId] == x
      && (after.Some? && AnchorLive(db, after.value) ==> x.animeId > after.value.lastAnimeId)
      && (after.Some? && !AnchorLive(db, after.value) ==> x.score >= after.value.lastScore)
  {
    var all := MyListItems(db);
    ListedMember(db, x);
    if after.Some? {
      AnchorInStore(db, after.value);
      FilterMember(all, IdAbove(after.value.lastAnimeId), x);
      FilterMember(all, ScoreAtLeast(after.value.lastScore), x);
    }
  }

  /** In a keyed store an entry is listed exactly when it is stored under its id. */
  lemma ListedMember(db: ApiServerDb, x: MyListItem)
    requires KeyedItems(db.live)
    ensures x in MyListItems(db) <==> x.animeId in db.live && db.live[x.animeId] == x
  {
    ListedAreLive(db);
  }

  /** The entry the cursor names is live and still has the cursor's score. */
  ghost predicate AnchorLive(db: ApiServerDb, c: Cursor) {
    c.lastAnimeId in db.live && db.live[c.lastAnimeId].score == c.lastScore
  }

  /**
   The page holds the lowest keys: a candidate is left off it only when the
   page is full, and then its key is no lower than the page's last entry's.
   */
  lemma ScorePageLowest(db: ApiServerDb, after: Option<Cursor>, limit: nat, x: MyListItem)
    requires limit > 0
    requires x in ScoreCandidates(db, after) && x !in ScorePage(db, after, limit).data
    ensures |ScorePage(db, after, limit).data| == limit
    ensures ScoreKey(Last(ScorePage(db, after, limit).data)) <= ScoreKey(x)
  {
    var sorted := SortedByScore(db, after);
    assert ScorePage(db, after, limit).data == Take(sorted, limit) by {
      TakeOfTake(sorted, limit + 1, limit);
    }
    InMultiset(x, sorted, ScoreCandidates(db, after));
    LeftOutOfTake(sorted, ScoreKey, limit, x);
  }

  /** When the candidates are already in key order, the page is their first `limit` entries (the sort is stable). */
  lemma ScorePageOfSorted(db: ApiServerDb, after: Option<Cursor>, limit: nat)
    requires limit > 0 || |ScoreCandidates(db, after)| == 0
    requires SortedBy(ScoreCandidates(db, after), ScoreKey)
    ensures ScorePage(db, after, limit).data == Take(ScoreCandidates(db, after), limit)
  {
    var c := ScoreCandidates(db, after);
    SortByOfSorted(c, ScoreKey);
    assert SortedByScore(db, after) == c;
    TakeOfTake(c, limit + 1, limit);
  }

  /** Without a cursor every listed entry is a candidate, in listing order. */
  lemma NoCursorListsAll(db: ApiServerDb)
    ensures ScoreCandidates(db, None) == MyListItems(db)
  {
  }

  /**
   When the candidates are in key order and more than `limit` of them, the
   page is their first `limit` with a cursor on the last of those.
   */
  lemma FullPage(db: ApiServerDb, after: Option<Cursor>, limit: nat, xs: seq<MyListItem>, page: seq<MyListItem>, next: Cursor)
    requires ScoreCandidates(db, after) == xs && SortedBy(xs, ScoreKey)
    requires 0 < limit < |xs|
    requires page == xs[..limit] && next == CursorOf(xs[limit - 1])
    ensures ScorePage(db, after, limit) == MyListWithAfterResponse(page, Some(next), db.now)
  {
    FullPageData(db, after, limit, xs);
    FullPageCursor(db, after, limit, xs[..limit]);
  }

  lemma FullPageData(db: ApiServerDb, after: Option<Cursor>, limit: nat, xs: seq<MyListItem>)
    requires ScoreCandidates(db, after) == xs && SortedBy(xs, ScoreKey)
    requires 0 < limit < |xs|
    ensures ScorePage(db, after, limit).data == xs[..limit]
  {
    ScorePageOfSorted(db, after, limit);
  }

  lemma FullPageCursor(db: ApiServerDb, after: Option<Cursor>, limit: nat, page: seq<MyListItem>)
    requires 0 < limit < |ScoreCandidates(db, after)|
    requires ScorePage(db, after, limit).data == page
    ensures |page| == limit
    ensures ScorePage(db, after, limit).after == Some(CursorOf(page[limit - 1]))
  {
  }

  /** When the candidates are in key order and at most `limit` of them, the page is all of them with no cursor. */
  lemma LastPage(db: ApiServerDb, after: Option<Cursor>, limit: nat, xs: seq<MyListItem>)
    requires ScoreCandidates(db, after) == xs && SortedBy(xs, ScoreKey)
    requires 0 < limit && |xs| <= limit
    ensures ScorePage(db, after, limit) == MyListWithAfterResponse(xs, None, db.now)
  {
    ScorePageOfSorted(db, after, limit);
    TakeAll(xs, limit);
  }

  /** An entry with a low id and a high score, and one with a high id and a low score. */
  const HighScoreLowId: MyListItem := MyListItem(1, 1, 10)
  const LowScoreHighId: MyListItem := MyListItem(5, 1, 1)

  /** The key `score - 100000 + animeId` puts the low-scored entry first. */
  lemma SortSkipPair()
    ensures SortBy([HighScoreLowId, LowScoreHighId], ScoreKey) == [LowScoreHighId, HighScoreLowId]
  {
    var xs := [HighScoreLowId, LowScoreHighId];
    assert xs[1..] == [LowScoreHighId];
    assert SortBy([LowScoreHighId], ScoreKey) == [LowScoreHighId];
    assert ScoreKey(LowScoreHighId) < ScoreKey(HighScoreLowId);
    assert Insert(HighScoreLowId, [], ScoreKey) == [HighScoreLowId];
  }

  /** The store holding just the two entries lists them by id. */
  lemma SkipPairListed(db: ApiServerDb)
    requires db.live == map[1 := HighScoreLowId, 5 := LowScoreHighId]
    ensures MyListItems(db) == [HighScoreLowId, LowScoreHighId]
  {
    var xs := [HighScoreLowId, LowScoreHighId];
    assert StrictlySortedBy(xs, ItemId);
    assert |db.live| == 2 by {
      assert db.live.Keys == {1, 5};
    }
    ListedExactly(db, xs);
  }

  /** After the low-scored entry the anchor is live, and nothing has a higher id. */
  lemma NothingAboveAnchor()
    ensures CandidatesIn([HighScoreLowId, LowScoreHighId], Some(Cursor(5, 1))) == []
  {
    var all := [HighScoreLowId, LowScoreHighId];
    assert CursorOf(all[1]) == Cursor(5, 1);
    FilterNone(all, IdAbove(5));
  }

  /**
   The anchor branch cuts by id while the pages run in key order, so an
   entry whose key comes later but whose id is lower is never delivered.
   With entries 1 (score 10) and 5 (score 1) and `limit` 1 the first page
   is entry 5 with the cursor `(5, 1)`; that anchor is still listed, no id
   exceeds 5, and the next page is empty and the last, on a store that
   never changed. Entry 1 is listed yet on no page.
   */
  lemma ScoreWalkSkips(db: ApiServerDb)
    requires db.live == map[1 := HighScoreLowId, 5 := LowScoreHighId]
    ensures HighScoreLowId in MyListItems(db)
    ensures ScorePage(db, None, 1).data == [LowScoreHighId]
    ensures ScorePage(db, None, 1).after == Some(Cursor(5, 1))
    ensures ScorePage(db, Some(Cursor(5, 1)), 1).data == []
    ensures ScorePage(db, Some(Cursor(5, 1)), 1).after == None
  {
    SkipPairListed(db);
    SortSkipPair();
    assert SortedByScore(db, None) == [LowScoreHighId, HighScoreLowId];
    NothingAboveAnchor();
    LastPage(db, Some(Cursor(5, 1)), 1, []);
  }

  /**
   The order the endpoint documents, by score and then by anime id, as one
   number for ids in `[0, 100000)`: `score * 100000 + animeId`.
   */
  const IdSpan: int := 100000

  function IntendedKey(x: MyListItem): int {
    x.score * IdSpan + x.animeId
  }

  /** The intended key of the entry a cursor names. */
  function CursorKey(c: Cursor): int {
    c.lastScore * IdSpan + c.lastAnimeId
  }

  /** The entries of `all` after the cursor in the intended order, in that order. */
  function KeyPending(all: seq<MyListItem>, after: Option<Cursor>): seq<MyListItem> {
    var sorted := SortBy(all, IntendedKey);
    if after.None? then sorted else Candidates(sorted, IntendedKey, CursorKey(after.value))
  }

  /** The pending entries are exactly the entries of `all` after the cursor's key. */
  lemma KeyPendingMembers(all: seq<MyListItem>, after: Option<Cursor>)
    ensures var r := KeyPending(all, after);
      && (forall i :: 0 <= i < |r| ==> r[i] in all)
      && (forall x :: x in all && (after.Some? ==> IntendedKey(x) > CursorKey(after.value)) ==> x in r)
      && (after.Some? ==> forall i :: 0 <= i < |r| ==> IntendedKey(r[i]) > CursorKey(after.value))
  {
    var sorted := SortBy(all, IntendedKey);
    if after.None? {
      SortedAmong(sorted, all);
      forall x | x in all ensures x in sorted {
        InMultiset(x, sorted, all);
      }
    } else {
      CandidatesOfSortBy(all, IntendedKey, CursorKey(after.value));
    }
  }

  /** No two entries of `all` share an intended key. */
  ghost predicate DistinctKeys(all: seq<MyListItem>) {
    |Keys(all, IntendedKey)| == |all|
  }

  /**
   The score-ordered page as the endpoint's documentation describes it:
   the first `limit` entries after the cursor in the order by score and
   then id, resuming after the cursor's key whether or not the entry it
   names is still listed.
   */
  function ScorePageByKey(all: seq<MyListItem>, after: Option<Cursor>, limit: nat, now: Timestamp): (r: MyListWithAfterResponse)
    requires limit > 0 || |KeyPending(all, after)| == 0
    ensures SortedBy(r.data, IntendedKey)
    ensures Among(r.data, all)
    ensures |r.data| == Min(limit, |KeyPending(all, after)|)
    ensures r.after.Some? <==> |KeyPending(all, after)| > limit
    ensures r.after.Some? ==> r.after.value == CursorOf(Last(r.data))
    ensures r.serverTime == now
  {
    var c := KeyPending(all, after);
    var page := Take(c, limit);
    KeyPendingMembers(all, after);
    KeyPendingSorted(all, after);
    TakeSorted(c, limit, IntendedKey);
    MyListWithAfterResponse(page, if |c| > limit then Some(CursorOf(Last(page))) else None, now)
  }

  lemma KeyPendingSorted(all: seq<MyListItem>, after: Option<Cursor>)
    ensures SortedBy(KeyPending(all, after), IntendedKey)
  {
    if after.Some? {
      SortedFilter(SortBy(all, IntendedKey), ModifiedAfter(IntendedKey, CursorKey(after.value)), IntendedKey);
    }
  }

  /** With distinct keys the pending entries are strictly increasing in the intended order. */
  lemma KeyPendingStrict(all: seq<MyListItem>, after: Option<Cursor>)
    requires DistinctKeys(all)
    ensures StrictlySortedBy(KeyPending(all, after), IntendedKey)
  {
    var sorted := SortBy(all, IntendedKey);
    KeysOfPermutation(sorted, all, IntendedKey);
    SortedDistinctIsStrict(sorted, IntendedKey);
    if after.Some? {
      FilterKeepsStrictOrder(sorted, ModifiedAfter(IntendedKey, CursorKey(after.value)), IntendedKey);
    }
  }

  /** What is pending after a full page's cursor is what the page left out. */
  lemma KeyPendingAfterPage(all: seq<MyListItem>, after: Option<Cursor>, limit: nat)
    requires |KeyPending(all, after)| > limit > 0
    requires DistinctKeys(all)
    ensures var c := KeyPending(all, after);
      KeyPending(all, Some(CursorOf(c[limit - 1]))) == c[limit..]
  {
    var c := KeyPending(all, after);
    var sorted := SortBy(all, IntendedKey);
    KeyPendingStrict(all, after);
    assert CursorKey(CursorOf(c[limit - 1])) == IntendedKey(c[limit - 1]);
    if after.Some? {
      CandidatesAfterPosition(sorted, IntendedKey, CursorKey(after.value), limit);
    } else {
      AfterPositionOfStrict(sorted, IntendedKey, limit);
    }
  }

  /**
   With distinct keys, a page and everything pending after its cursor make
   up exactly what was pending before it: nothing is skipped and nothing
   repeats. A last page holds everything pending, and a page with a next
   one is non-empty.
   */
  lemma ScoreByKeyStep(all: seq<MyListItem>, after: Option<Cursor>, limit: nat, now: Timestamp)
    requires limit > 0 || |KeyPending(all, after)| == 0
    requires DistinctKeys(all)
    ensures var r := ScorePageByKey(all, after, limit, now);
      && (r.after.None? ==> r.data == KeyPending(all, after))
      && (r.after.Some? ==> |r.data| > 0 && r.data + KeyPending(all, r.after) == KeyPending(all, after))
  {
    if |KeyPending(all, after)| > limit {
      FullPageByKey(all, after, limit, now);
    } else {
      TakeAll(KeyPending(all, after), limit);
    }
  }

  lemma FullPageByKey(all: seq<MyListItem>, after: Option<Cursor>, limit: nat, now: Timestamp)
    requires |KeyPending(all, after)| > limit > 0
    requires DistinctKeys(all)
    ensures var r := ScorePageByKey(all, after, limit, now);
      r.after.Some? && r.data + KeyPending(all, r.after) == KeyPending(all, after)
  {
    var c := KeyPending(all, after);
    var r := ScorePageByKey(all, after, limit, now);
    KeyPendingAfterPage(all, after, limit);
    assert r.after == Some(CursorOf(c[limit - 1]));
    Rejoin(c, limit, r.data, KeyPending(all, r.after));
  }

  /** Following the cursor of the intended order from `after` until no next page is announced. */
  function WalkByKey(all: seq<MyListItem>, after: Option<Cursor>, limit: nat, now: Timestamp): seq<MyListItem>
    requires limit > 0 && DistinctKeys(all)
    decreases |KeyPending(all, after)|
  {
    var r := ScorePageByKey(all, after, limit, now);
    if r.after.Some? then
      ScoreByKeyStep(all, after, limit, now);
      r.data + WalkByKey(all, r.after, limit, now)
    else
      r.data
  }

  /**
   The walk in the intended order delivers every entry after `after`
   exactly once, in that order; from the start it delivers the whole list.
   */
  lemma {:induction false} WalkByKeyComplete(all: seq<MyListItem>, after: Option<Cursor>, limit: nat, now: Timestamp)
    requires limit > 0 && DistinctKeys(all)
    ensures WalkByKey(all, after, limit, now) == KeyPending(all, after)
    ensures after.None? ==> forall x :: x in all ==> x in WalkByKey(all, after, limit, now)
    decreases |KeyPending(all, after)|
  {
    var r := ScorePageByKey(all, after, limit, now);
    ScoreByKeyStep(all, after, limit, now);
    KeyPendingMembers(all, after);
    if r.after.Some? {
      WalkByKeyComplete(all, r.after, limit, now);
    }
  }

  /** Every live id lies in `[0, 100000)`, where the intended key keeps ids apart. */
  ghost predicate IdsBelowSpan(db: ApiServerDb) {
    forall k :: k in db.live ==> 0 <= k < IdSpan
  }

  /** Entries with ids in `[0, 100000)` and the same intended key have the same id. */
  lemma KeyDeterminesId(x: MyListItem, y: MyListItem)
    requires 0 <= x.animeId < IdSpan && 0 <= y.animeId < IdSpan
    requires IntendedKey(x) == IntendedKey(y)
    ensures x.animeId == y.animeId
  {
    var d := x.score - y.score;
    assert d * IdSpan == y.animeId - x.animeId;
  }

  /** In a keyed store with ids below 100000 no two listed entries share an intended key. */
  lemma StoreKeysDistinct(db: ApiServerDb)
    requires KeyedItems(db.live) && IdsBelowSpan(db)
    ensures DistinctKeys(MyListItems(db))
  {
    var all := MyListItems(db);
    forall i, j | 0 <= i < j < |all| ensures IntendedKey(all[i]) != IntendedKey(all[j]) {
      assert ItemId(all[i]) < ItemId(all[j]);
      assert all[i].animeId in db.live && all[j].animeId in db.live;
      if IntendedKey(all[i]) == IntendedKey(all[j]) {
        KeyDeterminesId(all[i], all[j]);
      }
    }
    DistinctKeysCount(all, IntendedKey);
  }

  /** On the input that the id cut skips, the walk in the intended order delivers entry 1. */
  lemma WalkByKeyDeliversSkipped()
    ensures DistinctKeys([HighScoreLowId, LowScoreHighId])
    ensures HighScoreLowId in WalkByKey([HighScoreLowId, LowScoreHighId], None, 1, 0)
  {
    var all := [HighScoreLowId, LowScoreHighId];
    assert Keys(all, IntendedKey) == {IntendedKey(all[0]), IntendedKey(all[1])};
    WalkByKeyComplete(all, None, 1, 0);
    KeyPendingMembers(all, None);
  }
}

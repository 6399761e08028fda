# MyList sync protocols, modelled in Dafny

This project models the pseudo server and client of the mal-api-sample
repository. The repository compares five ways for a client to mirror a
user's anime list ("my list") from a server while the list changes during
pagination.

- **Store.** `ApiServerDb` (module `ServerDb`) keeps live entries and
  tombstones keyed by anime id. It lists both in id order and answers "what
  was deleted since t".
- **Mirror.** `LocalMyListDb` (module `LocalDb`) is the client's copy,
  changed only by upserting and deleting batches.
- **Helper.** `Util.getItemsOrderByModifiedAtConsistently` (module
  `ConsistentPaging`) pages a collection by modification time without
  splitting a group of equal timestamps.
- **Five protocols:**
  - Proposal 1: offset paging, update-time paging and a deleted-id feed.
  - Proposal 2: a bulk feed with a composite `(modifiedAt, animeId)` cursor.
  - Proposal 3: a bulk feed paged by time through the helper.
  - Proposal 4: id-cursor paging plus a bounded diff.
  - Proposal 5: score-ordered paging with an `(id, score)` cursor plus the
    same diff.
- **Diff.** Shared by Proposals 4 and 5 in module `Diff`, together with the
  client step that applies it.
- **Scenarios.** The spec classes' scenarios are replayed step by step in
  the `*Scenarios` modules. Each request and mirror update is a call; the
  final states are postconditions.

Every operation is a pure function over immutable values:
- Kotlin's mutable maps become Dafny `map`s.
- Lists become `seq`.
- `sortedBy` is a stable insertion sort (`Lists.SortBy`).
- A thrown exception becomes either a `Result` failure (the diff) or a
  precondition (an index or `.last()` crash; see "Left out").

Each protocol is given a partner:
- an independent description of a correct page (`ConsistentPaging.ConsistentPage`, `Diff.CompleteDiff`);
- a completeness or convergence lemma for the client loop;
- or, where the code skips entries, a concrete walk that exhibits the skip.

The anime ids `A` to `E` are defined in a test source that is not part of
this model. Module `AnimeIds` fixes them to 1 to 5; only their order matters,
except in the score-ordered protocol. That protocol's `Score` type also comes
from outside this model and is modelled as `int`.

## Model

| member | source | states |
|---|---|---|
| ServerDb.MyListItems | src/test/kotlin/sample/common.kt:35-36 | every live entry exactly once, in strictly increasing id order, each the entry stored under its id |
| ServerDb.DeletedMyListItems | src/test/kotlin/sample/common.kt:41-42 | every tombstone exactly once, in strictly increasing id order, each stored under its id |
| ServerDb.Reset | src/test/kotlin/sample/common.kt:44-48 | afterwards the store holds exactly the given entries (the last one per id wins), no tombstones, and is consistent |
| ServerDb.DeleteMyListItem | src/test/kotlin/sample/common.kt:50-53 | the id is no longer live and is tombstoned at `now`, whether or not it was live; every other id keeps its state; consistency is preserved |
| ServerDb.GetDeletedMyListItem | src/test/kotlin/sample/common.kt:55-58 | exactly the stored tombstones dated after `deletedSince`, in id order |
| ServerDb.AddMyListItems | src/test/kotlin/sample/common.kt:60-65 | added ids become live with their last entry and lose their tombstone; every other id keeps its state; consistency is preserved |
| ServerDb.NewServerDb | src/test/kotlin/sample/ApiProposal4Spec.kt:29 | (assumed constructor) the store holds exactly the given entries, no tombstones, and is consistent |
| ServerDb.AddMyListItem | src/test/kotlin/sample/ApiProposal4Spec.kt:43 | (assumed operation) the id becomes live with a fresh entry at `now` and loses its tombstone; everything else is unchanged |
| ServerDb.Update | src/test/kotlin/sample/ApiProposal5Spec.kt:114 | (assumed operation) the entry replaces the live one with its id; everything else is unchanged |
| LocalDb.Upsert | src/test/kotlin/sample/common.kt:74-80 | the mirror gains the batch's ids, each mapped to the last entry with that id; other ids are untouched |
| LocalDb.UpsertIdempotent | src/test/kotlin/sample/common.kt:74-76 | upserting the same batch twice equals upserting it once |
| LocalDb.UpsertConcat | src/test/kotlin/sample/common.kt:74-76 | upserting two batches in turn equals upserting their concatenation |
| LocalDb.Delete | src/test/kotlin/sample/common.kt:82-90 | the listed ids are gone, absent ids are ignored, and every remaining entry is unchanged |
| LocalDb.DeleteIdempotent | src/test/kotlin/sample/common.kt:82-86 | deleting the same ids twice equals deleting them once |
| LocalDb.UpsertOrDelete | src/test/kotlin/sample/ApiProposal2Spec.kt:17-25 | the last bulk item with an id decides it: a tombstone item removes the id, a live item upserts it; ids not in the page are untouched |
| Lists.SortBy | src/test/kotlin/sample/common.kt:108 | the result is sorted by the key and is a permutation of the input |
| Lists.SortByStable | src/test/kotlin/sample/common.kt:108 | the sort is stable: the elements with any one key keep their input order |
| ConsistentPaging.ItemsOrderByModifiedAtConsistently | src/test/kotlin/sample/common.kt:101-127 | the page satisfies `ConsistentPage`: only pending elements, in time order; empty iff nothing is pending; nothing at or before the last timestamp is left out; `hasNext` iff something is newer; sized by `limit` unless the boundary ties |
| ConsistentPaging.PageCovers | src/test/kotlin/sample/common.kt:101-127 | a page without a next page holds every pending element; with one, it holds every pending element up to its last timestamp, which lies after `since` |
| ConsistentPaging.PageStep | src/test/kotlin/sample/common.kt:117-126 | a page with a next one leaves strictly fewer elements pending after its last timestamp, so following `next` terminates |
| ConsistentPaging.FitsOnOnePage | src/test/kotlin/sample/common.kt:110-111 | when everything pending fits within `limit`, the page is the last one and holds it all |
| ConsistentPaging.TieItems | src/test/kotlin/sample/common.kt:114-126 | on a tie at the boundary the page is the sorted candidates before the boundary element followed by every element with the boundary timestamp |
| ConsistentPaging.TieRepeats | src/test/kotlin/sample/common.kt:125 | when the tie reaches back to position `limit - 2`, that element appears on the page twice |
| Proposal1.OffsetPage | src/test/kotlin/sample/ApiProposal1Spec.kt:201-215 | the page is the slice of the id-ordered list from `offset`, at most `limit` long; `next` is present iff the list goes on past the slice, and then names `offset + limit` |
| Proposal1.OffsetSyncOfUnchangedStore | src/test/kotlin/sample/ApiProposal1Spec.kt:29-49 | following `next` from offset 0 on an unchanging store fills an empty mirror with exactly the store's list |
| Proposal1.OffsetSyncUpsertsRest | src/test/kotlin/sample/ApiProposal1Spec.kt:201-215 | the offset loop upserts exactly the list from `offset` on |
| Proposal1.UpdatedSincePage | src/test/kotlin/sample/ApiProposal1Spec.kt:220-232 | the page is a consistent page of the list by update time; `latestUpdatedAt` is the update time of its last entry |
| Proposal1.TimePageProgress | src/test/kotlin/sample/ApiProposal1Spec.kt:220-232 | a page with a next one moves the cursor forward and leaves fewer entries pending |
| Proposal1.TimeSyncOfUnchangedStore | src/test/kotlin/sample/ApiProposal1Spec.kt:220-232 | following `latestUpdatedAt` on an unchanging store from before every update fills an empty mirror with exactly the store's list |
| Proposal1.LastPageCoversUpdates | src/test/kotlin/sample/ApiProposal1Spec.kt:220-232 | a last update-time page holds every live entry updated after `since`, and only such entries |
| Proposal1.DeletedPage | src/test/kotlin/sample/ApiProposal1Spec.kt:237-252 | the ids of the first `min(limit, n)` recent tombstones in id order; `next` iff more remain, naming the deletion time of the first tombstone not returned |
| Proposal1.DeletedPageIdsTombstoned | src/test/kotlin/sample/ApiProposal1Spec.kt:237-252 | every id on a deleted-feed page is tombstoned after `deletedSince` |
| Proposal1.LastPageCoversDeletions | src/test/kotlin/sample/ApiProposal1Spec.kt:237-252 | a deleted-feed page without a next page names every id tombstoned after `deletedSince`, and only such ids |
| Proposal1.DeletedWalkSkips | src/test/kotlin/sample/ApiProposal1Spec.kt:247 | with tombstones A at 5, B at 3 and C at 4, following the feed one id per page yields `[A, A, A]`: B and C are never delivered |
| Proposal1.DeletedPageByTime | src/test/kotlin/sample/ApiProposal1Spec.kt:237-252 | (corrected feed, no source counterpart) only recent tombstoned ids; a last page names them all; a next page moves the cursor forward and has already named everything up to it |
| Proposal1.DeletedWalkByTimeComplete | src/test/kotlin/sample/ApiProposal1Spec.kt:237-252 | (corrected feed) following it collects exactly the ids tombstoned after the start |
| Proposal1.TimeCatchUpConverges | src/test/kotlin/sample/ApiProposal1Spec.kt:148-163 | a mirror in step as of `since` that applies the last update-time page and then the last deleted-feed page equals the store |
| Proposal1Scenarios.OffsetSimpleCase | src/test/kotlin/sample/ApiProposal1Spec.kt:29-50 | two offset pages of two over an unchanging store leave the mirror equal to the store |
| Proposal1Scenarios.OffsetEdgePaging | src/test/kotlin/sample/ApiProposal1Spec.kt:52-78 | with B deleted between the offset pages, the mirror still holds B and never receives C, and nothing left was updated after 3 |
| Proposal1Scenarios.OffsetEdgeCase | src/test/kotlin/sample/ApiProposal1Spec.kt:52-103 | after the catch-up the store still lists C but the mirror lacks it, so the mirror differs from the store |
| Proposal1Scenarios.TimeEdgePaging | src/test/kotlin/sample/ApiProposal1Spec.kt:114-140 | with B deleted between update-time pages, the mirror differs from the store but is in step with it as of 3 |
| Proposal1Scenarios.TimeEdgeCase | src/test/kotlin/sample/ApiProposal1Spec.kt:114-165 | after the catch-up by update time and by deletion time, the mirror equals the store |
| Proposal2.CompareToIsLexicographic | src/test/kotlin/sample/ApiProposal2Spec.kt:88-91 | for ids in `[0, 10000)`, `compareTo` orders cursors lexicographically by time then id, and reports equality only for equal cursors |
| Proposal2.DecodeEncode | src/test/kotlin/sample/ApiProposal2Spec.kt:89-90 | for ids in `[0, 10000)` the compared number determines the cursor |
| Proposal2.CursorCollision | src/test/kotlin/sample/ApiProposal2Spec.kt:89-90 | an id of 10000 makes two different cursors compare equal |
| Proposal2.BulkPage | src/test/kotlin/sample/ApiProposal2Spec.kt:106-147 | a bulk page holds at most `limit` items |
| Proposal2.BulkPageOfPool | src/test/kotlin/sample/ApiProposal2Spec.kt:133-146 | the page is the first `limit` items of the capped candidates sorted by time; the cursor is that of the last of them iff the pool holds more |
| Proposal2.BulkHasNext | src/test/kotlin/sample/ApiProposal2Spec.kt:133 | a next cursor is present iff the live and deleted candidates after `after` together outnumber `limit` |
| Proposal2.BulkInTimeOrder | src/test/kotlin/sample/ApiProposal2Spec.kt:135-137 | the page is ordered by modification time |
| Proposal2.BulkNextCursor | src/test/kotlin/sample/ApiProposal2Spec.kt:141-145 | the next cursor is the time and id of the page's last item |
| Proposal2.BulkItemsAreStored | src/test/kotlin/sample/ApiProposal2Spec.kt:111-131 | every item lies after the cursor; a deleted item names a tombstone with its deletion time, and any other item names a live entry with its update time |
| Proposal2.BulkWalkSkips | src/test/kotlin/sample/ApiProposal2Spec.kt:133-145 | with live entry 5 and tombstone 1 both modified at 2 and `limit` 1, the first page is the live entry with the cursor `(2, 5)` and the next page is empty and the last, so tombstone 1, pending at the start, is never delivered |
| Proposal2.BulkPageByCursor | src/test/kotlin/sample/ApiProposal2Spec.kt:106-147 | (corrected merge, no source counterpart) at most `limit` items, all stored and after `after`, in cursor order; the cursor is present iff more items are pending and names the last item |
| Proposal2.BulkByCursorStep | src/test/kotlin/sample/ApiProposal2Spec.kt:133-145 | (corrected merge) with distinct cursors, a page followed by everything pending after its cursor is exactly what was pending before it; a last page holds all of it |
| Proposal2.WalkByCursorComplete | src/test/kotlin/sample/ApiProposal2Spec.kt:106-147 | (corrected merge) following the cursor until no next page delivers every item after the start exactly once, in cursor order |
| Proposal2.StoreCursorsDistinct | src/test/kotlin/sample/ApiProposal2Spec.kt:88-91 | in a consistent store with ids below 10000 no two bulk items share a cursor number |
| Proposal2.WalkByCursorDeliversSkipped | src/test/kotlin/sample/ApiProposal2Spec.kt:135-137 | (corrected merge) on the input above, the walk delivers tombstone 1 |
| Proposal2Scenarios.DeleteDuringPagination | src/test/kotlin/sample/ApiProposal2Spec.kt:39-73 | three bulk pages of two, with A deleted after the first, leave the mirror equal to the store |
| Proposal3.Bulk2Page | src/test/kotlin/sample/ApiProposal3Spec.kt:91-128 | the page is in time order and holds only items modified after `since`; a next page starts after the page's last timestamp |
| Proposal3.Bulk2Complete | src/test/kotlin/sample/ApiProposal3Spec.kt:91-128 | nothing is skipped: without a next page, every live entry and tombstone modified after `since` is delivered; with one, all of them up to its timestamp are |
| Proposal3.Bulk2HasNext | src/test/kotlin/sample/ApiProposal3Spec.kt:112-122 | a next page is announced iff the page is non-empty and something listed is newer than its last item |
| Proposal3.NextPageNonEmpty | src/test/kotlin/sample/ApiProposal3Spec.kt:115-119 | whichever of the three helper calls reports more, the merged page is non-empty, so `resultItems.last()` is defined |
| Proposal3.Bulk2ItemsAreStored | src/test/kotlin/sample/ApiProposal3Spec.kt:92-110 | every item describes the store: a tombstone item its id's tombstone, a live item its id's live entry |
| Proposal3Scenarios.DeleteDuringPagination | src/test/kotlin/sample/ApiProposal3Spec.kt:39-64 | two bulk pages of two, with A deleted between them, leave the mirror equal to the store |
| Proposal4.AfterPage | src/test/kotlin/sample/ApiProposal4Spec.kt:122-139 | the page holds entries above `after` in id order, between 1 and `limit` of them; `after` is present iff more entries follow, and names the page's last id; `serverTime` is the store clock |
| Proposal4.AfterPageComplete | src/test/kotlin/sample/ApiProposal4Spec.kt:124-137 | every live entry with an id above `after`, and up to the page's own `after` when there is one, is on the page |
| Proposal4.NextAfter | src/test/kotlin/sample/ApiProposal4Spec.kt:124-137 | the candidates after the page's `after` are exactly those that did not fit on the page |
| Proposal4.AfterSyncOfUnchangedStore | src/test/kotlin/sample/ApiProposal4Spec.kt:122-139 | following `after` from 0 on an unchanging store with positive ids fills an empty mirror with exactly the store's list |
| Diff.GetDiff | src/test/kotlin/sample/ApiProposal4Spec.kt:151-178 | a success carries every change after the watermark and nothing else, both parts in id order, within 200, with `maxModifiedAt` the latest timestamp; it fails as too large iff either part exceeds 200; it fails as empty iff nothing changed |
| Diff.DiffFailsIffOversized | src/test/kotlin/sample/ApiProposal4Spec.kt:154-168 | the diff fails as too large iff more than 200 ids were updated, or more than 200 deleted, after the watermark |
| Diff.DiffIdsDisjoint | src/test/kotlin/sample/ApiProposal4Spec.kt:149 | a successful diff never carries an id both as updated and as deleted |
| Diff.DiffCatchUpConverges | src/test/kotlin/sample/ApiProposal4Spec.kt:72-85 | applying a successful diff after `since` to a mirror in step as of `since` reproduces the store |
| Diff.EmptyDiffMeansInStep | src/test/kotlin/sample/ApiProposal4Spec.kt:170-171 | when the diff fails as empty, a mirror in step as of the watermark already equals the store |
| Diff.DiffAtOwnWatermarkIsEmpty | src/test/kotlin/sample/ApiProposal4Spec.kt:79 | asking again from the returned `maxModifiedAt` on an unchanged store finds nothing |
| Diff.CatchUpWith | src/test/kotlin/sample/ApiProposal4Spec.kt:75-76 | upserting every update and deleting every tombstoned id after `since`, however they were paged, brings a mirror in step as of `since` level with the store |
| Proposal4Scenarios.PageWhileChanging | src/test/kotlin/sample/ApiProposal4Spec.kt:28-67 | with B added and C deleted between the two pages, the mirror holds the initial A, C and D and differs from the store |
| Proposal4Scenarios.AddAndDeleteDuringPagination | src/test/kotlin/sample/ApiProposal4Spec.kt:28-85 | after the diff from `serverTime - 1` the mirror equals the store, which lists A, B and D |
| Proposal5.SortedByScore | src/test/kotlin/sample/ApiProposal5Spec.kt:222-223 | the candidates, permuted into order by `score - 100000 + animeId` |
| Proposal5.ScorePage | src/test/kotlin/sample/ApiProposal5Spec.kt:205-238 | the page is in key order, a sub-multiset of the candidates, `min(limit, n)` long; the cursor is present iff more candidates follow and names the last entry's id and score; `serverTime` is the store clock |
| Proposal5.CandidateMembership | src/test/kotlin/sample/ApiProposal5Spec.kt:208-220 | an entry is a candidate iff it is live and either there is no cursor, or the cursor's anchor is live with its score and the id is higher, or the anchor is not and the score is at least the cursor's |
| Proposal5.AnchorInStore | src/test/kotlin/sample/ApiProposal5Spec.kt:211-214 | the anchor is found iff its id is live with the cursor's score |
| Proposal5.ScorePageLowest | src/test/kotlin/sample/ApiProposal5Spec.kt:222-226 | a candidate is left off only when the page is full, and then its key is no lower than the page's last entry's |
| Proposal5.ScorePageOfSorted | src/test/kotlin/sample/ApiProposal5Spec.kt:222-226 | when the candidates are already in key order, the page is their first `limit` entries |
| Proposal5.ScoreWalkSkips | src/test/kotlin/sample/ApiProposal5Spec.kt:208-232 | with entries 1 (score 10) and 5 (score 1) and `limit` 1, the first page is entry 5 with the cursor `(5, 1)` and the next page is empty and the last, so entry 1 is listed yet never delivered on an unchanged store |
| Proposal5.ScorePageByKey | src/test/kotlin/sample/ApiProposal5Spec.kt:201-238 | (corrected order, no source counterpart) at most `limit` listed entries, in order by score then id; the cursor is present iff more entries follow the cursor's key and names the last entry |
| Proposal5.ScoreByKeyStep | src/test/kotlin/sample/ApiProposal5Spec.kt:222-236 | (corrected order) with distinct keys, a page followed by everything after its cursor is exactly what followed the previous cursor; a last page holds all of it |
| Proposal5.WalkByKeyComplete | src/test/kotlin/sample/ApiProposal5Spec.kt:201-203 | (corrected order) following the cursor from the start delivers the entire list exactly once, in order by score then id |
| Proposal5.StoreKeysDistinct | src/test/kotlin/sample/ApiProposal5Spec.kt:203 | in a keyed store with ids below 100000 no two listed entries share a key `score * 100000 + animeId` |
| Proposal5.WalkByKeyDeliversSkipped | src/test/kotlin/sample/ApiProposal5Spec.kt:216 | (corrected order) on the input above, the walk delivers entry 1 |
| Proposal5Scenarios.PageWhileDeleting | src/test/kotlin/sample/ApiProposal5Spec.kt:30-79 | with B deleted after the first page, the three pages leave the mirror holding all five initial entries, different from the store but in step with it as of 2 |
| Proposal5Scenarios.DeleteDuringPagination | src/test/kotlin/sample/ApiProposal5Spec.kt:30-98 | after the diff the mirror equals the store, which lists A, C, D and E |
| Proposal5Scenarios.PageWhileUpdating | src/test/kotlin/sample/ApiProposal5Spec.kt:101-151 | with B's score lowered after the first page, the three pages leave the mirror holding B's old entry, different from the store but in step with it as of 2 |
| Proposal5Scenarios.UpdateScoreDuringPagination | src/test/kotlin/sample/ApiProposal5Spec.kt:101-170 | after the diff the mirror equals the store, B with its lowered score included |

## Left out

- ConsistentPaging.ItemsOrderByModifiedAtConsistently: requires `limit > 0` whenever something is pending. With `limit` 0 and a pending element, common.kt:114 reads position -1 and throws. The crash is a precondition, not an error result.
- Proposal1.UpdatedSincePage: inherits that precondition from the helper.
- Proposal3.Bulk2Page: inherits it as `PageableWith`.
- Proposal4.AfterPage: requires a positive `limit` and at least one entry above `after`. ApiProposal4Spec.kt:130 evaluates `resultItems.last()` on every call, so an empty store, or an `after` at or past the last id, throws there. The model does not describe that crash.
- Proposal2.BulkPage: requires `limit > 0` when there is a candidate, because `allItems.last()` of an empty page throws (ApiProposal2Spec.kt:142).
- Proposal2.BulkPage: its own contract only bounds the page size. The pool, order, cursor and soundness lemmas above describe it, but no lemma says that nothing is skipped: the merge at ApiProposal2Spec.kt:135-137 sorts by time alone, and `BulkWalkSkips` shows a tombstone that is never delivered (see "Findings").
- Proposal2.BulkPageByCursor: the corrected merge draws on all pending items; the per-kind cap of `limit + 1` candidates at ApiProposal2Spec.kt:114 and :125 is not part of it.
- Proposal2.WalkByCursorComplete: requires that no two bulk items share a cursor number; `StoreCursorsDistinct` shows this for consistent stores with ids below 10000.
- Proposal5.ScorePage: no lemma says that the pages cover the list. The anchor branch at ApiProposal5Spec.kt:216 cuts by id while the pages run in key order, and `ScoreWalkSkips` shows an entry that is never delivered on an unchanged store (see "Findings").
- Proposal5.ScorePageByKey: the corrected page resumes after the cursor's key whether or not its anchor is still listed, so it has no fallback branch for a vanished anchor.
- Proposal5.WalkByKeyComplete: requires that no two entries share a key; `StoreKeysDistinct` shows this for keyed stores with ids below 100000.
- Proposal5.ScorePage: requires `limit > 0` when there is a candidate, because `resultItems.last()` of an empty page throws (ApiProposal5Spec.kt:230).
- Negative `limit` and `offset`: modelled as `nat`. In Kotlin `take` of a negative count throws.
- Diff.GetDiff: the null dereference of `max()!!` on an empty diff (ApiProposal4Spec.kt:171, ApiProposal5Spec.kt:270) is the failure `EmptyDiff` rather than an exception.
- Diff.GetDiff: `RuntimeException("diff size too large")` is the failure `DiffSizeTooLarge`.
- Proposal2.CompareToIsLexicographic: holds only for ids in `[0, 10000)`, as `CursorCollision` shows.
- Proposal2.CompareTo: computes on unbounded integers. The Kotlin `Int` arithmetic overflows once `nextUpdatedSince.toInt() * 10000` leaves the 32-bit range. The `toInt()` truncation of the 64-bit timestamp is not modelled either.
- Proposal5.ScoreKey: the key `score - 100000 + animeId` is computed without 32-bit wrap-around.
- Timestamps (`PseudoDateTime`, a `Long`) and ids (`Int`): modelled as unbounded integers.
- LocalDb.Upsert: the insertion order in which the Kotlin `LinkedHashMap` lists the mirror (common.kt:71-72) is not modelled. Mirrors are compared with the store as id-keyed maps.
- Proposal4Scenarios.AddAndDeleteDuringPagination: proves the mirror equals the store as a map only. The test's list comparison at ApiProposal4Spec.kt:84 depends on that order:
  - the diff's upsert (line 75) appends B, and the delete (line 76) removes C, so the mirror lists `[A, D, B]`;
  - the store lists `[A, B, D]`;
  - the list equality the test asserts would therefore fail.
- ServerDb.NewServerDb, ServerDb.AddMyListItem, ServerDb.Update, the store's `now` field and `MyListItem.score` are assumptions:
  - common.kt defines none of them;
  - the id-ordered and score-ordered tests use them (ApiProposal4Spec.kt:29-43, ApiProposal5Spec.kt:22-34, 114);
  - they are modelled as a reset store with clock 0, an add through `addMyListItems`, a replace through `addMyListItems`, a plain field, and an `int` defaulting to 0.
- The single-item `upsert(item)` and `delete(animeId)` overloads: modelled as batches of one.
- The Spek test framework and the `it` blocks: the scenario modules reproduce their assertions as postconditions and proofs.

## Findings

| source | as written | input that shows it | evidently intended | confidence | as-written member | corrected member |
|---|---|---|---|---|---|---|
| src/test/kotlin/sample/ApiProposal1Spec.kt:100-101 | the offset edge case asserts that the mirror equals the store after the catch-up by update time and by deletion time after 3 | list A@1, B@2, C@2, D@3; offset pages of two with B deleted at 4 between them: the second page at offset 2 is `[D]`, C is never paged, and C was last updated at 2, so no catch-up carries it | the catch-up makes the mirror equal the store, as it does when the list is paged by update time (Proposal 1-B) | not executed | Proposal1Scenarios.OffsetEdgeCase | Proposal1Scenarios.TimeEdgeCase |
| src/test/kotlin/sample/ApiProposal1Spec.kt:247 | the deleted feed is in id order, and `latestDeletedAt` is the deletion time of the first tombstone not returned | tombstones A@5, B@3, C@4, `limit` 1 from 0: pages `[A]` next 3, `[A]` next 4, `[A]` last; B and C are never delivered | the feed is paged by deletion time, with the cursor at the last tombstone returned, so every tombstone after the start is delivered | not executed | Proposal1.DeletedWalkSkips | Proposal1.DeletedWalkByTimeComplete |
| src/test/kotlin/sample/ApiProposal2Spec.kt:135-137 | the merged page is sorted by `modifiedAt` alone, while the next cursor and the filters at :113 and :124 compare `(modifiedAt, animeId)` | live entry 5 and tombstone 1, both modified at 2, `limit` 1 from `Cursor(0, 0)`: the page is `[live 5]` with the cursor `(2, 5)`, then an empty last page; tombstone 1, whose cursor `(2, 1)` sorts below, is never delivered | the merge orders by the whole cursor, so the next cursor divides what was delivered from what is still pending | not executed | Proposal2.BulkWalkSkips | Proposal2.WalkByCursorComplete |
| src/test/kotlin/sample/ApiProposal5Spec.kt:216 | with a live anchor the next page keeps the ids above the anchor's, while the pages run in order of `score - 100000 + animeId` (:223) | entries 1 (score 10) and 5 (score 1), `limit` 1: the page is `[5]` with the cursor `(5, 1)`, then an empty last page; entry 1 is never delivered, and the store never changed | the entire list, paged in order by score and then anime id as :201-203 documents, with each page resuming after the cursor's position in that order | not executed | Proposal5.ScoreWalkSkips | Proposal5.WalkByKeyComplete |

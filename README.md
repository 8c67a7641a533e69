# Docthru challenge back end: a Dafny model

Docthru is a back end for translation challenges. An admin approves a user's
application, and the approval becomes a **challenge**. Users submit one
**work** each to a challenge until it is FILLED or its deadline passes. Other
users **like** works and **comment** on them. A scheduled job closes expired
challenges and selects the most-liked works.

The model keeps the database in memory. One `Database.Db` object holds:
- the Challenge, Work, Comment and Application tables as sequences of records in insertion order;
- the Like relation as a set of `(workId, userId)` pairs;
- the auto-increment counters for new ids.

`Db.Valid()` states the schema's key constraints: ids are unique, and each id is below its counter.

Each repository function and each service function is modelled as follows:
- a read becomes a function over the tables;
- a write becomes a method that `modifies` the `Db`;
- a Prisma transaction becomes one sequential method.

A rollback restores the tables the transaction had written.

Errors follow the application's error handler (`src/middlewares/errorHandler.js`):
- `NotFound`, `Conflict`, `Forbidden`, `Unauthorized` and `BadRequest` are the application's own exceptions (HTTP 404, 409, 403, 401, 400).
- Everything else is `Internal` (HTTP 500). That covers a Prisma error on a missing row, a negative `skip`/`take` and a JavaScript `TypeError`.

Modules, one per source file:
- `Common` holds the result types.
- `Seqs` and `Ordering` hold generic sequence helpers and a stable insertion sort. The sort stands in for Prisma's `orderBy`.
- `Database` holds the tables and lookups.
- `WorksRepo`, `ChallengesRepo`, `LikesRepo`, `CommentsRepo` and `ApplicationsRepo` are the repositories.
- `WorksService`, `ChallengesService`, `LikesService` and `CommentsService` are the services.
- `Permission` is the owner-or-admin check.
- `Scheduler` is the expiry sweep.
- `JsArgs` models JavaScript argument shapes, for two call sites that pass the wrong shape.

## Model

| member | source | states |
|---|---|---|
| Database.FindChallenge | src/repos/challenges.repo.js:56-80 | `findUnique` by id: the row with that id, or None exactly when no row has it |
| Database.FindWork | src/repos/works.repo.js:115-136 | `findWorkById`: the row with that id, or None exactly when no row has it |
| Database.FindComment | src/repos/comments.repo.js:47-50 | `getCommentById`: the row with that id, or None exactly when no row has it |
| Database.FindApplication | src/repos/applications.repo.js:8-22 | `findApplicationById`: the row with that id, or None exactly when no row has it |
| Database.WorksOf | src/repos/works.repo.js:108-113 | exactly the works whose challengeId is the given one |
| Database.WorksOfWorkerIn | src/services/works.services.js:23-32 | exactly the works of one worker in one challenge |
| Database.StandingIsPreorder | src/repos/works.repo.js:72 | likeCount descending, then createdAt ascending, is a total preorder |
| Database.Standings | src/repos/works.repo.js:66-75 | a challenge's works sorted by the standings order, a permutation of them |
| Database.WithChallengeStatus | src/repos/challenges.repo.js:48-54 | only the status of the row with that id changes |
| Database.WithChallengeStatusKeys | src/repos/challenges.repo.js:48-54 | a status change keeps ids unique and below the counter |
| WorksRepo.HigherCountAppend | src/repos/works.repo.js:83-88 | the count of strictly better works is additive over concatenation |
| WorksRepo.HigherCountAll | src/repos/works.repo.js:83-88 | when every work has more likes, all of them count |
| WorksRepo.HigherCountNone | src/repos/works.repo.js:83-88 | when no work has more likes, none counts |
| WorksRepo.HigherCountRemoveAt | src/repos/works.repo.js:83-88 | removing one work lowers the count by one exactly when it had more likes |
| WorksRepo.HigherCountPermutation | src/repos/works.repo.js:83-88 | the count does not depend on the order of the works |
| WorksRepo.HigherCountAntitone | src/repos/works.repo.js:83-88 | a higher likeCount has no more works above it |
| WorksRepo.CountWorksByChallengeId | src/repos/works.repo.js:108-113 | zero exactly when no work references the challenge; never more than all works |
| WorksRepo.CountWorksByWorkerId | src/repos/works.repo.js:147-152 | zero exactly when the worker has no work at all |
| WorksRepo.FindSelectedWorksCountByWorkerId | src/repos/works.repo.js:154-162 | zero exactly when the worker has no selected work |
| WorksRepo.CountWorksByChallengeIdAppend | src/repos/works.repo.js:108-113 | the empty table counts 0, and an appended row adds 1 exactly when it belongs to the challenge, so the count is the number of the challenge's works |
| WorksRepo.CountWorksByWorkerIdAppend | src/repos/works.repo.js:147-152 | the empty table counts 0, and an appended row adds 1 exactly when the worker submitted it, so the count is the number of the worker's works |
| WorksRepo.FindSelectedWorksCountByWorkerIdAppend | src/repos/works.repo.js:154-162 | the empty table counts 0, and an appended row adds 1 exactly when it is the worker's and selected, so the count is the number of the worker's selected works |
| WorksRepo.SelectedCountAtMostParticipation | src/repos/works.repo.js:147-162 | a worker's selected works never outnumber the worker's works |
| WorksRepo.ListedWorks | src/repos/works.repo.js:19-55 | the works of the challenge, restricted to one worker when one is given |
| WorksRepo.MoreLikedIsPreorder | src/repos/works.repo.js:51 | likeCount descending is a total preorder |
| WorksRepo.OrderedListedWorks | src/repos/works.repo.js:40-53 | the matching works, most liked first: sorted, and a permutation of the matches |
| WorksRepo.FindWorksListByChallengeId | src/repos/works.repo.js:19-55 | totalCount counts every match; the list is exactly the rows at positions `skip` to `skip + take` of the matches ordered by likeCount descending (all of them when skip and take are absent), so it is sorted and has the exact page length |
| WorksRepo.PageRanks | src/repos/works.repo.js:91-103 | one rank per work of the page |
| WorksRepo.PageRanksPrefix | src/repos/works.repo.js:91-103 | the ranks of a prefix of the page are the prefix of its ranks |
| WorksRepo.PageRanksStep | src/repos/works.repo.js:93-102 | a tie keeps the previous rank; a drop gives the 1-based global position `skip + index + 1` |
| WorksRepo.FullRanking | src/repos/works.repo.js:91-103 | the ranking of the whole list, one rank per work |
| WorksRepo.HigherCountAtDrop | src/repos/works.repo.js:94-100 | in standings order, where likes drop at position k, exactly k works have more likes |
| WorksRepo.AboveDropHigher | src/repos/works.repo.js:94-100 | in standings order, every work before a drop has more likes than the work at the drop |
| WorksRepo.FromDropNotHigher | src/repos/works.repo.js:94-100 | in standings order, no work from position k on has more likes than the work at k |
| WorksRepo.PageRankIsCompetitionRank | src/repos/works.repo.js:83-103 | every rank on a standings page is 1 + the number of works with strictly more likes |
| WorksRepo.FullRankingIsCompetitionRank | src/repos/works.repo.js:91-103 | the full ranking is the standard competition ranking |
| WorksRepo.PageRanksAreSliceOfFullRanking | src/repos/works.repo.js:72-103 | a page's ranks equal the slice `[skip, skip + take)` of the full ranking |
| WorksRepo.StandingsExample | src/repos/works.repo.js:91-103 | likes `[5,5,3,3,3,1]` rank as `[1,1,3,3,3,6]`, and the page from position 3 ranks `[3,3,6]` |
| WorksRepo.RankPage | src/repos/works.repo.js:91-103 | the loop carrying `currentRank` gives every work of the page its `PageRanks` rank, in page order |
| WorksRepo.FindWorksListWithRankByChallengeId | src/repos/works.repo.js:57-106 | totalCount is all works of the challenge; at most `take` items, each the standings item at `skip + i`; rank 1 + strictly higher works, equal to the full ranking's slice; ranks non-decreasing; an empty page has no ranks |
| WorksRepo.StandingsPageRank | src/repos/works.repo.js:79-103 | the ranks computed from the first item's count are the competition ranks of the page |
| WorksRepo.StandingsPageMonotone | src/repos/works.repo.js:93-105 | later items on a standings page never have a smaller rank |
| WorksRepo.RankedStandingsPage | src/repos/works.repo.js:79-105 | a non-empty standings page ranked from 1 + the count above its first row: each row is the standings row at `skip + i`, has rank 1 + the works with more likes, equal to the full ranking there, and ranks never decrease |
| WorksRepo.CreateWork | src/repos/works.repo.js:7-17 | appends exactly one work with the next id, likeCount 0, not selected, not edited |
| WorksRepo.WithContent | src/repos/works.repo.js:138-141 | row by row, only the row with that id changes, and only its content and editedAt |
| WorksRepo.UpdateWork | src/repos/works.repo.js:138-141 | Internal for a missing id; otherwise that row's content and editedAt are replaced and nothing else changes |
| WorksRepo.DeleteWork | src/repos/works.repo.js:143-146 | Internal for a missing id; otherwise exactly that work is removed |
| Permission.IsAuthorized | src/utils/permission.js:3-12 | passes exactly for an admin or the owner; anyone else gets Forbidden; it has no state |
| WorksService.WorksOfAppend | src/services/works.services.js:52 | an appended work joins exactly its own challenge's works |
| WorksService.StatusChangeKeepsCapacity | src/services/works.services.js:56-62 | a status change keeps every challenge within capacity |
| WorksService.AdmissionKeepsCapacity | src/services/works.services.js:42-62 | an admitted work keeps `#works <= maxParticipants` for every challenge |
| WorksService.AdmissionKeepsRoom | src/services/works.services.js:42-62 | after an admission, every RECRUITING challenge still has room, because a full one became FILLED |
| WorksService.AdmissionKeepsOneWorkPerWorker | src/services/works.services.js:23-32 | admitting a worker without a work in the challenge keeps one work per worker and challenge |
| WorksService.AdmissionKeepsInvariants | src/services/works.services.js:23-61 | an admission keeps capacity, room for recruiting challenges and one work per worker, and the challenge then counts exactly one work more |
| WorksService.ListedWorksOfWorker | src/services/works.services.js:23-32 | the existing-work count of the listing query with a worker is the number of that worker's works in the challenge |
| WorksService.InsertAdmitted | src/services/works.services.js:51-61 | appends exactly the new work with the next id; the challenge becomes FILLED iff `count + 1 >= maxParticipants`; `countWorksByChallengeId` of the challenge is now `count + 1`; the three table invariants are kept; other tables unchanged |
| WorksService.CreateWork | src/services/works.services.js:8-70 | NotFound exactly for a missing challenge; success exactly when the worker has no work there, it recruits and has room; every failure is NotFound or Conflict and writes nothing; success appends one work, raises the challenge's `countWorksByChallengeId` by exactly one and flips the challenge to FILLED iff `count + 1 >= maxParticipants`; the three table invariants are preserved |
| WorksService.GetChallengeWorksList | src/services/works.services.js:72-93 | NotFound for a missing challenge; `skip = (page-1)*limit`, `take = limit`, defaults 1 and 10; totalCount is all works of the challenge; the list has the exact page length and is the standings slice at skip; each rank is 1 + the works with more likes and equals the full ranking at `skip + i`; ranks never decrease |
| WorksService.GetWork | src/services/works.services.js:99-105 | the work with that id, or NotFound exactly when none exists |
| WorksService.UpdateWork | src/services/works.services.js:107-122 | NotFound, then Forbidden unless owner or admin, both writing nothing; otherwise only that work's content and editedAt change |
| WorksService.DeleteWork | src/services/works.services.js:124-131 | NotFound, then Forbidden unless owner or admin; otherwise the table is exactly the old one without that work, in the same order |
| Scheduler.MaxLikes | src/schedulers/challenges.scheduler.js:17-22 | the highest likeCount in the challenge, None exactly when it has no works |
| Scheduler.MaxLikesIgnoresSelection | src/schedulers/challenges.scheduler.js:32-39 | marking works selected does not change any challenge's maximum |
| Scheduler.MaxLikesAtMost | src/schedulers/challenges.scheduler.js:17-22 | tables with equal challenge ids and likeCounts have maxima that bound each other |
| Scheduler.CloseAll | src/schedulers/challenges.scheduler.js:42-45 | exactly the challenges with the given ids become CLOSED, in place |
| Scheduler.SelectAll | src/schedulers/challenges.scheduler.js:32-39 | exactly the works with the given ids become selected, in place |
| Scheduler.SelectWinners | src/schedulers/challenges.scheduler.js:25-39 | exactly the works tied at their challenge's maximum become selected; isSelected is never cleared |
| Scheduler.SweepClosesExactlyExpired | src/schedulers/challenges.scheduler.js:7-45 | a challenge is closed by the sweep iff it was RECRUITING with `deadlineAt <= now`; others are untouched |
| Scheduler.SweepSelectsTiedWinners | src/schedulers/challenges.scheduler.js:17-39 | a work is selected iff it already was or it ties the maximum of an expired challenge; works of other challenges and works below the maximum are untouched |
| Scheduler.NothingExpiredAfterSweep | src/schedulers/challenges.scheduler.js:7-45 | after the sweep no challenge matches the sweep's filter |
| Scheduler.SweepIdempotent | src/schedulers/challenges.scheduler.js:7-45 | running the sweep again with the same `now` changes nothing |
| Scheduler.WinnerIdsMatchRows | src/schedulers/challenges.scheduler.js:25-30 | the ids of the fetched winners select exactly the tied rows |
| Scheduler.SelectWorks | src/schedulers/challenges.scheduler.js:32-39 | the loop over winners sets isSelected on exactly the winners' ids |
| Scheduler.WorksWithLikes | src/schedulers/challenges.scheduler.js:25-30 | exactly the challenge's works with that likeCount |
| Scheduler.SelectingWinnerRows | src/schedulers/challenges.scheduler.js:17-39 | selecting the fetched winners' ids is the winner selection of that challenge |
| Scheduler.NoWorksNoWinners | src/schedulers/challenges.scheduler.js:22 | a challenge without works changes no work |
| Scheduler.SelectTopWorks | src/schedulers/challenges.scheduler.js:17-39 | the work table becomes the winner selection for that challenge |
| Scheduler.CloseChallenge | src/schedulers/challenges.scheduler.js:15-46 | one iteration: that challenge's winners are selected and the challenge is CLOSED |
| Scheduler.SweepStep | src/schedulers/challenges.scheduler.js:14-47 | one more iteration extends the closed and selected sets by that challenge |
| Scheduler.CloseExpiredChallenges | src/schedulers/challenges.scheduler.js:4-48 | the sweep's tables are exactly the closed expired challenges and the selected tied winners; Likes, Comments, Applications unchanged |
| LikesRepo.FindLike | src/repos/likes.repo.js:3-13 | a row iff that exact (workId, userId) pair exists |
| LikesRepo.CreateLike | src/repos/likes.repo.js:15-23 | a duplicate pair is an Internal error; otherwise exactly that pair is added |
| LikesRepo.DeleteLike | src/repos/likes.repo.js:25-35 | an absent pair is an Internal error; otherwise exactly that pair is removed |
| LikesService.CreateLike | src/services/likes.services.js:6-18 | NotFound iff the work is missing; Conflict iff it is already liked; otherwise the pair is added; no Work row changes |
| LikesService.DeleteLike | src/services/likes.services.js:20-27 | NotFound iff the pair is not liked; otherwise the pair is removed; no Work row changes |
| LikesService.LikeThenUnlike | src/services/likes.services.js:6-27 | a like that succeeds, followed by an unlike, restores the like relation |
| ChallengesRepo.WithWorkCount | src/repos/challenges.repo.js:28-31 | the `_count` reshape: the row with the number of works referencing it |
| ChallengesRepo.FindChallengeById | src/repos/challenges.repo.js:56-80 | null iff the id is absent; otherwise the row and its workCount |
| ChallengesRepo.Lower | src/services/challenges.services.js:25-31 | case folding keeps the length, leaves no upper-case ASCII letter, lowers each upper-case letter and keeps every other character |
| ChallengesRepo.LowerIdempotent | src/services/challenges.services.js:25-31 | folding a folded string changes nothing |
| ChallengesRepo.LowerForgetsCase | src/services/challenges.services.js:25-31 | a string and its upper-cased form fold to the same string |
| ChallengesRepo.ContainsInsensitiveIgnoresCase | src/services/challenges.services.js:25-31 | the `contains`/`mode: 'insensitive'` match gives the same answer for a keyword or text and its upper-cased form |
| ChallengesRepo.DescendingIsPreorder | src/repos/challenges.repo.js:3-34 | ordering by one column descending is a total preorder |
| ChallengesRepo.MatchingChallenges | src/repos/challenges.repo.js:3-34 | exactly the challenges that satisfy the `where` object |
| ChallengesRepo.OrderedMatches | src/repos/challenges.repo.js:5-27 | every matching challenge in descending key order: sorted, and a permutation of the matches |
| ChallengesRepo.FindChallengeList | src/repos/challenges.repo.js:3-34 | totalCount counts all matches; the list is exactly the rows at positions `skip` to `skip + take` of the matches in descending key order, each with its workCount; an offset past the end gives an empty list |
| ChallengesRepo.AdjacentPages | src/repos/challenges.repo.js:5-27 | the page at `skip + a` continues the page of size `a` at `skip`: together they are the page of size `a + b` |
| ChallengesRepo.WithWorkCounts | src/repos/challenges.repo.js:28-31 | every listed row carries its workCount |
| ChallengesRepo.CreateChallenge | src/repos/challenges.repo.js:35-38 | appends exactly one challenge with the next id and the given data |
| ChallengesRepo.Patched | src/repos/challenges.repo.js:40-46 | the id never changes; every other column takes the patch's value when the patch names it and keeps its old value otherwise, so a patch naming none of applicationId, creatorId and createdAt keeps all three |
| ChallengesRepo.PatchIdempotent | src/repos/challenges.repo.js:40-46 | repeating the same update changes nothing more |
| ChallengesRepo.WithPatch | src/repos/challenges.repo.js:40-46 | only the row with that id is patched |
| ChallengesRepo.UpdateChallenge | src/repos/challenges.repo.js:40-46 | Internal for a missing id; otherwise only that row is patched, with any of the columns the body names, applicationId, creatorId, createdAt and status included |
| ChallengesRepo.UpdateChallengeStatus | src/repos/challenges.repo.js:48-54 | Internal for a missing id; otherwise only that row's status changes |
| ChallengesRepo.DeleteChallenge | src/repos/challenges.repo.js:81-86 | Internal for a missing id; otherwise exactly that challenge is removed |
| ApplicationsRepo.WithApplicationStatus | src/repos/applications.repo.js:48-54 | only the status and, when given, the feedback of that application change |
| ApplicationsRepo.UpdateApplication | src/repos/applications.repo.js:48-54 | Internal for a missing id; otherwise only that application is updated |
| ChallengesService.Given | src/services/challenges.services.js:21-32 | an absent or empty string adds no filter |
| ChallengesService.OrderKeyOf | src/services/challenges.services.js:19 | without `orderby`, the list is ordered by createdAt; a named column yields the key of exactly that column, and no key iff no modelled column has that name |
| ChallengesService.OrderKeyOfColumn | src/services/challenges.services.js:19 | naming a key's column orders by that key |
| ChallengesService.ListChallenges | src/services/challenges.services.js:7-95 | `skip = (page-1)*pageSize`, defaults 1 and 10; success iff skip and take are non-negative and the column exists; totalCount counts all matches; the list is exactly the matches at positions `skip + i` in descending key order, each with its workCount |
| ChallengesService.GetChallengesList | src/services/challenges.services.js:7-47 | totalCount counts exactly the challenges satisfying the status, category, type and keyword filters; the list is the page at `(page-1)*pageSize` of them, newest first unless `orderby` names a column, with exact length and each workCount |
| ChallengesService.GetChallengesListForUser | src/services/challenges.services.js:48-95 | the same page rule over the challenges in which the user has at least one work; every listed challenge has such a work |
| ChallengesService.RowOffsetIsProduct | src/services/challenges.services.js:18 | the offset of page `page` at size `pageSize` is `(page - 1) * pageSize` for every integer page, so page 0 and negative pages give a zero or negative skip |
| ChallengesService.NextPageFollows | src/services/challenges.services.js:18-39 | page `p + 1` succeeds and is the repository page at offset `skip + pageSize` with the same size, filter and order; with ChallengesRepo.AdjacentPages, pages `p` and `p + 1` join into the page of twice the size |
| ChallengesService.ListIsRepoPage | src/services/challenges.services.js:18-39 | with a non-negative skip and pageSize and a known column, the listing succeeds and its list is the repository page at that offset |
| ChallengesService.FilterStrongerShorter | src/services/challenges.services.js:63-69 | a stronger filter never matches more rows |
| ChallengesService.ForUserCountsFewer | src/services/challenges.services.js:48-95 | the user's list never counts more challenges than the general list with the same query |
| ChallengesService.GetChallengeById | src/services/challenges.services.js:97-104 | NotFound iff the challenge is absent; otherwise the row and its workCount |
| ChallengesService.FindChallengeByApplicationId | src/services/challenges.services.js:125 | the challenge made from that application, None iff there is none |
| ChallengesService.CreateChallenge | src/services/challenges.services.js:106-154 | NotFound iff the application is missing; Conflict, with the APPROVED write rolled back, iff a challenge for it exists; otherwise the application is APPROVED and a new RECRUITING challenge copies its fields; at most one challenge per application is preserved |
| ChallengesService.CreateChallengeAsWritten | src/services/challenges.services.js:106-154 | as written the call always fails: NotFound for a missing application, otherwise Internal, with every table rolled back |
| ChallengesService.DeleteChallenge | src/services/challenges.services.js:160-197 | NotFound for a missing challenge or application; Conflict unless it is APPROVED; otherwise the table is exactly the old one without that challenge, and the application becomes DELETED with the feedback |
| CommentsRepo.NewerFirstIsPreorder | src/repos/comments.repo.js:29 | createdAt descending is a total preorder |
| CommentsRepo.CommentsOfWork | src/repos/comments.repo.js:19-31 | exactly the work's comments, newest first |
| CommentsRepo.IndexOfId | src/repos/comments.repo.js:32-35 | the first position of the cursor id, None iff it is absent |
| CommentsRepo.CursorOf | src/repos/comments.repo.js:32 | `if (cursorId)`: an absent cursor or a cursor 0 means no cursor |
| CommentsRepo.StartOf | src/repos/comments.repo.js:32-35 | the page starts right after the cursor comment, at the top without a cursor, nowhere for an unknown cursor |
| CommentsRepo.PageFrom | src/repos/comments.repo.js:29-36 | from a start row, exactly `min(take, rows left)` consecutive rows of the listing, keeping the order; nothing without a start row |
| CommentsRepo.GetCommentsListByWorkId | src/repos/comments.repo.js:14-45 | Internal iff the limit is not positive; only the work's comments, newest first, at most `limit` (default 10), starting after the cursor; nextCursor is the last id iff exactly `limit` came back |
| CommentsRepo.CommentsOfWorkKeysUnique | src/repos/comments.repo.js:19-31 | the sorted comments of a work still have unique ids |
| CommentsRepo.PageAfterCursorExcludesIt | src/repos/comments.repo.js:32-35 | a page after a cursor does not contain the cursor comment |
| CommentsRepo.CursorExcluded | src/repos/comments.repo.js:14-45 | the listed page after a cursor excludes the cursor comment |
| CommentsRepo.CreateComment | src/repos/comments.repo.js:3-12 | appends one comment with the next id, that workId, authorId = userId and that content |
| CommentsRepo.WithCommentContent | src/repos/comments.repo.js:52-55 | only the content of the row with that id changes |
| CommentsRepo.UpdateComment | src/repos/comments.repo.js:52-55 | Internal for a missing id; otherwise only that comment's content changes |
| CommentsRepo.DeleteComment | src/repos/comments.repo.js:57-60 | Internal for a missing id; otherwise the table is exactly the old one without that comment, in the same order |
| CommentsService.CreateComment | src/services/comments.services.js:6-21 | NotFound iff the work is missing, writing nothing; otherwise one new comment by the user |
| CommentsService.GetWorkCommentsList | src/services/comments.services.js:23-26 | NotFound for a missing work; otherwise the repository's page, all of that work's comments |
| CommentsService.GetWorkCommentsListAsWritten | src/repository/comments.repo.js:13-42 | as wired: NotFound for a missing work; otherwise the listing query is refused (Internal) |
| CommentsService.CommentListingAsWrittenFails | src/services/comments.services.js:23-26 | for an existing work and a positive limit, the listing as wired fails where the intended listing returns a page |
| CommentsService.AuthorCheck | src/services/comments.services.js:28-42 | NotFound for a missing comment, Unauthorized for anyone but its author, with no admin bypass |
| CommentsService.OnlyTheAuthorPasses | src/services/comments.services.js:36-53 | passing the check means being the comment's author |
| CommentsService.UpdateComment | src/services/comments.services.js:36-45 | NotFound or Unauthorized write nothing; otherwise only that comment's content changes |
| CommentsService.DeleteComment | src/services/comments.services.js:47-55 | NotFound or Unauthorized write nothing; otherwise the table is exactly the old one without that comment, in the same order |
| JsArgs.Property | src/repos/challenges.repo.js:56 | destructuring reads a field of an object and gives `undefined` for a number |
| JsArgs.ToNumber | src/repos/works.repo.js:115-118 | `Number(x)` is a number only for a number; an object is NaN |
| JsArgs.FindChallengeByKey | src/repos/challenges.repo.js:56-80 | a NaN key finds no row; a number key is the by-id lookup |
| JsArgs.FindWorkByKey | src/repos/works.repo.js:115-136 | a NaN key finds no row; a number key is the by-id lookup |
| JsArgs.CreateWorkLookupMisses | src/services/works.services.js:12-15 | as written, the lookup of an existing challenge finds nothing |
| JsArgs.WrappedChallengeIdIsFound | src/repos/challenges.repo.js:56 | the `{ challengeId }` shape the repository expects is the by-id lookup |
| JsArgs.CreateLikeLookupMisses | src/services/likes.services.js:7 | as written, the lookup of an existing work finds nothing |
| JsArgs.BareWorkIdIsFound | src/repos/works.repo.js:115-118 | a bare number is the by-id lookup the repository expects |

## Left out

- HTTP routing, the Express middlewares, CORS, server start-up and the Prisma client set-up are not modelled. They are transport and configuration.
- The routes pass raw query strings (for example `take: "5"`) because validation does not replace `req.query`. The model takes numbers. String-to-number coercion and the errors it causes are not modelled.
- Sign-up, login, password hashing and token signing are not modelled. They are foreign library calls. The user id and role are parameters.
- The zod request schemas are not modelled. The model accepts any integers and strings and returns the errors the code itself raises.
- The cron wiring of the sweep (every 12 hours, with one try/catch around it) is not modelled. `Scheduler.CloseExpiredChallenges` models one run of the sweep, with `now` as a parameter.
- Concurrency is not modelled. That covers the Serializable isolation level, racing submitters and overlapping sweeps. Each transaction is one atomic step.
- ChallengesService.DeleteChallenge: the source deletes the challenge without the transaction handle, so the delete is not rolled back when the later application update fails. The model performs both writes in sequence and does not model that partial failure.
- The schema's referential actions (what happens to works, likes and comments when their parent row is deleted) are not modelled. The schema is not part of this model.
- The default values of new rows (likeCount 0, isSelected false, status RECRUITING) come from the schema, which is not part of this model. They are taken as the natural defaults.
- The `include`d relations (worker, creator and author nicknames and roles) are not modelled. Rows carry only the ids.
- CommentsRepo.GetCommentsListByWorkId: with a cursor, Prisma starts right after the cursor row in the sorted list. The model finds the first row with that id in the work's comments. It treats an unknown cursor, or a cursor from another work, as an empty page. Ties in createdAt are kept in insertion order.
- CommentsRepo.GetCommentsListByWorkId: a negative limit is modelled as Internal. Prisma accepts a negative `take` and pages backwards from the end or the cursor. The source then returns those rows with a null nextCursor, because `length === limit` never holds. That backward page is not modelled. The same holds for CommentsService.GetWorkCommentsList.
- ChallengesService.ListChallenges: a negative pageSize (so a negative `take`) is modelled as Internal. Prisma would return a backward page of the matches instead, which is not modelled. A negative offset, from page 0 or below, is rejected by Prisma, as modelled. The same holds for GetChallengesList and GetChallengesListForUser.
- WorksService.GetChallengeWorksList: a negative skip or take is treated as the database rejecting it (Internal). Prisma's own handling of negative `take`, which pages backwards, is not modelled.
- ChallengesService.OrderKeyOf: only the numeric columns are modelled as sort keys. `orderby` naming a text or unknown column yields Internal in the model. Ordering by a text column, which Prisma accepts, is not modelled.
- ChallengesRepo.UpdateChallenge: the route forwards the request body unfiltered (the validation middleware discards the parsed result), so a body may name any column. The patch models every column except the id. A body naming `id` would rename the primary key, and one naming a key that is not a column would be refused by Prisma; neither is modelled.
- ChallengesRepo.Lower: case folding covers ASCII letters only. Prisma's `mode: 'insensitive'` depends on the database collation.
- Ties under a `findMany` order are kept in insertion order, so the model fixes one of the orders the database may return.
- JsArgs.ToNumber: it models `Number` only on numbers and objects. A NaN key may surface as a Prisma validation error rather than as null. Either way the caller gets no row.
- The duplicate and stale copies under `src/repository/`, `src/services/like.services.js` and `src/services/challenge.service.js` are not modelled as separate members. The comment service imports the `src/repository/` comment and work repositories. Their comment create, by-id lookup, update and delete issue the same `where` and `data` as `src/repos/comments.repo.js`, without a transaction handle. The work repository copy accepts an optional transaction handle, which the comment service never passes. Its `findWorkById` looks the work up by the same id but includes only `worker`, where `src/repos/works.repo.js:115-135` also includes `challenge` and `comments`; includes are not modelled. Their comment listing differs (see Findings).
- CommentsService.GetWorkCommentsList: the intended listing follows `src/repos/comments.repo.js:14-45`. The copy the service imports, `src/repository/comments.repo.js:13-42`, puts `nickname` and `role` directly under `include.author` without a `select`; CommentsService.GetWorkCommentsListAsWritten models the listing as wired, on the assumption that Prisma's argument validation refuses that query (see Findings).
- Application create, list and delete are not modelled. They copy fields without transition rules. Only the status update used by the challenge service is modelled.
- Notifications are not modelled. They are delivery glue.
- There is no rule in the code for promoting a user between NORMAL and PRO roles. Only the two counting queries are modelled.
- The code never updates `Work.likeCount` when a like is added or removed. No counter is modelled.
- `getChallengeWorksCount` and `updatechallenge` are one-line pass-throughs to `WorksRepo.CountWorksByChallengeId` and `ChallengesRepo.UpdateChallenge`. They have no separate members.
- Seed fixture data is not modelled.

## Findings

| source | as written | input that shows it | evidently intended | confidence | as-written member | corrected member |
|---|---|---|---|---|---|---|
| src/services/works.services.js:12-15 | `findChallengeById(workData.challengeId, tx)` passes a bare number to a function that destructures `{ challengeId }`, so the key is `undefined` and `Number(undefined)` is NaN | any existing challenge id, e.g. challenge 1 exists and a worker submits to challenge 1 | look the challenge up by its id, so an existing challenge admits works | not executed | JsArgs.CreateWorkLookupMisses | WorksService.CreateWork |
| src/services/likes.services.js:7 | `findWorkById({ workId })` passes an object to a function that applies `Number(workId)`, which is NaN | any existing work id, e.g. work 1 exists and a user likes work 1 | look the work up by its id, so an existing work can be liked | not executed | JsArgs.CreateLikeLookupMisses | LikesService.CreateLike |
| src/services/comments.services.js:23-26 | the service imports `src/repository/comments.repo.js`, whose listing query puts `nickname: true, role: true` directly under `include.author` instead of under `select`, which Prisma's argument validation refuses | any existing work, e.g. work 1 exists and its comments are listed with the default limit | list the work's comments with the authors' nickname and role, as `src/repos/comments.repo.js:14-45` does | not executed | CommentsService.CommentListingAsWrittenFails | CommentsService.GetWorkCommentsList |
| src/services/challenges.services.js:125 | `challengesRepo.findChallengeByApplicationId` is not defined by the challenge repository, so the call throws a TypeError after the application was set to APPROVED, and the transaction rolls back | any existing application id | check whether a challenge already exists for the application, then create it | not executed | ChallengesService.CreateChallengeAsWritten | ChallengesService.CreateChallenge |

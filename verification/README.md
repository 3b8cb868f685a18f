# Forumgo, modelled and verified in Dafny

Forumgo is a small forum service that keeps everything in memory and saves it as JSON files.
This project models its stateful core and proves what it keeps, over every run:

- **`RateLimit`**: the sliding-window limiter. Each request is one atomic step, since the clock is
  read under the mutex. Proved for every nondecreasing clock: pruning never changes an answer, every
  window wherever it ends holds at most `limit` admissions, and greedy admission is a largest choice
  that keeps that bound (a stays-ahead exchange argument), with the exact condition for that.
- **`Auth`**: the token table with its background cleanup, as a step that may happen anywhere.
- **`Paths`, `Slugs`**: the two byte loops, each proved against a reference function with algebraic laws.
- **`Entities`**: the records, as values and as heap objects.
- **`IndexedTable`**: the state the thread and the comment store share, a primary map and a secondary
  index, with the theorem that the index is a scan in creation order.
- **`ThreadStore`, `CommentStore`, `BoardStore`, `VoteStore`**: the stores as classes over heap objects.
  Every method is proved equal to its table operation; the records a store holds are distinct objects
  that no caller can reach.
- **`Ownership`, `CommentOwnership`**: a caller that keeps and overwrites every record it ever passed or received is
  proved indistinguishable from one that exchanges plain values.
- **`Interleaving`**: the read-modify-write protocol of the services as a transition system. Every
  store call is one step; a request in progress holds the record it read.
- **`LostUpdates`**: what stale writes of whole records undo, exactly: when a lock or a soft deletion is
  kept, over all interleavings, and runs in which a reply, a lock, a deletion or the index is lost.
- **`Services`**: the service methods over the stores; an uninterrupted call is proved to be exactly
  its sequence of protocol steps.
- **`Persistence`**: the save loop, flush, close, crash and reload protocol that all stores share, over
  an abstract memory and file, with what a file loads to and which files a flush may write.
- **`Files`**: that protocol with the four stores' own loading and flushing. Loading drops and merges
  entries, and the order of records the comparator does not decide is that of the map: any.
- **`BoardFiles`**: the slug index across a flush and a load.
- **`Common`, `Sorting`, `Text`**: results, sequences, sorting and ASCII text.

`dafny verify dfyconfig.toml` checks the whole project.

## Where the code and its words differ

The model follows the code.

- `MemoryBoardStore.Update` does not check that a new slug is free, although the field is documented as
  unique (internal/model/entity.go:13), and it leaves the old index entry when the new slug is empty.
  `BoardStore.UpdateKeepsSlugsIff` gives the exact condition under which the index survives, and
  `BoardStore.SlugTakeover` a run after which a board is unreachable by its own slug.
- `CommentFilter.ParentID` is documented as "true = only top-level" (internal/model/entity.go:210), but
  the store skips parentless comments when it is true. The model follows the store, and
  `CommentStore.ParentFilterIff` says that the two never agree on a listing that holds anything.
- `ThreadService.Create` resets the view and reply counts but not the time of the last reply.
  `Interleaving.PostKeepsDatedIff` shows that this matters exactly when a caller sets it.
- `dirty` is cleared before the file is written, so a failed flush is forgotten
  (`Persistence.FailedFlushForgotten`).
- A store that changes nothing may still replace its file, since closing always writes: with the empty
  store where the file could not be read, which is only logged, and without what loading drops and
  merges where it could. `Persistence.FileKeptIff` says exactly when a file is left alone, and
  `Files.FileLeftAloneIff` with its four instances what that means for each store: thread, comment and
  vote files are rewritten in another order wherever the order of the map shows.
- Whole records are written back, so overlapping requests lose replies, views, locks and soft
  deletions, and the writes that lose them are exactly described: `LostUpdates.RepliesCountedIff`,
  `LostUpdates.ViewsExactIff`, `LostUpdates.LockKeptIff` and `LostUpdates.DeletionKeptIff`, each with a
  run that shows the loss. A comment undoes a lock just as an edit does, and is stored on the locked
  thread (`LostUpdates.CommentUnlocks`). Without overlap only an explicit request ends a lock, and no
  comment is stored on a locked thread (`LostUpdates.LockHonoured`, `LostUpdates.LockedTakesNoComment`).
- `ThreadService.Create` keeps an identifier chosen by its caller (internal/service/service.go:139).
  Posting a removed thread again on another board while an edit is in flight breaks the board index
  (`LostUpdates.RepostBreaksIndex`); `Interleaving.ThreadIndexExactIff` gives the exact condition.
- Loading a file that repeats an identifier builds a wrong index (`IndexedTable.LoadExactIff`).
- Revoke, unlike Validate, can see a cleanup; `Auth.RevokeAlikeIff` says exactly when.
- Vote counting is right only where no target identifier followed by a colon begins another one; the
  generated hexadecimal identifiers satisfy this (`VoteStore.KeysDisjointIff`, `VoteStore.NeverMixedIff`,
  `VoteStore.NestedTargetMiscounted`).

## Model

Rows whose statement begins with "glue:" unfold a definition or tie two of them together; the results
are in the others.

| member | source | states |
|---|---|---|
| RateLimit.AlwaysOptimalIff | internal/middleware/ratelimit.go:31-49 | greedy admission is optimal in every run, for every client and every prefix, if and only if the limit is not zero or the window is not empty |
| RateLimit.GreedyOptimal | internal/middleware/ratelimit.go:31-49 | no set of a client's requests that keeps at most `limit` in every window is larger, on any prefix of the run, than the set the limiter admits |
| RateLimit.GreedyFeasible | internal/middleware/ratelimit.go:31-49 | the set the limiter admits is itself such a set: at most `limit` in every window, wherever the window ends |
| RateLimit.StaysAhead | internal/middleware/ratelimit.go:40-49 | the exchange argument: any selection that turns a request away only when its window is full stays ahead of every feasible selection |
| RateLimit.GreedyRejectsOnlyWhenFull | internal/middleware/ratelimit.go:40-46 | a request is rejected only when `limit` admitted requests lie in its window |
| RateLimit.WindowSafety | internal/middleware/ratelimit.go:31-49 | for every time x, at most `limit` admissions of a client fall in the half-open window ending at x, over whole runs |
| RateLimit.PruningUnobservable | internal/middleware/ratelimit.go:33-40 | each request is answered as a limiter that never forgets an admission would answer it, in both directions |
| RateLimit.PrunedLogAgrees | internal/middleware/ratelimit.go:33-49 | from any later cutoff on, the stored list and the full admission history agree |
| RateLimit.StoredIsRecentHistory | internal/middleware/ratelimit.go:33-49 | right after a request of a client its stored list is exactly its admission history restricted to that request's window |
| RateLimit.StoredWithoutWindow | internal/middleware/ratelimit.go:32-49 | with a window that is not positive the list is the request alone, or empty when the limit is not positive |
| RateLimit.StoredBounded | internal/middleware/ratelimit.go:40-49 | no stored list ever exceeds the limit, whatever the clock does |
| RateLimit.OtherClientsUntouched | internal/middleware/ratelimit.go:35-49 | a request leaves every other client's list as it was |
| RateLimit.NotOptimalWithoutWindow | internal/middleware/ratelimit.go:32-46 | for every configuration outside the condition, a run and a feasible choice that beats the limiter |
| RateLimit.RateLimiter.Admit | internal/middleware/ratelimit.go:30-49 | the locked section computes the specified new log and passes the request on exactly when fewer than `limit` stored times lie in its window |
| RateLimit.RateLimiter.constructor | internal/middleware/ratelimit.go:18-24 | starts with no client and the given configuration |
| Auth.CleanupUnobservable | internal/auth/auth.go:49-84 | removing every cleanup from a run, wherever they happened, leaves every Validate answer as it was |
| Auth.ValidateExact | internal/auth/auth.go:31-84 | Validate succeeds exactly for a token registered, not revoked since and not past its expiry, and returns the user it was last issued to |
| Auth.TokenLives | internal/auth/auth.go:40-60 | a token validates up to the last nanosecond of the 24 hours after its issue and not after, whatever else happens but a revocation or a new issue of it |
| Auth.HeldAsIssued | internal/auth/auth.go:31-84 | a held token is held as last issued, and one that is gone could no longer be validated |
| Auth.DomainsAgree | internal/auth/auth.go:43-82 | the two maps always hold the same tokens |
| Auth.RevokeAlikeIff | internal/auth/auth.go:63-84 | Revoke answers alike with and without the cleanups of a run if and only if the token is not both issued and, since then, cleaned away past its expiry |
| Auth.HeldExactly | internal/auth/auth.go:31-84 | a token is held exactly while it is issued and no cleanup since read a clock past its expiry |
| Auth.RevokeAfterCleanup | internal/auth/auth.go:63-84 | where the answers differ, Revoke misses a token whose expiry has passed |
| Auth.RevokeSeesCleanup | internal/auth/auth.go:63-84 | the smallest run in which they differ |
| Auth.Authenticator.constructor | internal/auth/auth.go:22-28 | starts without tokens |
| Auth.Authenticator.Register | internal/auth/auth.go:31-47 | rejects an empty user and passes on a failure of the random source, changing nothing; otherwise files the token in both maps with an expiry 24 hours after the clock reading |
| Auth.Authenticator.Validate | internal/auth/auth.go:50-60 | answers as specified on the two maps, changing nothing |
| Auth.Authenticator.Revoke | internal/auth/auth.go:63-72 | drops a known token from both maps, reports an unknown one |
| Auth.Authenticator.CleanExpired | internal/auth/auth.go:74-84 | the deleting loop, in any visiting order, removes exactly the expired tokens from both maps |
| Paths.SplitConcat | internal/httpapi/respond.go:69-87 | a slash between two paths concatenates their parts |
| Paths.RepeatedSlashes | internal/httpapi/respond.go:77-81 | a doubled slash splits like a single one |
| Paths.SplitPartsWellFormed | internal/httpapi/respond.go:77-84 | parts are non-empty and slash-free |
| Paths.SplitJoin | internal/httpapi/respond.go:69-87 | splitting the slash-join of any such parts returns them |
| Paths.JoinSplit | internal/httpapi/respond.go:69-87 | joining the parts of a path gives a path with the same parts |
| Paths.SegmentRecoversId | internal/httpapi/respond.go:61-67 | the identifier embedded in a route is recovered at its position, whatever follows it |
| Paths.SplitPath | internal/httpapi/respond.go:69-87 | the byte loop with its virtual last slash returns the maximal slash-free runs of the path |
| Paths.PathSegment | internal/httpapi/respond.go:61-67 | the part at a 1-based index, the empty string outside the parts |
| Slugs.SlugIsSlug | internal/service/service.go:409-426 | every result is over lower-case letters, digits and dashes, without a double or a trailing dash |
| Slugs.SlugFixedPoint | internal/service/service.go:409-426 | the fixed points are exactly the strings of that form |
| Slugs.SlugIdempotent | internal/service/service.go:409-426 | slugify of a slug is that slug |
| Slugs.SlugKeepsWords | internal/service/service.go:410-421 | a slug without its dashes is the letters and digits of the name, in order, capitals in their small form |
| Slugs.SlugJoins | internal/service/service.go:412-421 | between two letters or digits, the bytes that are neither become one dash if a space, dash or underscore is among them, and nothing otherwise |
| Text.ToLower | internal/service/service.go:410 | capitals become small letters and every other byte stays |
| Text.TrimSpaceIs | internal/model/entity.go:68-71 | trimming cuts off the six blank bytes at both ends, and nothing else |
| Text.ContainsIff | internal/model/entity.go:171-173 | the text occurs at some offset |
| Text.BeforeIff | internal/store/memory_board.go:142 | string order: the first difference decides, and a prefix comes first |
| Slugs.Slugify | internal/service/service.go:409-426 | the single pass with its look-behind equals filtering, collapsing dash runs and trimming one dash, done separately |
| Entities.Board.Clone | internal/model/entity.go:23-29 | a new object with the same value |
| Entities.Thread.Clone | internal/model/entity.go:55-65 | a new object with the same value |
| Entities.Thread.Normalize | internal/model/entity.go:68-71 | trims title and body and changes nothing else |
| Entities.BoardFilterIff | internal/model/entity.go:166-174 | a board is kept if and only if the query is empty or occurs, in small letters, in its name, slug or description |
| Entities.ThreadFilterIff | internal/model/entity.go:186-205 | a thread is kept if and only if it passes the board, author, pin, lock and query of the filter, each where given |
| Entities.CommentFilterIff | internal/store/memory_comment.go:118-130 | a comment is kept if and only if it passes the author and parent of the filter, each where given |
| Entities.Thread.IncrementReply | internal/model/entity.go:74-77 | counts a reply and dates it, together, and changes nothing else |
| Entities.Comment.Clone | internal/model/entity.go:94-104 | a new object with the same value |
| Entities.Comment.Normalize | internal/model/entity.go:107-109 | trims the body and changes nothing else |
| Entities.Vote.Clone | internal/model/entity.go:127-133 | a new object with the same value |
| IndexedTable.IndexIsScan | internal/store/memory_thread.go:53-110 | over every run whose updates keep each record in its group, each index entry equals a scan of the living records in creation order |
| IndexedTable.IndexExact | internal/store/memory_thread.go:53-110 | in every such state each index entry lists exactly the records of its group, once each |
| IndexedTable.ItemsAreLastWrites | internal/store/memory_thread.go:53-110 | after any run the table holds under each identifier the record last written there, and none under the empty one |
| IndexedTable.CreateAnswers | internal/store/memory_thread.go:53-66 | which error each failing creation answers, and what a successful one files, appends and leaves alone |
| IndexedTable.UpdateAnswers | internal/store/memory_thread.go:78-90 | which error each failing update answers, and what a successful one replaces and leaves alone |
| IndexedTable.DeleteAnswers | internal/store/memory_thread.go:92-110 | when a deletion fails, and what a successful one removes and leaves alone |
| IndexedTable.LookupAnswers | internal/store/memory_thread.go:68-76 | the stored record, or not found |
| IndexedTable.UpdateKeepsExactIff | internal/store/memory_thread.go:78-90 | an update keeps an exact index exact if and only if the record stays in its group |
| IndexedTable.CreateKeepsExact | internal/store/memory_thread.go:53-66 | a creation, successful or not, keeps the index exact |
| IndexedTable.DeleteKeepsExact | internal/store/memory_thread.go:92-110 | a deletion with its splice keeps the index exact |
| IndexedTable.SelectIsScan | internal/store/memory_thread.go:121-129 | selecting through any duplicate-free list that covers the matches gives the multiset a full scan gives |
| IndexedTable.LoadExactIff | internal/store/memory_thread.go:243-255 | the index built from any file is exact if and only if no identifier is repeated in it; null entries and records without identifier are skipped |
| IndexedTable.LoadKeepsLast | internal/store/memory_thread.go:243-255 | from any file, each identifier ends with the record last listed under it |
| IndexedTable.SaveLoadRoundTrip | internal/store/memory_thread.go:191-256 | loading what a flush wrote, in any order, restores the records and an exact index |
| IndexedTable.ExactIndexesAgree | internal/store/memory_thread.go:243-255 | two exact indexes over the same records hold the same identifiers, so a reload changes at most their order |
| ThreadStore.ListingShape | internal/store/memory_thread.go:132-145 | a listing is sorted exactly when all pinned threads come first and, within each block, the time of the last reply, or of creation where there is none, never increases |
| ThreadStore.ReplyLifts | internal/store/memory_thread.go:136-144 | a later reply lifts its thread above every other one of its block |
| ThreadStore.SavedShape | internal/store/memory_thread.go:201-206 | a file is sorted exactly when all pinned threads come first and creation times never decrease within each block |
| ThreadStore.ViewAnswers | internal/store/memory_thread.go:149-159 | not found, or one view more on that thread and nothing else changed |
| ThreadStore.OrdersAreWeak | internal/store/memory_thread.go:132-145 | glue: the comparators of List and flush are strict weak orders |
| ThreadStore.ListingFromIds | internal/store/memory_thread.go:112-146 | through the index or the whole map, the sorted listing holds the records a full scan would find |
| ThreadStore.ListedIdsExist | internal/store/memory_thread.go:114-124 | glue: an exact index never names a missing thread |
| ThreadStore.ViewIsUpdate | internal/store/memory_thread.go:149-159 | glue: counting a view in place is a table update that keeps the board, so the run theorems cover it |
| ThreadStore.Reopen | internal/store/memory_thread.go:191-256 | a store flushed and loaded into a new one has the same threads and an exact board index |
| ThreadStore.MemoryThreadStore.constructor | internal/store/memory_thread.go:30-51 | a store of the threads that its file holds, indexed as they are loaded, or an empty one if there is no file to read; nothing to save |
| ThreadStore.MemoryThreadStore.Create | internal/store/memory_thread.go:53-66 | state and answer of the table's creation, null included; only new objects enter the store |
| ThreadStore.MemoryThreadStore.GetByID | internal/store/memory_thread.go:68-76 | a fresh copy of the record, or not found |
| ThreadStore.MemoryThreadStore.Update | internal/store/memory_thread.go:78-90 | state and answer of the table's update, null included; the old object is replaced by a new one |
| ThreadStore.MemoryThreadStore.Delete | internal/store/memory_thread.go:92-110 | state and answer of the table's deletion |
| ThreadStore.MemoryThreadStore.Unindex | internal/store/memory_thread.go:100-106 | the loop and splice remove the first occurrence of the identifier from the board's entry, or nothing |
| ThreadStore.MemoryThreadStore.IncrementViewCount | internal/store/memory_thread.go:149-159 | in place, changes one field of one record and no object of the map |
| ThreadStore.MemoryThreadStore.List | internal/store/memory_thread.go:112-147 | distinct fresh copies, sorted, of the records behind the index entry that match; with an exact index, of all matching records |
| ThreadStore.MemoryThreadStore.TakeSnapshot | internal/store/memory_thread.go:195-207 | clears dirty and copies each record exactly once, sorted for the file |
| ThreadStore.MemoryThreadStore.Load | internal/store/memory_thread.go:243-255 | files every record of the file that has an identifier, in order, null entries skipped |
| CommentStore.CountIsScan | internal/store/memory_comment.go:144-149 | with an exact index the count of a thread is the number of its stored comments, deleted ones included |
| CommentStore.ListingShape | internal/store/memory_comment.go:133-140 | what sorted means for each of the three orders |
| CommentStore.SavedShape | internal/store/memory_comment.go:192 | a file is sorted exactly when creation times never decrease |
| CommentStore.DeletionAnswers | internal/store/memory_comment.go:92-102 | not found, or that comment marked deleted and nothing else changed |
| CommentStore.ListingFromIds | internal/store/memory_comment.go:104-141 | through the index or the whole map, the sorted listing holds the records a full scan would find |
| CommentStore.DeletionIsUpdate | internal/store/memory_comment.go:92-102 | glue: soft deletion in place is a table update that keeps the thread |
| CommentStore.ParentFilterIff | internal/store/memory_comment.go:118-125 | a listing by parent holds what the filter's documentation promises if and only if neither holds anything; together they are the listing without that filter |
| CommentStore.Reopen | internal/store/memory_comment.go:181-241 | a store flushed and loaded into a new one has the same comments and an exact thread index |
| CommentStore.MemoryCommentStore.constructor | internal/store/memory_comment.go:30-51 | a store of the comments that its file holds, indexed as they are loaded, or an empty one if there is no file to read; nothing to save |
| CommentStore.MemoryCommentStore.Create | internal/store/memory_comment.go:53-66 | state and answer of the table's creation; only new objects enter the store |
| CommentStore.MemoryCommentStore.GetByID | internal/store/memory_comment.go:68-76 | a fresh copy of the record, or not found |
| CommentStore.MemoryCommentStore.Update | internal/store/memory_comment.go:78-90 | state and answer of the table's update |
| CommentStore.MemoryCommentStore.SoftDelete | internal/store/memory_comment.go:92-102 | in place, changes one field of one record and no object of the map |
| CommentStore.MemoryCommentStore.List | internal/store/memory_comment.go:104-142 | distinct fresh copies, sorted as asked, of the matching records behind the index entry; with an exact index, of all matching records |
| CommentStore.MemoryCommentStore.CountByThread | internal/store/memory_comment.go:144-149 | the length of the thread's index entry |
| CommentStore.MemoryCommentStore.TakeSnapshot | internal/store/memory_comment.go:185-192 | clears dirty and copies each record exactly once, oldest first |
| CommentStore.MemoryCommentStore.Load | internal/store/memory_comment.go:232-240 | files every record of the file that has an identifier, in order |
| BoardStore.SlugIndexExact | internal/store/memory_board.go:53-127 | over every run whose updates keep the slug or move to a free non-empty one, the index is exactly the inverse of identifier to slug on non-empty slugs |
| BoardStore.UpdateKeepsSlugsIff | internal/store/memory_board.go:97-114 | an update keeps the index exact if and only if the slug stays or moves to a non-empty slug that is free |
| BoardStore.CreateKeepsSlugs | internal/store/memory_board.go:53-71 | a creation, successful or not, keeps the index exact |
| BoardStore.DeleteKeepsSlugs | internal/store/memory_board.go:116-127 | a deletion keeps the index exact |
| BoardStore.BySlugIsSearch | internal/store/memory_board.go:83-95 | with an exact index the lookup is a linear search, and its answer is unique |
| BoardStore.SlugTakeover | internal/store/memory_board.go:107-127 | a run of four calls after which a board cannot be found by its own slug |
| BoardStore.SaveLoadRoundTrip | internal/store/memory_board.go:177-244 | with an exact index, loading a flushed file in any order restores boards and index exactly |
| BoardStore.ReloadKeepsSlugsIff | internal/store/memory_board.go:229-243 | a reload keeps the index for every order of the file if and only if it was exact |
| BoardFiles.SaveKeepsSlugsIff | internal/store/memory_board.go:177-244 | a flush and a load keep the index if and only if each held slug is indexed and leads to its last holder in the order of the file |
| BoardFiles.Flush | internal/store/memory_board.go:181-193 | a flush writes the one sorted sequence of the boards |
| BoardStore.ReloadListing | internal/store/memory_board.go:229-243 | any reload restores the boards, and indexes each held slug to one of its holders |
| BoardStore.OrderIsStrict | internal/store/memory_board.go:138-143 | the comparator is a strict order that decides any two boards with different identifiers |
| BoardStore.ListingShape | internal/store/memory_board.go:138-143 | sorted means that display orders never decrease and, among equal ones, identifiers increase byte by byte |
| BoardStore.CreateAnswers | internal/store/memory_board.go:53-71 | which error each failing creation answers, and what a successful one files and indexes |
| BoardStore.UpdateAnswers | internal/store/memory_board.go:97-114 | which error each failing update answers, and where the old and the new slug then lead |
| BoardStore.DeleteAnswers | internal/store/memory_board.go:116-127 | when a deletion fails, and that the slug of a deleted board leads nowhere |
| BoardStore.ListingCanonical | internal/store/memory_board.go:138-143 | any two sorted arrangements of the same boards are the same sequence, so no listing depends on the map's order |
| BoardStore.FlushCanonical | internal/store/memory_board.go:182-193 | the flushed file is determined by the boards alone |
| BoardStore.ListingFromIds | internal/store/memory_board.go:129-145 | whatever order the map is visited in, the sorted listing holds exactly the matching boards |
| BoardStore.Reopen | internal/store/memory_board.go:177-244 | a store flushed and loaded into a new one has the same boards, and the same index if it was exact |
| BoardStore.MemoryBoardStore.constructor | internal/store/memory_board.go:30-51 | a store of the boards that its file holds, indexed as they are loaded, or an empty one if there is no file to read; nothing to save |
| BoardStore.MemoryBoardStore.Create | internal/store/memory_board.go:53-71 | state and answer of the specified creation, slug conflicts included; only new objects enter the store |
| BoardStore.MemoryBoardStore.GetByID | internal/store/memory_board.go:73-81 | a fresh copy of the record, or not found |
| BoardStore.MemoryBoardStore.GetBySlug | internal/store/memory_board.go:83-95 | a fresh copy of the board the index leads to, or not found, dangling entries included |
| BoardStore.MemoryBoardStore.Update | internal/store/memory_board.go:97-114 | state and answer of the specified update, with the index moved only for a changed non-empty slug |
| BoardStore.MemoryBoardStore.Delete | internal/store/memory_board.go:116-127 | state and answer of the specified deletion |
| BoardStore.MemoryBoardStore.List | internal/store/memory_board.go:129-145 | distinct fresh copies of exactly the matching boards, sorted |
| BoardStore.MemoryBoardStore.TakeSnapshot | internal/store/memory_board.go:181-193 | clears dirty and copies each board exactly once, sorted for the file |
| BoardStore.MemoryBoardStore.LoadFile | internal/store/memory_board.go:233-243 | files every board of the file that has an identifier and indexes its slug, later entries winning |
| VoteStore.CountsRefineHistory | internal/store/memory_vote_report.go:51-92 | after any run of votes on targets that do not nest with this one, the two counts are the users whose latest vote on it is up, and down |
| VoteStore.UpAndDown | internal/store/memory_vote_report.go:77-92 | with votes of +1 and -1, up is the number of users whose latest vote on the target is +1, and down of those whose latest is -1 |
| VoteStore.CountsSumToVoters | internal/store/memory_vote_report.go:77-92 | the two counts add up to the distinct voters on the target |
| VoteStore.StoredIsLatest | internal/store/memory_vote_report.go:55-75 | the vote stored for a user on a target is the user's latest vote there |
| VoteStore.PrefixSelectsTarget | internal/store/memory_vote_report.go:80-83 | a key passes the prefix test if and only if it belongs to the target, user names being arbitrary |
| VoteStore.KeyInjective | internal/store/memory_vote_report.go:51-53 | equal keys have equal target type, target and user, unless targets nest |
| VoteStore.KeysDisjointIff | internal/store/memory_vote_report.go:51-53 | two targets share no key under any user names if and only if neither identifier with its colon begins the other |
| VoteStore.NeverMixedIff | internal/store/memory_vote_report.go:80-83 | no vote on one target is ever counted for another, under any user names, if and only if the same holds |
| VoteStore.ColonFreeWellFormed | internal/service/service.go:403-407 | colon-free identifiers, as the generated ones are, satisfy the condition of the counting theorems |
| VoteStore.NestedTargetMiscounted | internal/store/memory_vote_report.go:77-92 | a vote on a target named with a colon is counted for another target too |
| VoteStore.SaveLoadRoundTrip | internal/store/memory_vote_report.go:124-182 | loading a file that holds each vote once, in any order, restores the votes |
| VoteStore.Reopen | internal/store/memory_vote_report.go:124-182 | a store flushed and loaded into a new one holds the same votes |
| VoteStore.MemoryVoteStore.constructor | internal/store/memory_vote_report.go:29-49 | a store of the votes that its file holds, or an empty one if there is no file to read; nothing to save |
| VoteStore.MemoryVoteStore.Upsert | internal/store/memory_vote_report.go:55-65 | files a new copy under the vote's key, replacing an earlier one, or rejects a vote without identifier |
| VoteStore.MemoryVoteStore.GetByTargetAndUser | internal/store/memory_vote_report.go:67-75 | a fresh copy of the vote under the key, or not found |
| VoteStore.MemoryVoteStore.CountByTarget | internal/store/memory_vote_report.go:77-92 | the loop counts, in any visiting order, the votes under the prefix by sign |
| VoteStore.MemoryVoteStore.IsUnder | internal/store/memory_vote_report.go:82-83 | the guarded slice comparison is the prefix relation |
| VoteStore.MemoryVoteStore.TakeSnapshot | internal/store/memory_vote_report.go:128-134 | clears dirty and copies each vote exactly once |
| VoteStore.MemoryVoteStore.LoadFile | internal/store/memory_vote_report.go:174-181 | files every vote of the file that has an identifier under its key, later entries winning |
| Ownership.Session | internal/store/memory_thread.go:53-159 | for every sequence of caller actions, listings and overwriting held records included, the heap run ends in the state of the run without sharing, and each listing is one of the table as it then is |
| Ownership.Step | internal/store/memory_thread.go:53-159 | one action keeps the caller's objects and the store's apart, all distinct, and acts as on plain values |
| CommentOwnership.Session | internal/store/memory_comment.go:53-142 | the same for the comment store, soft deletion in place included |
| CommentOwnership.Step | internal/store/memory_comment.go:53-142 | one action on the comment store keeps the caller's objects and the store's apart, all distinct, and acts as on plain values |
| Interleaving.NeverOverstated | internal/service/service.go:236-256 | under every interleaving no thread, and no record in flight, shows more replies than its thread has comments or more views than were counted |
| Interleaving.RepliesConserved | internal/service/service.go:227-258 | under every interleaving, for an identifier not reused, comments equal replies plus creations in flight plus the net drift of stale writes |
| Interleaving.ExactIffNoDrift | internal/service/service.go:227-258 | with no creation in flight the reply count is exact if and only if that drift is zero |
| Interleaving.RepliesExact | internal/service/service.go:227-258 | where spans on one thread do not overlap the count is exact up to creations in flight, and exact at rest, and the request in its span holds the thread as stored in all but the views, while spans on other threads interleave freely |
| Interleaving.ViewsConserved | internal/service/service.go:153-161 | glue: the views counted are the views shown plus the net views overwritten by stale records |
| LostUpdates.ViewsExactIff | internal/service/service.go:153-179 | under every interleaving, for an identifier not reused, a thread shows every view counted, at all times, if and only if no record is written over it whose views were counted on since it was read |
| LostUpdates.RepliesCountedIff | internal/service/service.go:227-258 | under every interleaving, for an identifier not reused, a thread shows a reply for each comment not in flight, at all times, if and only if no record is written over it whose replies were counted on since it was read |
| Interleaving.LastReplyIffReplies | internal/model/entity.go:74-77 | in every run, in the store and in every record held, the last reply is dated exactly when there are replies, at all times, if and only if no thread is ever posted with one |
| Interleaving.PostKeepsDatedIff | internal/service/service.go:142-149 | posting a thread keeps this if and only if the caller left the date of the last reply unset |
| Interleaving.LastReplyCoversComments | internal/service/service.go:247-256 | where spans on a thread do not overlap and the readings taken for it do not go back, readings for other threads coming in any order, its last reply is no earlier than any of its comments not in flight |
| Interleaving.CommentsInPast | internal/service/service.go:247-249 | where the readings for a thread do not go back, none of its comments was created after the last of them |
| Interleaving.CommentsStaySound | internal/service/service.go:227-289 | under every interleaving comments keep their identifier, thread and creation time, and belong to a thread that was created |
| Interleaving.CommentIndexExact | internal/store/memory_comment.go:53-102 | under every interleaving the thread index lists each comment once, under its thread |
| Interleaving.ThreadIndexExactIff | internal/store/memory_thread.go:53-110 | in every run the board index is exact at all times if and only if no record is ever written over one that is on another board |
| Interleaving.StepKeepsThreadIndexIff | internal/store/memory_thread.go:78-90 | the same for one step of any kind |
| Interleaving.ThreadIndexExact | internal/store/memory_thread.go:53-110 | it stays exact, and List never meets a missing thread, unless a thread is posted on another board than an open span on its identifier has read; a reused identifier alone does no harm |
| LostUpdates.LockKeptIff | internal/service/service.go:164-179 | under every interleaving a thread stays locked, at all times, if and only if it is not removed and no unlocked record is written over it, by an edit or by counting a reply |
| LostUpdates.LockStepIff | internal/service/service.go:236-256 | the same for one step of any kind |
| LostUpdates.LockHonoured | internal/service/service.go:164-179 | where spans on the thread do not overlap it stays locked, at all times, if and only if no request unlocks it explicitly or removes it |
| LostUpdates.LockStopsCommenters | internal/service/service.go:236-242 | where spans on the thread do not overlap no request about to comment faces a locked thread |
| LostUpdates.LockedTakesNoComment | internal/service/service.go:236-251 | so a locked thread takes no comment |
| LostUpdates.CommentTakenIff | internal/service/service.go:249-251 | in general a thread gets a comment in a step if and only if the step stores one for a request that has read the thread, locked since or not |
| LostUpdates.DeletionKeptIff | internal/service/service.go:266-289 | under every interleaving a deleted comment stays deleted, at all times, if and only if no revision that read it before is written |
| LostUpdates.DeletionStepIff | internal/service/service.go:266-289 | the same for one step of any kind |
| LostUpdates.DeletionLasts | internal/service/service.go:271-273 | once a comment is deleted and no request is revising it, it stays deleted under every interleaving |
| LostUpdates.OverlapLosesReply | internal/service/service.go:236-256 | a run of two overlapping creations that ends with two comments and one counted reply |
| LostUpdates.ViewIsLost | internal/service/service.go:153-179 | a run that ends with one view counted and none shown |
| LostUpdates.CommentUnlocks | internal/service/service.go:236-256 | a run in which a completed lock is undone by a comment, which is stored on the locked thread |
| LostUpdates.LockIsLost | internal/service/service.go:164-179 | a run in which a completed lock is undone by a title edit |
| LostUpdates.DeletionIsLost | internal/service/service.go:266-289 | a run in which a completed deletion is undone by a revision |
| LostUpdates.RepostBreaksIndex | internal/service/service.go:139-179 | a run that reuses an identifier on another board during an edit and ends with a wrong board index |
| Services.CommentService.constructor | internal/service/service.go:222-224 | holds the two stores it is given |
| Services.CommentService.Create | internal/service/service.go:227-258 | run without interruption, both stores end as after the read, store and count steps; in fields, which error it answers on what input, and which comment and thread are stored |
| Services.CommentContractHolds | internal/service/service.go:227-258 | the protocol's steps meet that contract: errors in the source's order, every field of the comment, and the one reply more of its thread |
| Services.CommentService.ReadThread | internal/service/service.go:228-242 | normalizes the comment and answers with the first failing check or the thread as stored |
| Services.CommentService.StoreAndCount | internal/service/service.go:243-257 | stores the comment and, only if that succeeded, writes the thread back with one more reply |
| Services.CommentOutcome | internal/service/service.go:227-258 | glue: the three protocol steps taken together are the branches of one call |
| Services.CommentService.Update | internal/service/service.go:266-284 | run without interruption, the store ends as after the read and write steps; in fields, which error it answers on what input, and what it changes |
| Services.RevisionContractHolds | internal/service/service.go:266-284 | the protocol's steps meet that contract: not found, deleted, blank body, in this order, else the trimmed body and the new time |
| Services.RevisionIs | internal/service/service.go:266-284 | glue: the two protocol steps taken together either change nothing or write the revised record |
| Services.ThreadService.constructor | internal/service/service.go:118-120 | holds the two stores it is given |
| Services.ThreadService.Create | internal/service/service.go:123-150 | the thread is posted as the protocol step says; in fields, which error it answers on what input, a locked board and an identifier in use included, and every field of what is stored |
| Services.PostContractHolds | internal/service/service.go:123-150 | the protocol's step meets that contract: blank, no board, locked board, identifier in use, in this order, else the trimmed thread with its counts reset |
| Services.ThreadService.CheckBoard | internal/service/service.go:124-138 | normalizes the thread and answers with the first failing check |
| Services.PostIs | internal/service/service.go:139-149 | glue: stamping the thread before storing it is the protocol's post step, and a refused thread changes nothing |
| Services.ThreadService.GetByID | internal/service/service.go:153-161 | not found, or one view more on the thread, and a fresh copy of the record as it was before |
| Services.ThreadService.Update | internal/service/service.go:164-179 | run without interruption, the store ends as after the read and write steps; in fields, which error it answers on what input, and what it changes |
| Services.EditContractHolds | internal/service/service.go:164-179 | the protocol's steps meet that contract: not found, blank title, in this order, else each field given in its place |
| Services.EditIs | internal/service/service.go:164-179 | glue: the two protocol steps taken together either change nothing or write the edited record |
| Services.Apply | internal/service/service.go:199-212 | each field given is replaced, each field left out is kept |
| Services.VoteService.constructor | internal/service/service.go:316-318 | holds the three stores it is given |
| Services.VoteService.CheckTarget | internal/service/service.go:322-341 | answers with the first failing check of value, type, identifiers and target |
| Services.VoteService.Vote | internal/service/service.go:321-345 | in fields, a vote is stored under its key exactly when it is well formed and its target is in the store of its type; which error it answers otherwise |
| Services.VoteContractHolds | internal/service/service.go:321-345 | the checks meet that contract |
| Services.AcceptableVotesCount | internal/service/service.go:322-330 | glue: what the checks let through meets the condition of the counting theorems on target types, and counting by sign is counting +1 and -1 |
| Persistence.DiskIsInitialOrWasMemory | internal/store/memory_thread.go:161-256 | in every reachable state, crashes at any step included, the file is the initial one or one that a flush writes for one complete content the memory really had |
| Persistence.DiskNeverGoesBack | internal/store/memory_thread.go:191-230 | the file never goes back to one written for an earlier content of the history |
| Persistence.OneFlushAtATime | internal/store/memory_thread.go:161-189 | the loop's flush and the closing flush are never both in progress |
| Persistence.AlwaysSafe | internal/store/memory_thread.go:161-256 | the invariant behind these three: file, memory and flushes carry contents of the history, never older than the file |
| Persistence.HistoryIsReal | internal/store/memory_thread.go:161-256 | every content of the history was held by a running process |
| Persistence.CleanMeansSaved | internal/store/memory_thread.go:161-206 | when dirty is clear, no flush is in progress and the last load or flush succeeded, the file was written for the memory or loaded to it; where loading restores what flushes write, it loads to the memory |
| Persistence.CloseSavesEverything | internal/store/memory_thread.go:161-189 | when Close returns without error the file was written for a content at least as recent as the memory was when Close was called, and for the memory itself if nothing changed since |
| Persistence.CloseAnswersIff | internal/store/memory_thread.go:161-169 | Close answers without error exactly when its flush renames the finished file, and with an error exactly when its flush fails |
| Persistence.ClosingOverwrites | internal/store/memory_thread.go:161-230 | Close can succeed: a process closed at once answers without error, with the file written for its memory |
| Persistence.LoopSaves | internal/store/memory_thread.go:171-206 | whenever the loop waits with something to save it can save it, and then waits with nothing left to save |
| Persistence.SyncedIs | internal/store/memory_thread.go:191-230 | glue: which steps succeed or fail in loading and flushing, and what they do to the file |
| Persistence.DirtyIs | internal/store/memory_thread.go:195-200 | glue: which steps set and clear dirty, and which change the memory |
| Persistence.LoopRunsUntilClosed | internal/store/memory_thread.go:161-189 | the loop does not stop before Close is called, and has stopped when Close flushes |
| Persistence.RestartRestoresDisk | internal/store/memory_thread.go:232-256 | after a crash anywhere, a process that can read the file starts from what it loads to: the very content it was written for, where loading restores what flushes write |
| Persistence.FileKeptIff | internal/store/memory_thread.go:42-46 | every run without a mutation leaves the file as it was if and only if at every start it is the only file a flush can write for the memory the process starts with |
| Files.FilesRoundTrip | internal/store/memory_thread.go:191-256 | loading restores what a flush writes, whatever the order of the map: the law the protocol asks for, for any of the stores |
| Files.ReadKeepsIff | internal/store/memory_thread.go:195-206 | a flush after a load can write no other file if and only if every entry has an identifier, none comes twice, and the comparator puts each record strictly before every later one |
| Files.FileLeftAloneIff | internal/store/memory_thread.go:42-46 | every run without a mutation leaves the file as it was if and only if it is of that form where a start reads it, and empty where one cannot |
| Files.ThreadFileKeptIff | internal/store/memory_thread.go:191-256 | the same for threads: pinned first, each block strictly by creation time |
| Files.CommentFileKeptIff | internal/store/memory_comment.go:181-241 | the same for comments: strictly by creation time |
| Files.BoardFileKeptIff | internal/store/memory_board.go:177-244 | the same for boards: in display order, which decides any two |
| Files.VoteFileKeptIff | internal/store/memory_vote_report.go:124-182 | the same for votes: at most one, since they are saved in the order of the map |
| Files.ThreadsLoad | internal/store/memory_thread.go:243-255 | the thread store loads its file as the codec of the protocol says |
| Files.CommentsLoad | internal/store/memory_comment.go:232-240 | the comment store loads its file as the codec of the protocol says |
| Files.BoardsLoad | internal/store/memory_board.go:233-243 | the board store loads its file as the codec of the protocol says |
| Files.VotesLoad | internal/store/memory_vote_report.go:174-181 | the vote store loads its file as the codec of the protocol says |
| Files.FlushThreads | internal/store/memory_thread.go:195-206 | what the thread store flushes is a file the codec writes for its memory |
| Files.FlushComments | internal/store/memory_comment.go:185-192 | what the comment store flushes is a file the codec writes for its memory |
| Files.FlushBoards | internal/store/memory_board.go:181-193 | what the board store flushes is a file the codec writes for its memory |
| Files.FlushVotes | internal/store/memory_vote_report.go:128-134 | what the vote store flushes is a file the codec writes for its memory |
| Persistence.CloseMarksHistory | internal/store/memory_thread.go:161-169 | glue: the position that closing marks is that of the memory when Close was called |
| Persistence.FailedFlushForgotten | internal/store/memory_thread.go:181-200 | after a failed flush the file is as before, and the loop does nothing about it if and only if no mutation set dirty again |
| Persistence.FailedFlushReachable | internal/store/memory_thread.go:181-200 | from any file and for any memory, a run that ends clean, with no flush in progress, and the file as it was |
| Persistence.UnreadableFileOverwritten | internal/store/memory_thread.go:42-46 | a run in which a file that could not be read, whatever it holds, is replaced |

## Left out

- HTTP handlers, routing, server wiring, logging, configuration, request validators and the other middleware: plumbing, or facts about one branch.
- The JSON codec is the identity on sequences of records, and an entry that decodes to null is a missing option; a file that cannot be decoded is the unreadable case.
- Times are integers without zones, and counters, limits and windows are unbounded; overflow of Go's 64-bit integers and durations is not modelled.
- The file system, temporary files, tickers, goroutines and channels are protocol steps that may succeed, fail or crash; the rename is atomic and no crash leaves a torn file.
- Clock readings, generated identifiers and random tokens are parameters; their freshness is a hypothesis where a theorem needs it.
- Text is ASCII: case folding and trimming of other characters are not modelled.
- `sort.Slice` is replaced by an insertion sort; contracts and lemmas use only that the result is a sorted permutation. A listing sorts the values and then clones them, where the source clones first.
- Locks and conditions inside a store call: each method is one critical section, and a map entry of slices is a sequence, so the sharing of a spliced slice's backing array is not modelled.
- An optional pointer field is an option, so that the target of a pointer held by two copies of a record is never shared in the model.
- Stores without a path, which never save, and a second call of Close on the same store.
- Reports, their store and service: only easy invariants.
- The board service, and the service-level List and Delete calls that only delegate.
- Referential integrity of boards, threads and parent comments: the code does not keep it.
- The vote fields of comments: no service call ever writes them to anything but zero.
- The in-memory stores are not composed with the persistence protocol step by step: `Files` shows that each store loads and flushes as the protocol's codec says.
- Two files with the same sequence of records are the same file: the bytes of the JSON text are not modelled.
- Ownership.Session: the thread store; `CommentOwnership` is the comment store. The board and vote stores' contracts carry the same freshness and separation clauses, without a session theorem of their own. Where Go would panic, on listing through an index entry that names a missing record, the action does nothing.

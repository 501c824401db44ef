# Verified model of the workspace and notification services

This project models, in Dafny, the parts of the task board system that decide what ends up in its
databases and caches, and proves what they keep.  Postgres, MongoDB, Redis and Kafka appear as small
state machines with the contracts that the code relies on; what is verified is the logic on top.

* **Bulk writing** (`RowFold`, `GoSlices`, `Powers`, `SplitCost`, `BulkWriter`, `TableEffects`,
  `StatementMeaning`, `SnapshotWriter`).  A rejected batch is split and retried until the rejected
  rows are isolated.  The four Go copies (create, update, status update, user upsert) differ only in
  their SQL and are one generic writer over an arbitrary row effect; the row effects are in
  `TableEffects`.  The Go writer is modelled on slices that share one array, because it appends in
  place.  The MongoDB twin works on a bulk write that is not atomic.
* **Consumer loops** (`BatchPlan`, `ConsumerLoop`, `ActsMeaning`, `UserLetters`, `Collecting`). 
  Batching, flushing, dead letters and commits, over every sequence of fetch outcomes and every
  reading of the clock.  The task handlers and the user handler are one loop with two ways to
  dead-letter.
* **Task board** (`Uuid`, `SortedSeq`, `ColumnCache`, `ColumnRuns`, `ColumnWalk`, `ColumnMeaning`,
  `TaskViews`, `StatusMove`, `BoardMeaning`, `TaskBoard`, `ColumnCompleteness`).  One sorted set per
  column and one hash per task in Redis, next to the `tasks` table: interleavings of the cache
  operations, paging by score, what the board shows, which walks over a column are complete, and
  what moving a task achieves.
* **Lists and comments** (`ListCache`, `ListRuns`, `ListOverlap`, `ListWalk`, `ListMeaning`,
  `ListService`, `CommentPages`).  The owned, joined and project lists are one model with two
  parameters, the load cap and whether an empty list is marked; creations and loads appear both as
  atomic operations and step by step.
* **Invitations, memberships and roles** (`Membership`, `MembershipRuns`, `MembershipHistory`,
  `MembershipService`).  Every repository or cache call is one step, and requests interleave freely.

Where the source changes state, the model is a class or a method over an array or a collection, and
its contract ties the new state to a function of the old one; the theorems are about these functions.
The modules called `...Meaning` say what these functions are in terms of rows, ids, statuses and times
only.  Statement outcomes, fetches, clock readings and failing calls are parameters or
nondeterministic.

Where a promise of the code does not hold in general, the model keeps the code and states exactly when
it holds, with an input or a run that reaches the failing side:

* a second attempt at a batch: `TableEffects.InsertResumes`, `TableEffects.UpsertResumes`;
* snapshots with a unique e-mail: `SnapshotWriter.UnsettledIff`;
* dead letters found by id: `UserLetters.FoundAreOwn`;
* complete columns: `ColumnWalk.CompleteIffDistinct`, `ColumnCompleteness.MissWalkIff`,
  `ColumnCompleteness.FragmentWalkIff`;
* views after a pre-warming: `StatusMove.OthersViewIff`;
* complete lists: `ListCache.MissPageIff`, `ListCache.HitPageIff`, `ListRuns.RacingLoadIff`,
  `ListOverlap.OvertakenAddIff`;
* invitations and roles: `MembershipRuns.AcceptedForGoodIff`, `MembershipRuns.LookupIff`, and the run of
  `MembershipRuns.NegativeEntryOverwritesRole`.

`dafny verify dfyconfig.toml --resource-limit 2000000 --verification-time-limit 0` checks everything.

## Model

| member | source | states |
|---|---|---|
| `BulkWriter.BulkWrite` | services/workspace-service/internal/task/repository.go:198-220 | one bulk call over any row effect and any table: without a lost connection the table is that of trying the rows one at a time and the returned slice holds exactly the rejected rows in order, also when multi-row batches fail for reasons of their own; with a lost connection nothing is returned and the table is that of some prefix; only the caller's region of the shared array is overwritten; at most 2n statements, and at most 2 + 2k*ceil(log2 n) with k poisonous rows |
| `BulkWriter.RecursiveWrite` | services/workspace-service/internal/task/repository.go:222-259 | the same for the recursion on a slice of the caller's array, whose in-place append never overwrites a row that was not tried yet; the result is nil, in a fresh array or inside the slice; its number of statements is exactly that of SplitCost.Statements when failures depend on the row only |
| `BulkWriter.WriteHalves` | services/workspace-service/internal/task/repository.go:235-258 | the two halves one after the other are one run on the whole, including a connection lost in either half |
| `BulkWriter.WriteRight` | services/workspace-service/internal/user/repository.go:73-95 | the right half runs while the left half's failures still live in the shared array, and both survive into the appended list |
| `BulkWriter.AppendFailures` | services/workspace-service/internal/task/repository.go:258 | the append of the right half's failures to the left half's keeps both lists and stays inside the region, although it overwrites the caller's rows |
| `BulkWriter.Database.ExecBatch` | services/workspace-service/internal/task/repository.go:261-295 | the contract of a batch statement: all or nothing, with an unknown outcome only if the connection was lost |
| `BulkWriter.WroteHalves` | services/workspace-service/internal/task/repository.go:232-256 | why a prefix of the left half, or the left half and a prefix of the right one, is a prefix of the batch |
| `BulkWriter.CostOfHalves` | services/workspace-service/internal/task/repository.go:222-259 | the statements of a rejected batch are one more than those of its halves |
| `GoSlices.Append` | services/workspace-service/internal/task/repository.go:258 | append writes behind the elements into the spare capacity, over what other slices show there, or moves to a new array, and changes no other cell |
| `RowFold.SkipConcat` | services/workspace-service/internal/task/repository.go:235-258 | trying one list and then another, table and rejected rows, is trying their concatenation |
| `RowFold.FoldMeetsSkip` | services/workspace-service/internal/task/repository.go:203-206 | a batch succeeds as a whole exactly if no row would be rejected on its own, and then leaves the same table |
| `RowFold.SkippedAt` | services/workspace-service/internal/task/repository.go:229-230 | a row is returned exactly if its own statement fails in the state its predecessors leave |
| `StatementMeaning.ReturnedAre` | services/workspace-service/internal/task/repository.go:229-258 | the returned rows are, in order and one for one, those whose own statement fails where they stand |
| `SplitCost.LogBound` | services/workspace-service/internal/task/repository.go:222-259 | at most 1 + 2k*ceil(log2 n) statements for k poisonous rows among n |
| `SplitCost.LinearBound` | services/workspace-service/internal/task/repository.go:222-259 | never more than 2n - 1 statements |
| `SplitCost.LinearBoundTight` | services/workspace-service/internal/task/repository.go:222-259 | 2n - 1 is reached when every row is poisonous |
| `TableEffects.InsertKeepsFirst` | services/workspace-service/internal/task/repository.go:285-294 | INSERT with DO NOTHING stores the first row of each key that was absent and changes no stored row |
| `StatementMeaning.InsertRejects` | services/workspace-service/internal/task/repository.go:285-294 | an insert rejects a row that breaks a check, and a row without its parent whose key is neither stored nor stored by an earlier row of the list |
| `StatementMeaning.InsertWrites` | services/workspace-service/internal/task/repository.go:285-294 | over every list: stored rows stay, and each key that was absent gets its first storable row |
| `TableEffects.InsertResumes` | services/workspace-service/internal/task/repository.go:208-219 | running the original insert batch again after any prefix ends in the table of one uninterrupted run, and returns the same rows if and only if no row of the prefix whose parent is missing and whose key is not stored is followed, still before the cut, by a row of that key whose parent is there: a condition on the rows and the first table |
| `TableEffects.LateRowReturnsLess` | services/workspace-service/internal/task/repository.go:208-219 | the failing side is reached: a row without its parent, then one of the same key with it, and a cut behind them |
| `TableEffects.InsertResumesDistinct` | services/workspace-service/internal/task/repository.go:291 | with distinct keys the returned rows are always the same |
| `TableEffects.InsertAttemptsConverge` | services/workspace-service/internal/task/repository.go:208-219 | the same table after any number of interrupted attempts |
| `TableEffects.RerunInsert` | services/workspace-service/internal/task/repository.go:208-219 | two runs of the writer, the first cut off by a lost connection, give the table and, for distinct keys, the list of one |
| `TableEffects.UpdateIsSetOriented` | services/workspace-service/internal/task/repository.go:385-400 | for distinct keys the row-by-row fold is what one UPDATE ... FROM (VALUES ...) does: every matched key gets its columns, every other row and column stays |
| `StatementMeaning.UpdateRejects` | services/workspace-service/internal/task/repository.go:360-400 | for every table and list of updates, the rejected rows are, in order, those that do not convert and those of keys of the table that break a constraint; a row whose key the table does not have is no failure, and no key comes or goes |
| `StatementMeaning.UpdateReturns` | services/workspace-service/internal/task/repository.go:297-358 | so the bulk writer returns exactly these rows, and none if and only if every row converts and every row of a stored key passes the checks |
| `StatementMeaning.UpdateWrites` | services/workspace-service/internal/task/repository.go:385-400 | the last valid row of a stored key sets its columns, and all other columns and keys stay |
| `TableEffects.UpdateResumes` | services/workspace-service/internal/task/repository.go:297-358 | running the original update batch again after any prefix gives the same table and the same returned rows |
| `TableEffects.UpdateAttemptsConverge` | services/workspace-service/internal/task/repository.go:297-358 | the same after any number of interrupted attempts |
| `TableEffects.RerunUpdate` | services/workspace-service/internal/task/repository.go:403-464 | two runs of the writer, the first cut off, give table and list of one |
| `TableEffects.UpsertResumes` | services/workspace-service/internal/user/repository.go:35-96 | for every user batch, cut and table: the second attempt decides each row before the cut as the first did if and only if what the first attempt accepted in front of the row, written over the table that is left, decides it so, and then it gives table and rejected rows of one run; if the rows of one id carry one e-mail, it gives them if and only if every row rejected before the cut is rejected by the table that is left |
| `TableEffects.RerunUpsert` | services/workspace-service/internal/user/repository.go:35-57 | both conditions for two runs of the writer, the first of which lost its connection |
| `TableEffects.HandedOverReturnsMore` | services/workspace-service/internal/user/repository.go:98-124 | the failing side without any rejected row: an id gives its e-mail up, another takes it, the connection is lost behind them, and the second attempt returns the first row, which is stored already |
| `TableEffects.UpsertDoesNotResume` | services/workspace-service/internal/user/repository.go:98-124 | the failing side is reached: a batch of distinct ids whose connection is lost behind its second row, with a first row that is rejected, and accepted when the batch is written again |
| `TableEffects.UpsertKeeps` | services/workspace-service/migrations/schema.sql:4 | upserts keep e-mails unique and leave other users alone |
| `StatementMeaning.UpsertRejects` | services/workspace-service/internal/user/repository.go:98-124 | an upsert rejects a row that breaks a check or whose e-mail another id has at that point |
| `StatementMeaning.UpsertWrites` | services/workspace-service/internal/user/repository.go:98-124 | over every list: an id holds its last row that is not rejected, and stays as it is if all its rows are |
| `SnapshotWriter.BulkSaveSnapshots` | services/notification-service/src/modules/user/user.repository.ts:33-68 | although a failing ordered bulk write has applied a prefix that the recursion applies again: without a lost connection the save ends in one of the ways that MayEnd allows; where these all end right, and for replayable lists in particular, the collection ends as if the rows were written one at a time and exactly the rejected rows are returned in order; a lost connection returns none; only rows of the list are ever written |
| `SnapshotWriter.ReplayableEnds` | services/notification-service/src/modules/user/user.repository.ts:33-68 | the save of a replayable list ends right, whatever prefixes its failing batches have applied |
| `SnapshotWriter.Collection.OrderedBulkWrite` | services/notification-service/src/modules/user/user.repository.ts:37-46 | the contract of an ordered bulk write: a failure leaves some prefix of accepted rows applied |
| `SnapshotWriter.SetCellsReplayable` | services/notification-service/src/modules/user/user.repository.ts:37-45 | every list of $set upserts whose validity does not depend on the collection is replayable, repeated ids included |
| `SnapshotWriter.SkipIsNet` | services/notification-service/src/modules/user/user.repository.ts:33-68 | the outcome is the net effect of the valid rows, and the rows returned are exactly those that are not valid, in order |
| `SnapshotWriter.NetIsLastValidWrite` | services/notification-service/src/modules/user/user.repository.ts:37-45 | each field of each document ends at its last valid write in the list |
| `SnapshotWriter.NetOnlyWritten` | services/notification-service/src/modules/user/user.repository.ts:37-45 | what no valid row sets is not changed |
| `SnapshotWriter.SetCellsResumes` | services/notification-service/src/modules/user/user.repository.ts:47-66 | after a lost connection, saving the whole list again ends where one run would have |
| `SnapshotWriter.UnsettledIff` | services/notification-service/src/modules/user/user.repository.ts:33-68 | under the unique e-mail, read off the list: every batch of its rows, in their order, is saved as if one row at a time, from every collection, if and only if behind each handover of an e-mail from one id to another every row is valid and repeats id and e-mail of one of the two |
| `SnapshotWriter.SettledEndsRight` | services/notification-service/src/modules/user/user.repository.ts:33-68 | the save of a list whose handovers are all settled ends right, from every collection and wherever its batches stop |
| `SnapshotWriter.OneMailEndsRight` | services/notification-service/src/modules/user/user.model.ts:10 | in particular of every list whose rows of one id carry one e-mail, repeated ids included |
| `SnapshotWriter.HandoverMisreports` | services/notification-service/src/modules/user/user.repository.ts:33-68 | a handover and a row that is rejected behind it, from any collection in which nobody has the two e-mails: the save may end with a row in its result that one run of single writes accepts |
| `ConsumerLoop.Consumer.RunLoop` | services/workspace-service/internal/kafka/task_handler.go:31-95 | for every sequence of fetch outcomes and clock readings, and for the task and the user handlers: the script is cut into batches, each a row of messages without an interruption; a batch ends where it is full, where the reading in front of the next fetch finds the deadline passed, or where that fetch brings no message, so no flush holds messages from both sides of an interruption; every message up to the stop is in one batch; each batch is logged as its single commits of undecodable messages and one flush of exactly the others, in order; each flush is one run of the bulk writer, and what reaches Kafka is in this order for each flush its dead letters and then its commit; no more batches are flushed with room left than deadlines passed or fetches failed, and one at the end |
| `ConsumerLoop.Consumer.Accumulate` | services/workspace-service/internal/kafka/task_handler.go:61-89 | the inner loop takes messages until the batch is full, the deadline has passed, a fetch fails or the reader stops, and ends where BatchPlan.Fill ends |
| `BatchPlan.PlanMeans` | services/workspace-service/internal/kafka/task_handler.go:36-94 | position by position: the batches are stretches of messages, one behind the other, with consecutive clock readings, each closed for one of its three reasons; all messages in front of the first stop are in one of them |
| `BatchPlan.FillMeans` | services/workspace-service/internal/kafka/task_handler.go:61-89 | what the inner loop comes to from any batch that is open: in front of each message the batch had room and the clock was before the deadline, and it is closed only because it is full, late, or a fetch brought no message |
| `ConsumerLoop.Consumer.FlushBatch` | services/workspace-service/internal/kafka/task_handler.go:97-120 | a flush commits iff the writer returned no error, then exactly its own messages, and after it has handed each rejected row, or the message found by its id, to the dead-letter topic once |
| `ActsMeaning.RowFlushSends` | services/workspace-service/internal/kafka/task_handler.go:97-120 | act by act: one dead letter for each rejected row, in order, then the commit of exactly the messages of the flush; nothing after a lost connection |
| `ActsMeaning.MessageFlushSends` | services/workspace-service/internal/kafka/user_handlers.go:106-139 | in the user handler the dead letters are, for each rejected user, the first message of the batch with its id |
| `ActsMeaning.RejectedAreInBatch` | services/workspace-service/internal/kafka/user_handlers.go:123-133 | and there is such a message for every rejected user |
| `ConsumerLoop.Consumer.Take` | services/workspace-service/internal/kafka/task_handler.go:51-58 | one message goes into the batch or is committed on its own, and the books stay balanced |
| `ConsumerLoop.Consumer.FlushBuffered` | services/workspace-service/internal/kafka/task_handler.go:91-93 | what is buffered is flushed if there is anything, and the books stay balanced |
| `ConsumerLoop.Consumer.CommitUndecodable` | services/workspace-service/internal/kafka/user_handlers.go:62-66 | the user handler dead-letters an undecodable message, and then commits it |
| `ConsumerLoop.LosslessRun` | services/workspace-service/internal/kafka/task_handler.go:31-120 | a run without a lost connection: the table is that of the decodable messages taken one at a time, and every fetched message is committed exactly once |
| `ConsumerLoop.TaskLetters` | services/workspace-service/internal/kafka/task_handler.go:97-120 | its dead letters in the task handlers: exactly the rows that are rejected one at a time, in order |
| `ConsumerLoop.UserLettersOf` | services/workspace-service/internal/kafka/user_handlers.go:38-139 | its dead letters in the user handler: the undecodable messages and those found for rejected users, each once; the latter are, in order, the rejected users' own messages if and only if no rejected user shares its id with an earlier event of its flush |
| `ConsumerLoop.FoundAreOwnInRun` | services/workspace-service/internal/kafka/user_handlers.go:38-139 | the same for every log of flushes that explains a table, flush by flush |
| `ConsumerLoop.BatchingIsInvisible` | services/workspace-service/internal/kafka/task_handler.go:61-93 | where the batches were cut makes no difference to table and dead letters |
| `ConsumerLoop.Consumer.DeadLetter` | services/workspace-service/internal/kafka/user_handlers.go:123-133 | for each rejected user the search loop hands over the message of the first event with the id, and only that |
| `UserLetters.FoundAreOwn` | services/workspace-service/internal/kafka/user_handlers.go:123-133 | the messages handed over are the rejected users' own if and only if no rejected user shares its id with an earlier event of the batch |
| `UserLetters.TwinMisdirected` | services/workspace-service/internal/kafka/user_handlers.go:123-133 | the failing side is reached by any two events of one id of which only the second is rejected |
| `Uuid.ParseKeepsOrder` | services/workspace-service/internal/task/cache.go:33-34 | on canonical lower-case strings, string order is the order of the 128-bit numbers (sections 5.7 and 6.11 of RFC 9562), and equal ids are equal strings |
| `Uuid.StringOrderIsNumeric` | services/workspace-service/internal/project/service.go:225-236 | string comparison of two hexadecimal strings of one shape is comparison of their big-endian numbers |
| `Uuid.VersionDigit` | services/workspace-service/internal/task/cache.go:38-40 | the version compared with 7 is the digit in front of the third group |
| `Uuid.ScoreIsTimestamp` | services/workspace-service/internal/task/cache.go:41-43 | the shifted and or-ed bytes are the first 48 bits of the id, below 2^53 and so exact as a float64 |
| `Uuid.RfcExample` | services/workspace-service/internal/task/cache.go:33-44 | the example of appendix A.6 of RFC 9562 has the timestamp and score given there, and is of version 7 |
| `Uuid.ScoreMonotone` | services/workspace-service/internal/task/cache.go:33-44 | id order refines score order |
| `ColumnCache.TaskCache.AddTask` | services/workspace-service/internal/task/cache.go:109-135 | refuses ids that are not of version 7; else the hash is set and, if the column exists, the marker is removed, the task added and the column cut to its hundred largest |
| `ColumnCache.TaskCache.GetTaskIDs` | services/workspace-service/internal/task/cache.go:137-187 | the ids of the page below the cursor's bound, without the marker, or that the column is not cached |
| `ColumnCache.TaskCache.GetTaskMetas` | services/workspace-service/internal/task/cache.go:189-219 | the complete hashes of the ids in order, and the ids without one |
| `ColumnCache.TaskCache.SetColumnCache` | services/workspace-service/internal/task/cache.go:230-264 | replaces the column by the version 7 tasks under their scores, or by the marker, and sets the hashes |
| `ColumnCache.TaskCache.UpdateTaskStatus` | services/workspace-service/internal/task/cache.go:275-304 | sets the status, removes the task from the old column and adds it to the new one if that exists, cut to a hundred |
| `ColumnCache.TaskCache.InvalidateTasks` | services/workspace-service/internal/task/cache.go:306-313 | deletes the four columns of the project and nothing else |
| `ColumnMeaning.AddTaskMeans` | services/workspace-service/internal/task/cache.go:109-135 | the hash holds the task; a cached column holds the hundred newest, by timestamp and id, of its tasks and this one, in order; one that is not cached stays so, and nothing else changes |
| `ColumnMeaning.MoveMeans` | services/workspace-service/internal/task/cache.go:275-304 | the hash gets the status; the old column loses the task and nothing else; a cached new column holds the hundred newest of its tasks and this one; nothing else changes |
| `ColumnMeaning.LoadMeans` | services/workspace-service/internal/task/cache.go:230-264 | the column is exactly the given tasks of version 7 in order, the marker for an empty list, or deleted if no task has a score; their hashes hold them, and nothing else changes |
| `ColumnMeaning.InvalidateMeans` | services/workspace-service/internal/task/cache.go:306-313 | exactly the project's columns TODO, IN_PROGRESS, REVIEW and DONE go |
| `ColumnMeaning.PageMeans` | services/workspace-service/internal/task/cache.go:137-187 | a page is in descending order of ids; it holds tasks of the column before the cursor's millisecond, and leaves one out only if it is full and all on it are greater; a cursor that is not of version 7 bounds nothing |
| `ColumnMeaning.MetasMean` | services/workspace-service/internal/task/cache.go:189-219 | the tasks found are those of the complete hashes, the missing ids all others |
| `ColumnRuns.ColumnInvariant` | services/workspace-service/internal/task/cache.go:109-135 | in every interleaving of EXISTS checks, transactions, loads of at most a hundred rows, invalidations and expiry: a present column has 1 to 100 different members, the marker only alone with score -1, and every task of version 7 under its own timestamp |
| `ColumnRuns.StepKeeps` | services/workspace-service/internal/task/cache.go:275-313 | each single step keeps that invariant |
| `ColumnRuns.RunKeeps` | services/workspace-service/internal/task/cache.go:230-264 | so does every run, from any state that has it |
| `ColumnRuns.ExpiryLeavesFragment` | services/workspace-service/internal/task/cache.go:118-131 | one interleaving that leaves a present column with the added task alone: expiry between EXISTS and MULTI |
| `ColumnRuns.PruningIsGlobalSelection` | services/workspace-service/internal/task/cache.go:127-131 | pruning after every addition or move in equals one selection of the hundred greatest of all that was there or arrived |
| `ColumnRuns.LoadedColumnSelects` | services/workspace-service/internal/task/cache.go:236-256 | from a load on, the column holds the hundred greatest, by score and id, of all ids loaded or added |
| `ColumnWalk.BoundsAgree` | services/workspace-service/internal/task/cache.go:149-163 | ZSCORE and the timestamp in the cursor give the same bound |
| `ColumnWalk.CursorSurvivesRemoval` | services/workspace-service/internal/task/cache.go:149-163 | the page behind a cursor is the same after the cursor's task has left the column |
| `ColumnWalk.ForeignCursorStartsOver` | services/workspace-service/internal/task/cache.go:149-163 | a cursor that is not of version 7 finds no bound, so the first page is returned again |
| `ColumnWalk.WalkVisits` | services/workspace-service/internal/task/service.go:370-374 | a walk ends, is strictly descending, so never repeats an id, and yields exactly the ids that do not share the millisecond of a full page's last id while ranking below it |
| `ColumnWalk.CompleteIffDistinct` | services/workspace-service/internal/task/cache.go:165-186 | a walk is complete for every page size if and only if no two tasks of the column share a millisecond |
| `ColumnCompleteness.MissWalkIff` | services/workspace-service/internal/task/service.go:262-308 | a miss caches only the page it has read, so a walk that starts with a miss, at any cursor, shows every task that waits in the column below it if and only if all of them are on that page |
| `ColumnCompleteness.MissWalkCompleteIff` | services/workspace-service/internal/task/service.go:262-374 | where the hashes have no newer statuses than the table: if and only if at most `limit` rows of the column are below the first cursor |
| `ColumnCompleteness.FragmentWalkIff` | services/workspace-service/internal/task/cache.go:118-131 | after an addition whose column expired between EXISTS and MULTI, a walk shows every waiting task if and only if there is none but the added one |
| `TaskBoard.TaskService.GetTasksByProject` | services/workspace-service/internal/task/service.go:235-378 | the result has exactly the statuses TODO, IN_PROGRESS, REVIEW and DONE, or those of them that were asked for; every task shown has its status and is its complete hash, or else its row of the workspace; no id is shown under two statuses; the cache writes change nothing that is to be seen, and no other column; for different statuses, a column that is not cached shows, in order, the visible ones of the newest rows of workspace, project and status below the cursor, the last created first, and a cached one those of its greatest ids below the cursor; the last id of a full page is the next cursor |
| `BoardMeaning.DbPageMeans` | services/workspace-service/internal/task/repository.go:86-115 | the page of the query, in fields: at most `limit` rows of workspace, project and status with ids below the cursor, created_at descending and id descending; a row is left out only if the page is full and all on it are newer |
| `BoardMeaning.ViewMeans` | services/workspace-service/internal/task/service.go:278-291 | what is to be seen of an id is its complete hash, whatever the table says, and else its row in the workspace |
| `BoardMeaning.VisibleMeans` | services/workspace-service/internal/task/service.go:333-366 | what a list of ids shows: in their order, what is to be seen of exactly the ids whose status it is |
| `BoardMeaning.RepairedMeans` | services/workspace-service/internal/task/service.go:324-331 | a hit sets the hashes of exactly the missing ids that have a row, to that row |
| `TaskBoard.TaskService.ShowFromTable` | services/workspace-service/internal/task/service.go:262-308 | a miss shows the visible part of the database page and caches exactly what it shows |
| `TaskBoard.TaskService.Corrected` | services/workspace-service/internal/task/service.go:278-291 | the loops that let cached metadata override rows compute the visible part of the page |
| `TaskBoard.TaskService.ShowFromCache` | services/workspace-service/internal/task/service.go:317-368 | a hit shows the visible part of the cached ids in their order, and its repairs change no effective view |
| `TaskBoard.TaskService.LoadMissing` | services/workspace-service/internal/task/service.go:324-331 | reads and caches exactly the missing tasks that the table has, changing no view |
| `TaskBoard.TaskService.InOrder` | services/workspace-service/internal/task/service.go:333-348 | the search loops put cached and loaded tasks into the order of the ids |
| `TaskBoard.TaskService.ShowColumn` | services/workspace-service/internal/task/service.go:261-375 | one column is the visible part of its page on both paths |
| `TaskBoard.TaskService.GetTaskByID` | services/workspace-service/internal/task/service.go:110-127 | if the hash of the id is complete and of the workspace, that task, and the cache stays; else the row with the id and workspace, which is then cached; and none exactly if there is no such row |
| `TaskBoard.TaskService.UpdateTaskStatus` | services/workspace-service/internal/task/service.go:447-482 | not found exactly if neither a complete hash of the workspace nor a row has the id; refused or unavailable updates only cache the row; a published one of version 7 has moved the task that the lookup finds, from the status recorded there, as BoardMeaning.HasMoved says |
| `TaskViews.VisibleMembers` | services/workspace-service/internal/task/service.go:360-366 | what a column shows has its status and is the effective view of its id |
| `TaskViews.HSetAllKeepsViews` | services/workspace-service/internal/task/service.go:301 | caching a page of effective views changes no effective view in the workspace |
| `TaskViews.DbPageRows` | services/workspace-service/internal/task/repository.go:86-115 | the rows of a database page are rows of the table that match the query, and are found by their ids |
| `TaskViews.DbPageKeys` | services/workspace-service/internal/task/repository.go:86-115 | a database page is in descending order of creation time and id, and its keys are the first `limit` keys of the rows that match |
| `TaskViews.OnPageIff` | services/workspace-service/internal/task/repository.go:86-115 | a matching row is on the page if and only if fewer than `limit` matching rows rank above it |
| `TaskViews.AllOnPageIff` | services/workspace-service/internal/task/repository.go:86-115 | all matching rows are on the page if and only if there are at most `limit` |
| `StatusMove.StatusMoves` | services/workspace-service/internal/task/service.go:447-482 | after an undisturbed update of the task that is the complete hash of the workspace, or else the row: the effective status is the new one in every workspace, the task is in no sorted set of another column it was recorded in, and in the new column, cached or pre-warmed, if and only if fewer than a hundred of its tasks rank above it; old and new status may be equal |
| `BoardMeaning.MoveIsMeant` | services/workspace-service/internal/task/service.go:447-482 | in fields: the hash has the new status, the old column has lost this task and nothing else, a new column that was cached holds the hundred newest of its tasks and this one, one that was not those of the hundred newest rows of the table and this one, and all other columns stay |
| `StatusMove.PrewarmedIsPresent` | services/workspace-service/internal/task/service.go:473-479 | pre-warming leaves the column cached if and only if the page it loads is empty or has an id of version 7 |
| `StatusMove.OthersKeepTheirViews` | services/workspace-service/internal/task/service.go:473-482 | no other task's view changes, unless it is on the page that pre-warming loads |
| `StatusMove.PrewarmingRestoresRows` | services/workspace-service/internal/task/service.go:475-478 | on that page every other task is back at its raw row, whatever its hash held |
| `StatusMove.OthersViewIff` | services/workspace-service/internal/task/service.go:473-482 | another task's view in the workspace stays if and only if the target column is cached, or the task is not on the page that pre-warming loads, or its view agrees with its row there |
| `StatusMove.PrewarmingRevertsMove` | services/workspace-service/internal/task/service.go:475-478 | the failing side is reached: two tasks, of which one has been moved in the cache only; moving the other to its old column takes it back |
| `StatusMove.TargetColumn` | services/workspace-service/internal/task/cache.go:294-300 | the new column after the move is its tasks with this one inserted and cut to a hundred |
| `SortedSeq.SurvivesIff` | services/workspace-service/internal/task/cache.go:130 | an added member survives pruning if and only if fewer than a hundred members are greater |
| `SortedSeq.PruneInsert` | services/workspace-service/internal/task/cache.go:127-131 | pruning before an addition does not change what the next pruning keeps |
| `ListService.Service.GetPage` | services/workspace-service/internal/workspace/service.go:104-165 | hit or miss, for keys with no more rows than the load cap: the greatest ids of the key below the cursor, at most `limit`, in descending order; the last id of a full page as the cursor; on a miss the list is loaded, on a hit it stays; and the invariant is kept |
| `ListMeaning.WorkspacePages` | services/workspace-service/internal/workspace/service.go:104-165 | for a user with at most 10000 workspaces, after any run of creations, reads and expiries: each page is in descending order, has only rows of the user below the cursor, and leaves one out only if it is full and all on it are greater; the marker stands exactly for no rows |
| `ListMeaning.ProjectPages` | services/workspace-service/internal/project/service.go:155-223 | the same for workspaces with at most 1000 projects, whose lists never hold the marker |
| `ListMeaning.LoadMeans` | services/workspace-service/internal/workspace/service.go:112-134 | a load leaves the newest ids up to the cap in the list, in order, or the marker or no list if there are none, and changes no other list |
| `ListMeaning.AddedMeans` | services/workspace-service/internal/workspace/cache.go:45-75 | after an addition the list has its ids and the new one, in order, and no marker |
| `ListService.Service.Metadata` | services/workspace-service/internal/project/service.go:190-215 | entries with cached metadata, then those read from the table, then the sort: the ids of the page in order |
| `ListService.Service.Paginate` | services/workspace-service/internal/workspace/service.go:90-102 | the loop and the cut give the first `limit` entries below the cursor |
| `ListService.Service.LoadPage` | services/workspace-service/internal/workspace/service.go:112-134 | a miss loads and caches the newest rows and cuts the page from them |
| `ListService.Service.CreateEntry` | services/workspace-service/internal/project/service.go:118-131 | creation adds the row, and the id to a list that is cached, and keeps the invariant |
| `ListService.Service.AddID` | services/workspace-service/internal/workspace/cache.go:45-75 | adds to a list only if there is one, removing the marker |
| `ListService.Service.GetIDs` | services/workspace-service/internal/workspace/cache.go:164-234 | the ids below the cursor, largest first, without the marker |
| `ListService.Service.SetIDs` | services/workspace-service/internal/workspace/cache.go:236-276 | replaces the list by the ids; the marker, or no list, if there are none |
| `ListCache.ListsRefineDatabase` | services/workspace-service/internal/project/service.go:155-223 | for the workspace lists (cap 10000, marked) and the project lists (cap 1000, unmarked), after any run of atomic operations: up to the cap each page is that of the database query, a cached list is the database's id set, and the marker stands exactly for none |
| `ListCache.RunKeeps` | services/workspace-service/internal/workspace/cache.go:45-75 | over every run of atomic creations, reads and expiries of any keys, each cached list holds ids of the database and at least the newest up to the load cap |
| `ListCache.ListIsDatabase` | services/workspace-service/internal/project/cache.go:138-155 | up to the cap a cached list is the id set of the database, and the marker stands exactly for none |
| `ListCache.PageAgrees` | services/workspace-service/internal/workspace/service.go:323-384 | the page from the cache, or cut from a load, is that of `id < cursor ORDER BY id DESC LIMIT` |
| `ListCache.MissPageIff` | services/workspace-service/internal/project/service.go:163-184 | the page of a miss is the database page if and only if that page lies within what a load brings |
| `ListCache.HitPageIff` | services/workspace-service/internal/workspace/cache.go:164-234 | the page of a hit is the database page if and only if the list has every id of that page |
| `ListCache.BeyondCapDiffers` | services/workspace-service/internal/project/service.go:163-184 | the failing side is reached by every key with more ids than the cap |
| `ListWalk.WalkIsComplete` | services/workspace-service/internal/project/service.go:217-222 | a walk through all pages, with any creations, reads and expiries in between, yields in strictly descending order every id below its cursor that was there when it started, and nothing that never was |
| `ListRuns.StaleExistsIff` | services/workspace-service/internal/workspace/cache.go:45-59 | over the steps insertion, EXISTS, expiry, ZADD: every page of the list, for every size and cursor, is the database page afterwards if and only if the key had no other id |
| `ListOverlap.OvertakenAddIff` | services/workspace-service/internal/workspace/cache.go:45-59 | over insertion, EXISTS, any steps of others, and ZADD: every page of the list is the database page afterwards if and only if the list that ZADD found has every other id of the key |
| `ListRuns.RacingLoadIff` | services/workspace-service/internal/workspace/service.go:112-134 | over a load's query, any steps of others, and its write, up to the cap: every page is the database page afterwards if and only if no id of the key was created meanwhile, or the load found nothing and leaves no list |
| `ListRuns.AtomicCreation` | services/workspace-service/internal/workspace/cache.go:45-75 | with nothing in between, insertion, EXISTS and ZADD are the atomic creation |
| `ListRuns.AtomicLoad` | services/workspace-service/internal/workspace/service.go:112-134 | with nothing in between, query and write are the atomic load |
| `ListOverlap.RunSound` | services/workspace-service/internal/workspace/cache.go:45-75 | however creations, loads and expiries overlap, a cached list holds ids of the table only, in order, or the marker alone |
| `ListOverlap.RunTidy` | services/workspace-service/internal/project/cache.go:138-155 | in runs without an insertion between a load's query and write and without an expiry between a creation's EXISTS and ZADD, the newest ids are in each cached list, or a creation is about to add them |
| `ListOverlap.UndisturbedRefines` | services/workspace-service/internal/project/service.go:118-223 | after such a run, once no creation of the key is under way, each page within what a load brings is the database page |
| `SortedSeq.SubPage` | services/workspace-service/internal/workspace/service.go:90-102 | a page may be taken from any part of a list that contains it |
| `CommentPages.GetTaskComments` | services/workspace-service/internal/task/service.go:542-560 | the oldest comments of the task behind the cursor, at most `limit`, the oldest first, and none is left out unless the page is full; the last of them as a cursor if and only if more follow |
| `CommentPages.WalkIsAll` | services/workspace-service/internal/task/service.go:547-557 | the pages of a walk are all comments of the thread in order, and none is empty unless all are |
| `MembershipRuns.InvitationProtocol` | services/workspace-service/internal/workspace/service.go:227-276 | any number of acceptances, expiries and lookups, interleaved at every repository and cache call, with failing calls and crashes, in fields: one membership per workspace and user, each with workspace, address and role of an invitation; an accepted invitation's user is a member; a cached non-empty role is the database role; access was granted to owners and members in an allowed role only |
| `MembershipHistory.JoinedInTime` | services/workspace-service/internal/workspace/service.go:227-266 | every membership of a run goes back to a request of that user which, before it added the member, read an invitation to that workspace and role while it was pending and not past its date |
| `MembershipRuns.PendingIsLeftForGood` | services/workspace-service/internal/temporal/activity/workspace_activity.go:41-54 | a status that is not PENDING never becomes PENDING again |
| `Membership.RunKeeps` | services/workspace-service/internal/workspace/service.go:269-295 | the invariants from any state that has them, and that memberships and invitations only grow |
| `Membership.AcceptStepOk` | services/workspace-service/internal/workspace/service.go:227-295 | each step of an acceptance keeps the invariants and leads to a next step that may rely on what it read |
| `Membership.ExpireStepOk` | services/workspace-service/internal/temporal/activity/workspace_activity.go:41-54 | so does each step of an expiry |
| `Membership.RoleStepOk` | services/workspace-service/internal/task/service.go:77-107 | so does each step of a lookup, and what it grants is right |
| `Membership.AddMemberOk` | services/workspace-service/migrations/schema.sql:64 | a membership that the unique constraint lets in keeps the invariants |
| `MembershipRuns.LookupIff` | services/workspace-service/internal/workspace/cache.go:361-379 | an undisturbed lookup grants access if and only if the user is the owner, or a member in an allowed role whose role is not cached as empty; a field missing in a hash that exists counts as an empty role |
| `MembershipRuns.AcceptanceAlone` | services/workspace-service/internal/workspace/service.go:257-295 | an undisturbed acceptance adds the member, sets ACCEPTED and caches the role |
| `MembershipRuns.AcceptedForGoodIff` | services/workspace-service/internal/temporal/activity/workspace_activity.go:41-54 | an accepted invitation is still accepted after every run if and only if no request is about to write EXPIRED to it: an expiry that has read PENDING, or an acceptance that found it out of date |
| `MembershipRuns.ExpiryOverwritesAcceptance` | services/workspace-service/internal/temporal/activity/workspace_activity.go:44-53 | the failing side is reached: from a pending invitation, a run of an expiry that reads PENDING, an acceptance and the expiry's update ends in EXPIRED |
| `MembershipRuns.NegativeEntryOverwritesRole` | services/workspace-service/internal/task/service.go:83-86 | a lookup that found no role before an acceptance refuses the new member afterwards |
| `MembershipService.Service.AcceptInvitation` | services/workspace-service/internal/workspace/service.go:227-295 | the straight-line code is its own sequence of protocol steps; each answer exactly under its condition: not found, not pending, past its date, no user, another address, already a member, joined; only who joins becomes a member, with the invitation's workspace and role; past its date the invitation becomes EXPIRED, and ACCEPTED for a member or who joins |
| `MembershipService.Service.ExpireInvite` | services/workspace-service/internal/temporal/activity/workspace_activity.go:41-54 | the straight-line code is its own sequence of protocol steps; exactly a pending invitation becomes EXPIRED, and nothing else changes |
| `MembershipService.Service.CheckAccess` | services/workspace-service/internal/task/service.go:54-108 | the same for the access check: owners always, else by the cached role if there is a hash, and else members in an allowed role; it changes only this user's cached role, to the stored one or to the empty one |

## Left out

- BulkWriter.Database.ExecBatch: for the update statements its fold contract holds only if the ids of a batch are distinct (`TableEffects.UpdateIsSetOriented`); with repeated ids Postgres applies an unspecified one of the rows.
- BulkWriter.RecursiveWrite: the classification of an error as connection or data error by its text is an outcome of the statement; a timeout whose text is not listed counts as a data error in the code.
- SnapshotWriter.BulkSaveSnapshots: a cast error that Mongoose raises before sending anything is a failure behind an empty prefix.
- SnapshotWriter.UnsettledIff: is exact for all batches of a list's rows together.  One list with an unsettled handover may itself be saved right, for instance from a collection that accepts all of its rows; some batch of its rows is not, from some collection.
- TableEffects.UpsertResumes: where an id recurs with another e-mail, the condition is exact for the decision on each row; different decisions on equal rows may still add up to the same result.
- ConsumerLoop.Consumer.RunLoop: does not claim that Kafka's cumulative offset is safe.  Undecodable messages are committed before earlier buffered ones are flushed, and the loop goes on after a flush that was not committed, so a later commit can pass over them.  A failing commit or dead-letter write is logged by the code and not modelled.
- Errors of the Redis client in the column cache: the callers treat most of them like a miss.
- Times to live: a key may expire at any time.  A hash that the status update created holds the status only and reads as missing.
- Non-canonical ids: ids are lower-case canonical strings, as the services generate them; other forms that the parser accepts are not modelled.
- TaskBoard.TaskService.GetTasksByProject: the access check in front of it is `MembershipService.Service.CheckAccess`; Redis and database errors are left out, and the page size is at least 1, as the controllers ensure.
- The join with the assignee's name: it is one of the details of a row.
- StatusMove.StatusMoves: nothing happens between its cache steps; `ColumnRuns` covers what holds when something does.  The assignee and access check and the Kafka write are parameters.
- ListService.Service.GetPage: compares ids, not the other columns, since creation caches a workspace without its creation time; the order of entries with equal ids does not arise.
- The gap between ZREM and ZADD when an id is added to a list: they are one step, though the pipeline is not a transaction.
- MembershipService.Service.AcceptInvitation: an invitation is identified by its unique token; the members list and joined list in the cache and the notifications are left out.
- Creating tasks, UpdateFullTask, comment creation: single writes whose effect on the cache is AddTask or SetTaskMeta.
- Controllers, routing, cursors in base64, sessions, profiles, e-mails, sockets, metrics, start-up and deployment: input and output without the logic above.
- The notification service's buffered handlers: their delivery depends on client auto-commit and swallowed errors.
- JSON and time formats of hashes: reading back what was written is taken to be the identity on the fields used.

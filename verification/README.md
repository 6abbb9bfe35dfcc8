# Ledgerful: a verified model of its hard parts

Ledgerful keeps a provenance ledger beside a Git repository. Two Git hooks record why each commit was made, and
commands around them measure, import, list and prune. This project restates the parts of that logic whose correctness
cannot be read off one function body, and proves what the program relies on: over every run of a state machine, every
interleaving of two threads, every input text, every order of rows.

Code that changes state in the original is a class or method here (`HookRepo`, `TrendStore`, `Importer`, `IpcClient`,
`Disk`, `SyncDb`, loops over arrays, maps and stacks); each method is proved against a function or predicate, and the theorems are
lemmas about those. One module is one file, and `dafny verify dfyconfig.toml` checks them all.

| file | what it is about |
|---|---|
| `HookSidecar`, `HookTrail`, `HookCommands`, `HookSafety`, `HookPostCommit`, `HookAccounting` | the pending sidecar, the ledger, HEAD and COMMIT_EDITMSG as one machine with injected faults: the trail of a failed promotion, exactly when it is safe, and the books of the ledger |
| `CommitMessage` | the text both hooks hash to bind a transaction to a commit |
| `HookDeadline` | the post-commit worker, its two channels and the clock it shares with the main thread |
| `TrendRollup`, `TrendRace` | storing snapshots with retries, the daily rollup as a cache of the raw rows, and several hooks at once |
| `ProcessTree`, `FixtureWalk` | a benchmark's memory sum and the identity of its fixture |
| `Chunker`, `SemanticDedup` | overlapping UTF-8 chunks and the two levels of deduplication behind them |
| `BridgeModel`, `BridgeImport`, `BridgePacket`, `BridgeCommand`, `HotspotMerge`, `BridgeWire` | bridge records: import chain, the import command and its two files, score merge, wire framing |
| `EndpointDedupe`, `MountReduction` | one row per route, and the public mount all rows of a route agree on |
| `LineRanges`, `LinePrune`, `PruneLoop` | cutting approved line ranges out of files |
| `SyncClock`, `SyncApply` | applying peers' bundles in any order: tombstones, entries and their clocks |
| `ConfigKeys`, `UrlUserinfo`, `LockRelation` | pairs of computations that must agree, and a URL rewrite |
| `Order`, `Text`, `TextLines`, `Wrappers` | string order, the library sort, trimming and line splitting, option and result |

## What came out

Most of the promised properties hold as stated. Where one does not, the exact condition is proved instead.

- **Trail.** What protects a transaction is the mark on its sidecar, not the report that it was retained. A failed promotion
  is safe exactly if it leaves a mark (`HookSafety.LeavesMark`). It leaves none when the database does not open (the `?` at
  `src/commands/hook_post_commit.rs:182`) or when writing the mark is refused; both are reported as "trail retained", and the
  sidecar is discarded by the next post-commit hook once HEAD has moved. A marked orphan is lost by a single step exactly
  when one of two faults strikes (`HookSafety.DestroysOrphan`): the rewrite that should mark the sidecar is cut short
  (`write_pending_sidecar` truncates in place, although its comment calls it atomic enough), or the commit-msg hook cannot
  read the sidecar and so removes it as garbage (`src/commands/hook_commit_msg/gc.rs:135-148`). An unmarked sidecar of HEAD has
  a third enemy: the commit-msg hook reads HEAD best-effort, and when `git log` fails it rolls the transaction back as stale.
  `ledger hook-repair --force`
  writes the status `ROLLBACK`, which is not the `ROLLED_BACK` a rollback writes, and adds no ledger row; the model keeps the
  two apart. It cannot touch a resolved transaction, because the status update is restricted to pending rows
  (`crates/ledgerful-ledger/src/db/transactions.rs:119`).
- **Commit binding.** The commit-msg hook trims the whole message file before cleaning and hashing it; the post-commit hook
  cleans what `git log` prints. The two agree exactly when the subject line is not indented.
- **Chunker.** The loop ends on every text exactly when the window is at least 4 bytes and the overlap is either zero or at
  least 7 bytes smaller than the window. The program's windows (16,000 bytes and up) with its default overlap of 1,000 are inside.
- **Pruning.** Ranges are computed before the first edit, so a second removal in one file hits lines further down. For
  disjoint targets the result is what the report says exactly when no file had more than one successful removal; overlapping
  targets come out right also when all of them start at one line and one reaches the end of the file. A write that is cut short
  leaves a prefix of the new text, at worst nothing, and is reported as not removed.
- **Line ends.** `remove_line_range` keeps the bytes of the other lines exactly when none of them ends in CR LF and the file
  ends in a newline or keeps its last line.
- **Rollup.** Reading and writing a day's rollup are separate statements, so with two hooks at once the slower writer, an
  upsert or a catch-up, may put a superseded rollup back. The day is fresh exactly when the rows stored in between make no new
  latest snapshot of it, or one with the same rollup. A catch-up lists all its days at once, so its later days wait longest.
- **Snapshots.** Rows are stored one by one without a transaction, and the table has no unique key. A busy database part of the
  way leaves the part behind. The retry then takes it for the whole sample, because its commit is now known; or, if the look-up
  of the commit fails, which the program treats as not sampled, it stores the sample again after the part and reports it
  inserted. The sample is stored once and whole exactly when it is reported inserted and the second did not happen.
- **Import.** The report is written before the state. When saving the state fails, a retry merges the records a second time.
  For hotspots that is harmless, their rows are overwritten; insights, verifications and decisions are listed twice. Report and
  state agree exactly when no import that failed to save merged one of those three kinds, and every row such an import was the
  last to score ends with the score it would have had.
- **Sync.** Devices that agree on a transaction and then apply the same bundles, in any order and however often, agree on its
  tombstone and on which entry is live; and a bundle applied once changes nothing when it comes again. They need not agree on
  the status: an entry followed by an earlier tombstone leaves the transaction rolled back, the other order leaves it committed.
  Nor on whether a buried transaction exists: it does, rolled back, only where it was there before its tombstone. A bundle with an
  entry for a transaction that was never exported here fails as a whole, and whether it does can depend on the order. Clocks are
  also compared as text, which is their order only while they show with equal widths; past 10,000 clocks in a millisecond a live
  row can be marked rolled back.
- **Config keys.** The flat key list and the part-by-part walk disagree when the root has an empty key that leads to a table,
  because the separator is chosen by whether the prefix is empty, and when a dotted key leads where its parts do not. The exact
  condition is stated over the keys.
- **Wire.** A record of another version makes the whole response an error, so a response comes back exactly when all its
  records have version 0.3.

## Model

| member | source | states |
|---|---|---|
| HookSafety.RunKeepsTrail | src/commands/hook_sidecar.rs:78-119 | Never lose the trail of a marked orphan: along any run of post-commit, commit-msg, hook-repair, ledger commit, recovery, rollback and moves of HEAD and COMMIT_EDITMSG, with any faults but the two named above, it stays in the sidecar, marked and otherwise unchanged, until the ledger settles its transaction; a promotion that settles it records the original payload as Unverified (or without status when trivial). A sidecar bound to HEAD, marked or not, is kept in the same way while HEAD does not move and the commit-msg hook can read it |
| HookSafety.SafeExactlyWhenMarked | src/commands/hook_sidecar.rs:93-119 | An unsettled transaction stays tracked in every run free of those two faults if and only if the sidecar names it and is marked; being bound to HEAD is not enough |
| HookSafety.FailedPromotionStartsTrail | src/commands/hook_post_commit.rs:45-55 | A promotion that does not commit leaves its transaction safe in every such run if and only if it leaves a mark: its commit failed and the mark was written, or could not replace a mark that was there, or it stopped earlier on a sidecar already marked; and then any later promotion records the payload of this one |
| HookSafety.UnmarkedFailureIsLost | src/commands/hook_post_commit.rs:150-168 | A run without either fault that loses a transaction reported as retained: the database does not open, or the mark is refused, HEAD moves on, and the next post-commit hook discards the unmarked sidecar |
| HookSafety.UnmarkedFailureExists | src/commands/hook_post_commit.rs:182 | Such a repository and promotion exist |
| HookSafety.HeadBoundLostExactly | src/commands/hook_commit_msg/gc.rs:41-148 | An unmarked sidecar bound to HEAD is lost by a single step if and only if a mark is cut short, or the commit-msg hook, unable to read it, removes it or puts another in its place, or does so after rolling its transaction back because it could see neither HEAD nor a COMMIT_EDITMSG it belongs to |
| HookSafety.FailingGitLosesHeadBound | src/commands/hook_sidecar.rs:121-138 | A `git log` that fails in the commit-msg hook: the unmarked sidecar of HEAD is rolled back and removed, a marked one stays |
| HookSafety.CutShortMarkLosesOrphan | src/commands/hook_sidecar.rs:72-84 | A marked orphan that a cut-short mark destroys |
| HookSafety.UnreadableSidecarLosesOrphan | src/commands/hook_commit_msg/gc.rs:143-148 | A marked orphan that an unreadable sidecar destroys |
| HookSafety.StepKeepsTrail | src/commands/hook_sidecar.rs:93-119 | One step of any command keeps the trail of a marked orphan unless it is one of the two destroying faults, and of a sidecar of HEAD if moreover HEAD stays and is seen |
| HookSafety.OrphanLostExactly | src/commands/hook_sidecar.rs:72-85 | An unsettled orphan is lost by a step if and only if the mark is cut short or an unreadable sidecar is removed or overwritten |
| HookSafety.OrphanLeavesByOwnCommit | src/commands/hook_post_commit.rs:209-231 | Under the hooks a marked sidecar leaves only in the step that commits its own pending transaction, and that step adds exactly that row |
| HookCommands.RunRecordsUnverified | src/commands/hook_post_commit.rs:170-180 | Along every run no row a promotion adds claims verification, and it has no status if and only if the commit was trivial and its summary does not start with "[SKIPPED]" |
| HookCommands.PromotesExactly | src/commands/hook_post_commit.rs:125-231 | A promotion commits if and only if the sidecar can be compared with HEAD and belongs to it, the database opens and takes the commit of a pending transaction; then it adds one row with the payload of the sidecar and removes it, otherwise ledger and statuses stay |
| HookCommands.FailsExactly | src/commands/hook_post_commit.rs:150-263 | When it fails, discards, keeps an orphan or stops, what is left of the sidecar, and that a failure is critical if and only if the gate enforces |
| HookCommands.CleansUpExactly | src/commands/hook_commit_msg/gc.rs:41-133 | A left-over sidecar: kept for the message being committed; if it is marked or belongs to HEAD, the commit is blocked under enforce and let through under observe; otherwise rolled back and removed, or the commit is blocked |
| HookCommands.UnreadableIsRemoved | src/commands/hook_commit_msg/gc.rs:134-150 | A sidecar that cannot be read is removed |
| HookCommands.GarbageExactly | src/commands/hook_sidecar.rs:104-119 | Garbage is a sidecar that is not marked and whose message is neither HEAD's nor the one being written |
| HookCommands.RecordsExactly | src/commands/hook_commit_msg/record.rs:77-272 | The hook links to a pending transaction or starts a fresh one, unmarked; it records nothing when told never to, and is blocked then under enforce |
| HookCommands.RepairsExactly | src/commands/ledger/maintenance.rs:440-490 | A forced repair of garbage removes it and marks its transaction if that is pending, and nothing else ever changes |
| HookCommands.CommitsByHandExactly | src/commands/ledger/lifecycle.rs:140-190 | A commit by hand of a pending transaction adds its row and removes the sidecar if that is readable and its own |
| HookCommands.RecoversExactly | src/commands/ledger/lifecycle.rs:307-413 | Recovery promotes the sidecar of HEAD, if the ledger takes it, or changes nothing |
| HookCommands.AbandonsExactly | src/commands/ledger/lifecycle.rs:414-464 | An abandonment with a reason records it in a transaction of its own, rolls the orphan back if it is pending, and removes the sidecar |
| HookAccounting.RunAccounts | crates/ledgerful-ledger/src/db/transactions.rs:112-141 | After any run a committed transaction has exactly one committing row, a rolled back one exactly one rollback row, any other none: nothing is resolved twice, whatever is retried |
| HookAccounting.ResolvedIsFinal | src/ledger/transaction.rs:161-169 | Along any run a resolved transaction keeps its status and its rows, even if the sidecar could not be deleted after the commit |
| HookAccounting.LedgerIsAppendOnly | src/ledger/transaction.rs:153-186 | Along any run ledger rows are only appended |
| HookAccounting.StepAccounts | src/commands/ledger/lifecycle.rs:414-464 | Every single command keeps the books balanced, including an abandonment that stops between its own transaction and the rollback |
| HookPostCommit.HookRepo.PromotePendingLedgerTx | src/commands/hook_post_commit.rs:125-263 | The promotion, reading and rewriting the sidecar in place, is the promotion step of the trail machine on every branch |
| HookPostCommit.HookRepo.GcSidecar | src/commands/hook_commit_msg/gc.rs:33-153 | The clean-up of a left-over sidecar is its step of the machine: keep, block, roll back and remove, or remove |
| HookPostCommit.HookRepo.MarkPromoteFailed | src/commands/hook_sidecar.rs:79-84 | Marking changes nothing but the two marks and never deletes the file |
| HookPostCommit.HookRepo.Commit | src/ledger/transaction.rs:153-186 | A commit resolves exactly a pending transaction and appends its row, or changes nothing |
| HookPostCommit.HookRepo.Rollback | src/ledger/transaction.rs:500-532 | A rollback resolves exactly a pending transaction and appends its row, or changes nothing |
| CommitMessage.HookHashBindsExactly | src/commands/hook_commit_msg/execute.rs:56-59 | The text hashed from the trimmed message file is the text hashed from the stored commit, with any white space at its end, if and only if the subject is not indented |
| CommitMessage.IndentedSubjectDoesNotBind | src/commands/hook_commit_msg/execute.rs:56-59 | Every one-line message that is no comment, indented by a space, is hashed differently by the two hooks |
| CommitMessage.HashSurvivesGit | src/util/text.rs:5-18 | Git's whitespace clean-up and whatever newlines are stored and printed after the message do not change the cleaned text |
| CommitMessage.CleanIsIdempotent | src/util/text.rs:15-18 | Cleaning a cleaned message changes nothing |
| CommitMessage.CleanedMeans | src/util/text.rs:15-47 | A cleaned message holds the lines that are neither blank nor start with '#', in order and trimmed at their ends, with single blank lines between some of them and none around |
| CommitMessage.Clean | src/util/text.rs:19-47 | The loops compute the cleaned text: comments dropped, lines trimmed, blank runs collapsed, both ends trimmed |
| CommitMessage.TidyFirst | src/util/text.rs:26-44 | Collapsing and trimming blank lines before comments are dropped makes no difference to doing it after |
| HookDeadline.DeadlineContract | src/commands/hook_post_commit.rs:62-118 | In every interleaving: main's waits together use at most the shared ten seconds, it gives up only at the deadline or when the worker is gone, at most one warning is printed, the deadline warning exactly when a spawned worker had sent nothing by the time the wait ended, whatever was sent by then is what is reported, and the worker indexes only after sending its outcome with a second left |
| HookDeadline.WorkerGoesOn | src/commands/hook_post_commit.rs:80-97 | A worker that still has a second after sending goes on to catch up and to index, one that has not reports that it is done |
| HookDeadline.RunKeepsInv | src/commands/hook_post_commit.rs:72-118 | The clock, reporting and ordering invariants hold in every reachable state, worker death included |
| HookDeadline.MainProgress | src/commands/hook_post_commit.rs:105-118 | Main can always move or is in a wait that ends within the rest of the budget; its own steps bring it closer to returning |
| HookDeadline.MainTakesAtMostEightSteps | src/commands/hook_post_commit.rs:99-118 | No run holds more than eight steps of main |
| TrendRollup.RunKeepsAgreement | src/commands/hook_post_commit.rs:500-520 | After any run of inserts, best-effort upserts and catch-ups, every day whose last insert was followed by its upsert or reached by a catch-up holds the rollup of its latest snapshot |
| TrendRollup.UpsertedRunsAgree | src/commands/hook_post_commit.rs:500-520 | If every insert that stores rows succeeds and is upserted, no day is ever stale |
| TrendRollup.CatchUpAgrees | src/commands/hook_post_commit.rs:630-707 | Catch-up writes what the upsert would, also for the day its cutoff falls into, leaves days entirely before the cutoff alone, and is idempotent |
| TrendRollup.CutoffKeepsLatest | src/commands/hook_post_commit.rs:641-648 | A cutoff inside a day does not change the day's latest snapshot if any row of the day survives it |
| TrendRollup.LatestIsLatest | src/commands/hook_post_commit.rs:582-590 | The recursive maximum is the latest instant of the day at or after the cutoff, present in the table, or the day has none |
| TrendRollup.FreshMeans | src/commands/hook_post_commit.rs:578-628 | A fresh day of 24 hours holds, of the rows at its latest instant, their number, the number of files with a normalised score of 3 or more, and their score |
| TrendRollup.SnapshotOfRows | src/commands/hook_post_commit.rs:591-600 | A snapshot holds file and score of exactly the rows of its instant, in order |
| TrendRace.SharedRunsAgree | src/commands/hook_post_commit.rs:578-628 | And at any later time, until its rollup is written again: the day is fresh if and only if the rows stored since the read make no new latest snapshot of it, or one with the same rollup |
| TrendRace.UpsertFreshExactly | src/commands/hook_post_commit.rs:582-627 | Whatever other hooks do between an upsert's read and its write, the day is fresh afterwards if and only if the rows stored in between make no new latest snapshot of it, or one with the same rollup |
| TrendRace.CatchUpFreshExactly | src/commands/hook_post_commit.rs:641-704 | The same for each day of a catch-up, the first or a later one, from the listing of all the days to the write of this one |
| TrendRace.SharedCatchUpsAgree | src/commands/hook_post_commit.rs:641-704 | And at any later time, until the day is written again, by the rows stored since the listing |
| TrendRace.UpsertGoesStale | src/commands/hook_post_commit.rs:582-627 | The run insert, read, insert, write ends with a stale day |
| TrendRace.CatchUpGoesStale | src/commands/hook_post_commit.rs:641-704 | So does a catch-up that listed the day before the second insert |
| TrendRace.SecondDayGoesStale | src/commands/hook_post_commit.rs:663-704 | A catch-up over two days: a snapshot of the second, stored while it works on the first, leaves the second stale |
| TrendRollup.TrendStore.UpsertProjectTrendDay | src/commands/hook_post_commit.rs:578-628 | Sets the day's row to the rollup of its latest snapshot and touches no other day |
| TrendRollup.TrendStore.CatchUpProjectTrends | src/commands/hook_post_commit.rs:637-707 | Rewrites exactly the days with a row since the cutoff, in any query order |
| TrendRollup.TrendStore.InsertHotspotTrends | src/state/storage/hotspot_trends.rs:68-138 | One attempt: nothing for a known commit or a sample equal to the previous one, else the rows up to the one the database refuses |
| TrendRollup.TrendStore.InsertHotspotTrendsWithRetry | src/state/storage/hotspot_trends.rs:18-53 | Up to four attempts while the database is busy |
| TrendRollup.SnapshotStoredExactly | src/state/storage/hotspot_trends.rs:18-138 | A new sample of a new commit, whatever the attempts meet: unless the look-up of the commit fails right after an attempt that stored a part, exactly the rows of the first attempt that stored any are there, all of them if and only if the outcome is inserted; if it does fail then, that part is followed by what the later attempts store, the whole sample when the outcome is inserted. With distinct files the sample is there once and whole if and only if the outcome is inserted and that did not happen |
| TrendRollup.FaultlessAttempt | src/state/storage/hotspot_trends.rs:68-138 | An attempt without a fault stores nothing if and only if some row has the commit, or the rows at the last instant of the table are the new sample once both are sorted by path; otherwise it stores one row for each file |
| TrendRollup.FourthAttemptStores | src/state/storage/hotspot_trends.rs:18-53 | After three attempts on a busy database the fourth still stores |
| TrendRollup.PartialSnapshotIsDeduped | src/state/storage/hotspot_trends.rs:76-89 | A busy database after the first of several rows: that row stays, and the retry reports success |
| TrendRollup.BlindRetryStoresTwice | src/state/storage/hotspot_trends.rs:76-82 | The same, and the look-up of the commit fails once: the first row is stored twice and the outcome is inserted |
| TrendRollup.HighRiskCountFromHotspots | src/commands/hook_post_commit.rs:556-571 | The map of best scores counts the distinct files with some score at the threshold |
| TrendRollup.ProjectScoreFromHotspots | src/commands/hook_post_commit.rs:541-552 | Average of the normalised scores times twenty, within 0 and 100 |
| TrendRollup.ScoreOfOne | src/commands/hook_post_commit.rs:541-552 | The score of one file is its normalised score times twenty, cut off at 0 and 100 |
| TrendRollup.ScoreIsAverage | src/commands/hook_post_commit.rs:541-552 | The score of two snapshots together is their average weighted by size, unless one of the three is cut off |
| ProcessTree.TreeRss | src/commands/bench.rs:477-508 | The walk ends on any rows, cyclic or not, and for unique pids returns the saturated memory of exactly the pids whose parent chain first meets the root after 1 to 32 steps |
| ProcessTree.CountedByChain | src/commands/bench.rs:485-506 | Counted is exactly every process with a chain of 1 to 32 parents that meets the root only at its end |
| ProcessTree.SumByRow | src/commands/bench.rs:499-504 | A counted row adds its memory to the sum, any other nothing |
| ProcessTree.RowOrderIrrelevant | src/commands/bench.rs:476-508 | That sum does not depend on the order of the rows |
| ProcessTree.DepthUnique | src/commands/bench.rs:485-493 | With unique pids a process has one depth, so the cap cannot depend on the visiting order |
| ProcessTree.CountedIsSeen | src/commands/bench.rs:487-506 | Once everything above the cap is expanded, every counted process has been seen |
| ProcessTree.IndexChildren | src/commands/bench.rs:478-483 | The child lists hold exactly the rows of each parent, in row order |
| ProcessTree.VisitKids | src/commands/bench.rs:494-505 | Visiting the children of a popped process keeps what the walk has established |
| FixtureWalk.BuildOutputIsInvisible | src/commands/bench.rs:804-870 | Trees that differ only inside skipped directories, presence included, have the same sorted path list |
| FixtureWalk.ListsExactlySource | src/commands/bench.rs:804-870 | By names and files alone: the sorted list holds exactly the leaves no step of whose path is `.git`, `.ledgerful`, a `node_modules` directory, or a `target` directory beside `Cargo.toml`, `pom.xml` or `build.sbt` or on an sbt `project` chain |
| FixtureWalk.AddedOutputIsInvisible | src/commands/bench.rs:833-870 | Adding any of these, with any contents, anywhere in a tree leaves its list the same |
| FixtureWalk.RendersNames | src/commands/bench.rs:850-851 | A path is recorded with one slash between its names |
| FixtureWalk.FixtureWalkIsExact | src/commands/bench.rs:833-870 | The walk lists exactly the leaves no step of whose path is skipped, each once |
| FixtureWalk.WalkFindsKept | src/commands/bench.rs:838-867 | Below any directory reached, a path is listed if and only if it is kept |
| FixtureWalk.PruneKeepsKept | src/commands/bench.rs:804-809 | Deleting everything skipped changes neither which directories are build roots nor which leaves are kept |
| FixtureWalk.SameKeptSameList | src/commands/bench.rs:511-525 | Trees that keep the same leaves have the same sorted list |
| FixtureWalk.SbtMetaProjectDir | src/commands/bench.rs:811-832 | The climb ends, never looks above the root, and finds a `build.sbt` above a chain of `project` directories if and only if there is one |
| FixtureWalk.TargetParentIsBuildRoot | src/commands/bench.rs:804-809 | A directory is a build root by one of three files or by its sbt chain |
| FixtureWalk.CollectRelativePaths | src/commands/bench.rs:833-870 | The recursive loop appends the rendered walk to what it was given |
| FixtureWalk.FixturePaths | src/commands/bench.rs:511-514 | What the fixture id hashes is that list, sorted |
| Chunker.TerminatesExactly | src/ai/semantic_extractor.rs:672-694 | The loop ends on every text (equivalently on every text longer than the window) if and only if the window is at least 4 and the overlap zero or at least 7 smaller |
| Chunker.StallingTextStalls | src/ai/semantic_extractor.rs:685-687 | Otherwise a valid text longer than the window on which the first turn goes nowhere |
| Chunker.StartAdvances | src/ai/semantic_extractor.rs:683-692 | Inside the bound the fallback is never taken, the next start lies after this one and at most three bytes before the asked-for overlap |
| Chunker.EndsIncrease | src/ai/semantic_extractor.rs:675-692 | Inside the bound chunk ends strictly increase |
| Chunker.FloorIsNear | src/ai/semantic_extractor.rs:677-684 | Flooring to a character boundary moves back at most three bytes |
| Chunker.FloorIsLast | src/ai/semantic_extractor.rs:677-684 | It gives the last boundary not after the index |
| Chunker.BoundariesByByte | src/ai/semantic_extractor.rs:677-684 | A position is a boundary unless its byte is 0x80 to 0xBF; lengths are those of RFC 3629, section 4 |
| Chunker.FallsBackByOne | src/ai/semantic_extractor.rs:685-687 | When no later boundary is far enough back, the next chunk starts one byte on if that is a character, else here again |
| Chunker.SpansCover | src/ai/semantic_extractor.rs:672-694 | Spans lie on boundaries within the window, starts and ends increase, neighbours overlap by the asked-for amount up to three bytes more, and the last ends the text |
| Chunker.SpansRebuild | src/ai/semantic_extractor.rs:672-694 | Dropping the overlaps rebuilds the text exactly |
| Chunker.EndsExactly | src/ai/semantic_extractor.rs:675-692 | On a given text the loop ends if and only if every turn moves forward |
| Chunker.RebuildsExactly | src/ai/semantic_extractor.rs:672-694 | Whenever the loop ends, inside the bound or not, its chunks rebuild the text if and only if the window is not zero |
| Chunker.ChunkContent | src/ai/semantic_extractor.rs:672-694 | Whenever it ends, the loop returns the slices of its spans |
| Chunker.FileChunks | src/ai/semantic_extractor.rs:137-151 | For every context window and every overlap, on every file on which splitting ends: no chunk exceeds the window and the chunks rebuild the file |
| Chunker.FilesEndExactly | src/ai/semantic_extractor.rs:137-151 | Splitting ends on every file if and only if the overlap is at least 7 below the window, as the default of 1,000 is |
| Chunker.WindowSizes | src/ai/semantic_extractor.rs:137-145 | 16,000 bytes below 16,000 tokens of context, 32,000 below 64,000, else 96,000 |
| SemanticDedup.TwoLevelsAreOne | src/ai/semantic_extractor.rs:251-258 | Deduplicating every file and then the batch equals deduplicating everything at once |
| SemanticDedup.DedupIsDedup | src/ai/semantic_extractor.rs:696-726 | The result is strictly sorted and holds, for every key and no other, its first element |
| SemanticDedup.NodesAreFirsts | src/ai/semantic_extractor.rs:700-712 | Of the nodes exactly the first of every id is kept, in the order of the ids |
| SemanticDedup.EdgesAreFirsts | src/ai/semantic_extractor.rs:713-726 | Of the edges exactly the first of every source, target and relation, in that order |
| SemanticDedup.FilesByChunk | src/ai/semantic_extractor.rs:157-175 | A file contributes the nodes and edges of its successful chunks, one chunk after the other |
| SemanticDedup.DedupUnique | src/ai/semantic_extractor.rs:696-726 | Only one list is strictly sorted and holds those elements |
| SemanticDedup.DedupIdempotent | src/ai/semantic_extractor.rs:696-726 | Deduplicating twice changes nothing |
| SemanticDedup.KeepFirstKeepsFirst | src/ai/semantic_extractor.rs:700-706 | The seen-set loop keeps the first element of every key |
| SemanticDedup.Deduplicate | src/ai/semantic_extractor.rs:696-726 | Nodes by id, edges by source, target and relation, each deduplicated as above |
| SemanticDedup.ExtractFromFile | src/ai/semantic_extractor.rs:153-191 | A file yields the deduplication of its chunks' results in order; a failed chunk adds nothing |
| SemanticDedup.ExtractBatch | src/ai/semantic_extractor.rs:193-259 | A batch yields the flat deduplication of every chunk of every file |
| BridgeCommand.RunIsOneImport | src/bridge/import.rs:41-260 | Any sequence of imports, whatever fails, leaves the state one import of the surviving lines leaves, with an unbroken chain across files; or a torn state file, exactly if a write of it was cut short |
| BridgeImport.TwoImportsAreOne | src/bridge/import.rs:60-164 | Importing two files in turn is importing their concatenation: same records, state and counts |
| BridgeImport.ImportIsLinked | src/bridge/import.rs:68-92 | Every accepted record with a parent names the hash of the record accepted just before it, and state is the last hash and the strictest privacy |
| BridgeImport.StrictestIsStrictest | src/bridge/model.rs:38-42 | The combined privacy is at least as strict as every record and no stricter than one of them |
| BridgeImport.StrictestByName | src/bridge/model.rs:21-42 | The combined privacy is Sealed if and only if one of those combined is, else Private if one is, else ProjectLocal, else Public |
| BridgeCommand.StrictestWins | src/bridge/import.rs:90-94 | The same of the privacy stored after any run of imports whose state is not torn, with the one stored before and those of all accepted records |
| BridgeImport.LineDecides | src/bridge/import.rs:60-94 | A line that is not blank, parses and is of version 0.3 is accepted if and only if it names no parent or the last accepted hash, and counted as rejected otherwise; any other line leaves no trace |
| BridgeCommand.PrivacyNeverLoosens | src/bridge/import.rs:90-94 | No sequence of imports makes the stored privacy less strict |
| BridgeImport.NothingAcceptedChangesNothing | src/bridge/import.rs:171-180 | The early return without saving loses no state |
| BridgeCommand.Importer.Line | src/bridge/import.rs:60-164 | One turn of the loop on state, counters and vectors is one step of the automaton |
| BridgeCommand.ExecuteImport | src/bridge/import.rs:41-260 | The command leaves on disk the state and the report its specification prescribes, hotspot rows rescored in place included, on every branch and fault |
| BridgeCommand.ResultMeans | src/bridge/import.rs:171-180 | Nothing accepted is told apart by whether something was rejected and changes nothing; imported means the state is saved; each failure names the read that failed |
| BridgeCommand.OtherReportsStay | src/bridge/import.rs:219-233 | A clean-tree report, or none, is left as it is |
| BridgeCommand.ReportHoldsApplied | src/bridge/import.rs:187-216 | The report ends as one merge of exactly what the imports that got past it accepted, saved or not, leaves it: three vectors extended, hotspot rows rescored; or torn, exactly if a write of it was cut short |
| BridgeCommand.ReportAgreesExactly | src/bridge/import.rs:187-257 | Report and state agree if and only if no import that failed to save the state merged an insight, a verification or a decision, and every hotspot row such an import was the last to score ends with the score it would have had |
| BridgeCommand.RetryMergesTwice | src/bridge/import.rs:187-257 | With at least one insight, verification or decision, a failed save and a retry move the state once and extend the report twice; the hotspot rows are those of one merge |
| BridgeCommand.RetryOfHotspotsIsHarmless | src/bridge/import.rs:187-257 | With hotspot records alone a failed save and a retry leave exactly what one import leaves |
| BridgePacket.MergeInTwo | src/bridge/import.rs:191-199 | Merging in two goes, rows included, is merging at once |
| BridgePacket.CollectsOne | src/bridge/import.rs:95-160 | What one record of each kind adds to which list; a failed verification shows as exit code 1 |
| HotspotMerge.MergeImportedHotspots | src/bridge/import.rs:269-311 | Every row ends with the score of the last valid line for its path, unchanged otherwise; the counters are the rows touched and the lines skipped and invalid |
| HotspotMerge.ApplyLine | src/bridge/import.rs:290-301 | One line rewrites exactly the rows of its path and reports whether there were any |
| HotspotMerge.CountsPartition | src/bridge/import.rs:276-305 | Every line counts once, as matched, skipped or invalid |
| HotspotMerge.LastScoreExists | src/bridge/import.rs:276-305 | A row is touched if and only if some valid line has its path |
| HotspotMerge.MergedRowMeans | src/bridge/import.rs:276-301 | Both scores of a row become those of the last line for its path with a usable score, nothing else of it changes |
| HotspotMerge.CountsMean | src/bridge/import.rs:276-305 | Invalid are the lines with a path but no usable score, skipped those without a path or with a path no row has |
| HotspotMerge.MergeSplits | src/bridge/import.rs:269-311 | Merging in two goes gives the same rows as merging at once |
| HotspotMerge.MergeTwiceIsOnce | src/bridge/import.rs:269-311 | Merging the same lines again changes no row |
| BridgeWire.RoundTripExactly | src/bridge/ipc.rs:96-124 | What was sent, closed by the end or a blank line, is received as exactly that list if and only if every record has this version |
| BridgeWire.ReceiveSent | src/bridge/model.rs:157-180 | Otherwise the response is the version error |
| BridgeWire.IpcClient.SendRecord | src/bridge/ipc.rs:96-102 | Appends one framed record to the stream |
| BridgeWire.IpcClient.ReceiveRecords | src/bridge/ipc.rs:104-124 | Returns the records before the first blank line or the end, or the first error |
| EndpointDedupe.OrderIndependent | src/commands/endpoints.rs:91-120 | With distinct ids every arrangement of the rows gives the same list |
| EndpointDedupe.ChangedListingIsFilteredListing | src/commands/endpoints.rs:225-236 | The `--changed` listing is the full listing filtered by key |
| EndpointDedupe.FilterCommutes | src/commands/endpoints.rs:225-236 | Filtering and deduplicating commute |
| EndpointDedupe.Idempotent | src/commands/endpoints.rs:91-120 | A deduplicated list is its own deduplication |
| EndpointDedupe.BetterIsStrictOrder | src/commands/endpoints.rs:124-156 | Keep-best is a strict order, total on rows with different ids |
| EndpointDedupe.BestSnoc | src/commands/endpoints.rs:94-111 | One turn of the loop keeps the map of unique bests |
| EndpointDedupe.DedupeEndpointRows | src/commands/endpoints.rs:91-120 | One best row for every key that occurs, sorted, whatever order the map yields |
| EndpointDedupe.DedupeKeepsBest | src/commands/endpoints.rs:85-156 | By the fields of the rows: every upper-case method, path and framework once, by a row of the input that none of its route outdoes in confidence, then in having a handler, then in its order, then by a lower id; listed by path, method, framework and id |
| EndpointDedupe.KeepMembers | src/commands/endpoints.rs:225-233 | The `--changed` filter keeps exactly the rows whose upper-case method and path changed |
| MountReduction.ReduceProductMounts | src/commands/endpoints.rs:587-615 | Nest or literal exactly when the rows are non-empty and agree on that mount, ambiguous exactly when two differ, unknown otherwise |
| MountReduction.ReductionMeans | src/commands/endpoints.rs:523-615 | By the rows: a nest if all have one prefix and mount at one path, a literal if all are Axum routes of one pattern without a prefix, unknown if none is either, ambiguous if two differ; and which files are listed |
| MountReduction.JoinsWithOneSlash | src/commands/endpoints.rs:467-474 | Prefix and path are joined by one slash, the slashes at the end of the prefix taken off |
| MountReduction.AcceptsExactly | src/commands/endpoints.rs:554-570 | Accepted are relative paths with forward slashes, a leading "./" taken off: not empty, not absolute, without a drive letter |
| MountReduction.ReductionIsOrderIndependent | src/commands/endpoints.rs:587-615 | Row order does not matter |
| MountReduction.AmbiguousStaysAmbiguous | src/commands/endpoints.rs:587-615 | More rows never resolve an ambiguity |
| MountReduction.RouteFilesFrom | src/commands/endpoints.rs:572-585 | Exactly the accepted files of the rows, strictly sorted |
| MountReduction.RouteFilesUnique | src/commands/endpoints.rs:572-585 | Only one list is that |
| LineRanges.SortedRemovalsExactly | src/commands/dead_code.rs:365-412 | For ranges in the order of their first lines, overlapping or not: exactly the named original lines are gone if and only if at most one removal succeeded, or all that did start at one line and one reaches the end of the file |
| LineRanges.ExactIffOneRemoval | src/commands/dead_code.rs:365-412 | For disjoint ascending ranges: if and only if at most one removal succeeded |
| LineRanges.LaterRangeIsShifted | src/commands/dead_code.rs:376-412 | After one removal the next range hits the original lines that many further down |
| LineRanges.OneRemovalIsExact | src/commands/dead_code.rs:503-520 | One removal takes exactly the lines it names |
| LineRanges.RemovesExactly | src/commands/dead_code.rs:490-526 | A removal fails on line 0, on a range that ends before it starts and on one past the end; otherwise exactly the lines around it stay, or one blank line |
| LinePrune.OtherBytesKeptExactly | src/commands/dead_code.rs:501-532 | The bytes of all other lines survive if and only if none of them ends in CR LF and the file ends in a newline or keeps its last line; if none remain, one newline is left |
| LinePrune.CrLfIsRewritten | src/commands/dead_code.rs:520-532 | Removing the second of two lines that end in CR LF also rewrites the end of the first |
| LinePrune.EditableRemoval | src/commands/dead_code.rs:490-538 | On a file whose lines read back as themselves, CR LF or not, with a final newline or without an empty line, the edit is the removal of lines, and the file stays such a file |
| PruneLoop.PruneIsExactly | src/commands/dead_code.rs:376-414 | The loop over sorted targets, overlapping or not, leaves each such file, unless a write to it is cut short, without exactly the reported lines if and only if it reported at most one removal there, or removals from one line on of which one reaches the end |
| PruneLoop.PruneIsExactIffOnePerFile | src/commands/dead_code.rs:376-414 | When no two targets of the file share a line and no write to it is cut short: if and only if it reported at most one removal there |
| PruneLoop.SecondRemovalMisses | src/commands/dead_code.rs:376-414 | Two approved, disjoint targets in a file of three lines: lines 1 and 2 are reported, 1 and 3 are removed |
| PruneLoop.CutShortIsUnreported | src/commands/dead_code.rs:532-535 | A write cut short reports nothing and leaves a prefix of what was to be written, at worst an empty file |
| PruneLoop.FileByFile | src/commands/dead_code.rs:376-414 | Unless a write to it is cut short, what the loop does to a file depends only on the approved targets of that file |
| PruneLoop.SortedTargetsAscend | src/commands/dead_code.rs:365-369 | Sorting puts the disjoint ranges of each file in ascending order, whatever is approved |
| PruneLoop.BuildPruneTargets | src/commands/dead_code.rs:329-372 | The targets are the findings strictly above the threshold with both lines known, sorted by file and line |
| PruneLoop.EligibleExactly | src/commands/dead_code.rs:329-364 | A target is there if and only if some finding with its symbol, file, lines and confidence has that confidence strictly above the threshold |
| PruneLoop.Disk.RemoveLines | src/commands/dead_code.rs:490-538 | The edit of a file on disk is the text operation, nothing if the file cannot be read or opened, or a prefix of it if the write is cut short |
| PruneLoop.Disk.RunPruneLoop | src/commands/dead_code.rs:376-414 | The loop leaves the files and reports the removals its specification says, and a failing prompt ends it with an error |
| SyncApply.BundlesConverge | src/sync/apply.rs:17-152 | Two databases that agree on a transaction and apply the same bundles, in any order and any number of times, end with the same tombstone clock and the same live entry of it, or none, whatever else they hold and whichever other bundles failed |
| SyncApply.ReapplyChangesNothing | src/sync/mod.rs:371 | A bundle that was applied and comes again, at once or after any others, changes nothing and reports every entry as skipped |
| SyncApply.AllApplyExactly | src/sync/apply.rs:96-105 | All bundles of a run are applied if and only if none brings an entry, not under a tombstone by then, for a transaction whose ledger row has no clock |
| SyncApply.BlockedBundleDiverges | src/sync/apply.rs:96-105 | Two bundles of which one fails in one order only: afterwards an entry for an unrelated transaction is there or not |
| SyncApply.OrderDoesNotMatter | src/sync/apply.rs:28-123 | The same for the operations on one transaction, its row stamped or not |
| SyncApply.LiveExactly | src/sync/apply.rs:28-123 | The tombstone kept is the latest, and the ledger row is live if and only if the latest entry is later still, and then has its clock |
| SyncApply.NewestEntryWins | src/sync/apply.rs:103-121 | An entry later than everything else ends in every row of its transaction, wherever it comes in the order, unless a tombstone that takes effect after it shows as later; its status is committed unless some tombstone takes effect after it |
| SyncApply.CommittedExactly | src/sync/apply.rs:57-61 | Its transaction ends committed if and only if every tombstone that comes after it is no later than one that came before, and it did not meet a transaction without rows under another status |
| SyncApply.NewestEntryIsKept | src/sync/apply.rs:62-70 | If the clocks show with one width, its rows keep what it brought |
| SyncApply.OrderShowsInStatus | src/sync/apply.rs:57-61 | An entry and an earlier tombstone: one order ends rolled back, the other committed |
| SyncApply.NewestTombstoneWins | src/sync/apply.rs:46-71 | After a tombstone later than everything else the transaction is rolled back, its rows marked as far as they show as earlier, if and only if it was there before or an entry of it came before any tombstone as late as itself; otherwise it does not exist |
| SyncApply.OrderShowsInExistence | src/sync/apply.rs:57-61 | An entry and a later tombstone: one order leaves a rolled back transaction with its row, the other none |
| SyncApply.WidthShowsInRow | src/sync/apply.rs:62-70 | A tombstone at 9999 and an entry at 10000 of one millisecond: the live row is marked rolled back |
| SyncApply.RowsKeepFixed | src/sync/apply.rs:158-203 | No update touches the origin and the fixed columns of a row; a first row comes from a peer, with those of the first entry not buried when it came |
| SyncApply.BuriedMeans | src/sync/apply.rs:62-70 | A tombstone marks exactly the rows whose clock shows as earlier, with its reason |
| SyncApply.TombstonesComeFirst | src/sync/apply.rs:28-93 | An entry that a tombstone of its own bundle buries never gets in |
| SyncApply.CountsByEffect | src/sync/apply.rs:89-122 | An entry counts as skipped if nothing changes, inserted if it brings the first row, updated if it changes one |
| SyncApply.FailsExactly | src/sync/apply.rs:95-106 | A bundle fails if and only if it brings an entry, not under a tombstone by then, for a transaction whose ledger row has no clock |
| SyncApply.DeliveriesArePointwise | src/sync/apply.rs:28-123 | What a bundle does to a transaction depends only on its own operations in it |
| SyncApply.SyncDb.Apply | src/sync/apply.rs:17-156 | The loops leave the tables, the counts and the apply clock their specification gives, or on failure everything as it was |
| SyncApply.ProcessEntry | src/sync/apply.rs:75-122 | One entry is skipped, updates or inserts, or fails the bundle |
| SyncClock.ShownInOrder | src/sync/hlc.rs:54-60 | Clocks that show with equal widths are ordered as text as they are as values |
| SyncClock.ShowsWithFourDigits | src/sync/hlc.rs:54-60 | Milliseconds, at least four digits, and the node, with dashes between |
| SyncClock.LongLogicalShowsFirst | src/sync/hlc.rs:54-60 | The clock after 9999 in a millisecond shows before it |
| ConfigKeys.ReadingsAgreeExactly | src/commands/config_verify.rs:90-122 | For every tree, presence and walk agree on every bracket-free path if and only if keys split at their dots lead where the keys do, and every path of keys below an empty root key is also spelled, with its leading dot, by a chain of keys from the root |
| ConfigKeys.DotFreeReadingsAgree | src/commands/config_verify.rs:90-122 | Without dotted keys: if and only if the root does not nest under an empty key |
| ConfigKeys.ListedIsSpelled | src/commands/config_verify.rs:96-122 | For every tree, a non-empty bracket-free path is listed if and only if some chain of keys from the root, each split at its dots and without the leading empty ones, spells it |
| ConfigKeys.PresentIffWalked | src/commands/config_verify.rs:188-200 | Inside that condition a dotted path counts as written exactly when the walk reaches a value |
| ConfigKeys.CollectedIsWalked | src/commands/config_verify.rs:96-122 | For every tree, a bracket-free path is listed if and only if some sequence of keys leads to a value and builds it |
| ConfigKeys.EmptyKeyIsListedAtRoot | src/commands/config_verify.rs:104-108 | A child of an empty root key is listed as if at the root, where the walk does not find it |
| ConfigKeys.DottedKeyIsNotWalked | src/commands/config_verify.rs:193-198 | A key that contains a dot is listed but not found by the walk |
| ConfigKeys.CollectTomlKeys | src/commands/config_verify.rs:96-122 | The recursive loop adds exactly the collected paths, in any table order |
| ConfigKeys.ItemsAreListed | src/commands/config_verify.rs:110-118 | Array elements are listed by their index from 0, with everything below them |
| ConfigKeys.TomlStringNonempty | src/commands/config_verify.rs:188-200 | True exactly for a path that walks to a non-empty string, which then also counts as present |
| UrlUserinfo.StripKeepsTheRest | src/commands/config_verify.rs:124-141 | By the components of RFC 3986 sections 3.2 and 3.2.1, stripping removes the userinfo and nothing else |
| UrlUserinfo.StripIsStable | src/commands/config_verify.rs:124-141 | For every value stripping twice is stripping once, and the authority left has no '@' |
| UrlUserinfo.ComponentsExist | src/commands/config_verify.rs:125-132 | Every value with a "://" has such components |
| UrlUserinfo.StripsUpToLastAt | src/commands/config_verify.rs:124-141 | Character by character: the authority ends at the first '/', '?' or '#', and all of it up to its last '@' is taken out |
| UrlUserinfo.FindsFirstMark | src/commands/config_verify.rs:125-127 | The scheme ends at the first "://" |
| LockRelation.ListingsAgree | src/commands/dependencies.rs:488-504 | Where the default listing shows a version, `--all` marks that version direct and every other of the name transitive; where it shows none every row is direct; root rows are exactly the root's |
| LockRelation.ResolvedIsJustified | src/commands/dependencies.rs:367-387 | A resolved pair is written in the root's own array or is the only lock package of that name |
| LockRelation.ReadsRootArray | src/commands/dependencies.rs:342-365 | The array read is that of the first lock row with the root's name and version, or of the only row of its name, or none |
| LockRelation.ResolvesToLast | src/commands/dependencies.rs:366-388 | A name resolves to what the last entry that gives it a version gives it: the version written there, or that of the only lock row of the name |
| LockRelation.EveryPackageIsListed | src/commands/dependencies.rs:447-473 | Every lock row has its row in `--all` under one relation, and there are no others |
| LockRelation.RowsShow | src/commands/dependencies.rs:397-470 | What rows show: name, version and source of a package; kind and target of a declared dependency, the version it resolves to and the source of the first lock row of that version |
| LockRelation.DirectOrder | src/commands/dependencies.rs:438-445 | Declared dependencies are listed normal, build, dev and then others, each by name and target |
| LockRelation.LockOrder | src/commands/dependencies.rs:471 | Lock rows are listed by name and version |
| LockRelation.RootDepsVersionMap | src/commands/dependencies.rs:342-388 | The map holds for each name the version of the last entry of the root's array that gives it one |
| LockRelation.IndexByName | src/commands/dependencies.rs:366-370 | The index groups the lock by name in order |
| LockRelation.ResolveList | src/commands/dependencies.rs:397-483 | Both listings hold every declared dependency and every lock row once, in their sort orders |

## Left out

- Git, SQLite, the file system, sockets and threads: they are parameters of a step (a fault, a reading, a clock) or values (a map, a tree, a stream), never calls.
- SHA-256, the JSON and TOML parsers, `normalize_score`, `normalize_path`, upper-casing, the splitting of a lock dependency string and the `f64` to `f32` cast: function parameters, with an inverse assumed only for the JSON codec (`BridgeWire.Sound`).
- `f32` and `f64` are reals, so NaN, infinities and rounding are outside; the validity test of an imported score is a parameter for that reason.
- Instants are natural numbers of nanoseconds and their order is the order of the stored text; sizes are unbounded except for the saturating sum of `ProcessTree`.
- HookSafety.RunKeepsTrail: is about marked orphans, and unmarked ones while HEAD stays, and assumes the two faults that destroy one away (`SoundIo`); `OrphanLostExactly` shows they are the only ones, `HookSafety.SafeExactlyWhenMarked` what an unmarked sidecar loses. `reset --all`, which removes the sidecar with the rest of the state, is not a step of the machine. The HEAD and COMMIT_EDITMSG texts enter as hashes.
- HookAccounting.RunAccounts: the runs hold the hooks, hook-repair and the ledger commands. Sync apply, which sets a status without asking whether it is pending (src/sync/apply.rs:57-61, 205-209), is not among them, nor is `reset --all`.
- HookAccounting.ResolvedIsFinal: sync apply can turn a resolved status into another; `SyncApply.CommittedExactly` says into which.
- HookTrail.CommitMsg: intent capture, provenance classification, signing and snapshots are one parameter, the plan of what to record; `resolve_tx_id`'s prefix lookup is not modelled.
- HookTrail.Promote: the diff statistics attached after a commit are not part of the state, and the ledger row carries the whole sidecar payload, of which the program leaves out the message hash.
- HookDeadline.DeadlineContract: a wait is computed and then entered, so time between the two counts as main's own; past the deadline main may be late by that and no more. Scheduling is not fair, and a wait looks at its channel and at the clock in one step.
- CommitMessage.HashSurvivesGit: Git's `commit.cleanup=whitespace` is the one the program's own comment describes; other clean-up modes are not modelled.
- TrendRollup.TrendStore.InsertHotspotTrends: rows SQLite cannot decode are left out, and so is the pause between two attempts.
- TrendRace.UpsertFreshExactly: an event stores any rows, so what other hooks decide to store is not constrained; each single statement of the database is one step.
- `record_hotspot_trends_with_budget`, `outcome_for_walk` and `walk_outcome`: the history walk is behind code that is not part of this model, and the outcome table is read at a glance; outcomes are arbitrary here.
- ProcessTree.TreeRss: equality with the sum is stated for unique pids, as a process listing has them; without them only termination and the bound are.
- FixtureWalk.BuildOutputIsInvisible: whether a leaf is a file is part of the tree, so a marker that is a link into a skipped directory, and stops being a file when that directory is gone, is not covered.
- FixtureWalk.FixturePaths: read errors and Windows reparse points are left out, and the digest of the list.
- Chunker.ChunkContent: requires, as `FileChunks` does, that the loop ends on its text (`EndsFrom`, which is exact). Text is a wider set than UTF-8 (overlong forms are let in), which only strengthens the results; the stalling texts are proper UTF-8.
- Model calls, retries, token counts and parse warnings of the extractor.
- BridgeCommand.ExecuteImport: of the report the parts imports change are modelled; its finalisation, which sorts the lists before they are written, and the printed summary with the merge counts (`HotspotMerge` has those), are left out.
- SyncApply.SyncDb.Apply: the three tables are one map by transaction; of several rows of a transaction the first is looked up, the columns an update leaves alone are one, and a stored clock always parses. Signatures, encryption, transport, the export cursor and the clock-drift quarantine are left out.
- SyncApply.BundlesConverge: is about the bundles that were applied. A bundle that fails is put aside, and which ones fail can depend on the order (`SyncApply.AllApplyExactly`, `SyncApply.BlockedBundleDiverges`).
- SyncApply.NewestTombstoneWins: needs the foreign key, no ledger row without its transaction.
- BridgeWire.IpcClient.ReceiveRecords: says nothing about what is left in the stream, since the buffered reader may have taken more than it returned. Write and read errors are not modelled.
- EndpointDedupe.OrderIndependent: needs distinct ids, which the table's primary key gives; the SQL filters are left out.
- MountReduction.ReduceProductMounts: the choice of product rows (`is_product_mount_row`) and the query are left out.
- PruneLoop.Disk.RunPruneLoop: paths are compared as strings, where the program compares their components, and two names of one file are two files here; for a file without a final newline that has empty lines, or with a line ending in two carriage returns, only `OtherBytesKeptExactly` speaks of the result; left out are non-UTF-8 paths, a write cut short in the middle of a character, and the ledger transaction opened afterwards; a failing prompt loses the list of removals, as in the program.
- ConfigKeys.ReadingsAgreeExactly: speaks of paths without a bracket; those with one name array elements, or keys that contain one.
- LockRelation.ResolveList: manifest parsing, version requirements and the resolution of the root's identity.
- `surfaces.rs`, `deploy.rs`, `data_models.rs`, `gate.rs`, tables, colours, help texts and packaging would only add easy members.

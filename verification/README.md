# pypi-mirror: a verified model of its cache, index sync and votes

pypi-mirror is a partial PyPI mirror. A periodic sync keeps an index of package
pages up to date and fills a tiered cache of package files by popularity, while
a server answers requests and counts votes. This project models the parts with
the most state and proves what they keep, over every run, every interleaving
and every failure the model can express.

`dafny verify dfyconfig.toml` checks everything.

## Layout

| file | subject |
|---|---|
| `TierAssignment.dfy` | the first-fit assignment loop, and the declarative placement it computes |
| `Scoring.dfy` | the popularity score |
| `CacheModel.dfy` | one cache run as functions of its state and of the outcomes of its actions |
| `CacheRanking.dfy` | what a run ranks and in what order, and the remote sizes it records |
| `CacheConsistency.dfy` | what every iteration and every run keeps of the agreement of database, inventory and disk |
| `DownloadErrors.dfy` | which part of a plan is carried out when downloads fail |
| `CacheCrashes.dfy` | histories of runs, killed ones included, and how long a wrong row lives |
| `CacheOutcomes.dfy` | what a run does to each file, row and inventory entry, whatever fails |
| `CacheCapacity.dfy` | peak usage, and what a failure-free run leaves in the tiers |
| `CacheFixpoint.dfy` | when a second run has nothing to do |
| `CacheTies.dfy` | when that holds whatever the sort does with equal scores |
| `CacheOccupancy.dfy` | how full a tier gets while a plan is carried out |
| `CacheInstances.dfy` | runs that show what the cache does not promise |
| `SizeDb.dfy`, `CacheManager.dfy` | the same run as imperative code: classes, loops, arrays |
| `FileMove.dfy` | a file move, system call by system call, against a request that stats and then opens |
| `Votes.dfy` | the votes table and its queries |
| `VoteDedup.dfy` | n vote workers, purges and restarts in any interleaving |
| `VoteKeys.dfy` | votes of different files and prefixes do not affect each other |
| `Normalize.dfy` | package name normalization (PEP 503, "Normalized Names") |
| `IndexSync.dfy` | the index sync as a transition system: main loop, semaphore, wait group, workers |
| `IndexSyncSerials.dfy` | the serials table in every reachable state |
| `IndexSyncPages.dfy` | one package's files in every reachable state, serials against pages, removals |
| `IndexSyncStore.dfy` | serializability |
| `SyncRuns.dfy` | work lists, termination, convergence of the serials over histories of syncs |
| `SyncPages.dfy` | which names have all their pages after a history of syncs, and which do not |

## What stands for what

A tier is a map from path to size. The database tables are maps and sets, and
each statement is one step. Everything outside the program is a parameter that
the theorems quantify over: which files a directory walk lists and in what
order, the answer of every HEAD, the outcome of every download attempt, rename,
copy and remove, whether a configuration value parses, what the clock reads,
at which action a sync worker fails and whether it leaves a torn file. Where the
source's order is arbitrary (an unstable sort fed from a map), the theorems hold
for every order the sort may choose.

The cache run appears twice: as specification functions in `CacheModel.dfy`,
which the theorems are about, and as methods in `CacheManager.dfy` with the
source's loops, whose contracts equate the new state with those functions.

## Where the code and its documentation differ

The model follows the code in each case.

- The repository's README says a prefix's votes within the dedup window count
  once, written by a single background goroutine. `server/server.go:73-86` runs
  one worker per CPU, each a SELECT and then an INSERT. `PromiseHoldsIff` gives
  the exact condition under which the promise holds in every run, and
  `WindowBound` what holds for n workers. Even one worker breaks the promise if
  a second passes between the two clock readings of `db/votes.go:13-14`.
- The README speaks of unique IP-prefix votes; `QueryPopular` counts rows.
  `OnePrefixSufficesIff` gives the exact minimum up to which one prefix alone
  makes a file popular, for all windows, drifts and numbers of workers; for one
  worker that reads the clock once it is `vote_window / dedup_window + 1` votes
  (`OneWorkerSufficesIff`). k prefixes can do k times as much and no more
  (`PrefixesSufficeIff`).
- Deleting old votes is meant to be invisible. It is exactly when the dedup
  window is at most the vote window and a second (`PurgeIsInvisibleIff`).
- The README says phase D stops after consecutive download errors; the code
  counts them in total. `ErrorsAreTotal` says which assignments run, and
  `RulesAgreeIff` when the two rules stop at the same place.
- The README says remote sizes expire after their TTL; `db/sizedb.go:81-86`
  deletes only the rows that record a 404, so a recorded size is never asked
  for again (`SizesNeverExpire`).
- A removed name deletes the directory of its normalized name after the workers
  have written. If a project is respelled (foo_bar to foo-bar), the fresh pages
  are deleted while the serial stays raised: `BackedIffSpared` is the exact
  condition, and `ClashLosesThePage` gives a sync in which it happens for any
  two such names.
- Ties in score may be broken differently by two runs, and then a settled cache
  is rearranged: `TiesMayMove` gives two such runs, and `SecondRunIdleIff` the
  exact condition, which mentions no order, under which no tie can do that. The
  fixpoint theorem asks for the same rank order, which is always a possible one
  (`SomeOrderIsIdle`) and the only one when scores are distinct
  (`DistinctScoresIdle`).
- The cache knows one tier per file, but a move whose source is not removed
  (`syncer/cache.go:324-329`) leaves a copy in another. When a
  run evicts such a file the next one finds the copy and has to evict it too:
  `LeftoverIsEvicted` gives such runs, and `SecondRunIsIdle` says that nothing
  else keeps a second run with the same rank order from being idle.
- Limits need not hold during or after a run in which nothing fails. During it
  `WithinLimitIff` is the exact condition on the plan and the start, and
  `LimitIsExceeded` a run that fails it; after it a tier is within its limit
  exactly if such copies fit in the room that the placement leaves
  (`ExecutionRefinesPlan`), which `SpareCopyOverflows` shows may fail. With one
  copy of each file at the start they hold after it (`OneCopyStays`).
- A name that leaves the remote list and comes back as it was may keep its
  serial and lose its files, when the files are deleted and the serial is not
  (`syncer/index.go:122-130`): `UpToDateIsWhole` gives the exact condition, and
  `ReturnLosesThePage` such syncs.
- `ServePackages` stats a file and then opens it by name again. A move between
  the two answers a cached file with 404 (`NotFoundIffHitIsLost`,
  `MoveBeforeOpen`).
- A run killed between a move and the UPDATE of the row leaves the row wrong
  (`KillBreaksIff`), and later runs believe it (`MisplacedStays`).

## Model

| member | source | states |
|---|---|---|
| TierAssignment.FirstFitIsTheLeast | syncer/cache.go:135-157 | a placement is the loop's result if and only if it is the lexicographically least of all placements that respect every tier's limit, hotter tiers first and none last |
| TierAssignment.FirstFitIsFeasible | syncer/cache.go:135-157 | the loop's result gives every file a real tier or none and keeps every tier within its limit |
| TierAssignment.Conservation | syncer/cache.go:136-157 | in every tier, bytes assigned plus bytes remaining equal the limit |
| TierAssignment.WasteBound | syncer/cache.go:147-157 | every tier a file was passed over by ends with more than its limit minus that file's size in use |
| TierAssignment.DropUnplaced | syncer/cache.go:147-157 | leaving unplaced files out of the list changes no other file's tier and no remaining capacity |
| TierAssignment.AssignTiers | syncer/cache.go:135-157 | the array loop computes the first-fit placement and the capacities left |
| Scoring.ScoreIs | syncer/cache.go:355-362 | the score times one more than the size, or than 2 GiB if that is more, is the votes times 2^20 |
| Scoring.ScoreOrder | syncer/cache.go:355-362 | one score exceeds another exactly when the cross products of votes and of one more than the size, of at least 2 GiB, do |
| Scoring.ScoreMonotone | syncer/cache.go:355-362 | the score rises with votes and falls with size, and up to 2 GiB only votes count |
| Scoring.ScoreBound | syncer/cache.go:355-362 | a score is at most votes times 2^20 / (2^31 + 1), with equality for a voted file exactly up to 2 GiB |
| SizeDb.SizeTables.CleanLocalSizes | db/sizedb.go:90-117 | the collecting loop and the deleting loop leave exactly the rows of known paths |
| SizeDb.SizeTables.UpdateLocalSizeTier | db/sizedb.go:67-72 | only an existing row of the path changes, and only in its tier |
| CacheManager.Manager.InventoryLocal | syncer/cache.go:241-289 | the walk yields each visited file once, with its row if it has one and else its size in the hottest tier that lists it, and every new entry becomes a row |
| CacheManager.Manager.FindMissing | syncer/cache.go:87-104 | lists once each the popular files that are not local, exist upstream and are within the size limit; every HEAD answer, 404 included, is recorded |
| CacheManager.Manager.Download | syncer/downloader.go:33-45 | the file is replaced by the first attempt that succeeds within the retries, and nothing changes if none does |
| CacheManager.Manager.MoveFile | syncer/cache.go:316-331 | succeeds exactly if the source exists, the directory can be made and a rename, or a copy and the removal of the source, works; a copy whose source stays leaves both, any other failure changes nothing, and no other file or tier is touched |
| CacheManager.BuildCandidates | syncer/cache.go:117-127 | every local and every missing file becomes exactly one candidate, scored by its votes and size |
| CacheManager.SortByScore | syncer/cache.go:132-133 | the result lists every candidate once by descending score, ties in any order |
| CacheManager.Manager.ExecutePlan | syncer/cache.go:160-214 | the execution loop, early stop included, leaves the disk, rows and inventory of the specified execution, which PlanDoes spells out |
| CacheManager.Manager.Run | syncer/cache.go:54-234 | a run queries the vote table, ranks its candidates by score, each score being that of the file's votes in the window and its size, and leaves the specified state; it fails exactly where a value does not parse or the query fails, and deletes old votes if it gets to phase E |
| CacheManager.NewFilesHadVotes | syncer/cache.go:81-127 | a file new on disk has at least the minimum of rows in the table within the vote window, is within the file size limit and in its assigned tier |
| CacheRanking.CandidatesAre | syncer/cache.go:84-127 | the candidates are exactly the files the walk lists, with their row's size and tier or else what the hottest tier listing them holds, and the unlisted popular files whose recorded size, or else a HEAD, is within the limit |
| CacheRanking.ScoresAreCounts | syncer/cache.go:76-127 | every ranked file's score is that of its number of votes in the window, or of none below the minimum, and its size |
| CacheRanking.RankedByCounts | syncer/cache.go:117-133 | of two ranked files the first has at least as many votes in the window per byte, of at least 2 GiB and a byte more |
| CacheRanking.NewRemoteRows | syncer/cache.go:291-314 | a run records the HEAD answer, 404 included, of exactly the popular files that are neither on disk nor recorded and whose HEAD does not fail; a 404 already past its lifetime goes again |
| CacheOutcomes.PlanDoes | syncer/cache.go:160-214 | with any mix of failures, each file whose assignment the loop gets to has exactly the copies, row and inventory entry its outcomes give it: evicted files lose row and entry even if the removal fails, downloads have both if an attempt succeeds, moved files change tier if the move does; nothing else changes |
| CacheOutcomes.RowAfterRun | syncer/cache.go:160-233 | after a run that returns nil, the row of a file whose assignment the run got to is its assigned tier if its download or move succeeded, its old one if its move failed or was none, and absent otherwise |
| CacheOutcomes.OtherRowAfterRun | syncer/cache.go:216-289 | any other file has a row exactly if the walk lists it, with what its old row says or else what was found |
| CacheOutcomes.RowAfterFailedRun | syncer/cache.go:63-74 | a run that fails to read the votes has only made rows for the files found on disk without one |
| CacheConsistency.InventoryEstablishesAt | syncer/cache.go:241-289 | phase A makes a file's inventory entry equal to its row and backed by a file in its tier, if its row was not wrong before |
| CacheConsistency.IterationKeepsAt | syncer/cache.go:163-214 | every iteration, whichever of its actions fail, keeps a file's row, inventory entry and copies in agreement |
| CacheConsistency.RowsEqualInventory | syncer/cache.go:216-233 | after a run that returns nil, from any table, local_sizes equals the inventory as a map |
| CacheConsistency.SizesNeverExpire | db/sizedb.go:81-86 | over any runs a recorded size stays as it is and answers every later lookup |
| CacheConsistency.RemoteRowAfterRun | db/sizedb.go:81-86 | a recorded 404 goes exactly if a run gets to clean the table and finds it older than its lifetime |
| CacheCrashes.KillBreaksIff | syncer/cache.go:163-214 | killing a run at any point makes a file's row point away from it exactly if it falls between the disk action and the statement of that file's move, of the eviction of one of its copies, or of its download over a stale row |
| CacheCrashes.HistoryKeeps | syncer/cache.go:54-234 | over any sequence of runs, failed or killed anywhere, only a file on which such a kill fell can have a wrong row; any other row's file is in the row's tier after each run that returns nil |
| CacheCrashes.MisplacedStays | syncer/cache.go:261-268 | a wrong row outlives, unchanged, every run that sees its file, successful or not, until an iteration that is carried out evicts the file |
| DownloadErrors.ErrorsAreTotal | syncer/cache.go:160-191 | the loop carries out exactly the one shortest prefix of the plan with threshold-many failed downloads, or all of it |
| DownloadErrors.RulesAgreeIff | syncer/cache.go:160-191 | counting in total stops no later than counting consecutive failures, and the two, each of which has one place to stop, agree if and only if the plan runs to its end or no download before the stop succeeds after a failed one |
| DownloadErrors.RulesPart | syncer/cache.go:160-191 | every plan with a success between two failures, and something after them, has a threshold at which the rules stop at different places |
| CacheCapacity.PeakUsage | syncer/cache.go:162-214 | after any number of iterations, with any failures or early stop, a tier holds at most what it held at first plus its limit |
| CacheCapacity.ExecutionHolds | syncer/cache.go:162-214 | when nothing fails, after n iterations each tier holds exactly the files placed in it so far, its own files still to be handled, and the copies in it that the inventory does not know |
| CacheOccupancy.WithinLimitIff | syncer/cache.go:162-214 | when nothing fails, a tier stays within its limit throughout if and only if for no n the sizes placed in it before n, its local sizes from n on and the copies the inventory does not know exceed the limit |
| CacheInstances.LimitIsExceeded | syncer/cache.go:162-214 | a run without faults that starts within the limit and exceeds it, because a download precedes the eviction that makes room |
| CacheCapacity.NewFilesWereWanted | syncer/cache.go:88-127 | a file new on disk was popular, within the file size limit, and is in its assigned tier |
| CacheCapacity.ExecutionRefinesPlan | syncer/cache.go:117-214 | when nothing fails, each tier ends with exactly its assigned files and the copies the inventory did not know, the inventory lists exactly the assigned ones, and a tier ends within its limit if and only if those copies fit in the room the placement leaves |
| CacheCapacity.OneCopyStays | syncer/cache.go:117-214 | when nothing fails and every file starts with one copy, all listed, it ends with one, and every tier within its limit |
| CacheInstances.SpareCopyOverflows | syncer/cache.go:117-214 | a run without faults that starts with every tier within its limit and ends with one above it, because the placement does not count a second copy |
| CacheFixpoint.SecondRunIsIdle | syncer/cache.go:82-214 | after a failure-free run, a run with the same votes, sizes and rank order downloads, moves and evicts nothing, whatever its own actions would do, if and only if the first evicted no file of which another tier had a copy too |
| CacheFixpoint.SecondRunEvicts | syncer/cache.go:82-214 | such a run acts exactly on the files of which the first left a copy, and evicts them |
| CacheFixpoint.OneCopyLeavesNothing | syncer/cache.go:117-214 | a run that starts with one copy of each file leaves no such copy |
| CacheInstances.LeftoverIsEvicted | syncer/cache.go:169-183 | two runs without faults over the same votes and sizes, the second of which evicts the copy the first left without a row |
| CacheFixpoint.DistinctScoresIdle | syncer/cache.go:117-214 | with distinct scores the same condition is exact for every order the sort may choose |
| CacheFixpoint.SomeOrderIsIdle | syncer/cache.go:82-214 | whatever order the first run chose, the second run's candidates can be sorted in the same relative order, and then nothing is done under the same exact condition |
| CacheTies.EveryOrderIdleIff | syncer/cache.go:118-157 | every order of equal scores leaves every file where it is, if and only if the local files fit and the room beside strictly higher-scored local files sends each candidate to where it is |
| CacheTies.SecondRunIdleIff | syncer/cache.go:82-214 | after a failure-free run, the next run over the same votes and sizes is idle whatever the sort does with ties, if and only if the first left no copy of a file it evicted and for each candidate the hottest tier with room beside the strictly higher-scored local files is the one it is in, or none if it is not local |
| CacheInstances.TiesMayMove | syncer/cache.go:118-133 | two runs without faults over the same votes and sizes, the second of which moves both files |
| FileMove.NeverTornNeverGone | syncer/cache.go:316-353 | over any interleaving of moves, failures and crashes no tier shows a partial file and a complete copy exists |
| FileMove.ScanFindsDemoted | server/handler_packages.go:74-80 | any number of demotions in any interleaving never make the stat scan miss the file and fall through to upstream |
| FileMove.MissedIffPromotion | server/handler_packages.go:74-80 | some interleaving with moves from src to dst makes the scan miss a cached file and go upstream if and only if dst is hotter |
| FileMove.NotFoundIffHitIsLost | server/handler_packages.go:76-77 | a request is answered 404 if and only if the tier its stat hit has lost the file by the time of the open |
| FileMove.MoveBeforeOpen | server/handler_packages.go:76-77 | for every pair of tiers some interleaving with a move between them does that |
| FileMove.MoveStepsRefineMove | syncer/cache.go:316-353 | every state the mover passes through, crashes included, is an outcome the cache run's model gives a move |
| FileMove.MoveOutcomesAreReached | syncer/cache.go:316-353 | and the mover, falling back to the copy when the rename fails, ends in every outcome that model gives a move |
| FileMove.ServePackages | server/handler_packages.go:74-80 | goes upstream exactly when no tier has the file, and else opens it in the hottest tier that had it and answers 404 if it is gone by then |
| Votes.VoteTable.RecordVote | db/votes.go:12-33 | adds the vote exactly if the table has no vote of the same file and prefix younger than the cutoff; keeps votes of a key a window apart when both clock readings agree; afterwards the key counts as voted and the same request changes nothing |
| Votes.VoteTable.QueryPopular | db/votes.go:36-60 | lists once each, most votes first, exactly the files whose rows since the bound are at least the minimum and not none, with the number of those rows |
| Votes.VoteTable.DeleteOldVotes | db/votes.go:63-66 | leaves exactly the votes at or after the bound, which changes no popularity query since the bound or later and no dedup decision whose cutoff is a second before the bound or later |
| VoteDedup.SelectThenInsert | db/votes.go:12-33 | an uninterrupted worker adds its vote exactly if the file and prefix have none younger than the cutoff |
| VoteDedup.WindowBound | server/server.go:71-86 | in every state n workers can reach, no window of at most Span (the dedup window, cut by the vote window and less the clock drift) holds more than one vote per worker and one per second of one file and prefix, purged ones included; the clock may run backwards, but no SELECT reads it behind an earlier purge |
| VoteDedup.PromiseHoldsIff | db/votes.go:10-33 | votes of one key are a window apart in every run exactly when there is one worker, no drift between its clock readings and no purge inside the window, or the window is at most a second |
| VoteDedup.PopularityBound | db/votes.go:36-60 | a file's vote count is at most its number of prefixes times Most of the interval, with windows of the dedup window less the drift, or a second |
| VoteDedup.MostInClosedForm | db/votes.go:12-33 | for an interval of len seconds Most is (len - 1) / span times min(n, span), plus min(n, (len - 1) mod span + 1) |
| VoteDedup.MostIsAttained | server/server.go:71-86 | some run of n workers reaches that bound with any one prefix alone, for every n, every interval and all parameters |
| VoteDedup.OnePrefixSufficesIff | db/votes.go:36-60 | for all parameters, after some run the query lists a file that a single prefix has voted for, if and only if the minimum is at most Most of the vote window |
| VoteDedup.OneWorkerSufficesIff | db/votes.go:36-60 | for one worker, if and only if the minimum is at most vote window / (dedup window less drift, or a second) + 1 |
| VoteKeys.KeysAreIndependent | db/votes.go:12-33 | leaving all requests of other files and prefixes out of any run leaves the votes of this one exactly as they were |
| VoteKeys.PrefixesSufficeIff | db/votes.go:36-60 | k prefixes can give a file a number of rows in the vote window if and only if it is at most k times what one prefix can |
| VoteDedup.PurgeIsInvisibleIff | syncer/cache.go:218 | for any number of workers and any drift, deleting old votes changes no later popularity answer in any run, if and only if the dedup window is at most the vote window and a second |
| VoteDedup.PurgeIsInvisible | syncer/cache.go:218 | it then changes no worker's decision either, over any interleaving |
| Normalize.NormalizedIffInNormalForm | server/normalize.go:12-19 | results are in normal form, and a name is normalized exactly when it has no upper case, no underscore or dot and no two adjacent dashes |
| Normalize.NormalizeIsIdempotent | syncer/normalize.go:8-12 | normalizing twice is normalizing once, so a redirect target is not redirected again |
| Normalize.SpellingsCollide | syncer/normalize.go:8-12 | names that differ only in the separators between two parts normalize alike |
| Normalize.CaseIsIgnored | syncer/normalize.go:10-12 | names that differ only in case normalize alike |
| Normalize.NormalizeIsTheOne | syncer/normalize.go:8-12 | normalization is the one function that turns every longest run of dashes, underscores and dots into one dash, lowers every upper-case letter and leaves the rest |
| IndexSync.PoolSafety | syncer/index.go:84-120 | in every reachable state workers holding a token are within the capacity and the wait group's counter; after Wait none is live and processed plus errors equals the number launched |
| IndexSyncSerials.BehaviorKeepsSerial | syncer/index.go:122-184 | in every reachable state a serial is deleted, raised or untouched exactly as the progress of removals and workers says, also when names share a directory |
| IndexSyncStore.Serializable | syncer/index.go:84-133 | every interleaving ends with the files and serials of processing the launched names one by one, and then removing |
| IndexSyncStore.CommuteIffSeparate | syncer/index.go:154-184 | two packages can be synced in either order with the same result if and only if their names normalize differently |
| IndexSyncPages.BehaviorKeepsSlot | syncer/index.go:122-184 | in every reachable state each of a package's files is what its worker's progress and the removals make of it, if no other name to process shares its directory |
| IndexSyncPages.WriteOrder | syncer/index.go:154-177 | in every reachable state each file of such a package that no removal touches is as it was, new or torn, and one that is not as it was has all those before it new: index.html, index.v1_html, index.v1_json, then the JSON |
| IndexSyncPages.SerialsNeverAhead | syncer/index.go:154-184 | in every reachable state such a remote name whose serial was raised has all its files from this sync's fetch, unless the removal of a name with its directory deletes one |
| IndexSyncPages.BackedIffSpared | syncer/index.go:122-133 | a finished sync leaves a processed name its files if and only if no removal of a name with its directory deletes one, and raises its serial either way |
| SyncRuns.ClashLosesThePage | syncer/index.go:64-127 | for any name to process and name to remove that normalize alike, a complete sync exists that loses the first one's files, raises its serial and leaves the next sync nothing to do about it |
| SyncRuns.RespellingLosesThePage | syncer/index.go:64-127 | so when the remote list spells foo-bar what the table spells foo_bar |
| SyncRuns.Categorize | syncer/index.go:64-80 | the work lists hold, sorted and once each, exactly the new or updated names and exactly the local names that are no longer remote |
| SyncRuns.NameLeqIff | syncer/index.go:72-80 | the order of the work lists is that of the first difference, a prefix first |
| SyncRuns.EverySyncFinishes | syncer/index.go:84-133 | no schedule deadlocks or runs for ever: runs are bounded in length, and an unfinished one can go on |
| SyncRuns.CancelStopsAnywhere | syncer/index.go:92-133 | a sync may be cancelled after any number of names, and then still waits for their workers and does the removals |
| SyncRuns.LowersWorkBySuccesses | syncer/index.go:64-133 | a sync lowers the number of outdated names by exactly its processed count and of stale names by exactly its deletions |
| SyncRuns.NothingLeftNothingDone | syncer/index.go:64-133 | with both work lists empty no schedule changes a package page, package JSON or serial |
| SyncRuns.CleanSyncConverges | syncer/index.go:64-133 | after a complete sync without faults the next sync against the same list changes nothing |
| SyncRuns.SerialsNeverDrop | syncer/index.go:154-184 | in every reachable state the serial of a name that stays remote is the old one or the remote one and never lower |
| SyncRuns.HistoryKeepsSerials | syncer/index.go:64-133 | over any sequence of syncs, finished or crashed, whatever the remote serials do, it never drops |
| SyncRuns.HistoryShrinks | syncer/index.go:64-133 | over any sequence of syncs against a fixed remote list no name joins the outdated or the stale ones |
| SyncRuns.HistoryPays | syncer/index.go:64-133 | their number falls by at least the successes the finished syncs report, and by exactly those if all finish |
| SyncRuns.HistoryConverges | syncer/index.go:64-133 | once as many syncs have succeeded at something as there were names to update or remove, both lists are empty and no schedule of a further sync changes anything |
| SyncPages.UpToDateIsWhole | syncer/index.go:64-184 | after any syncs, finished or crashed, a name that is not outdated has all four files from one fetch, if and only if no sync whose list lacked it deleted one of its files while its serial outlived that sync and all later ones; names normalize injectively and its remote serial never falls |
| SyncPages.ReturnLosesThePage | syncer/index.go:122-130 | for any removal that deletes a file and fails to delete the serial there is a complete sync after which, if the name is listed again at that serial, no schedule of the next sync restores it |
| SyncPages.RemovalOrder | syncer/index.go:122-130 | in every reachable state a removal that has touched the JSON has deleted the pages it can, and one that has deleted the serial has deleted every file it can |
| SyncPages.ConvergedIsWhole | syncer/index.go:64-184 | once as many syncs against a fixed list have succeeded at something as there was work, every name of the list is at its remote serial with all four files from one fetch |

## Left out

- HTTP servers, clients, TLS, proxying and the SQL engine: a fetch, a HEAD and a statement are single outcomes or steps, and database calls succeed, except the popularity query and the serial deletions.
- Sharing one package's files between two remote names: theorems about a package's pages assume that no other name to process has its directory, and `Serializable` that no two have the same, as PyPI guarantees; `CommuteIffSeparate` shows why. Those about the pool and the serials do not.
- Integer width and floating point: sizes and serials are unbounded integers and scores are reals, so overflow of size + 1 and rounding of equal scores are not modelled.
- File system detail: temp files, modification times, permissions and paths that overlap between tiers; a walk lists files that exist while it runs.
- The table rows' tier indices are assumed to be in range; the source would panic on a row left by a configuration with more tiers.
- Semaphore capacity 0: the configuration replaces it by 4, so termination is proved for a positive capacity.
- Page contents, URL rewriting and JSON parsing: a page is identified by the package and fetch it is generated from; the root index pages are not part of this model.
- Votes that arrive while a cache run is under way are steps of the vote machine, not of the run.
- What a killed cache run leaves in `remote_sizes`.
- Everything `http.ServeFile` does besides opening the file: ranges, conditional requests, a file replaced while it is sent.
- Vote admission: bot matching, prefix computation and the queue that drops votes when full only decide which votes reach the workers.
- Configuration parsing, durations, logging, content negotiation and the information pages: single-branch code.
- Non-ASCII package names: lower-casing is modelled on ASCII.

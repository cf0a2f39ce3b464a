# The news server's shared state, verified

This project models the parts of the news server that several threads or
several files depend on at once, and proves what they keep:

- the **thread pool** (`ThreadPool`, `PoolProtocol`, `PoolInvariants`,
  `PoolTheorems`, `PoolRefinement`, `PoolWakeups`, `PoolSchedules`,
  `PoolFailures`): producers, workers, the manager and the SIGPIPE
  handler over one ring buffer, its counters, two condition variables and a
  table of thread slots;
- the **URL table** (`BitValues`, `UrlHash`, `HashTable`): chained buckets under a signed
  32-bit hash, with a destroy that frees in batches of five;
- the **record files** (`CText`, `Records`, `NewsFiles`, `EndToEnd`): tagged
  records printed for URLs that are new, and the parser that loads them again;
- the **SQL connection pool** (`SqlPool`, `SqlResize`, `SqlProtocol`): a cyclic
  scan over nodes with a mutex each, resizing, closing, and callers at the same
  time;
- the **URL splitter** (`AnalyzeUrl`): three index loops over character arrays.

`Wrappers`, `Cyclic` and `Counting` hold what these share. `dafny verify
dfyconfig.toml` checks everything.

## How it is built

**State in place.** `Pool`, `UrlTable`, `TextFile`, `ConnPool` and `UrlT` are
classes whose methods update fields, arrays and linked nodes as the C functions
do. Each method is proved to compute a function of the old value, and the
theorems are about those functions. The chains of the URL table are real linked
nodes; the ghost fields `chains`, `model` and `live` record the nodes of each
chain, the map they stand for, and the nodes not yet freed. Freeing a node
forgets its fields, so a walk through freed memory would not verify.

**Interleavings.** The two protocols are state machines whose steps are the
lock-protected sections (and, for connections, each use of a node's mutex).
Signals sent after an unlock, the manager's old snapshot, and a thread created
but not yet counted are steps of their own. A signal wakes one sleeper when
there is one; spurious wake-ups are separate steps, and may happen at any time.
`Reachable` means reachable by some run of any length, from any sizes of pool,
queue and set of callers; `ReachedBy` names the sizes.

**The outside world.** Whether a connection attempt or a ping succeeds, which
thread a signal wakes, where a scan starts, and the day's date are parameters.
C results that the language leaves undefined (a tag that `strstr` does not find)
are the `None` of an `Option`.

## Where the code does not do what it is for

Each of these is proved as a condition that is exact, or by a run that shows the
failure.

- A worker that a new job's only signal wakes takes a pending kill instead and
  leaves the job queued (`WakeupSpentOnKill`). The pool can come to rest like
  that exactly when `thread_max` exceeds twice `thread_min`, `thread_min` and
  `queue_max` are not zero, and there is a caller (`LeavesTaskIff`). Often the
  manager's next round creates a thread that takes the job. It does not, and only
  a new job or a spurious wake-up helps (`StrandedForGood`), at exactly those of
  the sizes with at least six threads or with `thread_max` below three times
  `thread_min` (`StrandedIff`). The pool of src/main.c:21, with 10 to 1000
  threads, is one of them (`MainPoolFails`).
- At the first set of sizes, and no others, the manager can also order the death
  of every thread, by a shrink decided on a snapshot taken while kills were
  pending (`DesertedIff`). Its next round creates threads again. `KillBudget`
  shows that this needs such a snapshot, or SIGPIPE.
- Reconnecting initialises a mutex that is held, which lets a second caller
  take the node (`ReconnectSharesNode`). Without a reconnect the node has one
  holder (`SoleOwner`).
- `busy_number` drops by one for every failed probe, so it is right exactly
  when no probe failed (`BusyConserved`).
- `sql_pool_destroy` stops half way, because its bound shrinks as its index
  grows. It closes everything for every pool of n nodes exactly when n is at
  most 1 (`DestroyClosesEveryPoolIff`), and a creation that fails at attempt f
  leaks ⌊f/2⌋ connections (`FailedCreateLeaks`).
- A field that contains its own tag is read back wrongly, and no other is
  (`SplitReadsField`). A date survives a reload exactly when it is not zero and
  fits in 32 bits (`DateSurvives`).
- The hash is the System V ABI's on ASCII text exactly as long as no step sets
  the sign bit (`AbiAgreement`). Up to six bytes never do (`ShortIsAbi`), seven
  can (`SignCanBeSet`).
- For an update request `analyze_url` clears nothing, and its callers
  (src/update_news_operation.c:14, src/deal_news_request_operation.c:65) pass a
  local structure they did not initialise. The domain is the host exactly when
  the array happens to hold a terminator behind it, and otherwise has a tail
  (`UpdateReadsTail`). No caller makes two updates on one structure;
  `SecondUpdate` says what the second would read. The domain
  is the authority of RFC 3986 exactly when no `?` or `#` stands before the
  first slash (`HostIsAuthority`).

## Model

| member | source | states |
|---|---|---|
| ThreadPool.Pool.constructor | src/thread_pool.c:39-100 | a new pool is empty, has `min` counted threads in its first slots and empty slots behind them |
| ThreadPool.Pool.Add | src/thread_pool.c:115-131 | under the lock a producer either appends exactly its task to the queue, or finds the ring full and changes nothing |
| ThreadPool.Pool.Work | src/thread_pool.c:147-166 | a worker waits, exits or takes; only taking shortens the queue, by its oldest task, and the whole new state follows |
| ThreadPool.Pool.FinishJob | src/thread_pool.c:171-173 | the end of a job lowers only the busy count |
| ThreadPool.Pool.Pipe | src/thread_pool.c:12-17 | the SIGPIPE handler lowers the alive and the busy count and nothing else |
| ThreadPool.Pool.Grow | src/thread_pool_manager.c:36-46 | the growth loop computes `Fill` on the slots and counts every thread it created |
| ThreadPool.Pool.ManagerRound | src/thread_pool_manager.c:25-57 | a round creates a thread exactly when a slot is free, a thread is wanted, there is room, and the program's test on the counters at its start holds, with the percentage computed by real division; it orders `thread_min` kills exactly when the test for shrinking holds |
| ThreadPool.RoundByFields | src/thread_pool_manager.c:25-57 | how many threads a round creates, when it orders kills, and that it changes nothing else |
| ThreadPool.AddIsEnqueue | src/thread_pool.c:115-130 | adding appends to the FIFO queue that the ring stands for, and fails exactly when that queue has `queue_max` tasks |
| ThreadPool.TakeIsDequeue | src/thread_pool.c:148-166 | taking removes the head of the queue, waiting means it is empty, and a kill exit removes nothing |
| ThreadPool.FrontFollowsRear | src/thread_pool.c:126-130 | the front index is (rear + cur) mod max, and the length follows from the two indices unless the ring is full |
| ThreadPool.PercentageIsExact | src/thread_pool_manager.c:33-34 | the 80 per cent test on the quotient is the integer comparison 100·busy ≥ 80·alive |
| ThreadPool.FillGrows | src/thread_pool_manager.c:36-46 | growth creates as many threads as wanted or as there are free slots, never overwrites a live thread's slot, and gives each new thread a slot |
| PoolInvariants.CountsKept | src/thread_pool.c:111-175 | every step keeps the thread accounting and both lost-signal invariants |
| PoolInvariants.ConservedKept | src/thread_pool.c:115-166 | every step keeps "tasks added = tasks taken followed by the ring's contents" |
| PoolInvariants.SlotsKept | src/thread_pool_manager.c:36-46 | every step keeps one distinct slot for each running thread, and leaves it where it is |
| PoolInvariants.BudgetKept | src/thread_pool_manager.c:25-57 | every step keeps the bounds on pending kills, also while the manager acts on an old snapshot |
| PoolInvariants.ShrinkLeaves | src/thread_pool_manager.c:53-57 | right after a shrink, live threads less pending kills are at least `thread_min` plus the snapshot's busy threads less the exits since the snapshot |
| PoolTheorems.ReachableInv | src/thread_pool.c:22-177 | all invariants hold in every state of every run |
| PoolTheorems.PoolCeiling | src/thread_pool_manager.c:33-50 | threads that still run, also those already discounted, never exceed `thread_max`; alive + uncounted + exiting is their number; busy ≤ alive + uncounted |
| PoolTheorems.SlotKeptWhileLive | src/thread_pool_manager.c:38-43 | over any run a thread's slot is not overwritten while it lives |
| PoolTheorems.GoneForGood | src/thread_pool.c:153-158 | over any run a dead thread stays dead |
| PoolTheorems.KillBudget | src/thread_pool_manager.c:53-57 | 0 ≤ killno ≤ `thread_min` always; live accounting less killno is never negative without SIGPIPE, and at least `thread_min` when every shrink starts from a snapshot without pending kills |
| PoolTheorems.NoDeadlock | src/thread_pool.c:111-177 | when some worker sleeps and nothing is awake or owed, at most one task per kill exit is queued; without kills every task was taken; with fewer kills than places no producer sleeps |
| PoolTheorems.TasksConserved | src/thread_pool.c:126-166 | over any run the tasks added are those taken, in order, followed by the queue |
| PoolTheorems.WakeupOnItsWay | src/thread_pool.c:133-151 | a worker asleep over more queued tasks than kill exits means a signal is owed or a worker is awake |
| PoolTheorems.RoomOnItsWay | src/thread_pool.c:115-118 | a producer asleep over a free place means a signal is owed or a producer is awake |
| PoolRefinement.GrowIsARun | src/thread_pool_manager.c:36-46 | the protocol's growth, thread by thread with the count after each creation, leaves what the growth loop leaves |
| PoolRefinement.RoundIsARun | src/thread_pool_manager.c:25-62 | from poll to poll the protocol's manager, undisturbed, does what the round in place does; it creates threads exactly when the program's test holds and a slot is empty or its thread gone; a shrink wakes `thread_min` sleepers, or all if there are fewer |
| PoolRefinement.SignalWakesOne | src/thread_pool_manager.c:59-62 | a signal on `empty` leaves one worker fewer asleep and one more awake, or changes no worker if none sleeps |
| PoolRefinement.SignalFullWakesOne | src/thread_pool.c:167 | a signal on `full` does the same for the producers |
| PoolWakeups.OrderedKillsAreTaken | src/thread_pool_manager.c:53-62 | after a shrink with a task queued, the manager's signals to `thread_min` sleepers and one section of each take every kill, without a spurious wake-up, and the queue stays |
| PoolWakeups.ShrinkCompletes | src/thread_pool_manager.c:53-62 | such a run exists whenever `thread_min` workers sleep |
| PoolWakeups.ManagerSendsAllSignals | src/thread_pool_manager.c:59-62 | whatever interleaves, the manager goes on exactly when it has sent `thread_min` signals |
| PoolWakeups.TaskIsTaken | src/thread_pool.c:111-167 | a task offered to an empty ring wakes the named sleeper, which takes that task and is counted busy; both histories grow by it and the ring is empty again |
| PoolWakeups.TaskIsServed | src/thread_pool.c:111-173 | a task offered to a sleeping pool is run by the worker that is woken, after which every thread is in its old phase and every counter as before |
| PoolWakeups.FullRingIsServed | src/thread_pool.c:115-167 | a producer at a full ring sleeps, is woken by the worker that takes a task, and then adds its own at the end |
| PoolWakeups.SpuriousWakeupsAreHarmless | src/thread_pool.c:115-151 | a wake-up without a cause leads back to the same state |
| PoolWakeups.PipeEndsWorker | src/thread_pool.c:12-20 | a worker hit by SIGPIPE in its job is discounted as alive and as busy, and is then gone |
| PoolSchedules.Balanced | src/thread_pool_manager.c:33-46 | from every size at which it can, a run to twice `thread_min` idle threads: all made busy one by one, the pool grown, the jobs ended |
| PoolSchedules.Strand | src/thread_pool.c:148-159 | from there a run to a queued task with all threads asleep or exited, the manager back at its poll |
| PoolSchedules.Drain | src/thread_pool_manager.c:36-57 | with a task queued, rounds of the manager answered by kills, until a round creates no thread and its shrink finds all its kills already taken |
| PoolFailures.SmallKept | src/thread_pool_manager.c:33-57 | a pool that cannot exceed twice `thread_min` keeps fewer threads than that at every step and never orders a kill |
| PoolFailures.LeavesTaskIff | src/thread_pool.c:111-166 | some run rests over a queued task if and only if 1 ≤ `thread_min`, 2·`thread_min` < `thread_max`, the queue has a place and there is a caller |
| PoolFailures.StrandedForGood | src/thread_pool.c:148-151 | a pool at rest over a task whose manager wants neither growth nor shrinking stays so, the pool unchanged, over every run without a new task and without a spurious wake-up |
| PoolFailures.StrandedIff | src/thread_pool_manager.c:33-57 | such a state is reachable if and only if besides `thread_min` ≥ 6 or `thread_max` < 3·`thread_min` |
| PoolFailures.DesertedIff | src/thread_pool_manager.c:53-57 | with `thread_min` ≥ 1 and no SIGPIPE some run kills every thread if and only if the sizes are those of `LeavesTaskIff`; it can leave a task queued |
| PoolFailures.WakeupSpentOnKill | src/thread_pool.c:148-166 | a task offered to an empty queue, whose signal wakes the worker that looks first, is still queued exactly when a kill was pending before the call |
| PoolFailures.MainPoolFails | src/main.c:21 | both failures are reachable for the pool that the program creates |
| UrlHash.BucketOf | src/hash_table_operation.c:46-59 | the loop that push and search share computes the remainder by 1000 of the value that the source's recurrence has in plain arithmetic |
| UrlHash.HashIsNumber | src/hash_table_operation.c:46-57 | the hash on words is a recurrence on numbers: signed bytes, reduction modulo 2^32, and a fold by floor division, exclusive or and clearing of bits |
| BitValues.UpPlusVal | src/hash_table_operation.c:48 | shifting a word by four and adding a widened signed byte is 16·h plus the byte, modulo 2^32 |
| UrlHash.HashIsNonNegative | src/hash_table_operation.c:50-59 | the sign bit is clear after every step for every string of bytes, so the final mask changes nothing |
| UrlHash.FoldsAgree | src/hash_table_operation.c:50-54 | the signed fold equals the ABI's unsigned fold exactly on words with a clear sign bit |
| UrlHash.AbiAgreement | src/hash_table_operation.c:46-57 | on ASCII text the value equals the System V ABI hash at every byte if and only if no step sets the sign bit, and then stays below 2^28 |
| UrlHash.ShortIsAbi | src/hash_table_operation.c:46-57 | up to six ASCII bytes never set the sign bit, and hash to the ABI's value |
| UrlHash.SignCanBeSet | src/hash_table_operation.c:48-54 | seven letters z set the sign bit and leave the ABI's range |
| CText.AtoiIsStrtol | src/hash_table_operation.c:71-74 | `atoi` and `strtol` agree on a text exactly when the value fits in 32 bits, and modulo 2^32 always |
| CText.StrtolReads | src/collect_data_operation.c:87 | white space is skipped, a sign taken, the decimal digits read up to another character, and the value kept within 64 bits |
| CText.StrtolOfDecimal | src/collect_data_operation.c:87 | the decimal text of a number is read as that number, also with a minus, and by `atoi` if it fits in 32 bits |
| CText.DayIsRead | src/thread_time_update_func.c:23-29 | the number read from a day, printed as year, month and day, is the number whose decimal text is the day |
| HashTable.FirstWriterWins | src/hash_table_operation.c:59-89 | after any sequence of pushes and destroys a URL is stored exactly when it has a first writer since the last destroy, with that writer's entry |
| HashTable.UrlTable.constructor | src/hash_table_operation.c:12-29 | every bucket of a new table is null, for any number of buckets, and with the 1000 that the other operations use it is a valid empty table |
| HashTable.UrlTable.Search | src/hash_table_operation.c:91-134 | the result is the node of that URL with the stored entry, or null exactly when the URL is absent |
| HashTable.UrlTable.HashPush | src/hash_table_operation.c:31-89 | 1 exactly when the URL was absent, then one new node at the end of its chain and nothing else; otherwise nothing changes; chains stay acyclic, disjoint, without duplicates and in the right bucket |
| HashTable.UrlTable.NodesApart | src/hash_table_operation.c:78-85 | no node is in two chains or twice in one |
| HashTable.UrlTable.Flush | src/hash_table_operation.c:162-173 | a batch of n nodes followed by nulls is freed, each node once, and leaves the batch array all null |
| HashTable.UrlTable.FreeChain | src/hash_table_operation.c:157-184 | a chain of any length is freed, each node once and after its link was read |
| HashTable.UrlTable.ChainIntact | src/hash_table_operation.c:153-188 | freeing earlier chains leaves a later chain's nodes and links as they were |
| HashTable.UrlTable.Destroy | src/hash_table_operation.c:136-198 | every node of every chain is freed exactly once, no node stays allocated, and every bucket ends empty |
| HashTable.DestroyHashTable | src/hash_table_operation.c:136-139 | a null table gives 0 and changes nothing |
| Records.SplitReadsField | src/collect_data_operation.c:12-25 | one tagged field is read back, with the right number of bytes passed, exactly when it does not contain its own tag, also behind the line end of the record before |
| Records.ClosingTag | src/collect_data_operation.c:18-19 | the search from three bytes on finds the closing tag, or an earlier one inside the field exactly when the field has one |
| Records.PlainIsReadable | src/collect_data_operation.c:12-25 | records whose fields have no '<' can be read back |
| Records.PrintedLines | src/collect_data_operation.c:155-165 | the literal line that a text match and a photo match print |
| Records.ReadRecord | src/collect_data_operation.c:49-94 | one printed record is read back in full and leaves its line end and the rest |
| Records.RoundTrip | src/collect_data_operation.c:47-95 | any number of printed records is read back in order and without loss, two or three fields each, and the loop stops with exactly one byte left unless there was none |
| NewsFiles.RegularMatch | src/collect_data_operation.c:121-167 | a match whose URL is new stores it and prints its record, any other leaves table and file alone |
| NewsFiles.CollectFields | src/collect_data_operation.c:49-80 | the inner loops read the tagged fields in order and end behind the last one |
| NewsFiles.CollectStringIntoHash | src/collect_data_operation.c:27-99 | a load pushes the rows of the whole file in order and returns their number; the pointer ends `nlen` bytes into the text, at the end of the parsed records; -1 without a table or a file |
| EndToEnd.HandleMatch | src/collect_data_operation.c:121-167 | a text match touches only the Txt file, a photo match only the Jpg file |
| EndToEnd.FirstMatchesCover | src/collect_data_operation.c:133-137 | the newly pushed matches have every URL that occurs, each once |
| EndToEnd.FilesHoldFirstMatches | src/collect_data_operation.c:121-167 | after any interleaving the two files hold exactly the first match of every URL, in order, no URL twice over both, and the table maps every URL to what that match stored |
| EndToEnd.FileTextParses | src/collect_data_operation.c:47-95 | a file of printed matches parses to one row for each match |
| EndToEnd.DateSurvives | src/collect_data_operation.c:87-88 | a reloaded entry equals the one stored at printing, on whatever day, exactly when the date is not zero and fits in 32 bits |
| EndToEnd.DayIsStored | src/hash_table_operation.c:71-72 | a new match printed on some day stores the number whose decimal text is that day |
| EndToEnd.ReloadRebuildsTable | src/collect_data_operation.c:27-99 | loading Txt with kind 1 and then Jpg with kind 2 into an empty table gives the table that the matches left, whenever no printed field has its own tag in it and the printed dates fit |
| EndToEnd.Load | src/collect_data_operation.c:27-99 | in place, on a new table: the rows of the Txt file, then those of the Jpg file, with the two counts |
| EndToEnd.RebuildFromFiles | src/collect_data_operation.c:27-167 | the same for the operations in place on two tables and two files, with the record counts |
| Cyclic.PlaceIsRemainder | src/mysql_connection_pool.c:134 | for indices that wrap once the remainder is one conditional subtraction |
| Cyclic.CycleVisitsEachOnce | src/mysql_connection_pool.c:129-134 | from any start the probes visit every node exactly once |
| SqlPool.ConnPool.CreateDbConnect | src/mysql_connection_pool.c:54-102 | -1 after a shutdown or a failed initialisation, 1 with the node closed and disconnected, 0 with it open and connected, and in all but the first case unlocked; no other node changes |
| SqlPool.ConnPool.ReleaseSqlNode | src/mysql_connection_pool.c:170-176 | the node is unused and unlocked and one busy connection fewer is counted, whoever held it |
| SqlPool.ConnPool.GetDbConnect | src/mysql_connection_pool.c:120-167 | without interference the loop computes `Scan`; a pool that is shut down gives null unchanged |
| SqlPool.ProbeOutcome | src/mysql_connection_pool.c:136-159 | a probe hands out its node exactly when it is free, connected or connectable, and answers; it changes no other node; a failure costs one busy count and leaves the node disconnected; a node that was reconnected is handed out unlocked |
| SqlPool.FailedStaysDown | src/mysql_connection_pool.c:81-87 | a node that could not be connected for one caller is not to be had by the next whose attempt fails |
| SqlPool.ScanHandsOutHandle | src/mysql_connection_pool.c:132-165 | a lone scan hands out only nodes that are connected, in use and have a handle |
| SqlPool.ScanFindsFirst | src/mysql_connection_pool.c:132-165 | a lone scan hands out the node at which it ends, and the busy count falls by the nodes locked in vain |
| SqlPool.EndIsFirstUsable | src/mysql_connection_pool.c:132-165 | the scan ends at the first usable node in cyclic order |
| SqlPool.NothingMeansNothingUsable | src/mysql_connection_pool.c:162-165 | null exactly when every node is locked, cannot be connected or does not answer |
| SqlPool.ConnPool.SqlPoolDestroy | src/mysql_connection_pool.c:104-117 | only the first half of the nodes is closed, and half of the number is left |
| SqlPool.ConnPool.GrowNodes | src/mysql_connection_pool.c:37-49 | the creation loop computes `GrowTo`, the destroy on failure included |
| SqlPool.ConnPool.SqlChangeNode | src/mysql_connection_pool.c:179-216 | an increase computes `GrowTo`, a decrease `Shrunk`, for every sign of the amount |
| SqlPool.SqlPoolCreate | src/mysql_connection_pool.c:11-51 | a pool is returned exactly when every attempt succeeded, with the nodes that were created |
| SqlResize.DestroyReachesHalf | src/mysql_connection_pool.c:104-117 | after a destroy all n nodes are closed exactly when those from ⌈n/2⌉ on already were |
| SqlResize.DestroyClosesEveryPoolIff | src/mysql_connection_pool.c:104-117 | destroy closes all nodes of every pool with n nodes if and only if n ≤ 1 |
| SqlResize.GrowAllOrGiveUp | src/mysql_connection_pool.c:188-201 | growth creates every missing node and touches no other, or stops at the first failure with the pool shut down and half of its nodes closed |
| SqlResize.CreateYieldsClampedPool | src/mysql_connection_pool.c:14-50 | creation succeeds exactly when every attempt does, with min_num nodes, but 1 if it is less and 20 if it is more, all connected and numbered |
| SqlResize.FailedCreateLeaks | src/mysql_connection_pool.c:40-45 | a creation that fails at attempt f leaves exactly ⌊f/2⌋ of its f connections open |
| SqlResize.ShrinkRemoves | src/mysql_connection_pool.c:202-213 | a decrease by k removes min(max(k, 0), n) nodes, the last ones, closes them and touches no other |
| SqlResize.IncreaseThenDecrease | src/mysql_connection_pool.c:184-214 | a successful increase undone by the same decrease restores the number and leaves the lower nodes as they were |
| SqlResize.DecreaseThenIncrease | src/mysql_connection_pool.c:184-214 | a decrease undone by the same increase restores the number if the upper nodes can be connected anew, and never touches the lower ones |
| SqlProtocol.CreateYieldsFreshPool | src/mysql_connection_pool.c:37-50 | a created pool is a start state of the runs below |
| SqlProtocol.StepKeepsInv | src/mysql_connection_pool.c:132-176 | every step of every caller keeps the busy accounting and the ownership of every node |
| SqlProtocol.BusyConserved | src/mysql_connection_pool.c:138-176 | in every reachable state `busy_number` is the nodes out less the failed probes, so it is right exactly when none failed |
| SqlProtocol.ConnectedMeansOpen | src/mysql_connection_pool.c:71-91 | in every reachable state a node marked connected has a handle, and a node never reconnected has one always |
| SqlProtocol.HoldersBounded | src/mysql_connection_pool.c:62 | in every reachable state a node has at most one holder more than it was given new mutexes |
| SqlProtocol.SoleOwner | src/mysql_connection_pool.c:132-176 | a node never reconnected is locked exactly while it has a holder, no two callers have it, and the two nodes that one login takes are distinct |
| SqlProtocol.ScanIsARun | src/mysql_connection_pool.c:132-160 | an undisturbed caller of the protocol ends where the sequential scan does, with the same pool and the same node |
| SqlProtocol.UnlockedNodeIsTaken | src/mysql_connection_pool.c:136 | a connected node can be taken by another caller, whoever has it, exactly when it is not locked |
| SqlProtocol.ReconnectSharesNode | src/mysql_connection_pool.c:138-157 | a run with one reconnect in which two callers have the same node and the counter says one |
| AnalyzeUrl.UrlT.FindScheme | src/spider_operation.c:32-43 | the scheme's length, port and kind, or nothing changed for any other scheme |
| AnalyzeUrl.UrlT.CopyDomain | src/spider_operation.c:45-49 | the second loop lays the text up to the next slash over the domain array and nothing after it |
| AnalyzeUrl.UrlT.SizeAfterSlash | src/spider_operation.c:52-55 | the backward loop counts the bytes after the last slash, plus one |
| AnalyzeUrl.UrlT.AnalyzeUrl | src/spider_operation.c:12-76 | the whole new state for every request kind and every URL that fits, and failure exactly for other schemes |
| AnalyzeUrl.OverReads | src/spider_operation.c:45-49 | a copy without a terminator reads as the text followed by the old string behind it |
| AnalyzeUrl.PartsMakeUrl | src/spider_operation.c:44-76 | for a single-news request the URL is scheme + domain + path + "/" + file with slash-free domain and file and a path that is empty or starts with a slash; without a slash after the host the path is empty and the file equals the domain |
| AnalyzeUrl.UrlYieldsParts | src/spider_operation.c:30-76 | conversely any such parts come back from the URL they make, with the port of the scheme |
| AnalyzeUrl.UpdateReadsTail | src/spider_operation.c:16-22 | for an update on arrays with any contents the domain is the host followed by the old tail, and the host alone exactly when a terminator stood behind it; file and path are kept, port and kind are those of the scheme |
| AnalyzeUrl.OtherRequests | src/spider_operation.c:16-49 | any other request leaves file and path empty and sets the domain; a URL of another scheme leaves everything empty, or for an update as it was |
| AnalyzeUrl.SecondUpdate | src/spider_operation.c:16-49 | of two updates on one structure with any contents the second domain is right exactly when the first host was not longer and a terminator stood behind the second before both |
| AnalyzeUrl.HostIsAuthority | src/spider_operation.c:46 | the domain is the authority of section 3.2 of RFC 3986 exactly when it has no '?' and no '#' |
| AnalyzeUrl.PartsAreRfcParts | src/spider_operation.c:44-76 | domain, path and file together are the authority and path of section 3 of RFC 3986 exactly when the URL has neither query nor fragment |

## Left out

- Sockets, epoll, SSL, HTTP fetching, name lookup, mail, logging, the scripts and the request dispatch: plumbing around the modelled parts. `analyze_url` ends before its name lookup.
- `send_text_file` and `send_binary_file`: a chunked copy that is right only if every write is complete.
- POSIX regular expressions and the test that ends the matching: a match is given as its captured groups. Two-group article records are never read back.
- `thread_pool_destory` and a pool that shuts down: `main` never leaves its loop.
- What jobs do, and how long the buffers passed to them live: a task is an opaque pair of addresses.
- The database and the login and register statements: only the outcomes of connecting and pinging matter here.
- Failing allocations, failing thread creation, and writes past the end of a C array (such as clearing 300 bytes of a 256-byte buffer): lengths and capacities are preconditions or unbounded.
- Thread identifiers that the system uses again: every thread has a new one, which makes the liveness test exact.
- The race of the first workers with the counter loop of `thread_pool_create`: runs start when it has ended.
- SIGPIPE outside a job, and signals that wake more than one thread other than as spurious wake-ups.
- Rounding of the floating-point percentage: the test is made on exact quotients.
- Two calls of `regular_match` at the same time: matches follow one another.
- Signed overflow of the hash's shift, which C leaves undefined: 32-bit words wrap around.
- Freeing the bucket array itself, which the program never does.
- HashTable.UrlTable.constructor: promises a usable table only with the 1000 buckets that the other operations use; with fewer they read past the end.
- NewsFiles.RegularMatch: asks for texts without '%' when the URL is new, because the program then passes them to `fprintf` as formats.
- ThreadPool.Pool.ManagerRound: no other thread acts during the round; the protocol has the interleaved manager, and `RoundIsARun` ties the two.
- SqlPool.ConnPool.GetDbConnect: no other caller acts meanwhile, and the pool has at least one node, because the program divides by their number; the protocol has the interleaved callers, and `ScanIsARun` ties the two.
- SqlPool.ConnPool.SqlChangeNode: an increase stays within the 20 nodes of the array, which the program does not test.
- SqlProtocol.SoleOwner: runs without resizing or closing, and each node given back once by its holder.
- SqlProtocol.BusyConserved: the counter's updates are atomic, which the program's are not.
- AnalyzeUrl.UrlT.AnalyzeUrl: the parts fit their arrays; a string without a terminator is read to the end of its array, where the program reads on; a null argument is not modelled.
- The address, port and user strings of the connection pool, and the `ip` and `title` of a URL structure.

# Profiler data path, verified

A Dafny model of how MicroProfiler turns hook calls into live statistics, with
proofs of what it is trusted for. Modules follow the program's components; each
imperative component is a class or a method proved against a functional
specification, about which the theorems are then stated.

- **Trace analysis.** `CallsCollectorThread` is the return stack behind the
  enter and exit hooks. `ShadowStack` is the fold of a thread's trace into a
  forest of statistics keyed by call path; `CallTree` is the recursive
  definition it computes, and `NodeSums` what each node then says;
  `TimeConservation` holds the time laws; `HookCalls` says which calls the hooks
  of a thread tell of;
  `ThreadAnalyzer` is the analyzer on the heap, with frames that cache pointers
  to nodes which clearing frees (a ghost flag on a node records that it may no
  longer be touched). `Analyzer` keeps one of them per thread.
- **Buffer hand-over.** `BuffersQueue` is the protocol as atomic steps of a
  producer, a reader and a policy setter, each side with a program counter;
  `HandOver` has its runs, safety and progress; `SharedBuffers` is the object,
  one method per atomic step, and the uninterrupted operations built on them.
  `Pipeline` composes hooks, hand-over and analysis.
- **Tables and views.** `Index`, `Table`, `GroupBy` and `Join` are the in-memory
  relational layer; `DerivedStatistics` stacks them into callers and callees
  tables, `CallstackTable` into the cumulative view. Records that were written
  to but not committed are `dirty`, and a view is exact but for their groups;
  a group told by another key than it is filed under is `stale` (`StaleRows`).
  `GroupedTable` is a table with a grouped view attached, `JoinedTables` two
  tables with a join and a grouped view of it, over any run of commands.
  `CallQueries` are callers and callees as one-shot queries, `CallerGoes` is what
  becomes of the live tables when a call goes before those made from it, and
  `DerivedRuns` has their runs.
- **Frontend.** `CallTable` reads nested updates into a flat table;
  `EndToEnd` composes it with the analyzers of all threads, and `WholeSession`
  that with the hooks and the queue of each thread; `Hierarchy` orders
  tree rows; `FlatSums` holds the recursion-aware sums.
- **State machines.** `XxHash32` is the streaming hash, `MultiplexingRequest`
  the sharing of one underlying request among callbacks.

`FiniteSums`, `Folds` and `Statistics` hold the algebra used throughout.
Identifiers, counts and times are unbounded integers, except where the program
relies on machine words: limits in the buffers queue, and all of XXH32.

## What is not as expected

- Setting a buffering policy (collector/buffers_queue.h:181-188) may make an
  empty buffer for a producer that is already waiting, and does not signal it.
  `HandOver.SetPolicyLive` says exactly when; `WakeUpGetsLost` is a run of four
  steps that gets there, and `LostWakeUpIsForever` shows that no later read
  recovers. It also subtracts an active buffer that is not there while the
  producer looks for one, and then frees one buffer too many:
  `LastBufferGetsFreed`. Neither happens while the producer fills a buffer.
- The slots for empty buffers are allocated once (collector/buffers_queue.h:107-108),
  and a new policy may need more of them: `HandOver.SlotsRunOut` is a queue as it
  is constructed and such a policy, and `BuffersQueues.SlotsSufficeWithin` says
  exactly when setting one stays within the slots. It always does for a policy
  that allows no more buffers than the first one, which is what the protocol's
  steps require (`Adjustable`).
- The 64-bit length of XXH32 wraps: an input of at least 2^64 bytes whose length
  is less than 16 modulo 2^64 is taken for a short one. `XxHash32s.WrappedDigest`
  gives the digest that comes out; for all other inputs it is the hash
  (`DigestIsHash`).
- A grouped view tells the row of a record by a key that is computed once more
  for every event (sdb/transforms.h:73-94). A callers table computes it from the
  caller's record, and 0 comes out when that has gone, while the call stays filed
  under the caller it had. `CallQueries.GroupsStay` says exactly when the query
  notices that a caller goes, and `CallerGoes.CallGoes` ties that to the rows there
  are right after. From then on, rows of such calls are left behind:
  `CallerGoes.CommittedAfterCaller`, `UnselectedAfterCaller` and `CallerFirst` are
  runs that get there. All other rows are right, whatever went before what
  (`DerivedTable.ResultIsFiled`, `DerivedRuns.Run`).

## Model

| member | source | states |
|---|---|---|
| `Statistics.AddAssociates` | common/primitives.h:59-66 | merging statistics (sum, sum, sum, max) is associative |
| `Statistics.MergeAssociates` | common/primitives.h:59-66 | so is merging forests node by node: updates may be put together in any grouping |
| `Statistics.MergeCommutes` | common/primitives.h:59-66 | and commutative |
| `Statistics.MergeCall` | common/primitives.h:50-66 | adding a completed call to its node is merging the forest that holds that call alone; no other node changes |
| `ShadowStack.RunConcat` | collector/shadow_stack.h:80-92 | analyzing a trace in two parts, with the frames kept in between, is analyzing the whole |
| `ShadowStack.RunAdds` | collector/shadow_stack.h:95-112 | frames never look at what was gathered, and what is gathered only accumulates: a batch analyzed into an empty map and merged is the batch analyzed in place |
| `ShadowStack.RunKeepsOpenPresent` | collector/shadow_stack.h:115-147 | the node of every open call is in the map the batch is analyzed into |
| `ShadowStack.NothingIsLost` | collector/src/collector_app.cpp:62-70 | for every well-nested trace, cut into batches anywhere and shipped and cleared after any of them while calls are open: shipped and held forests merge to the analysis of the uncut trace, and frames are the same |
| `CallTree.UnparseParse` | collector/shadow_stack.h:80-92 | every well-nested trace is the trace of exactly the calls it is parsed into, open ones included |
| `CallTree.ParseCalls` | collector/shadow_stack.h:80-92 | the records of completed calls, nested to any depth, are parsed back to these calls |
| `CallTree.OverheadPerDescendant` | collector/shadow_stack.h:101-111 | what is subtracted for measuring is the total overhead times the number of descendants |
| `CallTree.RunIsMeaning` | collector/shadow_stack.h:80-147 | the stack machine computes the recursive definition over the parsed calls: statistics of completed calls, and the accumulators of every open frame |
| `CallTree.CompletedCalls` | collector/shadow_stack.h:80-112 | a trace of completed calls gives the forest of these calls, inclusive time being (exit - enter) - inner overhead - total overhead per descendant |
| `NodeSums.NodeIsItsCalls` | common/primitives.h:50-66 | after any trace, open calls or not, a node counts as many calls as were completed along its path, their inclusive and exclusive times added up, and the time of the longest of them |
| `TimeConservation.RunBalances` | collector/shadow_stack.h:95-112 | after any trace, whatever the overheads: at every node, callees' inclusive times less (inclusive - exclusive) is what the open frame on that node still owes, and zero when there is none |
| `TimeConservation.ExclusiveTimesAddUp` | collector/shadow_stack.h:95-112 | with no call open, the exclusive times of a tree add up to the inclusive time of its root |
| `TimeConservation.SessionConservesTime` | collector/src/collector_app.cpp:62-70 | both laws hold of shipped and held statistics together, for any cuts and any clears |
| `ThreadAnalyzers.CallGraph.Callee` | collector/shadow_stack.h:150-160 | the callee node of a node is found or made, no node moves, and the gathered forest gains at most a blank node |
| `ThreadAnalyzers.CallGraph.Record` | common/primitives.h:50-57 | a completed call is merged into one node in place; no other node changes |
| `ThreadAnalyzers.CallGraph.Clear` | collector/src/analyzer.cpp:29-30 | every node is freed and nothing stays gathered |
| `ThreadAnalyzers.ThreadAnalyzer.ResetStack` | collector/shadow_stack.h:116-130 | every record is bound to the live node at the path of the calls below it, whatever was freed before |
| `ThreadAnalyzers.ThreadAnalyzer.Enter` | collector/shadow_stack.h:133-147 | entering with cached pointers does what the step on forests says, and keeps all records bound |
| `ThreadAnalyzers.ThreadAnalyzer.Exit` | collector/shadow_stack.h:96-112 | so does exiting, the parent's accumulators included |
| `ThreadAnalyzers.ThreadAnalyzer.AcceptCalls` | collector/src/analyzer.cpp:41-42 | a batch on the heap refines the update on forests; only live nodes are ever touched |
| `ThreadAnalyzers.ThreadAnalyzer.Clear` | collector/src/analyzer.cpp:29-30 | statistics are dropped, open calls stay open |
| `Analyzers.Analyzer.AcceptCalls` | collector/src/analyzer.cpp:74-81 | a batch goes to its thread's analyzer, made on first use; all other threads are untouched |
| `Analyzers.Analyzer.Clear` | collector/src/analyzer.cpp:49-53 | every thread's statistics are dropped, every thread's open calls stay |
| `Analyzers.ThreadsDoNotMix` | collector/src/analyzer.cpp:49-81 | however batches of different threads and clears are interleaved, each thread's state is that of its own session |
| `CallsCollectorThreads.ExitRemovesExactly` | collector/src/calls_collector_thread.cpp:55-67 | an exit removes exactly the entries at or below its pointer, and at least one |
| `CallsCollectorThreads.HookKeepsConsistent` | collector/src/calls_collector_thread.cpp:35-67 | entries stay strictly descending below the sentinel, and open calls in the emitted trace equal entries less the sentinel |
| `CallsCollectorThreads.EveryTraceIsWellNested` | collector/src/calls_collector_thread.cpp:27-67 | whatever is called and however it returns, tail calls included, the emitted trace can be analyzed |
| `HookCalls.HookDoes` | collector/src/calls_collector_thread.cpp:35-67 | of the calls parsed from the emitted trace: an entry below the innermost one opens a call inside the innermost open one; an entry at the innermost one ends that call at its time and opens one beside it; an exit ends exactly the calls entered at or below its pointer and the innermost one, at its time |
| `HookCalls.InOrderAll` | collector/src/calls_collector_thread.cpp:27-67 | runs start with the sentinel and no open call, and every legal hook goes on with them |
| `HookCalls.LatestIsOpen` | collector/src/calls_collector_thread.cpp:35-53 | each open call has the callee and the time of the latest entry at its place on the return stack, whatever was called and tail-called before |
| `HookCalls.ExitsParse` | collector/src/calls_collector_thread.cpp:59-65 | several exits at once end the calls from one level on, each with all that is inside it |
| `CallsCollectorThreads.CallReturnsWhereItCameFrom` | collector/src/calls_collector_thread.cpp:35-67 | a call, all that happens inside it and its exit leave the stack as it was, and the exit finds the address saved at the outermost entry, across any number of tail calls |
| `CallsCollectorThreads.CallsCollectorThread.constructor` | collector/src/calls_collector_thread.cpp:27-33 | the sentinel is there from the start |
| `CallsCollectorThreads.CallsCollectorThread.OnEnter` | collector/src/calls_collector_thread.cpp:35-53 | refines the step for an entry |
| `CallsCollectorThreads.CallsCollectorThread.OnExit` | collector/src/calls_collector_thread.cpp:55-67 | the unwinding loop refines the step for an exit and returns the address of the outermost entry removed |
| `BuffersQueues.MakePolicy` | common/types.h:100-108 | policies exist exactly for factors in order within [0, 1]; limits are ordered, buffers are just enough for the allocation, and each water mark is the whole number next below its share of them, within one to all and none to all but one |
| `BuffersQueues.TrimFits` | collector/buffers_queue.h:208-215 | trimming leaves no more than the mark, frees one buffer per slot it empties, and touches no other slot |
| `BuffersQueues.BuffersAddUp` | collector/buffers_queue.h:191-218 | allocated buffers are the empty, ready and active ones and the one in the reader's hand, never more than slots |
| `BuffersQueues.StepsAreDefined` | collector/buffers_queue.h:122-179 | no step touches a slot or a buffer that is not there; the ready queue never overflows |
| `BuffersQueues.StepSafe` | collector/buffers_queue.h:105-218 | every atomic step of producer, reader and policy setter keeps ownership, order and bounds |
| `HandOver.StartSafe` | collector/buffers_queue.h:105-116 | the constructor establishes all of it |
| `HandOver.HandOverIsSafe` | collector/buffers_queue.h:105-218 | over every interleaving: delivered, in hand, ready and active records make up what was pushed, in order; every buffer has one owner; buffers never exceed the constructor's limit |
| `HandOver.AdjustFits` | collector/buffers_queue.h:208-218 | how many empty buffers there are after adjusting, machine arithmetic on the marks included |
| `HandOver.ReadAdjusts` | collector/buffers_queue.h:149-179 | over any run, whatever the producer and policy setters do in between: a read ends with the empty buffers adjusted by the greatest number of buffers that were ready at a moment it took one, and by none if it took none |
| `HandOver.StepLive` | collector/buffers_queue.h:133-179 | a waiting producer with an empty buffer to take has the event set or a notification pending; some buffer is left |
| `HandOver.SetPolicyLive` | collector/buffers_queue.h:181-188 | setting a policy keeps this exactly when it does not make a buffer for a waiting, unsignalled producer; it leaves some buffer exactly when not everything is empty under a policy of one; while the producer fills a buffer it does both |
| `HandOver.RunLive` | collector/buffers_queue.h:122-218 | over every run in which policies are set harmlessly |
| `HandOver.SomeBufferIsLeft` | collector/buffers_queue.h:191-218 | over every run without a new policy there is always some buffer |
| `HandOver.ReadUnblocks` | collector/buffers_queue.h:133-179 | a blocked producer is woken: now, or by the first buffer the next read hands back, or by the buffer that read makes |
| `HandOver.ReadEnds` | collector/buffers_queue.h:149-179 | wherever a read is, the reader's own steps take it to its end |
| `HandOver.BlockedProducerComesBack` | collector/buffers_queue.h:133-179 | wherever the reader is, its going on brings a blocked producer back, without any new policy |
| `HandOver.CompleteReadWakes` | collector/buffers_queue.h:133-179 | in every run without a new policy that contains a complete read while the producer is blocked, the producer has come out of waiting, or the event is set and there is an empty buffer to take |
| `HandOver.WakeUpGetsLost` | collector/buffers_queue.h:181-188 | a reachable run in which a new policy loses a wake-up |
| `HandOver.LostWakeUpIsForever` | collector/buffers_queue.h:133-188 | after that, no number of reads brings the producer back |
| `HandOver.LastBufferGetsFreed` | collector/buffers_queue.h:181-188 | a reachable run in which a new policy frees every buffer |
| `BuffersQueues.SlotsSufficeWithin` | collector/buffers_queue.h:181-218 | exactly when adjusting to a new policy has a slot for every buffer it makes; always, when the policy allows no more buffers than there are slots |
| `HandOver.SlotsRunOut` | collector/buffers_queue.h:107-218 | a queue as constructed, and a valid policy under which a slot past the end is needed |
| `SharedBuffers.BuffersQueue.constructor` | collector/buffers_queue.h:105-116 | the object starts in the protocol's initial state |
| `SharedBuffers.BuffersQueue.AdjustEmptyBuffers` | collector/buffers_queue.h:207-218 | the two loops over the slot array compute the adjustment |
| `SharedBuffers.BuffersQueue.Push` | collector/buffers_queue.h:126-131 | a record is appended; a full buffer is published and the next one started, or the producer has to wait exactly when there is none; otherwise the current place is in bounds |
| `SharedBuffers.BuffersQueue.Flush` | collector/buffers_queue.h:133-147 | publishing and looking for an empty buffer are the protocol's steps |
| `SharedBuffers.BuffersQueue.TryStart` | collector/buffers_queue.h:138-146 | the look under the mutex |
| `SharedBuffers.BuffersQueue.GiveBack` | collector/buffers_queue.h:165-171 | the buffer in hand goes on top of the stack; notify exactly when the stack was empty |
| `SharedBuffers.BuffersQueue.ReadCollected` | collector/buffers_queue.h:149-179 | an undisturbed read is a run of the reader; it delivers, in order, what was ready, up to the policy's limit, signals exactly if there was no empty buffer, and ends with as many empty and allocated buffers as the policy's marks plus the number of ready buffers say |
| `SharedBuffers.BuffersQueue.SetBufferingPolicy` | collector/buffers_queue.h:181-188 | refines the policy step, with the count that takes an active buffer for granted; if not all buffers are empty ones, the marks go up by those that are neither empty nor active |
| `Pipeline.FromHooksToStatistics` | collector/src/collector_app.cpp:62-70 | hooks, hand-over in any interleaving, batches and clears composed: what is delivered can be analyzed, and once all is delivered the statistics are the analysis of the emitted trace, with times conserved |
| `Indexes.Index.Created` | sdb/index.h:65-66 | the record is indexed by its key; the removal index stays the exact inverse |
| `Indexes.Index.Removed` | sdb/index.h:68-74 | the record's entry is gone without computing its key, and no other entry is touched; unknown records change nothing |
| `Indexes.WalkGoesOn` | sdb/transforms.h:131-132 | a cursor moved on before the entry it was at is erased stays valid, and what is ahead of it is all that is left of the range |
| `Indexes.Index.Cleared` | sdb/index.h:76-77 | nothing is indexed |
| `Indexes.Index.Over` | sdb/index.h:58-63 | an index made over existing records holds all of them by key |
| `Indexes.Index.EqualRange` | sdb/index.h:163-164 | exactly the records with the key |
| `Indexes.Index.Find` | sdb/index.h:105-109 | a record with the key, or none when there is none |
| `Tables.Table.Create` | sdb/table.h:228-230 | a new record is in no index before its commit |
| `Tables.Table.Write` | sdb/table.h:172-173 | writing to a record keeps all indexes exact, as long as a committed one keeps its keys |
| `Tables.Table.CommitCreation` | sdb/table.h:287-292 | each index gains exactly the record; components are told one after the other in the order they were attached |
| `Tables.Table.Forget` | sdb/table.h:280-305 | each index loses exactly the record; components are told in the reverse order, each while the record is still there |
| `Tables.Table.CommitRemoval` | sdb/table.h:301-307 | after all components were told so, the record is gone |
| `Tables.Table.Clear` | sdb/table.h:207-214 | no record and nothing indexed |
| `Tables.Table.Upsert` | sdb/index.h:118-136 | the committed record of the key, or a new one exactly when there is none |
| `Tables.Table.Put` | sdb/index.h:118-136 | a table filled through its unique index never holds two committed records with one key |
| `GroupByViews.CommitExact` | sdb/transforms.h:73-84 | updating the one row of a committed record makes the aggregate exact again: one row per key, its value the aggregator over its whole group |
| `GroupByViews.RemovalExact` | sdb/transforms.h:85-94 | so does updating or removing the one row of a removed record |
| `GroupByViews.WriteKeepsExact` | sdb/table.h:172-173 | uncommitted writes leave only the groups of the written records undecided |
| `GroupByViews.GroupBy.Aggregate` | sdb/transforms.h:78 | the aggregator's loop yields the same whatever the order of the index |
| `GroupByViews.GroupBy.Over` | sdb/transforms.h:96-97 | a view made over existing records is exact |
| `GroupByViews.GroupBy.OnCreated` | sdb/transforms.h:73-83 | the row of the key is found or made and summed up from its whole group; an exact view stays exact |
| `GroupByViews.GroupBy.OnModified` | sdb/transforms.h:73-84 | so is that of a modified record, by the key that comes out now: an exact view stays exact if this is the key the record is indexed by, and otherwise the row of the other key is made or summed up, be its group empty, and the row the record is in stays as it was |
| `GroupByViews.GroupBy.OnRemoved` | sdb/transforms.h:85-94 | with the key the record was indexed by, keeps the view exact, and the last record of a group takes the row with it; with a key that comes out differently by now, leaves all rows as they were |
| `GroupByViews.StaleRow` | sdb/transforms.h:85-94 | leaving the row as it was is right exactly when others are left in the group and aggregate to the same value |
| `GroupByViews.GroupBy.OnCleared` | sdb/transforms.h:82 | nothing is grouped |
| `GroupedTables.GroupedTable.Commit` | sdb/table.h:286-299 | a commit goes to the components first and to the view next, which stays exact |
| `GroupedTables.GroupedTable.Remove` | sdb/table.h:301-307 | so does a removal, and the record is erased after that |
| `GroupedTables.GroupedTable.Run` | sdb/transforms.h:61-99 | for every sequence of creations, writes, commits, removals and clears of a table: the view has one row for each key of a committed record and no other, holding the one-shot aggregate of the committed records with that key, but for groups written to since |
| `GroupedTables.CommittedAfter` | sdb/table.h:286-307 | a record is committed after a run exactly when it was committed at some time and neither removed nor cleared since |
| `GroupedTables.ThereAfter` | sdb/table.h:228-230 | it is there exactly when it was created and neither removed nor cleared since |
| `GroupedTables.ValueAfter` | sdb/table.h:172-173 | it holds what was written to it last, or what it was created with |
| `GroupedTables.PendingAfter` | sdb/table.h:172-173 | a write is pending exactly when the record was committed before it, and neither committed, removed nor cleared since |
| `Folds.FoldRemove` | sdb/transforms.h:78 | aggregating a group record by record does not depend on the order |
| `StaleRows.RightIsExact` | sdb/transforms.h:73-94 | a view is exact just when the row of every key is right: there exactly if a group is filed under it, and worth what that is |
| `StaleRows.RightAfter` | sdb/transforms.h:73-94 | one row told of a change leaves right what was right, but for the groups that change otherwise |
| `JoinViews.Join.AddPair` | sdb/transforms.h:115-125 | a joined record is filed under the key its left record comes out with at that moment |
| `JoinViews.Join.TouchPair` | sdb/transforms.h:126-129 | a modified left record has the row summed up of the key that comes out now; if that is not the one the pair is filed under, both rows are stale and no other is touched |
| `JoinViews.Join.DropPair` | sdb/transforms.h:85-94 | likewise for a pair that goes |
| `JoinViews.Join.OnLeftCreated` | sdb/transforms.h:115-125 | the joined table gains exactly the record's matches; it holds each pair with equal keys once and no other, and the aggregate over it stays right, but for rows stale before |
| `JoinViews.Join.OnLeftModified` | sdb/transforms.h:126-129 | the pairs of the record are settled; rows go stale exactly of pairs whose group comes out differently, and the only row touched is that of the group it comes out with |
| `JoinViews.Join.OnLeftRemoved` | sdb/transforms.h:130-133 | exactly the record's pairs go, with the same effect on rows |
| `JoinViews.Join.DropRange` | sdb/transforms.h:130-133 | the walk goes through the live index, from whose range the pairs are removed meanwhile, and ends with the range empty and no other pair gone; rows go stale exactly of pairs whose group comes out differently |
| `JoinViews.Join.DropNext` | sdb/transforms.h:131-132 | a step of the walk: the cursor, advanced first, is at the end or at an entry that is still there, and all that is left of the range is ahead |
| `JoinViews.Join.DropLeft` | sdb/transforms.h:130-133 | the pairs go whatever their group comes out as, and the only row touched is that of the group told |
| `JoinViews.Join.OnRightCreated` | sdb/transforms.h:158-165 | exactly the matches on the other side are gained, filed as their left records come out now |
| `JoinViews.Join.OnRightModified` | sdb/transforms.h:126-129 | the pairs of a right record are passed on as modified |
| `JoinViews.Join.OnRightRemoved` | sdb/transforms.h:130-133 | exactly the right record's pairs go by a live walk; rows go stale exactly of those whose group comes out differently |
| `JoinViews.Join.Over` | sdb/transforms.h:139-171 | a join made over existing records holds all matches, once, and the aggregate made for it is exact |
| `JoinViews.Join.OnLeftCleared` | sdb/transforms.h:134 | the joined table is empty, the other side's index untouched |
| `JoinedTables.LiveJoin.Run` | sdb/transforms.h:102-171 | for every sequence of creations, writes, commits, removals and clears on both sides: the joined table holds each pair of committed records with equal keys once and no other, and the aggregate over it has a row for exactly the groups of these pairs, each worth the one-shot fold over its pairs, but for groups written to since |
| `JoinedTables.RowsAreOf` | sdb/transforms.h:61-99 | rows that are right for what is filed are the one-shot query over the pairs, once all is filed as it comes out |
| `JoinedTables.LiveJoin.IsQuery` | sdb/transforms.h:102-171 | what the sides' state says is what the tables hold, at any moment |
| `CallQueries.AllPathsAgree` | frontend/primitives.h:79-96 | summing up paths that are known is summing up those anybody who asks is told |
| `CallQueries.QueryIsFlat` | frontend/aggregators.h:22-29 | with the paths of the hierarchy as it is, the query counts calls and exclusive times of the whole group, and inclusive time and maximum of its outermost calls only |
| `CallQueries.GroupIsCounted` | frontend/src/derived_statistics.cpp:103-137 | by the fields of records alone: a call is in a row of callers if its function is selected, the row having its caller's address and its thread; in a row of callees if its caller's function is selected, the row having its own address and thread; a caller that is not there has address 0 |
| `CallQueries.InOneRow` | frontend/src/derived_statistics.cpp:60-87 | two calls are in one row of callees exactly when addresses and threads are equal, in one of callers exactly when callers' addresses and threads are |
| `CallQueries.AppendStays` | frontend/keyer.h:183-188 | a call that comes before those made from it leaves the keys and paths of all others as they were |
| `CallQueries.LeafGoes` | frontend/keyer.h:183-188 | so does a call that goes after those made from it |
| `CallQueries.CallersStay` | frontend/keyer.h:183-188 | callers of all other calls come out as before exactly when nothing made from the call is left, or its address is that of no caller |
| `CallQueries.GroupsStay` | frontend/src/derived_statistics.cpp:88-137 | every group of the query loses a call that goes and nothing else, exactly when it has no address, or nothing made from it is left, or: for callers, nothing made from it is selected; for callees, it and the caller that is nobody are both selected or both not |
| `DerivedStatistics.DerivedTable.Append` | frontend/src/derived_statistics.cpp:103-137 | a new call of the hierarchy is put into its index by id first; the keys of the views are then looked up there; no row but that of its group is touched |
| `DerivedStatistics.DerivedTable.LookUp` | sdb/index.h:105-109 | the index by id finds exactly the records it has been told of |
| `DerivedStatistics.DerivedTable.ReentranceOf` | frontend/primitives.h:88-96 | climbing through the index by id counts the callers with the same address |
| `DerivedStatistics.DerivedTable.AskPath` | frontend/primitives.h:79-96 | a path is worked out when it is first asked for, and stays at that |
| `DerivedStatistics.DerivedTable.TellGroups` | frontend/keyer.h:183-188 | groups are told anew through the index by id, callers that have gone having no address |
| `DerivedStatistics.DerivedTable.Remove` | sdb/table.h:301-307 | a call is forgotten by the indexes, last made first, and its group is told through the index by id after that; its pairs leave what is filed, its row stays if its group comes out differently; and with everything filed as it comes out before, so it is after exactly when nothing filed was made from it |
| `DerivedStatistics.DerivedTable.Write` | frontend/serialization.h:117-124 | accumulating into a record leaves only that record's groups undecided |
| `DerivedStatistics.DerivedTable.Commit` | frontend/src/derived_statistics.cpp:103-137 | committing it settles them: the row of the group the call comes out with holds the sum of what is filed there, no other row is touched, and if the call is filed elsewhere both rows are stale |
| `DerivedStatistics.DerivedTable.Select` | frontend/src/derived_statistics.cpp:88-101 | selecting a record adds its address once; calls are filed as they come out at that moment, no row is touched but of groups that calls of the address come out with, and what goes stale is filed differently from what it comes out as |
| `DerivedStatistics.DerivedTable.Unselect` | frontend/src/derived_statistics.cpp:88-101 | the address stays while another selected record has it; what goes is told by the groups calls come out with, and rows of no other groups are touched, let alone removed |
| `DerivedStatistics.DerivedTable.ClearSelection` | sdb/transforms.h:82 | with the selection cleared nothing is derived and nothing stale, and the hierarchy is still joined when something is selected again |
| `DerivedStatistics.DerivedTable.ClearHierarchy` | sdb/transforms.h:134 | with nothing of it selected, the hierarchy may be cleared; then everything is in step again |
| `DerivedStatistics.DerivedTable.ResultIsFiled` | frontend/src/derived_statistics.cpp:88-137 | whatever went before what, with all committed: groups that are not stale have a row exactly if a call is filed under them, one each, worth the flat sum of the calls filed |
| `DerivedStatistics.DerivedTable.FiledIsQuery` | frontend/src/derived_statistics.cpp:88-137 | as long as calls are filed as they come out, the calls filed under a group are those the query selects |
| `DerivedStatistics.DerivedTable.ResultIsQuery` | frontend/src/derived_statistics.cpp:88-137 | and then, with all committed, callers and callees tables equal the one-shot query: a row for exactly the groups the filter finds, each holding the sum of its group |
| `DerivedStatistics.DerivedTable.RowsMean` | frontend/src/derived_statistics.cpp:103-137 | so there is a row of a key exactly when some record counts in it, by the fields of records |
| `DerivedStatistics.DerivedTable.FiledRow` | frontend/src/derived_statistics.cpp:103-137 | a row summed up last holds what is filed under its key, even if that is nothing |
| `CallerGoes.CallGoes` | sdb/transforms.h:85-94 | with everything in step a call goes: right after that the keys of rows are those of groups with calls filed, and these groups are the query's exactly under the condition of `GroupsStay`; then the table shows the query |
| `CallerGoes.CallerFirst` | sdb/transforms.h:85-94 | a caller that goes before the only call of its group leaves a row of a group the query does not find |
| `CallerGoes.SelectedAfterCaller` | frontend/src/derived_statistics.cpp:88-101 | a call selected after its caller has gone makes the row of calls nobody made, as the query has it |
| `CallerGoes.CommittedAfterCaller` | sdb/transforms.h:73-84 | a call written to and committed after its caller has gone leaves its row with what it had, and makes one of nothing; the query has a single row, of what was written |
| `CallerGoes.UnselectedAfterCaller` | sdb/transforms.h:85-94 | a call unselected after its caller has gone leaves its row, with nothing selected |
| `DerivedRuns.Run` | frontend/src/derived_statistics.cpp:88-137 | over every run of new calls, writes, commits, removals in any order, selecting, unselecting and clears: with all committed, rows that are not stale are those of the calls filed; if no removal left a call filed otherwise than it comes out, the table is the one-shot query; and if calls went after those made from them, its sums are flat in the hierarchy as it is |
| `FlatSums.FoldIsFlat` | frontend/aggregators.h:22-29 | summing up call by call, by whether a call has a caller of its own function, takes inclusive time and maximum from outermost calls only |
| `CallTables.PathInjective` | frontend/keyer.h:234 | unique (thread, parent, address) keys make records of a thread and their paths one to one |
| `CallTables.CreationAddsNode` | frontend/serialization.h:85-95 | a record hung off an earlier one adds one node to one thread's forest |
| `CallTables.ModificationChangesNode` | frontend/serialization.h:117-124 | writing to a record's statistics changes one node of one thread's forest |
| `CallTables.StatisticsTable.Upsert` | sdb/index.h:118-136 | the record of a key is found or made; keys stay unique, parents stay earlier records |
| `CallTables.StatisticsTable.Accumulate` | frontend/serialization.h:117-124 | statistics read are merged into the record's node |
| `CallTables.StatisticsTable.ReadItem` | frontend/serialization.h:84-95 | a nested update is merged below its parent, at every depth; other threads are untouched |
| `CallTables.StatisticsTable.ReadItems` | frontend/serialization.h:126-135 | so is a whole container of them |
| `EndToEnd.Serialize` | collector/serialization.h:36-41 | the nested items written for a node are its forest, in whatever order the container yields callees |
| `EndToEnd.SerializeAll` | collector/serialization.h:28-41 | an update says of each thread exactly what its analyzer has gathered, in whatever order threads come |
| `EndToEnd.ReadAll` | frontend/serialization.h:65-82 | reading it merges into each thread's forest what the update says of that thread |
| `EndToEnd.SendUpdate` | collector/src/collector_app.cpp:62-70 | writing, reading on the other side and clearing move what was gathered for every thread into the table, once |
| `EndToEnd.Profile` | collector/src/collector_app.cpp:62-70 | end to end: for any batches of any threads and any updates in between, and for every thread, the frontend's table with what the analyzer still holds is the analysis of the uncut trace |
| `WholeSessions.ProfileProcess` | collector/src/collector_app.cpp:62-70 | hooks of all threads, the queue of each in any interleaving, batches and updates in any order: for every thread, the frontend's table with what the analyzer still holds is the analysis of what was delivered of the trace its hooks have emitted, and of all that was pushed once its queue is drained; with all that was emitted pushed, it is what the calls that the hooks tell of amount to; times are conserved, and nothing is known of any other thread |
| `WholeSessions.AllNested` | collector/src/collector_app.cpp:62-70 | the analyzer can take whatever the queues of instrumented threads deliver |
| `Hierarchy.InitializePath` | frontend/primitives.h:88-96 | the climbing loop yields the path from the root and the number of callers with the same address |
| `Hierarchy.ReentranceCounts` | frontend/primitives.h:88-96 | reentrance is the number of callers with the same address |
| `Hierarchy.HierarchicalLess` | frontend/hierarchy.h:82-114 | the loop with its early return and shortcut decides the order by paths |
| `Hierarchy.ShortcutAgrees` | frontend/hierarchy.h:93-95 | for records of one parent the shortcut is what the path scan says |
| `Hierarchy.StrictTotalOrder` | frontend/hierarchy.h:82-114 | irreflexive, total and transitive on a forest of any depth |
| `Hierarchy.SiblingsByColumn` | frontend/hierarchy.h:87-95 | rows of one parent are in the order the comparer says, and by id where it says neither |
| `Hierarchy.BranchesByColumn` | frontend/hierarchy.h:97-114 | rows of different branches are in the order of the calls the branches start with, below their nearest common caller |
| `Hierarchy.BranchesPart` | frontend/hierarchy.h:52-66 | there are such calls unless one row descends from the other |
| `Hierarchy.DepthFirst` | frontend/hierarchy.h:52-66 | a node precedes its descendants, and what lies between a node and its descendant descends from the node |
| `Hierarchy.SortedRows` | frontend/hierarchy.h:52-66 | sorted rows are laid out depth first |
| `Hierarchy.DescendantByPath` | frontend/statistic_models.h:66-67 | descending is having the ancestor's path as a proper prefix |
| `FlatSums.SumFlat` | frontend/aggregators.h:22-29 | calls and exclusive times of the whole group, inclusive time and maximum of its outermost members |
| `FlatSums.NotReentrant` | frontend/primitives.h:84-96 | zero reentrance is having no ancestor with the same address |
| `FlatSums.OutermostApart` | frontend/primitives.h:99-110 | outermost records of one function are an antichain |
| `FlatSums.AntichainFits` | frontend/aggregators.h:22-29 | where calls contain their callees' time, an antichain takes no longer than the top-level calls |
| `FlatSums.FlatRowFits` | frontend/src/representation.cpp:82-91 | so a flat row's inclusive time is within that of the thread |
| `CallstackTables.Callstack` | frontend/keyer.h:202-226 | the recursive append yields the addresses from the root to the record |
| `CallstackTables.CallstackTable.OnCreated` | frontend/src/representation.cpp:71-80 | with parents committed first, the aggregated parent is found, and the row's own callstack is that of its records |
| `CallstackTables.CallstackTable.OnModified` | frontend/src/representation.cpp:49-59 | the row is summed up anew from its whole group |
| `CallstackTables.CallstackTable.Written` | frontend/serialization.h:117-124 | accumulating into a source record leaves only its row undecided |
| `CallstackTables.RegroupingKeepsShape` | frontend/keyer.h:210-217 | the row of a call hangs off the row of its caller |
| `CallstackTables.RowIsItsCalls` | frontend/src/representation.cpp:49-80 | a row sums up exactly the calls of all threads with its callstack, and its longest call is the longest of theirs |
| `CallstackTables.RegroupingConserves` | frontend/src/representation.cpp:49-80 | calls, inclusive and exclusive times of all rows equal those of all source records |
| `XxHash32s.AbsorbInTwo` | collector/src/xxhash32.h:43-97 | adding two pieces is adding their concatenation: accumulators, buffer and length |
| `XxHash32s.ChunksDoNotMatter` | collector/src/xxhash32.h:43-97 | for any split, empty pieces included |
| `XxHash32s.BlocksAreStripes` | collector/src/xxhash32.h:78-87 | the blocks gone through are the 16-byte stripes of the input, counted from its start |
| `XxHash32s.DigestIsHash` | collector/src/xxhash32.h:100-133 | the digest of a stream is XXH32 of its bytes, steps 1 to 6 of the algorithm's description, unless the 64-bit counter has wrapped to below a block |
| `XxHash32s.WrappedDigest` | collector/src/xxhash32.h:102-112 | when it has, the digest is that of the third accumulator, as for a short input |
| `XxHash32s.PiecesMakeTheHash` | collector/src/xxhash32.h:43-133 | in whatever pieces a file comes, its hash comes out |
| `XxHash32s.SentenceHashed` | collector/src/xxhash32.h:31-133 | XXH32 gives its published value for an input of two stripes, a lane and three bytes, and the value of the algorithm's description for the same input with another seed |
| `XxHash32s.XXHash32.constructor` | collector/src/xxhash32.h:31-39 | the initial accumulators |
| `XxHash32s.XXHash32.Add` | collector/src/xxhash32.h:43-97 | buffering, completing a block, block loop and remainder absorb the input; false for an empty one |
| `XxHash32s.XXHash32.Hash` | collector/src/xxhash32.h:102-133 | lane and byte loops over the buffer compute the digest and change nothing |
| `XxHash32s.HashOf` | collector/src/xxhash32.h:141-146 | all at once, XXH32 |
| `XxHash32s.CalculateHash` | collector/src/module_tracker.cpp:47-61 | the 1024-byte loop, up to the first short read, hashes the whole file |
| `MultiplexingRequests.EntryIsThere` | reqm/multiplexing_request.h:44-122 | an entry is there exactly while a handle on it is held or it is being invoked |
| `MultiplexingRequests.CreateKeeps` | reqm/multiplexing_request.h:44-60 | the underlying request is handed out to whoever makes the entry and to nobody else |
| `MultiplexingRequests.DestroyInnerKeeps` | reqm/multiplexing_request.h:105-122 | letting a handle go keeps everything in order, and the handle is no longer held |
| `MultiplexingRequests.DestroyInnerExactly` | reqm/multiplexing_request.h:105-122 | it blanks the callback in place and asks for a clean-up during an invocation, and otherwise takes it out of the list, an entry left empty going with it; nothing else changes |
| `MultiplexingRequests.ExitKeeps` | reqm/multiplexing_request.h:94-103 | cleaning up keeps everything in order |
| `MultiplexingRequests.ExitExactly` | reqm/multiplexing_request.h:94-103 | it removes exactly the blanks, and the entry if nothing else is in it; handles and other entries are as they were |
| `MultiplexingRequests.InvokeCallsEachOnce` | reqm/multiplexing_request.h:62-103 | whatever callbacks register and release: those held to the end were called, those not called were released, all in the order they were registered, none twice, none after its release, none of another key |
| `MultiplexingRequests.InvocationFollows` | reqm/multiplexing_request.h:62-70 | but for cleaning up, what an invocation does to the map is what the callbacks it called do, one after the other |
| `MultiplexingRequests.EntriesAreForHandles` | reqm/multiplexing_request.h:44-122 | after any commands, entries are those of the handles held, each with the underlying request handed out once |
| `MultiplexingRequests.MultiplexedRequests.Create` | reqm/multiplexing_request.h:44-60 | refines registration |
| `MultiplexingRequests.MultiplexedRequests.Release` | reqm/multiplexing_request.h:105-122 | refines letting go |
| `MultiplexingRequests.MultiplexedRequests.Invoke` | reqm/multiplexing_request.h:62-70 | the loop over the growing list refines invocation |

## Left out

- The threads of the protocol run in sequentially consistent steps: whatever is done under the mutex, one ready-queue call, one event call. The lock-free queue's own memory ordering is not modelled.
- The callback that reads delivered records is a step of the reader; exceptions thrown by it are not modelled.
- Allocation failures, object lifetimes and exceptions of containers; `flush` blocking in place (it is `Flush`, then waiting steps).
- Factors of a buffering policy are reals, not doubles.
- SharedBuffers.BuffersQueue.SetBufferingPolicy: requires that the policy allows no more buffers than there are slots; what happens otherwise is writing past an array, which is not modelled beyond `SlotsSufficeWithin`.
- JoinedTables.LiveJoin.Run: the sides' indexes belong to the join here; that a table tells its components first and in order is `GroupedTables`.
- DerivedStatistics.DerivedTable.Remove: requires that the call is not selected. The program itself never removes single calls, it clears the hierarchy; what becomes of a selected id without a call is left out.
- GroupedTables.GroupedTable.Run: a transaction is committed once; the source tells a creation twice when the transaction that created a record is committed twice.
- XxHash32s.HashOf: requires, like `Add`, that the input's length leaves room for a block in 64 bits.
- XxHash32s.XXHash32.Add: requires that the input's length leaves room for a block in 64 bits, which every object in memory does.
- Addresses, ids and counters do not wrap around; times are not truncated to 64 bits.
- The root frame of the shadow stack points at a local statistics object; the model gives it the node of the empty path, which no call is accounted at.
- The grouped table, the stacked views and the callstack view are attached to empty tables; the indexes, groupings and joins they are made of are also modelled over existing records.
- The `invalidate` signal, and slot connections being dropped.
- A row's thread and parent fields where a view sets them to a constant (flat and cumulative rows).
- CallstackTables.CallstackTable.OnModified: the source is one thread's or several threads' records; rows carry the cumulative thread, which is not a field here.
- The jump from a derived selection to the main one (frontend/src/representation.cpp:110-129), the filter by thread (a plain join), and pie chart, columns and models.
- `hierarchy_plain` (frontend/hierarchy.h:27-50), which makes the order that of the predicate.
- Wire formats and legacy versions of the update (frontend/serialization.h:133-140): nested items stand for what the archive yields. The list of threads received with an update is not kept.
- MultiplexingRequests.InvokeCallsEachOnce: invocations are not nested and callbacks are not null; a callback does a finite list of registrations and releases on the same map.
- MultiplexingRequests.MultiplexedRequests.Invoke: requires that no entry is being invoked already. A nested invocation of the same entry would clean the list up under the outer one, which is outside the model.
- Sockets, pipes, files, injection, patching, symbol resolution, scheduling and user interface.

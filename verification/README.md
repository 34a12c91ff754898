# Feather-Trace tools, verified

The tools turn traces of a real-time Linux kernel into statistics. This project models the four stateful
parts of them in Dafny and proves what they promise:

* the binomial heap with a cached minimum (`include/heap.h`), on linked nodes whose values and
  back-references move up the trees;
* the trace sorter (`src/ftsort.c`), with its three in-place passes over an array of records;
* the matcher of start and end events (`src/ft2csv.c`), which also accounts for suspensions;
* the merge and the demultiplexing of scheduling traces (`src/load.c`, `src/eheap.c`) and the job
  statistics computed from the resulting lists (`src/job_stats.c`).

`dafny verify dfyconfig.toml` checks everything.

## How the model is built

Each component has two layers. One is a set of functions and predicates on values (forests, sequences
of records, tables) whose laws are proved as lemmas. The other consists of classes and methods in the form of
the C code: loops, arrays, pointer fields and global counters. Every method is proved to
compute exactly what the value layer says. `SearchLaws`, `OutlierRule`, `StreamLaws`, `EventCounts` and the last part of
`JobStatistics` say it once more without any of the functions that follow the loops: as conditions on
the records of the trace, and as sizes of sets of positions.

| files | source |
|---|---|
| `BinomialForest`, `HeapRuns` | the algebra of binomial forests, and whole runs of heap operations |
| `HeapNodes`, `HeapBubbling`, `HeapCounting`, `BinomialHeap` | `include/heap.h` on linked nodes |
| `Trace`, `SeqNumbers`, `Reordering`, `SearchLaws`, `ReorderLaws`, `ReorderSorts`, `Monotonicity`, `OutlierRule`, `Latencies` | what the passes of `src/ftsort.c` compute, and their laws |
| `TraceSorter`, `TracePasses` | the passes themselves, and laws across them |
| `EventScans`, `LockTimes`, `EventPairs`, `EventCounts`, `PidPairs` | what `src/ft2csv.c` looks for, reports and counts |
| `PairMatcher` | its scanning loops and counters |
| `SchedTrace`, `EventHeap`, `Demultiplexing`, `StreamLaws`, `TraceLoader` | `src/eheap.c` and `src/load.c` |
| `JobStatistics` | `src/job_stats.c` |
| `Options`, `Selections`, `Counting` | shared definitions |

Conventions:

* The comparison function of the heap is a parameter that must be a strict weak order.
  `EarlierEventIsOrder` proves that `earlier_event` is one. It compares values, since the C comparison
  functions look at nothing else.
* A `struct heap_node**` reference is a `Handle` object. `node.ref.node` is the variable that it points to.
* C callers of `heap_decrease` change the value behind a node first. `ChangeValue` is this change, and
  `Changed` describes the state in between, which `heap_decrease` expects.
* Ghost fields of nodes, links and heaps record the value-level view, so that every invariant talks
  about one node and its neighbours.
* Records of a trace are tagged with their original index, because two records can be equal.
* 32-bit sequence numbers wrap around explicitly, and so do their signed and unsigned comparisons.
  Counters are natural numbers.
* A tail pointer (`struct evlink**`) is the last link of its list, or null if the list is empty and the pointer
  leads to the list head.
* The list head and the tail pointer that `struct task` and the system events have in common are a
  class of their own, `EventList`.
* The matcher only reads its mapped file, which is therefore a constant sequence of records.
* Output is collected: reported pairs in the field `reported`, statistics in rows.
* `hide` statements in some methods keep definitions that a proof does not need out of it.

## Results that qualify the code

* `heap_decrease` compares a node with its ancestors only, and not with the cached minimum, and it does nothing for a
  node without a reference. `Heap.Decrease` proves that the heap is valid
  afterwards if and only if `DecreaseSuffices` holds before: the node is the cached minimum itself, or
  it does not beat a cached minimum and either has a reference or does not beat its parent.
  `DecreaseMissesCachedMin` gives a heap that offers the wrong element.
* `src/ft2csv.c` passes 0 as a dummy event id, so that a record with event 0 stands for TS_SCHED_END and, after
  it, for TS_LOCK_RESUME. `IsSuspension` says so; for traces without event 0 the language is
  START (SUSPEND (RESUME | SCHED_START SCHED_END RESUME))* END.
* Pairs that are matched by PID can nest or share an end. `PidPairs.PairsByPidAreDisjoint` gives the exact
  condition on the options and the start id, and a lemma for each failing case shows a trace.
* After SCHED_END, the resumption is compared with the time of SCHED_START, not of SCHED_END. The
  language makes the comparisons that the code makes, and time is conserved all the same.

## Model

| member | source | states |
|---|---|---|
| BinomialForest.LinkIsGood | include/heap.h:101-109 | linking two good trees of one degree, the better root on top, gives a good tree of the next degree |
| BinomialForest.MergeItems | include/heap.h:111-133 | merging root lists loses and invents nothing |
| BinomialForest.MergeShape | include/heap.h:111-133 | two lists of strictly increasing degrees merge into a sorted list with at most two roots per degree |
| BinomialForest.CarryIsGood | include/heap.h:192-217 | the carry loop, which meets at most three roots of a degree, ends with strictly increasing degrees and heap-ordered binomial trees |
| BinomialForest.CarryItems | include/heap.h:192-217 | the carry loop keeps the multiset of values |
| BinomialForest.UnionIsGood | include/heap.h:180-218 | the union of two good forests is a good forest with the values of both |
| BinomialForest.TreeSize | include/heap.h:101-109 | a tree of degree k has 2^k values |
| BinomialForest.RootsAreBinaryDigits | include/heap.h:180-218 | a root of degree k is present if and only if bit k of the number of nodes is set |
| BinomialForest.UnionIsBinaryAddition | include/heap.h:180-218 | the degrees after a union are the binary digits of the sum of the sizes |
| BinomialForest.MinIndexIsUnbeaten | include/heap.h:156-178 | the root that the scan finds is beaten by no value of the forest |
| BinomialForest.RemoveRootIsGood | include/heap.h:220-233 | removing a root and melding its reversed children gives a good forest with exactly the other values |
| BinomialForest.MoveUp | include/heap.h:344-359 | one swap with the parent keeps all trees heap-ordered except at the moving value |
| BinomialForest.MoveReachesRoot | include/heap.h:332-376 | once the moving value is at its root, the forest has its old values, and the rest of the forest and the root's children are good forests |
| BinomialForest.InsertIsGood | include/heap.h:235-255 | insertion adds the value, whether or not it replaces the cached minimum |
| BinomialForest.MeldIsGood | include/heap.h:267-277 | uncaching both minima and uniting the forests gives the sum of the contents |
| BinomialForest.PeekIsGood | include/heap.h:279-285 | peeking keeps the contents and caches a value that no other one beats |
| BinomialForest.TakeIsGood | include/heap.h:287-298 | taking removes exactly the value that peeking shows |
| BinomialForest.ReplacedIsGood | include/heap.h:300-330 | if one value of the forest is replaced, the heap is good if and only if the forest is and the new value does not beat the cached minimum |
| HeapRuns.StepRefinesQueue | include/heap.h:220-298 | each operation on a pool of heaps is one of a multiset priority queue |
| HeapRuns.RunsRefineQueues | include/heap.h:220-298 | so is every run: any interleaving of init, insert, peek, take and union on any number of heaps, with minima cached and uncached on the way |
| HeapRuns.DrainedIsSorted | include/heap.h:287-298 | taking until the heap is empty yields its contents in order |
| HeapRuns.DecreaseMissesCachedMin | include/heap.h:300-330 | a heap reached by two insertions and a peek, in which a decreased value stays hidden behind a worse cached minimum, whatever the forest looks like afterwards |
| HeapNodes.Node.constructor | include/heap.h:76-84 | a new node is unlinked and not in a heap |
| HeapNodes.Node.WithHandle | include/heap.h:65-74 | ... and its reference leads back to it |
| HeapNodes.LinkNodes | include/heap.h:101-109 | on linked nodes, the child becomes the first child, and the root's subtree is the linked tree |
| HeapNodes.MergeLists | include/heap.h:111-133 | the pointer loop produces exactly the merged root list |
| HeapNodes.CarryList | include/heap.h:192-217 | the pointer loop links, advances and unlinks as the value-level carry does, and leaves a null-terminated root list |
| HeapNodes.ReverseList | include/heap.h:135-154 | the child list becomes a root list in the opposite order, with cleared parents |
| HeapNodes.FindMin | include/heap.h:156-178 | the root found and its predecessor in the list |
| HeapNodes.TakeRootFrom | include/heap.h:220-233 | unlinking a root and melding its children, on linked nodes |
| HeapNodes.JoinForests | include/heap.h:180-218 | __heap_union on the nodes of two separate heaps |
| HeapBubbling.SwapWithParent | include/heap.h:314-324 | values and references change places, and every reference still leads to its value |
| HeapBubbling.BubbleToRoot | include/heap.h:342-359 | the deleted value passes every ancestor; all references follow their values |
| HeapBubbling.BubbleUp | include/heap.h:311-328 | the decreased value stops below the first ancestor that it does not beat |
| BinomialHeap.Heap.constructor | include/heap.h:59-63 | an empty heap |
| HeapCounting.CountNodes | include/heap.h:101-109 | the linked trees of a root list have as many nodes as their forest has values |
| BinomialHeap.Heap.RootDegreesAreBinaryDigits | include/heap.h:180-218 | on linked nodes: the root list has a root of degree k if and only if bit k of the number of nodes is set |
| BinomialHeap.Heap.ExtractMin | include/heap.h:220-233 | takes an unbeaten root out of the forest, or nothing out of an empty one |
| BinomialHeap.Heap.Insert | include/heap.h:235-255 | keeps the pointer invariant, does exactly the value-level insertion, adds exactly one node |
| BinomialHeap.Heap.UncacheMin | include/heap.h:257-265 | the cached node returns to the forest |
| BinomialHeap.Heap.Union | include/heap.h:267-277 | keeps the invariant of both heaps; the target gets all nodes, the addition is empty |
| BinomialHeap.Heap.Peek | include/heap.h:279-285 | returns the cached minimum, keeps invariant, nodes and contents |
| BinomialHeap.Heap.Take | include/heap.h:287-298 | returns the minimum's node, which leaves the heap; null if and only if the heap is empty |
| BinomialHeap.Heap.FindRoot | include/heap.h:360-367 | the search for the predecessor of the root terminates with it |
| BinomialHeap.Heap.Delete | include/heap.h:332-377 | exactly one occurrence of the value leaves a valid heap, in the node its reference then leads to; all other references keep leading to their values |
| BinomialHeap.Heap.ChangeValue | include/heap.h:300-310 | what a caller does before: a value is replaced by one that the old one does not beat |
| BinomialHeap.Heap.Decrease | include/heap.h:300-330 | links and references are intact and the contents right in any case; the heap is valid if and only if the cached minimum is not beaten and a node without reference was in order |
| SeqNumbers.InRangeIsDistance | src/ftsort.c:88-95 | in_range holds exactly if the candidate is less than 1024 ahead modulo 2^32 |
| SeqNumbers.IsLowerIsDistance | src/ftsort.c:97-106 | for numbers in range, is_lower_seqno is the order of the distances, across both wrap-arounds |
| Reordering.FindLowestIsLowest | src/ftsort.c:108-129 | a found record is in range and closest ahead of the expected number in the whole window, even if the scan stops early |
| SearchLaws.FindLowestIsExact | src/ftsort.c:108-129 | on any records: the search gives up if more than 5 records out of range precede the first record with the expected number, or the end of the window if there is none; otherwise it returns the last of the closest records in range up to there, and nothing only if none is in range |
| SearchLaws.FoundIsExact | src/ftsort.c:108-129 | this determines what is found, in both directions |
| SearchLaws.MoveIsAllowed | src/ftsort.c:136-163 | a move is allowed if and only if the record, or every record it passes, is TS_SEND_RESCHED_START or of another CPU and of another or no PID |
| SearchLaws.StepIsExact | src/ftsort.c:184-206 | one step on any records: nothing for the expected number; a hole if nothing is found ahead; a hole and an aborted move if a record is in the way; otherwise one rotation, with a hole if the number is not the expected one |
| Reordering.StepEffect | src/ftsort.c:179-208 | a step moves at most one record, to the cursor, by less than 1024 places, and only past records that it need not follow |
| ReorderLaws.ReorderKeeps | src/ftsort.c:132-208 | a whole run permutes the trace, keeps the order of each CPU and each task, and moves no record ahead by 1024 or more places |
| ReorderLaws.ReorderKeepsSubsequences | src/ftsort.c:132-208 | the subsequence of each CPU and of each nonzero PID, apart from TS_SEND_RESCHED_START, is exactly the original one |
| ReorderLaws.RunCountsGaps | src/ftsort.c:179-208 | nothing before the cursor is touched again; each gap from there on is counted |
| ReorderLaws.HolesAreGaps | src/ftsort.c:184-207 | holes is the number of adjacent records of the result whose numbers are not consecutive |
| ReorderSorts.RivalsAreInBetween | src/ftsort.c:108-129 | while the lowest records are in place up to the cursor, the next one is as far away as it has larger-numbered records before it in the original trace |
| ReorderSorts.FarAheadIsMissed | src/ftsort.c:118-126 | the misses of the search are the remaining records in the window that are 1024 or more ahead of the expected number; those behind the next record count only if the expected number itself is missing |
| ReorderSorts.NextIsExpected | src/ftsort.c:185-188 | the number that the loop expects is the one after the next lower number that occurs in the trace |
| ReorderSorts.NextIsFound | src/ftsort.c:108-129 | the search finds the next record if and only if fewer than 1024 larger-numbered records are before it, fewer than 1024 numbers are missing before it, and at most 5 misses are made |
| ReorderSorts.NextCanMove | src/ftsort.c:136-163 | its move is allowed if and only if no larger-numbered record before it is of its CPU or task |
| ReorderSorts.StepSorts | src/ftsort.c:184-206 | a step of the loop puts the next record in its place, with a hole exactly after missing numbers, if and only if the record is in order or meets these conditions; otherwise a higher one ends up there |
| ReorderSorts.SortedIsLocal | src/ftsort.c:179-208 | if a run ends in order, every record that it has put in its place meets the conditions |
| ReorderSorts.NoHolesInSequence | src/ftsort.c:184-207 | no hole is reported if and only if the result is consecutive from the first number on |
| ReorderSorts.ReorderSorts | src/ftsort.c:108-208 | for every trace, with or without missing numbers: it ends up in the order of its numbers if and only if these are distinct and every record is in order or meets the conditions; then no move is aborted, reordered is the number of records out of order, and holes is the number of records whose preceding number is missing |
| ReorderSorts.NoHolesIfWhole | src/ftsort.c:108-208 | no hole is reported if and only if, in addition, no number is missing, and exactly then the result is consecutive |
| Monotonicity.OneOutlierIsRepaired | src/ftsort.c:230-258 | on one CPU: if one record disturbs a strictly increasing order, at most one is marked and the others increase strictly |
| Monotonicity.OutlierOnCpuIsRepaired | src/ftsort.c:210-259 | the same for a CPU of an interleaved trace |
| Monotonicity.ExamineKeeps | src/ftsort.c:222-258 | examining a record slides the window of its own CPU only |
| Monotonicity.PassIsDone | src/ftsort.c:210-259 | what has been marked at the end is what each CPU's own sub-stream marks when it is taken alone |
| OutlierRule.MarkedIsTheRule | src/ftsort.c:210-259 | for every trace: the marked records are the only set with this rule: a sample is marked if and only if its CPU has an unmarked sample before it and a sample after it, the last such p and the first such n have Time(p) < Time(n), and its own time is not strictly between them |
| Latencies.LatestStart | src/ftsort.c:298-304 | the latest TS_SCHED_START of a CPU in the hole-free run before a record |
| Latencies.NextBoundary | src/ftsort.c:262-278 | the first TS_RELEASE_START or TS_SCHED_START of a CPU in the hole-free run after it |
| Latencies.ImplausibleAt | src/ftsort.c:305-322 | the declarative rule is decided by these two records |
| Latencies.TracksNext | src/ftsort.c:298-304 | the per-CPU arrays know the latest start after each record |
| Latencies.VerdictIsRight | src/ftsort.c:305-322 | the nested tests on the array as changed so far decide the rule on the original trace |
| TraceSorter.Sorter.FindLowestSeqNo | src/ftsort.c:108-129 | the loop finds what the specification finds |
| TraceSorter.Sorter.MoveRecord | src/ftsort.c:132-177 | rotates the array and counts, if the move is allowed; otherwise changes the other counter only |
| TraceSorter.Sorter.Reorder | src/ftsort.c:179-208 | leaves the records of the specified run in the array, and its counts in the counters |
| TraceSorter.Sorter.MarkAsBad | src/ftsort.c:78-86 | overwrites one event and counts it |
| TraceSorter.Sorter.PreCheckCpuMonotonicity | src/ftsort.c:210-259 | changes the events of exactly the records that their CPUs mark, and nothing else; these records follow the rule; non_monotonic grows by their number |
| TraceSorter.Sorter.FindNpUpperBound | src/ftsort.c:262-278 | finds the next boundary |
| TraceSorter.Sorter.FilterImplausibleLatencies | src/ftsort.c:280-325 | retags exactly the latencies that the rule on the original trace calls implausible, and counts them |
| TraceSorter.Sorter.SortTrace | src/ftsort.c:428-432 | the three passes in sequence, with the sums of all five counters |
| TracePasses.CheckedTraceIsSorted | src/ftsort.c:428-429 | marking spikes and gaps first changes nothing about it: both passes together sort exactly the locally shuffled traces, with one hole after each run of missing numbers |
| TracePasses.RepairSurvivesReorder | src/ftsort.c:428-429 | what is left of a CPU's examined records after the repair of one outlier increases strictly in the reordered trace, too |
| EventScans.NextOnCpu | src/ft2csv.c:51-72 | the next record of a CPU, if there is no hole up to there |
| EventScans.NextIdIsExact | src/ft2csv.c:74-108 | next_id finds exactly the matches, and notices every interrupt in its way |
| EventScans.DisturbanceIsReal | src/ft2csv.c:74-108 | ... and reports no other one |
| EventScans.ScanForPidIsExact | src/ft2csv.c:119-164 | the same for next_pid with any interleaving allowance |
| EventScans.PidDisturbanceIsReal | src/ft2csv.c:119-164 | ... and its interrupts |
| EventScans.NextPidIsExact | src/ft2csv.c:119-164 | without an allowance, next_pid finds exactly the next record of the PID, if its event is one of the two and no interrupt intervenes |
| LockTimes.WordsAreRecognised | src/ft2csv.c:195-242 | every word of the language is recognised, with the time spent executing |
| LockTimes.RecognisedAreWords | src/ft2csv.c:195-242 | nothing else is recognised |
| LockTimes.RecognitionIsExact | src/ft2csv.c:119-242 | accumulate_exec_time succeeds if and only if the PID's next records in a hole-free stretch spell a word, with the comparisons and the interrupt rule of the code |
| LockTimes.DisturbanceIsExact | src/ft2csv.c:195-242 | an interrupt is reported if and only if one is in the way of an executing segment |
| LockTimes.SuspensionIsResumed | src/ft2csv.c:166-193 | skip_over_suspension finds the resumption of every suspension of the language |
| LockTimes.ResumptionIsExact | src/ft2csv.c:166-193 | what it finds is the resumption of one |
| LockTimes.TimeIsConserved | src/ft2csv.c:166-242 | execution and suspensions add up to the time from start to end; no difference is negative |
| EventPairs.PairingByIdIsExact | src/ft2csv.c:289-307 | an attempt by event id succeeds exactly for the pairs of the definition |
| EventPairs.PairingByPidIsExact | src/ft2csv.c:262-287 | an attempt by PID succeeds exactly for the words of the language, or for the next allowed end that is later |
| EventPairs.ExecTimeFits | src/ft2csv.c:262-287 | the reported time never exceeds the time between the two records |
| EventPairs.PairsByIdAreExact | src/ft2csv.c:309-365 | by event id, the reported pairs are exactly those of the definition whose start is not on an excluded CPU |
| EventPairs.PairsByPidAreExact | src/ft2csv.c:262-365 | by PID, the reported pairs are exactly those of the definition (a word of the language, or the next allowed end if it is later) whose start is not on an excluded CPU |
| EventPairs.PairsByIdAreDisjoint | src/ft2csv.c:354-365 | pairs of one CPU do not overlap; no end record is claimed twice |
| LockTimes.SuspensionsInBetween | src/ft2csv.c:195-242 | between start and end of a request, its PID records nothing but suspensions |
| LockTimes.SchedEndIsResumed | src/ft2csv.c:181-189 | a TS_SCHED_END inside a request is followed by the resumption as the next record of its PID |
| PidPairs.DummyPairsTouch | src/ft2csv.c:274-276 | for start 0, a trace on which one record is the end of a pair and the start of the next |
| PidPairs.AllowanceSharesEnd | src/ft2csv.c:150-161 | with an interleaving allowance, for every start, a trace on which two starts claim one end |
| PidPairs.SuspendPairsNest | src/ft2csv.c:262-272 | for start TS_LOCK_SUSPEND, a trace with one pair inside another one |
| PidPairs.ResumePairsShareEnd | src/ft2csv.c:262-272 | for start TS_LOCK_RESUME, a trace on which two starts claim one end |
| PidPairs.SchedStartPairsNest | src/ft2csv.c:262-272 | for start TS_SCHED_START, a trace with one pair inside another one |
| PidPairs.PairsByPidAreDisjoint | src/ft2csv.c:262-287 | for all options and ids: the reported pairs of one PID are disjoint and claim no end twice on every trace if and only if nothing can be reported, or no interleaving is allowed and the start is not 0 and, as far as suspensions are taken into account, not TS_LOCK_SUSPEND, TS_LOCK_RESUME or TS_SCHED_START |
| EventPairs.PairsAreInOrder | src/ft2csv.c:354-365 | pairs are reported in the order of their starts, each start once |
| EventPairs.TotalsAddUp | src/ft2csv.c:262-323 | complete counts the reported pairs, and the counters account for every start record that no interrupt disturbs |
| EventCounts.OutcomeIsExact | src/ft2csv.c:262-323 | what becomes of a start record: excluded for its CPU, paired, unpaired only for lack of a real-time task, disturbed by an interrupt in its way, or none of these |
| EventCounts.RestartsAreInBetween | src/ft2csv.c:84-98 | next_id passes over the records of the CPU between start and end |
| EventCounts.IrqsAreFlags | src/ft2csv.c:119-164 | next_pid counts the flagged records of the CPU that it comes across |
| EventCounts.RequestIrqsAreFlags | src/ft2csv.c:195-242 | accumulate_exec_time counts those of the segments in which the task executes, each once |
| EventCounts.TotalsAreCounts | src/ft2csv.c:74-365 | complete, incomplete, non_rt and avoided are the numbers of start records with these outcomes; interrupted and interleaved are the numbers of flagged and of interleaved records on the way of the considered start records |
| PairMatcher.Matcher.NextRecord | src/ft2csv.c:51-72 | the loop of next |
| PairMatcher.Matcher.FindNextId | src/ft2csv.c:74-108 | the loop of next_id, with its flag and the two counters |
| PairMatcher.Matcher.FindNextPid | src/ft2csv.c:119-164 | the loop of next_pid, with its flag and counter |
| PairMatcher.Matcher.SkipOverSuspension | src/ft2csv.c:166-193 | the resumption, with the last time that the caller compares with |
| PairMatcher.Matcher.AccumulateExecTime | src/ft2csv.c:195-242 | the unbounded loop terminates with the specified result; sum never underflows |
| PairMatcher.Matcher.FindEventByPid | src/ft2csv.c:262-287 | reports and counts what the attempt says |
| PairMatcher.Matcher.FindEventById | src/ft2csv.c:289-307 | the same by event id |
| PairMatcher.Matcher.ShowCsv | src/ft2csv.c:309-323 | avoided CPUs, and the choice between the two ways |
| PairMatcher.Matcher.ShowId | src/ft2csv.c:354-365 | skips to the first end record, then reports and counts exactly the attempts of all start records from there |
| EventHeap.EarlierEventIsOrder | src/eheap.c:6-16 | earlier_event with its tie break is a strict weak order |
| EventHeap.HeapifyEvents | src/eheap.c:19-36 | a valid heap of exactly the given records |
| EventHeap.Load | src/load.c:64-82 | a valid heap of the records of all files and their number; null exactly if there is no file or one failed |
| StreamLaws.AllRecordsCount | src/load.c:64-82 | every record is counted as often as it occurs in all files together |
| Demultiplexing.SlotsAreFirstPids | src/load.c:124-137 | the used slots are the first 512 distinct nonzero PIDs in order of appearance |
| Demultiplexing.ListsShareOut | src/load.c:168-197 | every record other than names and parameters is in exactly one list |
| Demultiplexing.FirstTimeIsLeast | src/load.c:163-167 | in an ordered stream, the first nonzero time is the least one |
| StreamLaws.OrderIsExact | src/eheap.c:6-16 | a stream is in the order of earlier_event if and only if the times in raw[0] of the kinds from ST_RELEASE to ST_NP_EXIT do not decrease, no other record follows a nonzero time, and the records without a time are in the order of their PIDs |
| StreamLaws.FirstTimeIsExact | src/load.c:163-167 | in such a stream, the first time is the least nonzero one of these times, or 0 if there is none |
| Demultiplexing.FindSlotFinds | src/load.c:124-137 | by_pid finds the slot that the PID has from then on, or none |
| Demultiplexing.TableOneMore | src/load.c:163-198 | what one record does to the table and the lists |
| Demultiplexing.TableIsDemultiplexed | src/load.c:150-199 | the table of an ordered stream is an ordered demultiplexing of it |
| StreamLaws.LastOfIsLast | src/load.c:169-183 | the name and the parameters that are kept are those of the last record of this kind and PID |
| StreamLaws.PidsAreInOrder | src/load.c:124-137 | the PIDs are in the order of their first records |
| StreamLaws.TableIsExact | src/load.c:150-199 | each of the first 512 PIDs has an entry with its last name, its last parameters, and exactly its other records in the order of the stream; the records without an entry are exactly the system events, in order |
| TraceLoader.EventList.Append | src/load.c:185-194 | a link is added at the tail, other lists are left alone |
| TraceLoader.TaskTable.constructor | src/load.c:93-101 | an empty table |
| TraceLoader.TaskTable.ByPid | src/load.c:124-137 | finds or allocates the slot, and changes nothing else |
| TraceLoader.TaskTable.FileRecord | src/load.c:168-197 | the table and the lists show the stream with the record added |
| TraceLoader.TaskTable.Split | src/load.c:150-199 | drains the heap in the order of times and PIDs and files its records; sets time0 to the least nonzero time if asked to |
| TraceLoader.LoadTrace | src/job_stats.c:195-200 | end to end: the table shows a permutation of all records of all files in the order of times and PIDs, time0 their least nonzero time |
| JobStatistics.KindAt | src/job_stats.c:30-48 | the two local variables of the loop decide what is a preemption and what is a migration |
| JobStatistics.PreemptionsAreExact | src/job_stats.c:30-48 | preemptions are the switches to the job that follow a switch away from it |
| JobStatistics.MigrationsAreExact | src/job_stats.c:30-48 | migrations are those of them whose CPU differs from that of the latest switch away |
| JobStatistics.MigrationsArePreemptions | src/job_stats.c:30-48 | every migration is a preemption |
| JobStatistics.CountPreemptions | src/job_stats.c:20-49 | counts exactly the switches to the job after one away from it, and those of them to another CPU than the latest one away |
| JobStatistics.FindCompletion | src/job_stats.c:242-253 | the first completion of the same job, if it is among the first 20 completions |
| JobStatistics.JobRow | src/job_stats.c:239-255 | the row of a release, if it is reported and completes |
| JobStatistics.JobRows | src/job_stats.c:237-256 | exactly one row for each release that is reported and completed, in the order of the releases, with the counts of its job |
| JobStatistics.RowsAreExact | src/job_stats.c:237-256 | a row is reported if and only if it is that of an ST_RELEASE, no earlier than the system release if that is waited for, and of its completion, with the numbers of preemptions and migrations in between |
| JobStatistics.RowAtIsExact | src/job_stats.c:237-256 | the same for one release |
| JobStatistics.RowIsSound | src/job_stats.c:237-256 | each row pairs a release with a completion of its job and counts no more migrations than preemptions |

## Left out

- Memory mapping, files, devices, signals, option parsing and the rest of the `main` functions: traces and options are parameters. A file that cannot be mapped is `None`.
- Printing, name tables, CSV and float output, lateness and response times: they do not feed back into what is modelled.
- `find_forward_by_seq_no` in `src/ftsort.c`: nothing calls it.
- `restore_byte_order`: byte swapping on a 48-bit field, independent of the other passes.
- `crop_events`, the per-task accessors of `src/load.c`, `show_single_records` and `list_ids`: they would add simple members only.
- Wrap-around of the 32-bit counters and of `degree`: counters are natural numbers. A heap would need 2^32 nodes for a degree of 32.
- Allocation failure, and the bulk allocation of nodes and links: they are allocated one by one. `Load` proves that its count is the number of records, so that `split` never needs more links than `count`.
- BinomialHeap.Heap.Insert: demands that the node is not in the heap already, as C callers must see to.
- HeapNodes.Node.WithHandle: allocates the node and stores it in the handle, where C initialises a node that the handle already leads to.
- TraceSorter.Sorter.PreCheckCpuMonotonicity: takes CPU numbers below 255 for granted, as the C array with UINT8_MAX slots does.
- TraceSorter.Sorter.FilterImplausibleLatencies: cycles per nanosecond are a positive real number; rounding of the quotient in floating point is not modelled.
- ReorderSorts.NoHolesIfWhole: takes traces of up to 2^32 records; in longer ones, numbers have to repeat even without a hole.
- JobStatistics.CountPreemptions: returns the counts instead of adding to the caller's variables, which start at 0.

# Equivalence checker: a verified model

The repository is a concurrency checker for small C functions on an ARMv6 board. It runs every interleaving of
the functions with a bounded number of context switches, hashes the shared memory each one leaves, and reports
those whose hash no serial order of the functions produces. This project models its logic in Dafny and proves
what the tool promises, from the enumeration of schedules down to the set, the hashes and the allocator it is
built on, together with two of the concurrent programs that it is meant to check.

## How it fits together

`EquivChecker.CheckerRun` is the tool. It fills a trie (`TrieSet`) with the hashes (`MemoryHash`, `XXHash32`) of all
serial executions (`Permutations`), and then sweeps all schedules with 1..ncs switches (`Interleaver`). A sweep has
two odometers: `TidOdometer` enumerates the thread orderings, and `CountOdometer` the number of
shared-memory instructions of each segment, whose limits are only discovered by running. Running a schedule is
the `Scheduler` class, the trap handlers with their global state; `Machine` is its specification on values, over
which the invariants of all runs are proved. The one fact about runs on which the sweep rests is
`Machine.PrefixDetermined`: where a run stops depends only on the part of the schedule it used. `EarlyStops` and
`SerialRuns` show that the schedules that stop early need no judging of their own: each ends as a shorter schedule
or as a serial execution does. `TouchBounds` derives from finishing runs the bound on segments that makes the sweep
end, `SweepEnds` shows that the sweep ends exactly if there is one, and `Spinner` is a program without one. `Replay`
shows that a run is an interleaving of the functions' own instructions, and `QueueOrder` in which order the threads
wait and exit.

The functions under test are arbitrary deterministic step functions from registers and memory to an ordinary
instruction with the set of addresses it touches, a putc, a yield, or the exit.

The hash is what the checker sees of a memory. `XXHash32` has the streaming and the one-shot form of it on 32-bit words,
`XXHash32Mixing` proves that a change of one byte always changes it, and `XXHash32Digests` that it gives the
published digests.

`XXHash3` and `Multiply128` are the rest of the hash library that is modelled: streaming equals one-shot for
every split of every input, with the accumulate, scramble, merge and short-input kernels as parameters.

`Arithmetic`, `Sequences` and `Words` hold what several modules share.

`Allocator` is the explicit-free-list allocator as a class whose memory is a function from addresses to words, with
the headers and links stored in it. `HeapLayout` says what a well-formed heap is (a tiling, headers, list,
links, accounts), `HeapSteps` what the stores of each operation do to it, and `HeapAbsorption` what stands in memory
where free blocks were when another block has absorbed them.

`RingBuffer` and `SpinLockStack` each hold the program as one thread uses it, as a class, and a state machine in which
every single load, store or compare-and-swap of any thread is a step; the theorems are about every sequence
of steps.

## Where the code and its documentation differ, and where it fails

The model follows the code.

- `set_insert` returns non-zero when the value was already there; the comment in `final_proj/code/set.h` says the opposite.
- `append_free_block` does not set the links of a block appended to an empty list, so `equiv_free` of the only
  block of a full heap, or a growing `equiv_realloc` that uses up the only free block and then splits it, can leave a
  list with arbitrary links. The exact conditions are in `Allocator.Heap.EquivFree`, `Allocator.Heap.Grow` and
  `Allocator.Heap.TrimBlockIfPossible`; `Allocator.FullHeap` is an instance.
- `equiv_malloc` reads the header of the first free block without a test for NULL; the outcome `Fault` stands for that
  read, and the contracts say exactly when it happens. `validate_heap` has the same gap. Both happen in
  `Allocator.FullHeap`.
- `equiv_malloc_init` accepts odd sizes, but the heap it then makes is not well formed.
- The constant ALIGNMENT, 8, is described as the alignment of all blocks; sizes are rounded to it, but each header takes 4
  bytes. Payloads are word aligned (`Allocator.PayloadsAligned`) and no more: of the first two allocations from any
  heap exactly one is aligned to 8 (`Allocator.TwoAllocations`).
- After the last switch a thread that prints goes to the end of the queue, so the thread switched away from need not exit
  last (`QueueOrder.PrintingReorders`).
- `factorial` overflows its int beyond 12 functions.
- With fewer than two functions there is no valid thread ordering, and `next_tid` returns 0 at once.
- A sweep ends exactly if all its schedules do and one number bounds the shared touches of completed segments
  (`SweepEnds.SweepEndsExactly`). A function that spins on shared memory until another one acts has no such bound: every
  higher count completes its switch too, so the odometer keeps raising it, although every single run ends
  (`Spinner.SweepNeverEnds`). The checker as a whole never reaches such a loop: the touches of a segment that is
  unbounded mean a run without that switch that does not end, which is a serial execution or a schedule of a sweep
  with fewer switches, and both come first. So it stops exactly if its serial executions return and all its
  schedules end (`TouchBounds.BoundedTouches`, `SweepEnds.CheckerEndsExactly`).

## Model

| member | source | states |
|---|---|---|
| EquivChecker.CheckerRun | final_proj/code/equiv-checker.c:50-93 | The end-to-end theorem, for two or more functions whose serial executions return and whose schedules of 1..ncs switches finish (the tool stops for no others, see SweepEnds.CheckerEndsExactly). It refuses exactly ncs = 0; otherwise, for each count i of 1..ncs switches, the reports are exactly the schedules that complete all i switches without yielding and whose final memory hashes like no serial execution's, each once and in order; and nothing is reported if and only if every schedule of 1..ncs switches, whether it completes them or not, either yields or ends in a memory that hashes like some serial order's |
| EquivChecker.NoReportsExact | final_proj/code/equiv-checker.c:78-89 | Empty reports for every switch count are equivalent to: every completing, non-yielding schedule of 1..ncs switches is hash-equivalent to a serial execution |
| EquivChecker.CompletedSchedulesSuffice | final_proj/code/interleaver.c:118-155 | Judging only the schedules that complete all their switches is enough: if they all end serially, so does every non-yielding schedule that stops early |
| EquivChecker.StoppedEndsSerially | final_proj/code/interleaver.c:143-150 | A schedule that stops after k > 0 switches ends as the schedule of those k switches, which was judged |
| EquivChecker.NoSwitchEndsSerially | final_proj/code/interleaver.c:151-155 | A schedule that completes no switch ends as a serial execution |
| EarlyStops.TruncationKeepsResult | final_proj/code/equiv-threads.c:145-150 | Dropping the switches that a run never made leaves its memory, switch count and yielded flag as they were |
| EarlyStops.RunAlike | final_proj/code/equiv-threads.c:145-166 | The full and the shortened schedule run alike, but for the counting of touches in the last segment |
| SerialRuns.NoSwitchesIsSerial | final_proj/code/equiv-threads.c:262-288 | With no switches to make, the scheduler leaves the memory of the serial execution in queue order, and does not yield |
| SerialRuns.QueueRunsSerially | final_proj/code/equiv-threads.c:276-289 | From any thread on, exits hand over to the next in the queue, and the memory is that of the serial execution |
| SerialRuns.SoloInMachine | final_proj/code/equiv-threads.c:366-376 | Uninterrupted, a thread goes through the states it goes through on its own, two traps to an instruction |
| SerialRuns.UninterruptedOrderIsSerial | final_proj/code/equiv-threads.c:358-362 | The order in which the queue runs is a permutation of the functions |
| EquivChecker.SerialHashes | final_proj/code/equiv-checker.c:66-75 | The valid set holds the hashes of all serial executions and nothing else |
| EquivChecker.FindGoodHashes | final_proj/code/interleaver.c:159-187 | The set gains exactly the hashes of the memories that the listed orders leave, each order run from the initial memory |
| EquivChecker.RunSerial | final_proj/code/interleaver.c:168-175 | Running the functions of one row one after the other leaves the memory of that serial execution |
| SerialRuns.Call | final_proj/code/interleaver.c:172-175 | A function called directly runs until it returns, and leaves the memory that any longer observation would find too |
| SerialRuns.AfterUnique | final_proj/code/interleaver.c:172-175 | The memory that a returning function leaves does not depend on how long it is watched |
| EquivChecker.GoodHashesAreSerial | final_proj/code/equiv-checker.c:66-75 | The orders listed by get_func_permutations account for exactly the serial hashes |
| EquivChecker.InvalidIsViolation | final_proj/code/interleaver.c:118-135 | With the serial hashes as the valid set, the verdict of an iteration is that the schedule ends in a non-serial state |
| EquivChecker.SerialOutcomeIsNoViolation | final_proj/code/interleaver.c:118-135 | No false alarm: a schedule that leaves the shared bytes as some serial execution does is not a violation |
| EquivChecker.OneByteIsViolation | final_proj/code/interleaver.c:118-135 | No miss where the hash must tell: a completing schedule whose outcome differs from every serial one in a single shared byte is a violation |
| Interleaver.RunInterleavings | final_proj/code/interleaver.c:51-157 | For a fixed number of switches, and whenever the loop has an end at all (SweepEnds.SweepEndsExactly): the probes made form a finished sweep of valid schedules in strictly increasing order (so none twice) that includes every schedule completing all its switches, the loop ends by an explicit measure, and the reports are those probes that are invalid |
| SweepEnds.SweepEndsExactly | final_proj/code/interleaver.c:51-157 | The loop comes to an end after finitely many probes if and only if all schedules run to the end and one number bounds the shared touches of every completed segment |
| SweepEnds.CheckerEndsExactly | final_proj/code/equiv-checker.c:78-89 | When the serial executions return, the sweeps of 1..ncs switches all end if and only if all their schedules do |
| SweepEnds.FinishedSweepIsTame | final_proj/code/interleaver.c:143-155 | A sweep that has come to an end bounds all runs, also of schedules that it skipped |
| SweepEnds.RunsAsProbe | final_proj/code/interleaver.c:143-155 | Every schedule of the sweep's length, probed or skipped, ends in the configuration of some probe |
| SweepEnds.TameSweepEnds | final_proj/code/interleaver.c:51-157 | A bound on the touches gives a finished sweep |
| TouchBounds.BoundedTouches | final_proj/code/interleaver.c:143-150 | If all serial executions return and all schedules finish, the shared touches of completed segments have a common bound: no such bound need be assumed |
| TouchBounds.SegmentBound | final_proj/code/equiv-threads.c:366-411 | A completed segment has no more touches than the schedule that stops short of its end takes steps |
| TouchBounds.ShortenedFinishes | final_proj/code/equiv-threads.c:145-166 | The schedule that stops short of a segment is one of a smaller sweep, or a serial execution, and so finishes |
| Spinner.SweepNeverEnds | final_proj/code/interleaver.c:143-150 | One function waits for a shared byte, the other sets it: every schedule of one switch finishes, and yet the sweep has no end, since every higher count completes its switch too |
| Spinner.SerialNeverReturns | final_proj/code/interleaver.c:172-175 | The checker does not get that far: the serial order with the waiting function first does not return |
| Interleaver.RunOne | final_proj/code/interleaver.c:100-140 | One iteration reports the number of switches the schedule completes, and flags it exactly when it completes all of them without yielding and the hash is not a valid one |
| Interleaver.AdvanceProbe | final_proj/code/interleaver.c:143-155 | The next counts are the successor at the switch that failed; when not even one switch completed, the next ordering with all counts one, or the end after the last ordering |
| Interleaver.SweepCounts | final_proj/code/interleaver.c:143-150 | Raising the count of the last completed switch k and resetting the later ones leaves out no schedule that completes |
| Interleaver.SweepOrdering | final_proj/code/interleaver.c:151-155 | Moving on to the next ordering when no switch completed leaves out no schedule that completes |
| Interleaver.SweepEnd | final_proj/code/interleaver.c:151-155 | When the last ordering completes no switch, every schedule that completes has been probed |
| Interleaver.SweepBegin | final_proj/code/interleaver.c:69-78 | No schedule that completes comes before the first probe |
| Interleaver.NothingBetween | final_proj/code/interleaver.c:143-150 | Between a probe and its successor no count vector of the same ordering completes all switches |
| Interleaver.SwitchesStay | final_proj/code/equiv-threads.c:145-166 | A schedule that stops at switch k still stops there when its k-th count is raised and the later ones are changed |
| Interleaver.SwitchesBounded | final_proj/code/equiv-threads.c:366-411 | A run reports at most as many switches as were asked for, and each completed count is below the bound on shared touches |
| Interleaver.ReportsExact | final_proj/code/interleaver.c:118-135 | Of all schedules, exactly the invalid ones are reported, in the order of the sweep |
| Interleaver.FirstNext | final_proj/code/interleaver.c:69-73 | With two or more functions the first next_tid, from all ones, finds the least ordering |
| CountOdometer.AdvanceIsGreater | final_proj/code/interleaver.c:143-150 | The advanced counts are lexicographically greater and stay positive |
| CountOdometer.BetweenSharesPrefix | final_proj/code/interleaver.c:143-150 | Whatever lies strictly between counts and their successor at k agrees with them before k and asks for no fewer at k |
| CountOdometer.LessTotal | final_proj/code/interleaver.c:143-150 | The order of count vectors is total |
| CountOdometer.LeftDecreases | final_proj/code/interleaver.c:143-150 | Every greater count vector below the bound has fewer vectors left above it: the termination measure of the sweep |
| CountOdometer.LeftBounds | final_proj/code/interleaver.c:143-150 | That measure is between 0 and the number of count vectors |
| CountOdometer.AdvanceInPlace | final_proj/code/interleaver.c:144-149 | The in-place update of instr_nums is the successor at the completed switch |
| CountOdometer.Reset | final_proj/code/interleaver.c:153-153 | All counts are one again |
| TidOdometer.NextTid | final_proj/code/interleaver.c:25-49 | If it returns true the array holds the least valid ordering above the old one in little-endian base-n value; if false, there was none and the array holds all ones; the retry loop ends |
| TidOdometer.IncrementInPlace | final_proj/code/interleaver.c:27-45 | One carry pass adds one to the value, and carries out exactly when all digits were at their maximum |
| TidOdometer.IncrementVal | final_proj/code/interleaver.c:27-45 | Below the maximum, incrementing raises the value by exactly one |
| TidOdometer.IncrementWraps | final_proj/code/interleaver.c:38-45 | At the maximum, incrementing wraps to all ones |
| TidOdometer.TidsValid | final_proj/code/interleaver.c:17-23 | True exactly when no two neighbours are equal |
| TidOdometer.ValInjective | final_proj/code/interleaver.c:25-49 | Different orderings have different values |
| TidOdometer.LastDifferenceDecides | final_proj/code/interleaver.c:25-49 | Which ordering comes first is decided by the last place in which two differ |
| TidOdometer.OrderingsExact | final_proj/code/interleaver.c:69-73 | The enumeration holds exactly the sequences over 1..n without equal neighbours, in strictly increasing value, so each once |
| TidOdometer.OrderingsCount | final_proj/code/interleaver.c:69-73 | There are n * (n-1)^ncs of them |
| TidOdometer.NextIsSuccessor | final_proj/code/interleaver.c:25-49 | Iterating next_tid steps through the enumeration one by one, and it reports the end exactly at the last |
| TidOdometer.SuccessorExists | final_proj/code/interleaver.c:25-49 | Every ordering of the enumeration but the last is followed by its next, and after the last next_tid has nothing to find |
| TidOdometer.FirstOrdering | final_proj/code/interleaver.c:69-73 | The first one after all ones is the first of the enumeration |
| TidOdometer.OrderingExists | final_proj/code/interleaver.c:69-73 | There is an ordering to try if and only if there are two functions or more |
| Machine.ReachableInv | final_proj/code/equiv-threads.c:145-300 | In every configuration of every run of a valid schedule: current, queued and exited threads partition the threads; do_instr_count implies an active schedule with switches left; the current thread is the scheduled one; completed segments ran only their own thread and contained exactly their number of shared touches |
| Machine.StepHandlerInv | final_proj/code/equiv-threads.c:366-411 | The instruction-boundary trap keeps that invariant and never fails to find its thread |
| Machine.ExecuteInv | final_proj/code/equiv-threads.c:228-300 | Instructions, exits and yields keep that invariant |
| Machine.CrashesOnlyByPutc | final_proj/code/equiv-threads.c:71-105 | The only thing that stops a valid schedule is a putc while switches remain (the BAD panic): no missing thread and no read through a NULL schedule |
| Machine.RecordedPcInBounds | final_proj/code/equiv-threads.c:160-162 | Whenever a touch is recorded, its index is below instr_counts[ctx_switch] |
| Machine.RotatedKeeps | final_proj/code/equiv-threads.c:52-68 | Taking a queued thread out rotates the others and loses none |
| Machine.RotatedIsCyclic | final_proj/code/equiv-threads.c:52-68 | The threads that stay queued are in the old cyclic order, beginning after the one taken out |
| QueueOrder.SwitchOrder | final_proj/code/equiv-threads.c:386-404 | After a switch the thread switched away from is the last in the queue, the others are the old queue without the new thread in the same cyclic order beginning after it, and the new thread is the scheduled one |
| QueueOrder.StartOrder | final_proj/code/equiv-threads.c:414-424 | A run begins with the first scheduled thread t, and t-1, ..., 1, n, ..., t+1 wait behind it |
| QueueOrder.RunServes | final_proj/code/equiv-threads.c:228-289 | From the last switch on the threads are served as a line: one that exits leaves it, one that prints or yields goes to its end, and nothing else changes it |
| QueueOrder.ExitOrder | final_proj/code/equiv-threads.c:262-289 | In a finished run that completed a switch, without a yield and without printing after the last switch: the thread switched to exits first, the one last switched away from exits last, and the others in between in their cyclic queue order |
| QueueOrder.ExitsOnce | final_proj/code/equiv-threads.c:262-289 | No thread exits twice, and the exits are those of the finished threads |
| QueueOrder.PrintingReorders | final_proj/code/equiv-threads.c:71-105 | An input for which that order is another one: a thread that prints after the last switch lets the one switched away from exit first |
| Replay.RunIsInterleaving | final_proj/code/equiv-threads.c:366-411 | At every point of every run, memory and registers are what the operations performed so far, each thread's own in its own order, make of the initial ones: traps and switches change nothing |
| Replay.StepPerforms | final_proj/code/equiv-threads.c:228-289 | A trap at an instruction boundary changes no memory and no registers; any other performs exactly one operation of the current thread |
| Replay.LogRecords | final_proj/code/equiv-threads.c:145-166 | Every ordinary instruction is recorded, with its thread, its segment, and whether it touched an address of the shared set |
| Machine.RunRealisesSchedule | final_proj/code/equiv-threads.c:366-411 | For each switch i that a finished run completed, segment i ran only thread tids[i] and contained exactly instr_counts[i] touching instructions, and segments came in order |
| Machine.PrefixDetermined | final_proj/code/equiv-threads.c:262-288 | The number of switches a run completes, k, and its whole result depend only on the first k+1 threads and k counts, and do not change when the failing count is raised |
| Machine.Lockstep | final_proj/code/equiv-threads.c:366-411 | Two schedules that agree through segment k run in lockstep as long as they stay within it |
| Machine.FinalUnique | final_proj/code/equiv-threads.c:414-437 | A run has one final configuration |
| Machine.StartInv | final_proj/code/equiv-threads.c:414-424 | A run from a once-filled queue begins in the invariant with the first scheduled thread current |
| Scheduler.Threads.RetrieveTidFromQueue | final_proj/code/equiv-threads.c:52-68 | Finds the thread if and only if it is queued; the queue is rotated past it; otherwise it is the panic |
| Scheduler.Threads.CtxSwitchHandler | final_proj/code/equiv-threads.c:145-166 | The data abort sets do_instr_count as the specification says and changes nothing else |
| Scheduler.Threads.EquivHashHandler | final_proj/code/equiv-threads.c:366-411 | The instruction-boundary trap takes the state where the specification says, or panics exactly when it does; when it switches, the old thread is the last in the queue and the others are in the old cyclic order beginning after the new one |
| Scheduler.Threads.SysYield | final_proj/code/equiv-threads.c:241-261 | Yield drops the schedule, sets yielded and rotates the queue |
| Scheduler.Threads.SysExit | final_proj/code/equiv-threads.c:262-289 | Exit drops the schedule and takes the next thread, or ends the run |
| Scheduler.Threads.SysPutc | final_proj/code/equiv-threads.c:238-240 | Putc goes through equiv_schedule: a panic while switches remain, otherwise a rotation |
| Scheduler.Threads.ResetThreads | final_proj/code/interleaver.c:245-249 | Every thread is back at its entry and pushed on the queue, the last one in front |
| Scheduler.Threads.EquivRun | final_proj/code/equiv-threads.c:414-437 | From the filled queue to the end of all threads: the final state is that of the specification |
| Scheduler.Threads.Run | final_proj/code/interleaver.c:100-111 | One schedule from init to the end: memory, switch count and yielded flag are those of the specified run, and the queue is empty again |
| Permutations.Permute | final_proj/code/permutations.c:10-23 | Restores the array, advances count by the number of rows, fills exactly those rows and leaves the others alone |
| Permutations.RowsCount | final_proj/code/permutations.c:10-23 | From start on there are (n-start)! rows |
| Permutations.RowIsArrangement | final_proj/code/permutations.c:10-23 | Every row rearranges the entries and keeps those before start |
| Permutations.RowsAreComplete | final_proj/code/permutations.c:10-23 | Every arrangement that keeps the entries before start is a row |
| Permutations.RowsNoRepeats | final_proj/code/permutations.c:10-23 | For distinct entries no row occurs twice |
| Permutations.SerialOrdersExact | final_proj/code/permutations.c:34-52 | The rows allocated are all filled if and only if n >= 1, and then they are exactly the n! serial orders, each once |
| Permutations.GetFuncPermutations | final_proj/code/permutations.c:44-52 | The matrix has factorial(n) rows that hold the serial orders |
| Permutations.Factorial | final_proj/code/permutations.c:25-32 | The loop computes the factorial |
| Permutations.FactorialFitsInt | final_proj/code/permutations.c:25-32 | The 32-bit result is right if and only if n <= 12 |
| TrieSet.Node.Insert | final_proj/code/set.c:109-127 | Adds exactly the value (at every level, its path) and returns whether it was there before; nodes stay unshared |
| TrieSet.Node.Lookup | final_proj/code/set.c:129-143 | 1 for a member, 0 otherwise |
| TrieSet.Node.CopyFrom | final_proj/code/set.c:95-107 | A deep copy over a set of any level: same level and members as the source, only fresh nodes under its bits |
| TrieSet.Node.UnionOf | final_proj/code/set.c:151-179 | The union, in fresh nodes that neither operand shares |
| TrieSet.Node.UnionInplace | final_proj/code/set.c:181-199 | The receiver becomes the union; the other set is unchanged and shares nothing with it |
| TrieSet.Node.IntersectionOf | final_proj/code/set.c:201-215 | The intersection, in fresh nodes |
| TrieSet.Node.IntersectionInplace | final_proj/code/set.c:217-241 | The receiver becomes the intersection although children remain under cleared mask bits |
| TrieSet.Node.ForeachRecurse | final_proj/code/set.c:59-77 | Visits the members below a prefix once each in ascending order, empty subtrees included |
| TrieSet.Node.Foreach | final_proj/code/set.c:79-81 | Calls the handler once per member in strictly ascending order and returns the cardinality |
| TrieSet.Node.Cardinality | final_proj/code/set.c:147-149 | The number of members |
| TrieSet.Node.Empty | final_proj/code/set.c:83-86 | True exactly for the empty set |
| TrieSet.Node.constructor | final_proj/code/set.c:5-20 | A node of the given level without members |
| TrieSet.ElemsAlgebra | final_proj/code/set.c:109-241 | At the root, paths, unions and intersections are insertions, unions and intersections of sets of 32-bit values |
| TrieSet.SamePathIsEqual | final_proj/code/set.c:109-143 | Through the seven levels only one 32-bit value has a given path |
| TrieSet.VisitStep | final_proj/code/set.c:59-77 | Visiting one child extends an ascending list by exactly its members |
| MemoryHash.HashMem | final_proj/code/memory.c:97-107 | For every ascending enumeration of the members (there is one), the result is the XXH32 stream hash of exactly the bytes at them, one byte per callback, lowest address first |
| MemoryHash.HashOfBytes | final_proj/code/memory.c:97-107 | The hash of a memory on a set of addresses is that of the bytes at its members in ascending order, none left out |
| MemoryHash.OneAddressMatters | final_proj/code/memory.c:97-107 | Memories that differ at exactly one member have different hashes |
| MemoryHash.HashOfAgrees | final_proj/code/memory.c:102-107 | Memories that agree at the members have equal hashes |
| MemoryHash.AscendingUnique | final_proj/code/memory.c:102-107 | A set has only one ascending enumeration |
| MemoryHash.AddMem | final_proj/code/memory.c:109-113 | Adds exactly the addresses base..base+size, wrapping at 2^32 |
| XXHash32.State.Update | final_proj/code/xxhash.h:3143-3193 | Any chunk extends the absorbed input; the flag is set exactly when 16 or more bytes were fed in all, even after the 32-bit length has wrapped |
| XXHash32.State.Digest | final_proj/code/xxhash.h:3198-3214 | The digest is the one-shot hash of everything fed, whatever the chunks were (what that hash is, the next rows say) |
| XXHash32Mixing.OneByteMatters | final_proj/code/xxhash.h:3055-3100 | For all lanes and all strings: changing one byte changes the hash |
| XXHash32Mixing.AvalancheApart | final_proj/code/xxhash.h:2939-2947 | The final mix is injective |
| XXHash32Mixing.RoundApart | final_proj/code/xxhash.h:2882-2886 | A round is injective in the lane and in the input |
| XXHash32Mixing.Process1Apart | final_proj/code/xxhash.h:2969-2972 | Mixing in a byte of the tail is injective in the hash and in the byte |
| XXHash32Mixing.Process4Apart | final_proj/code/xxhash.h:2974-2978 | Mixing in four bytes of the tail is injective in the hash and in the bytes |
| XXHash32Mixing.ReadApart | final_proj/code/xxhash.h:3071-3074 | Different groups of four bytes are read as different words |
| XXHash32Mixing.ConvergeApart | final_proj/code/xxhash.h:3077-3078 | Changing one lane changes what the lanes converge to |
| XXHash32Mixing.AbsorbByte | final_proj/code/xxhash.h:3070-3075 | Changing one byte of the stripes changes exactly one lane |
| XXHash32Mixing.FinishByte | final_proj/code/xxhash.h:2966-2993 | Changing one byte of the tail changes the hash |
| XXHash32Mixing.Rotations | final_proj/code/xxhash.h:2885-2885 | The shifts and the OR are rotations |
| XXHash32Digests.DigestOfNothing | final_proj/code/xxhash.h:3055-3100 | The published digest of no bytes, seed 0: 02CC5D05 |
| XXHash32Digests.DigestOfOne | final_proj/code/xxhash.h:3055-3100 | Of a: 550D7456 |
| XXHash32Digests.DigestOfFour | final_proj/code/xxhash.h:3055-3100 | Of abcd: A3643705 |
| XXHash32Digests.DigestOfSentence | final_proj/code/xxhash.h:3055-3100 | Of a sentence of 39 bytes (two stripes, a group of four, three bytes): E2293B2F |
| XXHash32Digests.SeedAdds | final_proj/code/xxhash.h:3065-3068 | The lanes for any seed, with their numbers |
| XXHash32.XXH32 | final_proj/code/xxhash.h:3055-3100 | The one-shot loops compute the hash from the seed lanes |
| XXHash32.AbsorbAll | final_proj/code/xxhash.h:3062-3075 | The stripe loop absorbs all whole stripes |
| XXHash32.Finalize | final_proj/code/xxhash.h:2966-2993 | The tail is mixed in by words and then bytes, and avalanched |
| XXHash32.AbsorbConcat | final_proj/code/xxhash.h:3143-3193 | Absorbing in two goes is absorbing the whole when the cut is at a stripe |
| XXHash32.TotalLength | final_proj/code/xxhash.h:3154-3155 | The sticky flag is right in spite of the wrapping length |
| XXHash32.State.constructor | final_proj/code/xxhash.h:3130-3139 | Every state without buffered bytes, with zero length and a clear flag, is a valid start; a reset is the case of the seed lanes |
| XXHash3.State.Digest | final_proj/code/xxhash.h:6424-6439 | After any sequence of updates the digest is the one-shot hash of all input, for every secret of at least 136 bytes and every length the one-shot function takes |
| XXHash3.OneShotIs | final_proj/code/xxhash.h:5837-5922 | What the one-shot hash is, in closed form and with all its numbers: which 64 bytes of the input meet which 64 bytes of the secret, when the accumulators are scrambled and with what, and how they are merged |
| XXHash3.StreamIs | final_proj/code/xxhash.h:5837-5860 | The eager scrambling of the stream is that closed form: stripe j uses the secret from 8 times its place in the block |
| XXHash3.State.Update | final_proj/code/xxhash.h:6299-6374 | Any chunk extends the input; whole stripes are streamed with eager scrambling, the rest is buffered, and the last 64 consumed bytes stand at the end of the buffer when they are needed |
| XXHash3.State.DigestLong | final_proj/code/xxhash.h:6386-6421 | The remaining stripes and the last, possibly overlapping, stripe are those of the one-shot loop; the state is unchanged |
| XXHash3.State.FillBuffer | final_proj/code/xxhash.h:6338-6350 | Completing and consuming the buffer streams exactly its four stripes |
| XXHash3.State.ConsumeLarge | final_proj/code/xxhash.h:6352-6361 | Consuming directly from the input leaves 1 to 64 bytes and keeps the last stripe for the look-back |
| XXHash3.State.constructor | final_proj/code/xxhash.h:6167-6212 | A reset state has been fed nothing |
| XXHash3.ConsumeStripes | final_proj/code/xxhash.h:6254-6288 | Consuming stripes from anywhere within a block equals feeding them one at a time, with the scramble right after each completed block |
| XXHash3.HashLongLoop | final_proj/code/xxhash.h:5836-5867 | The block-wise one-shot loop equals the stream of all stripes short of the last byte, then the last 64 bytes |
| XXHash3.XXH3WithSecret | final_proj/code/xxhash.h:6002-6037 | The one-shot function: short inputs by the short hash, long ones by the long loop and the merge |
| XXHash3.Accumulate | final_proj/code/xxhash.h:4814-4830 | n stripes with the secret advancing by 8 bytes each |
| XXHash3.StreamConcat | final_proj/code/xxhash.h:6254-6288 | Streams of stripes compose |
| XXHash3.LookBack | final_proj/code/xxhash.h:6409-6415 | With fewer than 64 bytes buffered, the end of the buffer and the buffered bytes together are the last 64 bytes of the input |
| XXHash3.RemainingStripes | final_proj/code/xxhash.h:6399-6408 | With 64 or more buffered, the last stripe is in the buffer and the stripes before it complete the one-shot stream |
| Multiply128.Mult64To128Exact | final_proj/code/xxhash.h:4452-4466 | No intermediate sum reaches 2^64, and high * 2^64 + low equals the product, for all 64-bit operands |
| Allocator.Heap.Init | final_proj/code/equiv-malloc.c:300-332 | Refuses sizes below 28; the heap it leaves, one free block, is well formed if and only if the size is even |
| Allocator.Heap.EquivMalloc | final_proj/code/equiv-malloc.c:347-380 | Keeps the heap well formed. In terms of the blocks alone: NULL for a bad size; a read through NULL exactly when no block is free; NULL exactly when no free block of size s has s - s % 8 at least the larger of 16 and the request; otherwise a block of least sufficient size is cut to the least multiple of 8 if that leaves 20 bytes or more. Among equal ones it is the first of the list; payloads in use are untouched |
| Allocator.AllocationGrants | final_proj/code/equiv-malloc.c:347-380 | That statement follows from the first best fit of the list walk |
| Allocator.NeedsIsLeast | final_proj/code/equiv-malloc.c:353-359 | A request is rounded to the least multiple of 8 that is at least 16 and at least the request |
| Allocator.RoomIs | final_proj/code/equiv-malloc.c:353-367 | A block serves a request exactly if its size, rounded down to a multiple of 8, does |
| Allocator.RoundupIs | final_proj/code/equiv-malloc.c:51-53 | roundup gives the least multiple of 8 that is not smaller |
| Allocator.Heap.FindBest | final_proj/code/equiv-malloc.c:361-371 | The list walk finds the first block of least sufficient size, or none exactly when none fits |
| Allocator.Heap.AllocateBlock | final_proj/code/equiv-malloc.c:271-289 | The block is used, trimmed and unlisted; the heap stays well formed |
| Allocator.Heap.TrimBlockIfPossible | final_proj/code/equiv-malloc.c:238-262 | Splits exactly when 20 bytes or more are left over; the list stays in order if and only if it was not empty, nothing was split, or the two words in place of the new links were NULL |
| Allocator.Heap.EquivFree | final_proj/code/equiv-malloc.c:388-409 | The block becomes free and swallows the run of free blocks after it, so that a used block or the end follows; the heap stays well formed if and only if the list was not empty or the first two payload words were NULL; other payloads are untouched |
| Allocator.Heap.CoalesceRight | final_proj/code/equiv-malloc.c:218-230 | All free blocks to the right, and nothing else, become part of the block; list, counters and other payloads are kept |
| Allocator.Heap.EquivRealloc | final_proj/code/equiv-malloc.c:427-498 | All cases of the call: as malloc for NULL, as free for size 0, NULL for an excessive size, unchanged when large enough, and otherwise grown (next row), with the exact condition for a well-formed heap in each case |
| Allocator.Heap.Grow | final_proj/code/equiv-malloc.c:454-497 | In place exactly when the free run to the right makes enough room; otherwise a read through NULL exactly when no other block is free, NULL exactly when none of the others fits, and else moved to one of the others of least sufficient size; the old payload is kept, in place or word for word at the new address, and other payloads are untouched. Afterwards the heap is well formed if and only if: in place, nothing is split off, a block beyond the run is free, or both words that the absorption left at the new block's links are NULL; after a move, the block taken is split, another one beyond the run is free, or the old payload began with two NULL words |
| HeapSteps.BestFitIsBestSpare | final_proj/code/equiv-malloc.c:484-484 | The block that malloc chooses after the absorption is, seen from before the call, a free block beyond the run, and the smallest of those that are large enough |
| HeapAbsorption.LeavesStep | final_proj/code/equiv-malloc.c:222-224 | Each round of coalescing: the links of a block already absorbed stay what they were when it was taken out of the list, and nothing but the header and links of listed blocks changes |
| HeapAbsorption.LeftBehind | final_proj/code/equiv-malloc.c:454-465 | The word at every place of an absorbed run, if nothing else was free, in terms of the heap before the call |
| HeapAbsorption.LinkLeft | final_proj/code/equiv-malloc.c:161-174 | The link that an absorbed block keeps is NULL exactly if it was first (last) in list order among the run's first block and the blocks from it on |
| HeapAbsorption.LeftIsBlank | final_proj/code/equiv-malloc.c:454-479 | The word left is NULL exactly at a link of the run's first block, at a link back (onwards) of an absorbed block that was first (last) in that sense, and where it was NULL before; never at an absorbed header |
| HeapAbsorption.InPlaceKept | final_proj/code/equiv-malloc.c:476-481 | Growing in place keeps the list in order exactly under the condition of KeptInPlace, a predicate on the heap before the call |
| HeapAbsorption.MoveKept | final_proj/code/equiv-malloc.c:484-497 | Moving keeps it exactly under the condition of KeptByMove, likewise |
| Allocator.Heap.AbsorbRight | final_proj/code/equiv-malloc.c:454-473 | The block absorbs the whole run of free blocks after it and keeps its payload |
| Allocator.Heap.Move | final_proj/code/equiv-malloc.c:484-497 | Allocates, copies and frees; afterwards the heap is well formed if and only if a free block was left when the old one was freed or its first two words were NULL |
| Allocator.Heap.RemoveFreeBlock | final_proj/code/equiv-malloc.c:161-174 | The stores that unlink a list member |
| Allocator.Heap.AppendFreeBlock | final_proj/code/equiv-malloc.c:181-190 | The block comes first in the list; a list in order stays in order if and only if it was not empty or the block's first two payload words were NULL; nothing but links is written |
| Allocator.Heap.NextBlock | final_proj/code/equiv-malloc.c:199-208 | From a header that gives the end of block h (its own or, during a coalescing, the one absorbed last): NULL if and only if h ends the heap, and otherwise the block after h |
| Allocator.Heap.ValidateHeap | final_proj/code/equiv-malloc.c:502-557 | 1 for every well-formed heap with a free block; with an empty list it reads through NULL |
| Allocator.Heap.WritePayload | final_proj/code/equiv-malloc.c:97-110 | A user's write within a payload keeps the heap well formed and every other payload |
| Allocator.PayloadsDisjoint | final_proj/code/equiv-malloc.c:97-110 | Payloads in use lie within the heap and do not overlap |
| Allocator.PayloadsAligned | final_proj/code/equiv-malloc.c:97-99 | Every payload in use is word aligned |
| Allocator.TwoAllocations | final_proj/code/equiv-malloc.c:347-380 | From a fresh heap the first payload is aligned to 8 if and only if the heap begins at 4 modulo 8, and of the first two payloads exactly one is, wherever the heap begins: the alignment promised by ALIGNMENT is not kept |
| HeapLayout.TilingCovers | final_proj/code/equiv-malloc.c:199-208 | The blocks cover the heap without gaps |
| HeapLayout.MergedTiling | final_proj/code/equiv-malloc.c:218-230 | Merging two neighbours keeps the tiling |
| HeapLayout.SplitTiling | final_proj/code/equiv-malloc.c:238-262 | Splitting a block keeps the tiling |
| HeapLayout.WalkTotal | final_proj/code/equiv-malloc.c:504-523 | Header bytes and payload bytes of a walk add up to the heap |
| HeapLayout.MergedWalk | final_proj/code/equiv-malloc.c:222-228 | A merge turns one header into free payload in the accounts |
| HeapLayout.SplitWalk | final_proj/code/equiv-malloc.c:242-260 | A split moves the excess to a new free block in the accounts |
| HeapLayout.UnlinkLinked | final_proj/code/equiv-malloc.c:161-174 | Unlinking a member leaves the links of the rest in order and writes nothing but links |
| HeapLayout.PrependLinked | final_proj/code/equiv-malloc.c:181-190 | On a list that is not empty, appending leaves all links in order |
| HeapLayout.PrependToEmpty | final_proj/code/equiv-malloc.c:181-190 | On an empty list the links are in order if and only if the payload held NULL in both places |
| Allocator.FullHeap | final_proj/code/equiv-malloc.c:181-190 | A heap on which this shows: initialise 28 bytes, allocate 24, write a word that is not 0, free. The full heap makes equiv_malloc and validate_heap read through NULL, and the freed one is not well formed |
| HeapLayout.PrependGood | final_proj/code/equiv-malloc.c:181-190 | Both cases of appending in one condition; and nothing but links is written |
| HeapSteps.CoalesceStep | final_proj/code/equiv-malloc.c:220-229 | One round of coalescing keeps headers, list and tiling, and every used payload |
| HeapSteps.FreeShaped | final_proj/code/equiv-malloc.c:393-399 | Freeing keeps headers, tiling and the list's membership |
| HeapSteps.FreeKeeps | final_proj/code/equiv-malloc.c:393-399 | Freeing keeps the links exactly if the list was not empty or the payload held NULL twice |
| HeapSteps.TrimShaped | final_proj/code/equiv-malloc.c:242-255 | Trimming keeps headers, tiling and the list's membership |
| HeapSteps.TrimKeeps | final_proj/code/equiv-malloc.c:242-255 | Trimming keeps the links under the same condition, and the payload before the cut |
| HeapSteps.AbsorbStep | final_proj/code/equiv-malloc.c:457-465 | Taking in the right neighbour keeps the heap well formed and the payload |
| HeapSteps.MovedData | final_proj/code/equiv-malloc.c:484-494 | Allocation, copy and free together carry every whole word of the old payload over |
| HeapSteps.Accounts | final_proj/code/equiv-malloc.c:504-541 | The counters of a well-formed heap add up to its size, and the list is as long as the count of free blocks |
| RingBuffer.Fifo | final_proj/code/12-quantum-leap-rb.c:94-124 | In every interleaving of loads and stores, what was put is what was got followed by the buffer read from tail to head, and at most end-1 elements are held |
| RingBuffer.PublishedArePut | final_proj/code/12-quantum-leap-rb.c:94-107 | In every interleaving, what is published are the arguments of the put calls that the moves begin, in order, without those of the calls that gave up and of the one in progress |
| RingBuffer.ConsumedAreGot | final_proj/code/12-quantum-leap-rb.c:110-153 | What is consumed is what the calls of get and process_all took, in order; a get takes one element, or none if it found the buffer empty, and process_all ends with the buffer empty |
| RingBuffer.PutMove | final_proj/code/12-quantum-leap-rb.c:94-107 | Every access of a put goes on with its own argument, or publishes it and ends, or finds the buffer full and ends |
| RingBuffer.GetMove | final_proj/code/12-quantum-leap-rb.c:110-153 | Every access of a get or process_all keeps what it has taken so far in step with what is consumed |
| RingBuffer.StepInv | final_proj/code/12-quantum-leap-rb.c:94-153 | Every single access of either thread keeps that invariant, with all local variables of both calls |
| RingBuffer.CountsAreSafe | final_proj/code/12-quantum-leap-rb.c:127-139 | num_free never reports too many to the producer nor too few to the consumer |
| RingBuffer.AnswersAreHonest | final_proj/code/12-quantum-leap-rb.c:99-121 | put fails exactly when the buffer is full at the moment of its test, get exactly when it is empty |
| RingBuffer.WindowUnwritten | final_proj/code/12-quantum-leap-rb.c:100-100 | The slot that put writes is none of the unread ones |
| RingBuffer.WindowHead | final_proj/code/12-quantum-leap-rb.c:101-101 | Storing the head publishes exactly the element under it |
| RingBuffer.WindowTail | final_proj/code/12-quantum-leap-rb.c:113-118 | Storing the tail consumes exactly the oldest element |
| RingBuffer.RingBuf.constructor | final_proj/code/12-quantum-leap-rb.c:85-91 | An empty buffer over the given storage, usable if and only if that has at least one element |
| RingBuffer.RingBuf.Put | final_proj/code/12-quantum-leap-rb.c:94-107 | Alone: appends exactly when fewer than end-1 elements are held |
| RingBuffer.RingBuf.Get | final_proj/code/12-quantum-leap-rb.c:110-124 | Alone: removes and returns the oldest element exactly when there is one |
| RingBuffer.RingBuf.FreeSlots | final_proj/code/12-quantum-leap-rb.c:127-139 | Alone: the number of slots left |
| RingBuffer.RingBuf.ProcessAll | final_proj/code/12-quantum-leap-rb.c:143-153 | Alone: hands all elements to the handler in order and leaves the buffer empty |
| SpinLockStack.MutualExclusion | final_proj/code/equiv-checker-util.h:53-63 | In every interleaving of any number of threads at most one is between acquiring and releasing, and it is the one that acquired last |
| SpinLockStack.PopsAreSerial | final_proj/code/9-stack.c:28-39 | The pops take effect, and return, as if done one after the other in the order of lock acquisition |
| SpinLockStack.CallsReturn | final_proj/code/equiv-checker-util.h:53-58 | However often its compare-and-swap fails, a call that was begun is still going on or has returned: none is dropped |
| SpinLockStack.StepInv | final_proj/code/9-stack.c:28-39 | Every single access keeps the invariant: the holder is midway through the pop that follows the finished ones |
| SpinLockStack.PopsAre | final_proj/code/9-stack.c:28-39 | n serial pops hand out the values from the top down and fail once the stack is empty |
| SpinLockStack.AtomicStack.constructor | final_proj/code/9-stack.c:19-26 | The stack holds 0..99 and the lock is free |
| SpinLockStack.AtomicStack.StackPop | final_proj/code/9-stack.c:28-39 | Up to the yield of a failed compare-and-swap: waits exactly if the lock is held, and then nothing has changed; otherwise it is one pop, and the lock is free again |

## Left out

- Discovery of the read and write sets (`equiv-rw-set.c`) and `find_shared_memory`: the shared set is an input, and an instruction's touched set is part of the program under test.
- The MMU, page tables, debug hardware, exception entry and assembly: a data abort is "the instruction touched these addresses", a prefetch abort is "the next instruction boundary".
- `init()` is the memory it leaves, and the functions' arguments are part of the program; other memory does not carry over between runs.
- The run queue starts empty before each `reset_threads`. `final_proj/code/interleaver.c:63-64` and `:100` push the same nodes twice before the first run, and the queue library is not part of this model.
- On the last exit the source reads a field through the NULL thread for its trace test before it switches back; the model just ends the run.
- A serial execution (`find_good_hashes`) is modelled for functions that make no system call; one that does is an execution that does not return.
- Hash collisions: the verdict is about hashes. Outcomes that differ in one shared byte never collide (EquivChecker.OneByteIsViolation); those that differ in more may.
- Printing, verbosity, memory tags, schedule reports (only the bound on their index is proved), `set_dump`, `equiv_dump_heap`.
- `set_free` and the deallocation of dropped nodes; the trie's nodes are allocated without failure.
- Trie masks are sets of bit positions instead of 32-bit words.
- `hash_mem` never resets the state that it allocates: its initial lanes are a parameter, with an empty buffer, zero length and a clear flag.
- The kernels and short-input hashes of XXH3, its seeded variants, and all SIMD variants.
- EquivChecker.CheckerRun: is stated for functions whose serial executions return and whose schedules all run to the end; otherwise the tool itself does not stop.
- Allocator.Heap.CopyPayload: copies the words that lie wholly within the payload; a trailing half word of a heap whose size is not a multiple of 4 is not modelled.
- Memory in the allocator is words at addresses that are word aligned for headers and links; bytes within a word are not modelled.
- Interleaver.RunInterleavings: is stated for the sweeps that come to an end, which are those of SweepEnds.SweepEndsExactly; what an endless sweep reports on the way is not modelled.
- SpinLockStack.AtomicStack.StackPop: covers one try for the lock; that waiting threads come to have it in the end is not proved, here or in the state machine.
- The exclusive monitor behind the compare-and-swap: it is one atomic step. `atomic_increment` is not modelled.
- The interleaved programs are state machines on values, since their steps belong to different threads.
- The remaining demo programs and the two-lock queue.

# Kernel core: a verified model

A Dafny model of four parts of a small AArch64 kernel that keep real state, with proofs of what they promise
and, where they break a promise, of exactly when. `dafny verify dfyconfig.toml` checks all of it.

**Integer printer** (`lib/itoa.c`, and the two `timer_to_string_imp`). `Numerals` defines numerals in bases 2
to 36 independently of any printer: a parser, a normal form, and the numeral of a value, which is proved to be
the one numeral in normal form that parses back to the value. `IntPrinter` is the in-place code of `itoa`;
`TimerText` is the test mock's printer, which works from the tail of its buffer, and the kernel's, and says
exactly for which values each is right and for which they agree.

**Heap allocator** (`driver/memallc.c`). `HeapModel` is first fit with splitting, and release with merging, on
sequences of blocks. A heap is well formed if every byte of the managed range is in exactly one block, free or
live, and no other byte is in any. `HeapRuns` is about whole runs, `HeapCoalescing` about when free blocks end up
touching. `HeapLists` is the pointer code over the pool of 1024 descriptors and is proved to do what `HeapModel` says. The free path is modelled twice, because as
written it does not keep the free list in order: `free_memallc` pushes the block at driver/memallc.c:128-129,
and `defragment_memblk` then links it as if it were not yet on the list.

- *As written* (`FreeMemallcAsWritten`, `FreeMemallcOnShape`, `DefragmentAsWritten`, modules `HeapAsWritten` and
  `HeapShapes`): the exact pointer structure the first free leaves, when that is still a list and which one; what any
  further frees make of it; and which later requests and frees never return.
- *As meant* (`FreeMemallcAsMeant`, `DefragmentAsMeant`, `HeapModel.Release`): the early push is dropped, and
  the predecessor's `next` is left alone when the block merges into it (driver/memallc.c:209). Theorems about
  runs that free are about this version.

**Scheduler** (`driver/scheduler/scheduler.c`). `SchedModel` is the scheduler on sequences and holds the
theorems about whole runs: conservation, bounded waiting, rotation. `SchedRings` is the pointer code with its
two circular doubly linked rings, proved to do what `SchedModel` says; its invariant `Valid` says that `next`
and `prev` are inverse and close up, that no node is in two places, and that processes on the ready ring are
READY and those on the sleep ring SLEEPING. A field of a node or process holds a value or is unreadable: a sentinel's
process field is never set, and `free_memallc` makes every field of what it is passed unreadable. Reading a field
means taking its value, which must be shown to be there, so no method reads a freed object or a sentinel's process.
The invariant `Ledger`, which every method keeps and `KillScheduler` ends with, says that everything freed is still
unreadable, so none writes one either. `SchedRuns` executes any sequence of operations on the pointer code, including
changes of the current process's state from outside, and follows a scheduler from its first call to its shutdown.

The scheduler's results hold for an allocator that never hands out memory in use, whose `free_memallc` returns and
frees what it is given. The free path as meant is such an allocator (`HeapRuns.NoReuseWhileLive`,
`HeapLists.Allocator.FreeMemallcAsMeant`); the one as written is not. `SchedFrees` says when `endProcess` and
`killScheduler` return with it.

**Page tables** (`arch/arm64/memorymanager/mmu.c`). `Descriptors` holds the macros and, next to them, how a
VMSAv8-64 walker reads a descriptor (Arm ARM DDI 0487, "Translation table descriptor formats", 4 KiB granule,
39-bit addresses, so that the walk starts at level 1). `AddressMap` says what each address should translate to
without any table. `PageTables` builds the tables in an array of words and proves that the two-level walk of
the result gives that map for every address. `Blocks` is the 64-bit arithmetic this needs, and `Board` applies
the theorems to the two boards.

In every part the code that changes state is a class whose methods are proved against functions on values, and
the theorems are lemmas about those functions.

## What the proofs show about the code

- A kernel time of 2^31 seconds or more is not printed as it is; the mock is right up to 10^19 and therefore
  stands in for the kernel's printer only below 2^31.
- Freeing through `free_memallc` as written never leaves the free list it should: in one case it drops the
  blocks before the merged one, in all others it leaves a cycle. Whether a later `memallc` returns can be told from
  the heap before the free (`HeapAsWritten.Served`). With no adjacent free block it returns if and only if the request
  is not larger than the freed block or that block is the whole range; and a request of its size, followed by any it
  can serve, is given the same address twice.
- A second free as written returns if and only if its block rejoins what the first has left (`HeapShapes.Rejoins`), so
  `endProcess` and a switch away from a ZOMBIE may never return. On a fresh heap, with each process allocated before its
  node, `killScheduler` returns if and only if the current process is the only one: with any other, the frees of the
  other tasks leave a cycle, and freeing the first sentinel searches it forever.
- As meant, where no free blocks touched before, a release leaves some touching if and only if the released block has
  two free neighbours, since only one is merged. Merging never returns a descriptor: 1023 rounds of allocating and freeing use up the pool,
  after which every request takes a whole block.
- `memallc` says it allocates the maximum available block when a request exceeds the range
  (driver/memallc.c:72-77); it succeeds only if one free block is the entire range.
- `procSwitch` and `killScheduler` dereference the current process. After a run there is one if and only if some
  process was scheduled READY; without one, `procSwitch` is unsafe if and only if a process scheduled SLEEPING has
  been awakened.
- `procSwitch` leaves the incoming process READY.
- Of the heap that `early_mmu_init` hands to the allocator, only the rest of the kernel's last 2 MiB block is
  mapped.
- `map_devices` checks for the end of the area after it has used a page; it stays inside the area if and only if the
  area has one page for level 1 and one for each region of the kernel and the devices.

## Model

| member | source | states |
|---|---|---|
| Numerals.TextIsTheCanonicalNumeral | lib/itoa.c:12-50 | For every value and base 2..36, a string is the printed text if and only if it is canonical (no leading zero, '-' exactly for negatives, digits of the base only) and parses back to the value |
| Numerals.TextInjective | lib/itoa.c:12-50 | Two values with the same text are equal |
| Numerals.DigitsParse | lib/itoa.c:23-30 | The digits of a number read back as the number |
| Numerals.ParseDigits | lib/itoa.c:23-30 | A numeral without leading zero is the digit string of the number it reads as |
| Numerals.DigitsLength | lib/itoa.c:23-30 | A number has at most k digits in a base if and only if it is below the base's k-th power |
| IntPrinter.TextFits | lib/itoa.c:12-15 | The text of any 32-bit integer has at most 33 characters, in base 10 at most 11 |
| IntPrinter.LongestText | lib/itoa.c:18-22 | INT_MIN reaches both bounds, so 34 bytes in base 2 and 12 in base 10 are needed |
| IntPrinter.Magnitude | lib/itoa.c:18-22 | Unsigned negation gives the absolute value, also of INT_MIN |
| IntPrinter.Itoa | lib/itoa.c:12-50 | The buffer holds the value's text and a terminator whatever it held before; only those bytes are written |
| IntPrinter.InsertFront | lib/itoa.c:31-39 | The inner loop puts one character in front of the string in the buffer, in place |
| IntPrinter.Finish | lib/itoa.c:41-48 | The zero that no digit was written for, and the sign, complete the text |
| TimerText.MockTimer.TimerToString | test/mocks/mock_timer_imp.c:64-83 | The static buffer holds the seconds' text and a terminator, at most 20 bytes |
| TimerText.MockTimer.FillFromTail | test/mocks/mock_timer_imp.c:67-74 | The first loop leaves that text at the tail, at least one digit and at most nineteen |
| TimerText.MockTimer.MoveForward | test/mocks/mock_timer_imp.c:76-80 | The second loop moves it to the front, over itself, unchanged |
| TimerText.FilledText | test/mocks/mock_timer_imp.c:71-74 | When the fill loop stops, the digits written are the decimal numeral, or the last nineteen digits of one that is longer |
| TimerText.MockTextCorrectIff | test/mocks/mock_timer_imp.c:64-83 | The mock prints the canonical numeral if and only if the seconds are below 10^19; always the seconds modulo 10^19 |
| TimerText.KernelTimer.TimerToString | arch/arm64/lib/timer_imp.c:103-114 | The kernel's buffer of 20 bytes holds the text of the seconds narrowed to `int` |
| TimerText.KernelTextCorrectIff | arch/arm64/lib/timer_imp.c:109-114 | The kernel prints the seconds if and only if they are below 2^31 |
| TimerText.KernelTextWraps | arch/arm64/lib/timer_imp.c:109-114 | It always prints the 32-bit integer that differs from the seconds by a multiple of 2^32 |
| TimerText.PrintersAgreeIff | test/mocks/mock_timer_imp.c:64-83 | The mock and the kernel print the same if and only if the seconds are below 2^31 |
| HeapModel.FirstFit | driver/memallc.c:149-164 | The index of the first free block in list order that is large enough |
| HeapModel.AllocExact | driver/memallc.c:149-197 | An allocation fails if and only if its size is zero or no free block is large enough; otherwise it starts at the first block that fits, and has the requested size unless the 1024 descriptors are used up, when it is that whole block |
| HeapModel.OversizedRequest | driver/memallc.c:72-77 | A request beyond the range is served if and only if one free block is the whole range, and then nothing else is live |
| HeapModel.AllocMovesBytes | driver/memallc.c:166-197 | An allocation moves exactly the bytes of the block it returns from free to live |
| HeapModel.AllocKeeps | driver/memallc.c:135-197 | From any well-formed heap an allocation leaves a well-formed one |
| HeapModel.AllocFrame | driver/memallc.c:169-196 | Every live block stays, and every free block but the one taken; that one keeps its tail or disappears |
| HeapModel.NoWrap | driver/memallc.c:205-213 | In a well-formed heap address wrap-around never makes two blocks look adjacent that are not |
| HeapModel.ReleaseMovesBytes | driver/memallc.c:87-133 | As meant, freeing moves exactly the freed block's bytes from live to free, in all three cases |
| HeapModel.ReleaseFrame | driver/memallc.c:199-239 | As meant, every other live block stays, and every free block but the one joined, which touches the freed block and then covers both |
| HeapModel.ReleaseKeeps | driver/memallc.c:87-133 | As meant, freeing keeps a well-formed heap well formed, and changes nothing for an address that is not live |
| HeapRuns.InitWellFormed | driver/memallc.c:24-32 | Initialization gives a well-formed heap for every start and range that do not wrap |
| HeapRuns.RunTiles | driver/memallc.c:24-133 | After every run, free and live blocks are pairwise disjoint, lie in the range, hold all of its bytes, and have sizes adding up to it |
| HeapRuns.BlocksApart | driver/memallc.c:64-133 | Two blocks of a well-formed heap, on whichever list, share no byte |
| HeapRuns.LiveStays | driver/memallc.c:87-133 | A live block stays live and unchanged until its address is freed |
| HeapRuns.NoReuseWhileLive | driver/memallc.c:64-133 | Whatever happens between, no later request gets a byte of an allocation that has not been freed |
| HeapRuns.DescriptorsConserved | driver/memallc.c:241-255 | After every run the pool index is one plus the number of splits, and equals the blocks on both lists plus the number of merges |
| HeapRuns.RoundsExhaustThePool | driver/memallc.c:241-255 | After n rounds of allocating and freeing, 1 + n descriptors are gone; after 1023 rounds a request of any nonzero size gets the whole heap |
| HeapCoalescing.ReleaseMergesOnce | driver/memallc.c:203-238 | A release merges exactly if some free block is adjacent, and then once |
| HeapCoalescing.MergedTouches | driver/memallc.c:205-231 | A block that the freed one was merged into touches another free block if and only if the freed one did |
| HeapCoalescing.ReleaseCoalescesIff | driver/memallc.c:199-239 | A release leaves no two free blocks touching if and only if none did before and the released block does not have two free neighbours |
| HeapCoalescing.AllocCoalesces | driver/memallc.c:166-197 | An allocation makes no two free blocks touch |
| HeapCoalescing.RunCoalesces | driver/memallc.c:64-133 | After any run that never releases a block with two free neighbours, no two free blocks touch |
| HeapCoalescing.WholeAgainIff | driver/memallc.c:199-239 | With everything freed the whole range can be had again if and only if no two free blocks touch |
| HeapCoalescing.WholeAgainAfterRun | driver/memallc.c:64-133 | So it can after any run that frees everything and never releases a block with two free neighbours |
| HeapCoalescing.CoalescingIsPartial | driver/memallc.c:199-239 | Three blocks freed first, last, middle: the last has two free neighbours, two touching free blocks remain, and the whole range cannot be had |
| HeapLists.Allocator.InitMemallc | driver/memallc.c:24-32 | From any state, the initial heap: one free block, no live ones, one descriptor used |
| HeapLists.Allocator.NewMemblk | driver/memallc.c:241-255 | The next descriptor of the pool, filled in, or NULL and no change when 1024 are used |
| HeapLists.Allocator.Memallc | driver/memallc.c:64-85 | Returns the address, and leaves the heap, that the model gives for the request, or for the range if the request is larger; a request that cannot be served returns NULL and changes nothing |
| HeapLists.Allocator.AllcMemblk | driver/memallc.c:135-147 | From any well-formed pair of lists, both stay acyclic and node-disjoint; one node moves from the free list to the head of the allocated list |
| HeapLists.Allocator.AllcMemblkImpl | driver/memallc.c:149-164 | The search ends, at the first block that fits |
| HeapLists.Allocator.AllcMemblkImplSplit | driver/memallc.c:166-197 | Splitting and moving the found node is the model's allocation |
| HeapLists.Allocator.SplitOff | driver/memallc.c:169-181 | The tail of a block that is too large becomes the node after it, unless the pool is exhausted |
| HeapLists.Allocator.MoveToAllocated | driver/memallc.c:182-194 | The node leaves its place in the free list and heads the allocated list |
| HeapLists.MovedIsAlloc | driver/memallc.c:166-197 | Cutting the first fitting block and moving it is the model's allocation |
| HeapLists.Allocator.GetAllcMemblkByAddr | driver/memallc.c:257-271 | The first live descriptor at an address; NULL if and only if there is none |
| HeapLists.Allocator.TakeLive | driver/memallc.c:89-127 | Whatever the free list is, the first half of freeing takes the first live node at the address off the allocated list; NULL and no change if there is none |
| HeapLists.Allocator.FreeMemallcAsMeant | driver/memallc.c:87-133 | As meant, the pointer code keeps both lists in order and releases the block; NULL or an address where nothing is live changes nothing |
| HeapLists.Allocator.DefragmentAsMeant | driver/memallc.c:199-239 | As meant, the block joins the first free block it touches, or becomes the head |
| HeapLists.Allocator.FreeMemallcAsWritten | driver/memallc.c:87-133 | As written, with the free list in order: exact pointers of both lists and of the freed node |
| HeapLists.Allocator.DefragmentAsWritten | driver/memallc.c:199-239 | As written, with the block already at the head and whatever comes after it: the exact pointers it leaves, if its loop meets an adjacent block or the end of the list |
| HeapLists.KnottedIsLasso | driver/memallc.c:203-237 | What can then be reached from the head has the shape that `HeapShapes.FreeInto` computes, in all five cases |
| HeapLists.Allocator.FreeMemallcOnShape | driver/memallc.c:87-133 | As written, whatever shape the free list has: when it returns, the free list has the computed shape and the allocated list is in order; an address where nothing is live changes neither |
| HeapLists.Allocator.FreeAllOnShape | driver/memallc.c:87-133 | The same for any sequence of frees |
| HeapShapes.FreeIntoIff | driver/memallc.c:203-235 | A free as written does not return if and only if the list is a cycle no block of which touches the freed one |
| HeapShapes.SecondFreeReturnsIff | driver/memallc.c:128-132 | From a list in order a first free returns, and a second if and only if its block rejoins what the first has left; told from the blocks before both |
| HeapLists.Allocator.MemallcFromHead | driver/memallc.c:64-196 | When the head of the free list is large enough it is handed out, whatever the list after it looks like |
| HeapLists.Allocator.GivenTwice | driver/memallc.c:64-133 | After a free as written with no adjacent free block, a request of the block's size and then any it can serve are given the same address |
| HeapAsWritten.TangledListIff | driver/memallc.c:128-132 | After a free as written the free list is a list if and only if the block absorbed a successor that was not the head, and then without the blocks before it |
| HeapAsWritten.TangledIsATrap | driver/memallc.c:199-239 | In every other case the links reachable from the head stay within a fixed set of nodes and none ends |
| HeapAsWritten.LinksStay | driver/memallc.c:199-239 | After a free as written no link leaves the old free list and the freed block |
| HeapAsWritten.SearchEndsIff | driver/memallc.c:152-161 | Then the search loop for a size returns if and only if a condition on the free blocks and the freed one before the free holds, in all cases |
| HeapAsWritten.MemallcReturnsIff | driver/memallc.c:64-85 | So does the next `memallc`, with its request clamped to the range |
| HeapAsWritten.LoneFreeReturnsIff | driver/memallc.c:233-237 | With no adjacent free block the freed node links to itself, and a later request returns if and only if it is not larger than the freed block or that block is the whole range |
| HeapAsWritten.LoopEndsIff | driver/memallc.c:152-235 | Along the links of a list of any shape, the search loop and the merge loop end if and only if the list does or a block that can be reached is wanted |
| HeapAsWritten.FreeReturnsIff | driver/memallc.c:203-235 | So the merge loop ends if and only if `HeapShapes.FreeInto` says so |
| HeapAsWritten.SecondFreeLoopIff | driver/memallc.c:203-235 | After the pointers of a first free as written, the second's loop ends if and only if its block rejoins |
| HeapAsWritten.NeverRestored | driver/memallc.c:128-132 | Whatever block is freed, the list left as written never holds the bytes that should be free |
| SchedModel.RunConserves | driver/scheduler/scheduler.c:49-141 | A run neither loses nor duplicates a task: what it holds at the end is what it held plus what was scheduled |
| SchedModel.ExactlyOnePlace | driver/scheduler/scheduler.c:49-141 | After a run of distinct tasks each is in exactly one place, and is lost if and only if it was scheduled RUNNING or ZOMBIE |
| SchedModel.KillFreesEachOnce | driver/scheduler/scheduler.c:143-163 | After such a run and `killScheduler`, each task scheduled READY or SLEEPING has been freed exactly once, and no other task |
| SchedModel.SwitchSafeIff | driver/scheduler/scheduler.c:95-108 | After a run there is a current process if and only if one was scheduled READY; `procSwitch` is safe if and only if that holds or no process scheduled SLEEPING has been awakened |
| SchedModel.SwitchCanBeUnsafe | driver/scheduler/scheduler.c:95-134 | One process scheduled SLEEPING and awakened makes `procSwitch` dereference NULL |
| SchedModel.CurrentStays | driver/scheduler/scheduler.c:49-134 | Without switches and changes of state, nobody is freed, and the current task and its state stay as they are; if there is none, the first process scheduled READY becomes current and RUNNING |
| SchedModel.StateChanges | driver/scheduler/scheduler.c:105-115 | A change of the current process's state from outside changes nothing else |
| SchedModel.NobodyReady | driver/scheduler/scheduler.c:98-103 | With nobody ready, any number of switches changes nothing, whoever is current and in whatever state |
| SchedModel.DeadStay | driver/scheduler/scheduler.c:136-141 | What has been freed stays freed, in order |
| SchedModel.ZombieEnds | driver/scheduler/scheduler.c:88-117 | A current process that has died is the next freed at a switch to another, and is nowhere else ever after |
| SchedModel.MovesUp | driver/scheduler/scheduler.c:95-120 | A ready task moves up by exactly one position per switch, whatever else happens |
| SchedModel.BoundedWaiting | driver/scheduler/scheduler.c:95-120 | The task at position d of the ready queue becomes current at exactly the (d+1)-th switch |
| SchedModel.ScheduledThenRuns | driver/scheduler/scheduler.c:57-70 | A process scheduled READY while another is current, with n tasks ready, becomes current at exactly the (n+1)-th switch, whatever lies between |
| SchedModel.ScheduledThenSleeps | driver/scheduler/scheduler.c:71-74 | A process scheduled SLEEPING behind n sleepers moves up by one per awakening and becomes ready at exactly the (n+1)-th, whatever lies between |
| SchedModel.SwitchThenSleeps | driver/scheduler/scheduler.c:84-117 | A current process that has gone to sleep leaves the processor to the first ready one and does the same |
| SchedModel.SleeperMovesUp | driver/scheduler/scheduler.c:122-134 | A sleeping task moves up by exactly one position per `awakenProcess` |
| SchedModel.AwakenedInTurn | driver/scheduler/scheduler.c:122-134 | The sleeper at position d is awakened by exactly the (d+1)-th call and goes to the end of the ready queue |
| SchedModel.AwakenedThenRuns | driver/scheduler/scheduler.c:95-134 | Once awakened with n tasks ready it becomes current at exactly the (n+1)-th switch |
| SchedModel.SwitchesRotate | driver/scheduler/scheduler.c:95-120 | With nobody sleeping or dying, n switches rotate the current task and the ready queue by n modulo their number and change nothing else |
| SchedModel.FullRound | driver/scheduler/scheduler.c:95-120 | With k ready tasks, k+1 switches restore the current task and the order |
| SchedRings.QueueProc | driver/scheduler/scheduler.c:173-181 | A node off the rings becomes the last of the ring |
| SchedRings.DequeueProc | driver/scheduler/scheduler.c:184-192 | A node leaves its ring from any position, the rest keep their order, and it links to itself |
| SchedRings.Scheduler.SchedulerInit | driver/scheduler/scheduler.c:18-35 | Two empty rings and nobody current |
| SchedRings.Scheduler.ProcToReady | driver/scheduler/scheduler.c:43-47 | A READY task goes to the end of the ready ring; both rings stay in order |
| SchedRings.Scheduler.ProcToSleep | driver/scheduler/scheduler.c:37-41 | A SLEEPING task goes to the end of the sleep ring; both rings stay in order |
| SchedRings.Scheduler.ScheduleProcess | driver/scheduler/scheduler.c:49-75 | If the allocation gives memory not in use, the pointer code makes one fresh node: READY with nobody current, it becomes current and RUNNING; READY otherwise, it is the last ready; SLEEPING, the last asleep; and the process keeps its state |
| SchedRings.Scheduler.NewNode | driver/scheduler/scheduler.c:52-53 | Then the new node is linked to itself and on no ring, and everything else is as before |
| SchedRings.Scheduler.RescheduleProcess | driver/scheduler/scheduler.c:77-93 | A node off the rings becomes the last ready or the last asleep as its process's state says, which stays; a ZOMBIE's process and node are freed, if those frees return; otherwise nothing happens |
| SchedRings.Scheduler.ProcSwitch | driver/scheduler/scheduler.c:95-120 | The pointer code keeps `Valid` and does the model's switch, if the frees that end a ZOMBIE return: nothing if nobody is ready; else the first ready task becomes current, and exactly the process and node of a current ZOMBIE are freed |
| SchedRings.Scheduler.AwakenProcess | driver/scheduler/scheduler.c:122-134 | The pointer code keeps `Valid` and does the model's awakening: the first sleeper becomes the last ready, and the current task and its state stay |
| SchedRings.Scheduler.SetCurrentState | driver/scheduler/scheduler.c:105-115 | Code outside the scheduler may change the current process's state; `Valid` is kept |
| SchedRings.Scheduler.FreeMemallc | driver/scheduler/scheduler.c:136-160 | A stand-in for an allocator that returns and frees what it is given: that must be owned, is no longer, has not been freed before, and has no readable field afterwards |
| SchedRings.Scheduler.EndProcess | driver/scheduler/scheduler.c:136-141 | If both frees return, the process and the node, both owned, are freed once each, in that order |
| SchedRings.Scheduler.KillScheduler | driver/scheduler/scheduler.c:143-163 | If every free returns, so does it; what it frees, in order, is each ready and then each sleeping task's process and node, both sentinels, and the current task's process and node; nothing has ever been freed twice or touched after it was freed |
| SchedRuns.Perform | driver/scheduler/scheduler.c:49-134 | If frees return and allocations give memory not in use, each operation on the pointer code, with tasks named by their processes, is the model's step |
| SchedRuns.Execute | driver/scheduler/scheduler.c:49-134 | Then any legal sequence of operations on the pointer code ends in the state of the model's run, with `Valid` kept |
| SchedRuns.WholeLife | driver/scheduler/scheduler.c:18-163 | If every free returns: from `schedulerInit` through any run of distinct READY and SLEEPING processes to `killScheduler`: every process is freed exactly once, with its node, so are both sentinels, nothing else is, and nothing freed is touched again |
| SchedFrees.KillPasses | driver/scheduler/scheduler.c:143-161 | Wherever the scheduler's memory lies, these are the addresses `killScheduler` passes to `free_memallc` |
| SchedFrees.EndTaskReturnsIff | driver/scheduler/scheduler.c:136-141 | As written, from a well-formed heap, `endProcess` returns if and only if the node rejoins what freeing the process has left |
| SchedFrees.KillNeedsToRejoin | driver/scheduler/scheduler.c:145-149 | As written, `killScheduler` with a ready task returns only if that task's node rejoins |
| SchedFrees.TasksAllocated | driver/memallc.c:64-85 | Processes and nodes requested in turn on a fresh heap lie one after the other |
| SchedFrees.RowEnds | driver/memallc.c:203-212 | As written, tasks that lie one after the other are freed one after the other, each leaving a cycle entered through its node |
| SchedFrees.KillNeverReturns | driver/scheduler/scheduler.c:143-163 | As written, for all sizes and any two or more such tasks, ready or sleeping behind the current one, `killScheduler` never returns |
| SchedFrees.KillReturnsIff | driver/scheduler/scheduler.c:143-163 | It returns if and only if the current task is the only one |
| Descriptors.BlockDescDecodes | arch/arm64/memorymanager/mmu.c:281-283 | For every address and every legal choice of fields, the walker reads the address's 2 MiB block and each field from the descriptor, and no other bit is set |
| Descriptors.BlockAddressRoundTrip | arch/arm64/memorymanager/mmu.c:218-219 | A 2 MiB aligned address below 2^40 comes back unchanged |
| Descriptors.TableDescRoundTrip | arch/arm64/memorymanager/mmu.c:223-290 | A page-aligned table address below 2^40 comes back by the walker's rule and by `TABLE_ADDR_MASK` |
| Descriptors.IndexesAgree | arch/arm64/memorymanager/mmu.c:190-191 | The index macros compute the bit fields by which the walker indexes its tables |
| Blocks.BlockAddrIndexes | arch/arm64/memorymanager/mmu.c:190-191 | Every pair of indexes has a block-aligned 39-bit address with just these indexes |
| Blocks.AlignedIsBlockAddr | arch/arm64/memorymanager/mmu.c:190-191 | A block-aligned 39-bit address is determined by its indexes |
| Blocks.BlocksOfRange | arch/arm64/memorymanager/mmu.c:383-385 | The block count of an aligned range in one region is the number of slots from its first to its last byte |
| AddressMap.KernelLookup | arch/arm64/memorymanager/mmu.c:398-405 | The kernel's blocks are exactly those that hold a byte of the kernel: it is covered at PA = VA, and nothing more is mapped |
| AddressMap.DeviceAtIsLast | arch/arm64/memorymanager/mmu.c:421-451 | The device found for an address is one listed in its 2 MiB block with none behind it in the list; there is none if and only if no device is in the block |
| AddressMap.WholeMap | arch/arm64/memorymanager/mmu.c:380-454 | For any kernel and any devices below 2^39, each address is mapped at itself with the AttrIndx, AP, SH, PXN and UXN that the last device in its block lists, else as kernel memory if its block holds a kernel byte, else not at all |
| AddressMap.DeviceReachableIff | arch/arm64/memorymanager/mmu.c:425-451 | A device just mapped is found at its own address, with the fields it lists, if and only if that is below 2^39 |
| PageTables.PagesIncrease | arch/arm64/memorymanager/mmu.c:387-388 | Pages handed out one after the other have increasing, hence different, addresses |
| PageTables.OwnersAreRegions | arch/arm64/memorymanager/mmu.c:431-445 | One level 2 table exists per distinct level 1 index among the kernel's and the devices', and no more |
| PageTables.PagesHandedOut | arch/arm64/memorymanager/mmu.c:406-440 | The pages the source's pointers hand out, NULL included, are the area's own if and only if the area has as many as are needed, and then the next is the one after them |
| PageTables.AreaSufficesIff | arch/arm64/memorymanager/mmu.c:431-440 | They are if and only if the area has a page for level 1 and one per region of the kernel and the devices |
| PageTables.DescLookup | arch/arm64/memorymanager/mmu.c:361-367 | What the walker makes of the last descriptor written for an address's indexes is what the map says |
| PageTables.PageTableArea.EntryTells | arch/arm64/memorymanager/mmu.c:431-445 | A level 1 entry is valid if and only if its index has a table, and masking it recovers that table |
| PageTables.PageTableArea.WalkOfOwned | arch/arm64/memorymanager/mmu.c:354-359 | The walk of an address whose level 1 index has a table ends in that table |
| PageTables.PageTableArea.TablesTranslate | arch/arm64/memorymanager/mmu.c:349-454 | The two-level walk of tables holding some mappings gives exactly the map of those mappings, for every address |
| PageTables.PageTableArea.InitL1Table | arch/arm64/memorymanager/mmu.c:349-352 | The first page maps nothing, whatever it held |
| PageTables.PageTableArea.InitL2Table | arch/arm64/memorymanager/mmu.c:354-359 | One more empty table is linked in; all others keep their contents |
| PageTables.PageTableArea.InitL2Block | arch/arm64/memorymanager/mmu.c:361-367 | The tables hold one more mapping, after those they held |
| PageTables.PageTableArea.MapKernelBlocks | arch/arm64/memorymanager/mmu.c:398-405 | The loop maps all of the kernel's blocks |
| PageTables.PageTableArea.MapKernel | arch/arm64/memorymanager/mmu.c:380-414 | The tables hold the kernel's map; the result is the third page, or NULL if there is none |
| PageTables.PageTableArea.MapDevice | arch/arm64/memorymanager/mmu.c:423-451 | One device is mapped, in a new table exactly if its region has none yet |
| PageTables.PageTableArea.MapDevices | arch/arm64/memorymanager/mmu.c:416-454 | All devices are mapped after what was there; the pages used are one per new region, in order |
| PageTables.PageTableArea.EarlyMmuInit | arch/arm64/memorymanager/mmu.c:316-329 | Whatever the area held, every address then translates as the map of the kernel followed by the devices says; with all devices below 2^39, that is at itself with the fields the last device in its block lists, else as kernel memory if its block holds a kernel byte, else not at all |
| Board.BoardMeetsRequirements | arch/arm64/memorymanager/board_devices.c:10-45 | Both boards meet what the table builder asks for, and use three of the five pages |
| Board.DeviceFitsItsBlock | arch/arm64/memorymanager/board_devices.c:18-43 | Every register of every listed device is in the one block mapped for it |
| Board.BoardMap | arch/arm64/memorymanager/board_devices.c:18-43 | On the emulated board the blocks of 0x08000000 and 0x09000000, on the hardware those of 0x01800000 and 0x02800000, are mapped as device memory, kernel blocks as normal memory, nothing else |
| Board.HeapMappedIff | arch/arm64/memorymanager/mmu.c:340-346 | An address above the kernel and below the heap's end, 512 MiB from the kernel's start, is mapped if and only if it is in the kernel's last block |

## Left out

- Every `uart_puts` call, and the UART driver: output only.
- Interrupts, the GIC, traps, timer registers, context switching (`reg_switch`), boot assembly, and the writes
  to MAIR, TCR, TTBR and SCTLR: hardware registers; the model has the tables in memory and the walk.
- `set_range`, the getters of the allocator and the scheduler, and `testingSchedulerInit`: easy facts only.
- The mock timer's other functions, except initialization: easy facts only.
- Level 1 blocks, `PAGE_DESC` and level 3 macros: never used by the code.
- `memset` is taken as the loop that sets 512 words to zero.
- IntPrinter.Itoa: bases outside 2..36 are not modelled. For base 0 the source divides by zero, for base 1 it
  does not end, and above 36 it leaves the letters.
- HeapModel, HeapLists: contents of allocated memory and alignment of addresses, which the allocator does
  not promise.
- HeapLists.Allocator.DefragmentAsWritten: when its loop never ends there is no result to state; `HeapAsWritten.FreeReturnsIff`
  says when that is. The branch that updates the head (driver/memallc.c:218-223) is proved never to be taken, because
  the block it is called with is the head and is not empty.
- HeapLists.Allocator.FreeMemallcAsWritten: the free list is in order; `FreeMemallcOnShape` has it in any shape.
- HeapShapes: frees after frees only. An allocation as written from a list that is not in order may leave a node on both
  lists (`HeapLists.Allocator.GivenTwice`), which the shapes do not describe.
- HeapRuns.RunTiles: a run frees as meant; `HeapAsWritten` says what a free as written does instead.
- SchedRings.Scheduler.ScheduleProcess: the process must not already be with the scheduler, and the allocation is
  taken to succeed (the source does not check it) and to give memory that is not in use. A process scheduled RUNNING or
  ZOMBIE gets a node that is put nowhere; the model records it as lost.
- SchedRings.Scheduler.NewNode: the same assumptions.
- SchedRings.Scheduler.FreeMemallc: a free that returns and frees what it is given. That is false of the free path as
  written; `SchedFrees` has what happens then.
- SchedRings.Scheduler.EndProcess: the same assumption about its two frees.
- SchedRings.Scheduler.KillScheduler: the same assumption about all of its frees.
- SchedRuns.WholeLife: the same assumptions about allocating and freeing.
- SchedRings: of a process, only the state the scheduler reads; its id and context are not part of the model.
- SchedModel: code outside the scheduler changes the state of the current process only.
- PageTables.PageTableArea.MapKernel: the kernel is not empty, starts at a 2 MiB boundary (linker.ld:12), and
  stays in one 1 GiB region below 2^39 (arch/arm64/memorymanager/mmu.c:379); the area is page-aligned and ends
  at or below 2^40.
- PageTables.PageTableArea.MapDevices: the area must have a page for each new region.
  `PageTables.AreaSufficesIff` shows that otherwise the source uses a page outside the area before it checks
  (arch/arm64/memorymanager/mmu.c:433-439); what it overwrites there is not modelled.
- PageTables.PageTableArea.MapDevice: the same, for one device.
- PageTables.PageTableArea.EarlyMmuInit: the same, for all of them.
- AddressMap.Device: the size is never read, as in the source; `Board.DeviceFitsItsBlock` shows that this does no
  harm on the two boards.
- PageTables.PageTableArea.Translate: the walk is that of TTBR0, for addresses below 2^39. Addresses of the upper range
  are walked through TTBR1, which the source neither sets nor disables.
- Aliasing between the page-table area and other memory, caches and TLBs.

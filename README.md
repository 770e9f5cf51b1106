# A Dafny model of the Jrinx kernel core

Jrinx is a RISC-V kernel written in Rust that hosts ARINC 653 partitions. It comes with a Python
harness that judges test runs from the kernel's console output. This project models the
sequential core of both in Dafny 4 and proves properties of the model:

- **Test judge** (`judge.dfy`). Covers the line matchers of `scripts/python/judge.py` (leaf,
  Ordered, Repeat, Unordered), how they are built from a test configuration, the per-line
  pass/fail loop and the exit code. The regular-expression search is a function parameter.
- **Scheduling structures.**
  - The 64-level bitmap priority queue (`fastpq.dfy`).
  - The BTreeMap priority queue (`priority.dfy`).
  - The timed-event registry and min-queue (`timed_event.dfy`).
  - The partition schedule table, with its validity check and round-robin cursor, and the runtime's
    inspector registry and queue (`runtime.dfy`).
- **Address-space allocators.**
  - The guarded stack allocator with per-size caches (`stack_alloc.dfy`).
  - The linear allocator with a recycle FIFO (`linear_alloc.dfy`).
  - The interval sweep that subtracts reserved ranges (`interval.dfy`).
  - The ELF segment chunker (`loader.dfy`).
- **Encoders and decoders.**
  - Sv39 page-table entries, their permission flags and their display (`paging.dfy`).
  - Virtual-address indexes and the kernel remapping (`addr.dfy`).
  - The `Address` derive (`addr_macro.dfy`).
  - Trap-cause decoding and the user context set-up (`trap.dfy`).
  - APEX names, return codes and enumerations (`apex.dfy`, `a653_helper.dfy`).
  - Boot-argument parsing and schedule accounting (`bootargs.dfy`).
  - The system-call entry's pointer checks and result encoding (`all_calls.dfy`).
- **APEX services.** The guard chains of CREATE_PROCESS, INITIALIZE_PROCESS_CORE_AFFINITY
  (`process_calls.dfy`) and SET_PARTITION_MODE (`partition_calls.dfy`).
- **Once lock.** The write-once cell `OnceLock` (`once_lock.dfy`).

The supporting modules are:

- `wrappers.dfy`: Option and Result.
- `errors.dfy`: the kernel's `InternalError`.
- `machine.dfy`: `usize`, PAGE_SIZE, wrapping arithmetic and small arithmetic lemmas.

### Modelling choices

**State and callbacks**
- Objects whose fields the source updates in place are classes with `modifies` frames. Examples are
  the allocators, the queues, the schedule table, the runtime, the timed events, the once lock and
  the trap context.
- Pure code becomes functions and lemmas.
- Callbacks (`map`/`unmap`, the ELF loader's closure, the regex search, the system-call services)
  are function parameters. Where the source calls them in a loop, the model records the calls.

**Rust semantics**
- Wrapping `usize` arithmetic is written out modulo 2^64 (`WrapAdd`, `WrapSub`, `WrapMul` and the
  shifts of the page-table entry). This covers the kernel remapping, the `Address` operators,
  `pc_advance` and the system-call pointer checks.
- The stack and linear allocators and the interval sweep compute addresses as unbounded `nat`. They
  model no overflow at all; "Left out" lists these sums.
- A Rust panic is modelled in one of three ways: an error variant the caller can see, a
  precondition, or a branch the model leaves out. "Left out" lists each case.

**Where the code is followed instead of what its neighbours suggest**
- kern/modules/trap/src/lib.rs declares `TrapReason::Interrupt(usize)` and a trait without
  `enable_int`. The riscv context in kern/modules/trap/src/arch/riscv/mod.rs returns
  `SoftwareInterrupt`, `TimerInterrupt` and `ExternalInterrupt` and defines `enable_int`. The
  model follows the riscv context.
- kern/src/test/stack.rs expects map addresses that differ from what the arithmetic of
  kern/modules/stack-alloc/src/lib.rs gives. The model follows lib.rs.

## Model

| member | source | states |
|---|---|---|
| Judge.BlankTypeNamesPattern | scripts/python/judge.py:48 | `type: " \tordered"` builds an empty Ordered pattern: `eval` skips the blanks before `OrderedPattern` |
| Judge.OfSatisfiesInv | scripts/python/judge.py:41-52 | every matcher `Pattern.of` builds satisfies the shape invariant (Ordered index within its children, Repeat's child and origin well-formed) |
| Judge.Of | scripts/python/judge.py:41-52 | `Pattern.of`: None gives no matcher, a string a leaf, a dictionary the pattern its `type` names (title-cased plus "Pattern"); leading spaces and tabs of the name are skipped as `eval` skips them; an unknown type name, a missing or non-string `type`, a missing `vals`, `pat` or `count`, a `vals` that is not a list, a `count` that is not an integer, an empty `type` and any other configuration are InvalidPattern; what it builds satisfies the invariant (Judge.OfSatisfiesInv) |
| Judge.ChildSatisfiesInv | scripts/python/judge.py:92-93 | the child a Repeat builds from its configuration satisfies the invariant |
| Judge.ChildrenSatisfyInv | scripts/python/judge.py:71-113 | the children of Ordered/Unordered are built one per configuration entry, all satisfying the invariant |
| Judge.ApplyPreservesInv | scripts/python/judge.py:80-128 | applying a line keeps the invariant, and a composite reports retirement only when it is full (or picked nothing) |
| Judge.Apply | scripts/python/judge.py:63-128 | `apply` of each matcher on one line: a leaf searches its regex, Ordered applies the child at its index, Repeat counts down and rebuilds its child, Unordered applies every waiting child; the steps are Judge.LeafStep, OrderedStep, RepeatStep and UnorderedStep and the invariant is kept (Judge.ApplyPreservesInv) |
| Judge.ApplyAllPreservesInv | scripts/python/judge.py:118-128 | applying a line to Unordered's waiting children keeps at most those children, all satisfying the invariant |
| Judge.LeafStep | scripts/python/judge.py:63-68 | a leaf retires and captures exactly when its regex is found, capturing the match; otherwise `(False, ())`; the leaf is unchanged |
| Judge.OrderedStep | scripts/python/judge.py:80-86 | only the child at the index is applied; the index advances exactly on a capturing retire; full exactly when the index reaches the end; applied after completion it raises IndexError |
| Judge.RepeatStep | scripts/python/judge.py:100-106 | the count drops and the child is rebuilt from its origin exactly on a capturing retire; captures are forwarded; full exactly at zero |
| Judge.UnorderedStep | scripts/python/judge.py:118-128 | every waiting child sees the line; exactly the capturing retirees leave; captures are concatenated; full when none waits |
| Judge.UnorderedBothOnOneLine | scripts/python/judge.py:118-128 | two leaves found on one line both retire on it and complete the node at once |
| Judge.RepeatLeafCounts | scripts/python/judge.py:100-106 | Repeat over a leaf counts down once per line containing the regex |
| Judge.RunLines | scripts/python/judge.py:189-208 | the loop checks the unexpected pattern first on every line, fails on its capturing retire, passes on the expected pattern's capturing retire, and reports "Expected pattern not found" at the end of the stream |
| Judge.JudgeStatus | scripts/python/judge.py:225-230 | exit status 0 for a pass, 1 for a RuntimeError, no status when another exception escapes |
| Judge.BootargsEnv | scripts/python/judge.py:165-169 | a non-empty argument string is appended after one space to an inherited BOOTARGS, or becomes BOOTARGS |
| Judge.LeafDecision | scripts/python/judge.py:194-208 | with leaf patterns the first lines containing each regex decide: unexpected wins when no later than expected, expected passes otherwise, end of stream fails |
| Judge.LeafPassesIffFound | scripts/python/judge.py:200-208 | without an unexpected pattern a leaf test passes exactly when some line contains the regex |
| Judge.NoExpectedRaises | scripts/python/judge.py:157-161 | a configuration without an expected pattern raises ValueError before any output is judged |
| Judge.OrderedOfTwo | scripts/python/judge.py:71-75 | `{type: "ordered", vals: [a, b]}` builds the Ordered pattern of the leaves a and b, about to match the first |
| Judge.OrderedConfigNeedsOrder | scripts/python/judge.py:74-86 | an ordered configuration of two strings passes once both are seen in order on different lines |
| Judge.JudgeExitCodes | scripts/python/judge.py:226-230 | `judge` returns 0 only for a passing run and 1 exactly for a RuntimeError |
| FastPq.Mark | kern/modules/util/src/fastpq.rs:35-36 | `bits \| (1 << p)` sets exactly bit p and keeps the others |
| FastPq.Unmark | kern/modules/util/src/fastpq.rs:49 | `bits & !(1 << p)` clears exactly bit p and keeps the others |
| FastPq.LeadingZeros | kern/modules/util/src/fastpq.rs:44 | `leading_zeros` is 64 exactly for the zero word; otherwise bit 63 - n is set and every bit above it clear |
| FastPq.AllClear | kern/modules/util/src/fastpq.rs:41 | a word with no bit set is the zero word |
| FastPq.LinkedEmpty | kern/modules/util/src/fastpq.rs:41-43 | under the invariant (bit p set exactly when FIFO p is non-empty) the word is zero exactly when every FIFO is empty |
| FastPq.LinkedTop | kern/modules/util/src/fastpq.rs:44-46 | level 63 - leading_zeros(bits) is non-empty and every higher level is empty |
| FastPq.LinkedPush | kern/modules/util/src/fastpq.rs:33-38 | appending to a FIFO and marking its bit keeps the invariant |
| FastPq.LinkedPop | kern/modules/util/src/fastpq.rs:45-52 | taking a FIFO's front keeps the invariant when the bit is cleared as the FIFO runs empty |
| FastPq.FastPriorityQueue.constructor | kern/modules/util/src/fastpq.rs:26-31 | all levels empty, bits zero |
| FastPq.FastPriorityQueue.Enqueue | kern/modules/util/src/fastpq.rs:33-38 | the item is appended to its level's FIFO, its bit is set, the other FIFOs are unchanged, the invariant holds |
| FastPq.FastPriorityQueue.Dequeue | kern/modules/util/src/fastpq.rs:40-53 | None exactly when bits is zero (every FIFO empty); otherwise the front of the highest non-empty level, removed from it alone |
| FastPq.EqualPriorityFifo | kern/modules/util/src/fastpq.rs:33-53 | two items at one level leave in arrival order |
| FastPq.HigherLevelFirst | kern/modules/util/src/fastpq.rs:44-46 | a higher level is served before a lower one whatever the arrival order |
| PriorityMap.InsertSorted | kern/src/util/priority.rs:20-25 | `add` keeps the keys strictly increasing |
| PriorityMap.InsertNoEmpty | kern/src/util/priority.rs:20-25 | `add` never creates an empty FIFO |
| PriorityMap.InsertLookup | kern/src/util/priority.rs:20-25 | the FIFO of the priority gains the item at its back (from empty if absent); every other FIFO is unchanged |
| PriorityMap.Insert | kern/src/util/priority.rs:20-25 | the entry list after `add`: sorted by priority with the item at the back of its FIFO, proved by PriorityMap.InsertSorted, InsertNoEmpty and InsertLookup |
| PriorityMap.LastIsGreatest | kern/src/util/priority.rs:28 | the last entry holds the greatest priority that has items |
| PriorityMap.PriorityQueue.constructor | kern/src/util/priority.rs:14-18 | no priority holds items |
| PriorityMap.PriorityQueue.Add | kern/src/util/priority.rs:20-25 | the entries become the insertion of the item at its priority, invariant kept |
| PriorityMap.PriorityQueue.Pop | kern/src/util/priority.rs:27-34 | None exactly for the empty map; otherwise the front of the greatest priority's FIFO, whose rest is put back only when non-empty |
| PriorityMap.EqualPriorityFifo | kern/src/util/priority.rs:20-34 | two items at one priority come out in order, then None |
| PriorityMap.GreaterFirst | kern/src/util/priority.rs:28-29 | the greater priority is served first |
| Interval.Events | kern/modules/util/src/interval.rs:33-39 | each added bound contributes (start, +1) and (start + len, -1) |
| Interval.EventsSum | kern/modules/util/src/interval.rs:33-39 | the running sum of the added events at x is the number of added bounds containing x |
| Interval.SubEventsSum | kern/modules/util/src/interval.rs:45-50 | the subtracted events at x contribute -INFINITY per subtracted bound containing x |
| Interval.CollapseSpec | kern/modules/util/src/interval.rs:77-88 | sorting and `chunk_by` give one entry per occurring position, positions strictly increasing, each with the sum of its deltas; running sums are unchanged |
| Interval.Collapse | kern/modules/util/src/interval.rs:77-88 | the events sorted by position with the deltas of each position summed into one entry, as Interval.CollapseSpec proves |
| Interval.WalkCovers | kern/modules/util/src/interval.rs:55-70 | the iterator's walk covers x exactly when the running sum just after x is positive |
| Interval.Walk | kern/modules/util/src/interval.rs:55-70 | the intervals the iterator yields: one opens where the running sum rises above 0 and closes where it falls back; Interval.WalkCovers proves it covers exactly the points with a positive sum |
| Interval.ExclusiveIntervals.constructor | kern/modules/util/src/interval.rs:33-42 | the events of the bounds, fewer than INFINITY |
| Interval.ExclusiveIntervals.SubAssign | kern/modules/util/src/interval.rs:45-50 | pushes (start, -INFINITY) and (start + len, +INFINITY) |
| Interval.ExclusiveIntervals.IntoIter | kern/modules/util/src/interval.rs:77-88 | an iterator over the collapsed events with sum 0 |
| Interval.ExclusiveIntervalsIter.constructor | kern/modules/util/src/interval.rs:79-87 | the iterator starts at sum 0 over the given events |
| Interval.ExclusiveIntervalsIter.Next | kern/modules/util/src/interval.rs:55-70 | the next interval [l, p) where the sum rises above 0 at l and falls to 0 or below at p; None once the events run out |
| Interval.SweepIsDifference | kern/modules/util/src/interval.rs:33-88 | the yielded intervals are non-empty, increasing and disjoint, and cover exactly the points in some added bound and in no subtracted one |
| StackAlloc.WalkOk | kern/modules/stack-alloc/src/lib.rs:67-69 | the page walk succeeds exactly when the callback succeeds on every page, and then visits them all |
| StackAlloc.WalkVisits | kern/modules/stack-alloc/src/lib.rs:67-69 | the walk calls the callback on the first pages in order, stopping at and returning the first failure |
| StackAlloc.PageSteps | kern/modules/stack-alloc/src/lib.rs:67 | `(0..size).step_by(PAGE_SIZE)` runs ceil(size / PAGE_SIZE) times |
| Machine.NextMultipleOf | kern/modules/stack-alloc/src/lib.rs:49 | `next_multiple_of(PAGE_SIZE)`: the least multiple of m at or above x, x itself when it is one |
| StackAlloc.StackAllocator.constructor | kern/modules/stack-alloc/src/lib.rs:30-46 | the guard is rounded up to whole pages; `next` is the region base minus the guard; nothing recorded or cached |
| StackAlloc.StackAllocator.Allocate | kern/modules/stack-alloc/src/lib.rs:48-72 | size rounded up to pages; the front of that size's cache is reused first, else NotEnoughMem exactly when next + size > region end, else next grows by size + guard; the top va + size + guard is recorded; each stack page is mapped, stopping at the first error |
| StackAlloc.StackAllocator.Reserve | kern/modules/stack-alloc/src/lib.rs:51-65 | the bookkeeping of `allocate`: cache first, region test, top recorded, invariant kept |
| StackAlloc.StackAllocator.Deallocate | kern/modules/stack-alloc/src/lib.rs:74-89 | an unrecorded top is InvalidVirtAddr with nothing changed; a recorded one is forgotten, its pages unmapped up to the first error, and only then is its base pushed on the front of its size's cache |
| StackAlloc.StackAllocator.Forget | kern/modules/stack-alloc/src/lib.rs:75-79 | removes the recorded top, invariant kept |
| StackAlloc.StackAllocator.Recycle | kern/modules/stack-alloc/src/lib.rs:87 | pushes the freed base on the front of its size's cache, invariant kept |
| StackAlloc.SoundTake | kern/modules/stack-alloc/src/lib.rs:51 | popping a cache front keeps the allocator invariant |
| StackAlloc.SoundRecord | kern/modules/stack-alloc/src/lib.rs:64-65 | recording a whole-page stack below `next` keeps the invariant |
| StackAlloc.SoundCache | kern/modules/stack-alloc/src/lib.rs:87 | caching a freed base keeps the invariant |
| StackAlloc.ReuseAfterFree | kern/modules/stack-alloc/src/lib.rs:48-89 | a one-stack region: the first request gets top 0x11000, the second is NotEnoughMem, after freeing the same top comes back from the cache |
| StackAlloc.CallEach | kern/modules/stack-alloc/src/lib.rs:67-85 | the page loop calls the callback on base, base + PAGE_SIZE, ... exactly as the walk specifies |
| StackAlloc.GuardOverrun | kern/modules/stack-alloc/src/lib.rs:54 | the region test as written admits a stack whose second page lies at the region end (see Findings) |
| StackAlloc.GuardOverrunAllocation | kern/modules/stack-alloc/src/lib.rs:48-72 | through `allocate` itself the request succeeds and maps the page 0x11000 past the region |
| StackAlloc.FitsStronger | kern/modules/stack-alloc/src/lib.rs:54 | the corrected test refuses everything the written one refuses |
| StackAlloc.FitsPagesInRegion | kern/modules/stack-alloc/src/lib.rs:53-69 | with the corrected test every mapped page lies wholly inside the region |
| StackAlloc.FitsAsWritten | kern/modules/stack-alloc/src/lib.rs:54 | the region test as written, `va + size <= end`, which leaves out the guard (StackAlloc.GuardOverrun) |
| StackAlloc.Fits | kern/modules/stack-alloc/src/lib.rs:53-62 | the corrected region test `va + guard + size <= end`, stronger than the written one (StackAlloc.FitsStronger) and keeping every mapped page in the region (StackAlloc.FitsPagesInRegion) |
| LinearAlloc.LinearAllocator.constructor | kern/modules/linear-alloc/src/lib.rs:26-43 | `next_va` at the region base; nothing allocated or recycled |
| LinearAlloc.LinearAllocator.Allocate | kern/modules/linear-alloc/src/lib.rs:45-63 | the recycled FIFO's front first; else NotEnoughMem exactly when next + ele_size > region end, else next grows by ele_size + grd_size; the address is recorded and mapped with `map(va, ele_size)`, whose error is returned |
| LinearAlloc.LinearAllocator.Deallocate | kern/modules/linear-alloc/src/lib.rs:65-74 | an unallocated address is InvalidVirtAddr with nothing changed; otherwise it is removed, appended to the recycled FIFO and unmapped |
| LinearAlloc.RecycleFirst | kern/modules/linear-alloc/src/lib.rs:45-74 | fresh elements are spaced by ele_size + grd_size from the base; a freed one is handed out again first |
| Bootargs.Split | kern/src/bootargs.rs:324-325 | `split(',')` and `split('=')`: at least one piece, none containing the separator |
| Bootargs.JoinSplit | kern/src/bootargs.rs:324-325 | splitting loses nothing: joining the pieces gives the string back |
| Bootargs.SplitJoin | kern/src/bootargs.rs:324-325 | splitting joined pieces that do not contain the separator gives them back |
| Bootargs.KeyValueJoin | kern/src/bootargs.rs:325-332 | a well-formed entry (one '=') reads `key=value` |
| Bootargs.Pairs | kern/src/bootargs.rs:323-338 | `iter_key_value`: all entries become pairs in order, or the first malformed one is the error |
| Bootargs.IterKeyValue | kern/src/bootargs.rs:323-338 | `iter_key_value`: the entries between commas, each paired by Bootargs.KeyValue, as Bootargs.Pairs and PairsError state |
| Bootargs.KeyValue | kern/src/bootargs.rs:325-332 | one entry: no '=' is MissingValue, more than one InvalidArgument, exactly one the key and value around it (Bootargs.KeyValueJoin) |
| Bootargs.PairsError | kern/src/bootargs.rs:334-336 | a failure is that of the first ill-formed entry: one with no '=' (MissingValue) or more than one (InvalidArgument) |
| Bootargs.ParseKeyValue | kern/src/bootargs.rs:340-345 | the value of the first pair whose key matches, None when none does |
| Bootargs.ToDigit | kern/src/bootargs.rs:360 | `to_digit(radix)`: a digit's value is below the radix |
| Bootargs.DigitRoundTrip | kern/src/bootargs.rs:360 | every digit value below the radix has a character reading back as it |
| Bootargs.Accumulate | kern/src/bootargs.rs:360 | the digits read left to right never give a value above the type's maximum: a larger one is the overflow error |
| Bootargs.FromStrRadix | kern/src/bootargs.rs:360 | `from_str_radix`: an accepted value lies in the type's range, from minus its negative bound to its maximum |
| Bootargs.ParseUsizeFromProperRadix | kern/src/bootargs.rs:347-361 | the prefix selects the radix and an accepted value is a usize (the prefixes are pinned by ParseRender) |
| Bootargs.AccumulateRender | kern/src/bootargs.rs:360 | reading a rendered number gives it back when it fits |
| Bootargs.ParseRender | kern/src/bootargs.rs:347-361 | every usize written with the prefix of radix 16, 8, 2 or 10 parses back to itself |
| Bootargs.UnitRequired | kern/src/bootargs.rs:363-371 | only a string ending in 's', or "0", has a unit; anything else is "invalid time unit" |
| Bootargs.UnitOfRendered | kern/src/bootargs.rs:364-369 | "ns" is tested before "s": a rendered number followed by a unit yields that unit and that number |
| Bootargs.Unit | kern/src/bootargs.rs:364-370 | the factor and the digits: "ns", "us", "ms" and "s" suffixes give 1, 1e3, 1e6 and 1e9, a bare "0" gives 1; Bootargs.UnitRequired and UnitOfRendered state which strings have a unit |
| Bootargs.ParseTimeFromProperUnit | kern/src/bootargs.rs:363-383 | "invalid time unit" without a unit, "invalid time value" for bad digits, otherwise value × factor with a negative product mapped to APEX_TIME_INFINITY; Bootargs.ParseTimeRender, ParseTimeNegative and ParseTimeZero prove these cases |
| Bootargs.ParseTimeRender | kern/src/bootargs.rs:363-382 | a non-negative count of ns/us/ms/s parses to the count times 1, 1e3, 1e6, 1e9 |
| Bootargs.ParseTimeNegative | kern/src/bootargs.rs:379 | a negative count parses to APEX_TIME_INFINITY |
| Bootargs.NegativeValue | kern/src/bootargs.rs:375 | a '-' before rendered digits reads as the negated number |
| Bootargs.ParseTimeZero | kern/src/bootargs.rs:369 | a bare "0" is the zero time |
| Bootargs.ChargeKeeps | kern/src/bootargs.rs:271-283 | charging one more entry keeps the budgets' meaning (duration left = partition duration minus its charged entries, or infinite) |
| Bootargs.Charge | kern/src/bootargs.rs:248-283 | one schedule entry: an offset at or past a finite frame is InvalidOffset, an unknown partition UnknownPartition, a duration above what is left InvalidDuration; an infinite budget stays infinite, otherwise the duration is subtracted (Bootargs.ChargeKeeps) |
| Bootargs.DurationAbsent | kern/src/bootargs.rs:273-276 | a partition no entry names has been charged nothing |
| Bootargs.AccountMeaning | kern/src/bootargs.rs:248-302 | an accepted table leaves the budgets `Charged` describes |
| Bootargs.DurationsSumUp | kern/src/bootargs.rs:271-313 | an accepted table charges each finite-duration partition exactly its duration |
| Bootargs.Schedule | kern/src/bootargs.rs:248-313 | the loop gives the accounting of the whole table: its first error (an offset at or past a finite major frame, an overdrawn budget), or DurationLeft when a finite budget is not used up |
| Bootargs.AccountStops | kern/src/bootargs.rs:248-302 | once a prefix fails, the whole table fails the same way |
| Runtime.SortByOffset | kern/modules/multitask/src/runtime.rs:335 | the entries sorted by offset, as a permutation |
| Runtime.InsertSorted | kern/modules/multitask/src/runtime.rs:335 | one insertion step keeps the order |
| Runtime.InsertPermutes | kern/modules/multitask/src/runtime.rs:335 | one insertion step adds exactly the entry |
| Runtime.ChainedFloor | kern/modules/multitask/src/runtime.rs:403-408 | a chained table is sorted from its first offset |
| Runtime.GroupShares | kern/modules/multitask/src/runtime.rs:411-423 | an inspector's group carries the period and duration every such entry carries |
| Runtime.GroupIncreasing | kern/modules/multitask/src/runtime.rs:403-412 | with windows of positive duration an inspector's offsets strictly increase |
| Runtime.GapSumTelescopes | kern/modules/multitask/src/runtime.rs:425-441 | along increasing offsets the cyclic gaps telescope |
| Runtime.RoundIsFrame | kern/modules/multitask/src/runtime.rs:425-441 | going once round an inspector's offsets inside the frame takes exactly one frame |
| Runtime.FramePeriods | kern/modules/multitask/src/runtime.rs:397-444 | in a valid table an inspector with positive-duration windows has count × period = frame size |
| Runtime.Valid | kern/modules/multitask/src/runtime.rs:397-444 | `valid`: every window starts inside the frame, each ends no later than the next begins, all entries of an inspector agree on period and duration, and its windows recur at its period round the frame; Runtime.NewSchedTable accepts exactly the valid tables and Runtime.FramePeriods, ChainedFloor and GroupShares derive from it |
| Runtime.Advance | kern/modules/multitask/src/runtime.rs:356-384 | the cursor stays in the table; past the last entry it wraps to 0 and the datum moves on by one frame; otherwise it moves on by one and the datum is unchanged |
| Runtime.Serve | kern/modules/multitask/src/runtime.rs:353-387 | k successive `sched_next` calls yield k entries, each with its opening time |
| Runtime.GapSumPeriods | kern/modules/multitask/src/runtime.rs:425-441 | gaps all equal to the period sum to count × period |
| Runtime.ServeRound | kern/modules/multitask/src/runtime.rs:353-387 | from the cursor to the end each entry opens at datum + offset |
| Runtime.ServeOrdered | kern/modules/multitask/src/runtime.rs:353-409 | a bounded, chained table opens its windows in time order, across frame boundaries |
| Runtime.SchedTable.constructor | kern/modules/multitask/src/runtime.rs:336-342 | cursor 0, datum 0 |
| Runtime.SchedTable.Start | kern/modules/multitask/src/runtime.rs:349-351 | the datum becomes the current time |
| Runtime.SchedTable.SchedNext | kern/modules/multitask/src/runtime.rs:353-387 | returns `table[next]` and steps the cursor; past the end it resets to 0 and advances the datum by the frame |
| Runtime.NewSchedTable | kern/modules/multitask/src/runtime.rs:330-347 | Ok exactly when the offset-sorted table is valid, otherwise InvalidRuntimeSchedTable |
| Runtime.Unlisted | kern/modules/multitask/src/runtime.rs:81-86 | `retain` keeps, with their counts, exactly the queued inspectors the table does not list |
| Runtime.UnlistedMembers | kern/modules/multitask/src/runtime.rs:81-86 | what stays queued was queued and is not listed |
| Runtime.Runtime.constructor | kern/modules/multitask/src/runtime.rs:60-70 | nothing registered, no table, status Unused |
| Runtime.Runtime.Init | kern/modules/multitask/src/runtime.rs:72-74 | status Init |
| Runtime.Runtime.EnactSchedTable | kern/modules/multitask/src/runtime.rs:76-89 | DuplicateRuntimeSchedTable when a table is set; otherwise listed inspectors leave the queue and the table is set |
| Runtime.Runtime.RevokeSchedTable | kern/modules/multitask/src/runtime.rs:91-97 | hands back the table and clears it, or InvalidRuntimeSchedTable |
| Runtime.Runtime.Register | kern/modules/multitask/src/runtime.rs:99-108 | DuplicateInspectorId for a known id; otherwise registered and queued at the back |
| Runtime.Runtime.Unregister | kern/modules/multitask/src/runtime.rs:110-117 | InvalidInspectorId for an unknown id; otherwise forgotten |
| Runtime.Runtime.PopFront | kern/modules/multitask/src/runtime.rs:199-201 | the queue's head, removed, or None |
| Runtime.Runtime.PushBack | kern/modules/multitask/src/runtime.rs:203-211 | InvalidInspectorId for an unregistered id; otherwise queued at the back |
| Runtime.Runtime.SetCurrentInspector | kern/modules/multitask/src/runtime.rs:182-197 | Some(id) gives Running(id), None gives Idle |
| Runtime.RoundRobin | kern/modules/multitask/src/runtime.rs:99-211 | inspectors registered in turn are served round-robin |
| TimedEvent.InsertKey | kern/modules/timed-event/src/lib.rs:160 | the heap's keys gain exactly the new key |
| TimedEvent.InsertKeyStrict | kern/modules/timed-event/src/lib.rs:160 | the keys stay strictly ordered by (time, id) |
| TimedEvent.WithoutId | kern/modules/timed-event/src/lib.rs:175 | `retain` keeps exactly the keys of other ids |
| TimedEvent.WithoutIdStrict | kern/modules/timed-event/src/lib.rs:175 | the keys stay strictly ordered |
| TimedEvent.DeadlineIsLeast | kern/modules/timed-event/src/lib.rs:181-185 | the timer value is the least queued time, Duration::MAX when empty |
| TimedEvent.Deadline | kern/modules/timed-event/src/lib.rs:180-186 | the value `update_timer` programs: Duration::MAX for an empty heap, otherwise the time of its first key, the least one (TimedEvent.DeadlineIsLeast) |
| TimedEvent.TimedEvent.constructor | kern/modules/timed-event/src/lib.rs:71-80 | a fresh event is Pending with its handler |
| TimedEvent.TimedEvent.Invoke | kern/modules/timed-event/src/lib.rs:85-102 | the handler is taken once: a second invoke is InvalidTimedEventStatus; the status becomes the target |
| TimedEvent.TimedEvent.Retired | kern/modules/timed-event/src/lib.rs:121-123 | `retired`: the status is no longer Pending, which holds after a timeout and makes a later cancel fail (TimedEvent.FireOnce) |
| TimedEvent.TimedEventQueue.constructor | kern/modules/timed-event/src/lib.rs:144-149 | nothing queued, timer at Duration::MAX |
| TimedEvent.TimedEventQueue.UpdateTimer | kern/modules/timed-event/src/lib.rs:180-186 | the timer is set to the least queued time, or Duration::MAX |
| TimedEvent.TimedEventQueue.Add | kern/modules/timed-event/src/lib.rs:156-162 | registered and keyed by (time, id) in the heap; timer updated |
| TimedEvent.TimedEventQueue.Peek | kern/modules/timed-event/src/lib.rs:164-168 | the registered event with the least (time, id), None for an empty heap |
| TimedEvent.TimedEventQueue.PeekOutdated | kern/modules/timed-event/src/lib.rs:151-154 | a registered event whose (time, id) key is the least in the heap, given only when its time is at or before now |
| TimedEvent.TimedEventQueue.Remove | kern/modules/timed-event/src/lib.rs:170-178 | InvalidTimedEventStatus for an unknown id; otherwise removed from registry and heap |
| TimedEvent.Create | kern/modules/timed-event/src/lib.rs:71-83 | a fresh Pending event, added to its CPU's queue |
| TimedEvent.Fire | kern/modules/timed-event/src/lib.rs:109-119 | an unregistered event is InvalidTimedEventStatus with queue and event unchanged; a registered one leaves the registry and the heap loses exactly its keys, then the handler is taken: Ok with the target status when it was armed, InvalidTimedEventStatus with the status unchanged when not |
| TimedEvent.FireOnce | kern/modules/timed-event/src/lib.rs:109-123 | a timed-out event is retired and a later cancel fails |
| ProcessCalls.TruncRem | kern/modules/syscall/src/process.rs:49 | Rust's `%` on i64: the remainder has the dividend's sign and magnitude below the divisor's, and `a == (a / b) * b + r` with the quotient rounded toward zero, so `a - r` is a multiple of `b`; together these fix r |
| ProcessCalls.CreateCheck | kern/modules/syscall/src/process.rs:37-60 | Ok exactly when the name is new, the stack, priority, period and time capacity are admissible and the mode is not Normal; NoAction exactly for a used name; InvalidMode exactly for an admissible request in Normal mode; every other refusal is InvalidParam or InvalidConfig |
| ProcessCalls.Admissible | kern/modules/syscall/src/process.rs:37-60 | the attributes CREATE_PROCESS accepts: a new name, a stack within the partition's free memory, a priority at most the maximum, a period and time capacity the period rules allow; ProcessCalls.CreateCheck is Ok exactly for them |
| ProcessCalls.ModeCheckedLast | kern/modules/syscall/src/process.rs:58-60 | the mode changes the answer only once every parameter check passed |
| ProcessCalls.Create | kern/modules/syscall/src/process.rs:35-81 | the checks, then `Process::new`, whose failure is InvalidConfig |
| ProcessCalls.Process.constructor | kern/modules/syscall/src/process.rs:62-77 | a process with its identifier and no core affinity |
| ProcessCalls.InitializeProcessCoreAffinity | kern/modules/syscall/src/process.rs:118-138 | InvalidParam for an unknown process, InvalidConfig for an unassigned core, InvalidMode in Normal; otherwise the affinity becomes the core |
| PartitionCalls.ModeTransition | kern/modules/syscall/src/partition.rs:16-24 | unknown mode InvalidParam, Normal to Normal NoAction, WarmStart from ColdStart InvalidMode, else the new mode |
| PartitionCalls.Partition.constructor | kern/modules/syscall/src/partition.rs:12-14 | a partition in its given mode and lock level |
| PartitionCalls.Partition.SetMode | kern/modules/syscall/src/partition.rs:12-65 | a refused request changes nothing; otherwise the mode is stored first and Normal resets the lock level to APEX_LOCK_LEVEL_MIN |
| PartitionCalls.NormalTwice | kern/modules/syscall/src/partition.rs:19-58 | a partition in Normal refuses Normal again and keeps lock level 0 |
| Apex.Padded | apex/src/basic.rs:55-56 | the string's bytes followed by zeros up to 32 bytes |
| Apex.NameFromStr | apex/src/basic.rs:50-59 | strings over 32 bytes are handed back as the error; others zero-padded |
| Apex.FirstNul | apex/src/basic.rs:37-41 | the length before the first zero byte, 32 when there is none |
| Apex.Utf8 | apex/src/basic.rs:42 | the well-formedness `core::str::from_utf8` checks, one encoded character after another; ASCII satisfies it (Apex.AsciiIsUtf8) and Apex.NameDebug's result always does |
| Apex.AsciiIsUtf8 | apex/src/basic.rs:42 | bytes below 0x80 are well-formed UTF-8 |
| Apex.NameDebug | apex/src/basic.rs:35-45 | the bytes before the first NUL when they are UTF-8, "<invalid utf8>" exactly when they are not; either way UTF-8 with no zero byte |
| Apex.PaddedNul | apex/src/basic.rs:55-56 | the padding starts exactly after the string |
| Apex.NameRoundTrip | apex/src/basic.rs:35-59 | `Debug` gives back a NUL-free UTF-8 string of at most 32 bytes |
| Apex.ReturnCodeValue | apex/src/basic.rs:84-95 | the discriminants 0 to 6 |
| Apex.ReturnCodeFrom | apex/src/basic.rs:97-110 | 0 to 6 map to the seven codes |
| Apex.ReturnCodeRoundTrip | apex/src/basic.rs:84-110 | `from(c as usize) == c` for every code |
| Apex.AsResult | apex/src/basic.rs:118-125 | Ok exactly for NoError, otherwise the code as the error |
| Apex.PortDirectionFrom | apex/src/basic.rs:143-153 | 0 and 1 accepted, any other value handed back |
| Apex.QueueDisciplineFrom | apex/src/basic.rs:163-173 | 0 and 1 accepted, any other value handed back |
| Apex.OperatingModeFrom | apex/src/partition.rs:15-27 | 0 to 3 accepted, any other value handed back |
| Apex.EnumRoundTrips | apex/src/basic.rs:137-173 | each enumeration decodes its own discriminant to itself |
| A653Helper.ConvertNameToStr | kern/modules/a653/src/helper.rs:6-8 | the bytes before the first zero, when UTF-8 |
| A653Helper.ConvertStrToName | kern/modules/a653/src/helper.rs:10-17 | strings of 32 bytes or more are InvalidApexName; others zero-padded after the bytes |
| A653Helper.NameRoundTrip | kern/modules/a653/src/helper.rs:6-17 | a NUL-free UTF-8 string under 32 bytes round-trips through a name |
| A653Helper.StricterThanTryFrom | kern/modules/a653/src/helper.rs:10-17 | what the helper accepts `try_from` maps to the same name; a 32-byte string only `try_from` accepts |
| A653Helper.ConvertTimeToDuration | kern/modules/a653/src/helper.rs:19-25 | the infinite time is Duration::MAX; other times are `time as u64` nanoseconds |
| Paging.DigitsRoundTrip | kern/modules/paging/src/arch/riscv/mod.rs:10-22 | the binary digits of a flag string's value are the flags, and the value fits in as many bits |
| Paging.Bits | kern/modules/paging/src/arch/riscv/mod.rs:10-22 | `bits()` of a flag set is below 256 |
| Paging.FromBitsRoundTrip | kern/modules/paging/src/arch/riscv/mod.rs:87 | `from_bits_truncate(perm.bits()) == perm` |
| Paging.WithAccessBits | kern/modules/paging/src/arch/riscv/mod.rs:69-75 | A is added when R is set, D when W is set, nothing else changes |
| Paging.Set | kern/modules/paging/src/arch/riscv/mod.rs:68-77 | the page number of the address lands in the bits from 10 up, the flags with A/D in bits 0-7 |
| Paging.Clr | kern/modules/paging/src/arch/riscv/mod.rs:79-81 | the cleared entry is invalid and carries no flags |
| Paging.SetValid | kern/modules/paging/src/arch/riscv/mod.rs:62-77 | an entry `set` wrote is valid exactly when the permission has V |
| Paging.SetBits | kern/modules/paging/src/arch/riscv/mod.rs:76 | the entry is page number × 1024 plus the flag bits: the OR of disjoint fields |
| Paging.IsValid | kern/modules/paging/src/arch/riscv/mod.rs:62-64 | `is_valid`: bit 0, V, of the entry; Paging.SetValid and Clr say which entries have it |
| Paging.FromBits | kern/modules/paging/src/arch/riscv/mod.rs:87 | `from_bits_truncate`: the flags of the low 8 bits, the inverse of `bits()` (Paging.FromBitsRoundTrip) |
| Paging.Decode | kern/modules/paging/src/arch/riscv/mod.rs:84-90 | `From<PageTableEntry>`: the page address from bits 10 up and the flags from the low 8 bits; Paging.DecodeFields and SetDecode show it undoes `set` |
| Paging.DecodeFields | kern/modules/paging/src/arch/riscv/mod.rs:84-89 | decoding page number k with flags f gives k × PAGE_SIZE and `from_bits_truncate(f)` |
| Paging.SetDecode | kern/modules/paging/src/arch/riscv/mod.rs:68-89 | for addresses below 2^62 decoding what `set` wrote gives the page-aligned address and the permission with its A/D bits |
| Paging.Rendered | kern/modules/paging/src/arch/riscv/mod.rs:33-43 | the rendering has six characters |
| Paging.Display | kern/modules/paging/src/arch/riscv/mod.rs:33-43 | the loop blanking each clear flag of "VRWXUG" yields the rendering |
| Paging.RenderedFlags | kern/modules/paging/src/arch/riscv/mod.rs:36-39 | character i is not '-' exactly when flag i is set |
| Paging.RenderedInjective | kern/modules/paging/src/arch/riscv/mod.rs:33-43 | two permissions displayed alike agree on V, R, W, X, U and G |
| Addr.RemapRoundTrip | kern/modules/addr/src/lib.rs:13-48 | `to_phys(to_virt(p)) == p` and `to_virt(to_phys(v)) == v` |
| Addr.ToVirt | kern/modules/addr/src/lib.rs:13-17 | `to_virt`: the physical address plus REMAP_MEM_OFFSET, wrapping, undone by Addr.ToPhys (Addr.RemapRoundTrip, RemapWindow) |
| Addr.ToPhys | kern/modules/addr/src/lib.rs:46-48 | `to_phys`: the virtual address minus REMAP_MEM_OFFSET, wrapping, undone by Addr.ToVirt (Addr.RemapRoundTrip) |
| Addr.RemapWindow | kern/modules/addr/src/lib.rs:14-16 | physical memory below PHYS_MEM_LIMIT maps without wrapping to [REMAP_MEM_OFFSET, REMAP_MEM_OFFSET + PHYS_MEM_LIMIT) |
| Addr.Sv39Indexes | kern/modules/addr/src/lib.rs:28-35 | three indexes, each below 512 |
| Addr.Sv39Reassemble | kern/modules/addr/src/lib.rs:28-35 | the indexes at bits 30, 21 and 12 and the page offset make up the low 39 bits |
| Addr.Sv39SamePage | kern/modules/addr/src/lib.rs:28-35 | addresses in one page have the same indexes |
| Addr.Sv32Indexes | kern/modules/addr/src/lib.rs:23-26 | two indexes, each below 1024 |
| Addr.Sv32Reassemble | kern/modules/addr/src/lib.rs:23-26 | on 32 bits the indexes at bits 22 and 12 and the offset make up the address |
| AddrMacro.Derive | kern/modules/addr-macro/src/lib.rs:12-68 | the derive succeeds exactly for a tuple struct with one field, failing with NOTE otherwise |
| AddrMacro.AddDiff | kern/modules/addr-macro/src/lib.rs:19-41 | `(a + n) - a == n` and `(a + n) - n == a` |
| AddrMacro.SubDiff | kern/modules/addr-macro/src/lib.rs:27-41 | `a - (a - n) == n` and `(a - n) + n == a` |
| AddrMacro.Add | kern/modules/addr-macro/src/lib.rs:19-25 | `Add<usize>`: the address moved up by n, wrapping; AddrMacro.AddDiff shows Sub undoes it |
| AddrMacro.Sub | kern/modules/addr-macro/src/lib.rs:27-33 | `Sub<usize>`: the address moved down by n, wrapping; AddrMacro.SubDiff shows Add undoes it |
| AddrMacro.Diff | kern/modules/addr-macro/src/lib.rs:35-41 | `Sub<Self>`: the wrapping distance of two addresses, giving back the n of AddrMacro.Add and Sub (AddrMacro.AddDiff, SubDiff) |
| AddrMacro.AlignPageDown | kern/modules/addr-macro/src/lib.rs:58-60 | a page multiple at most the address, less than a page below it |
| AddrMacro.AlignDownFixed | kern/modules/addr-macro/src/lib.rs:58-60 | an address is its own round-down exactly when aligned |
| AddrMacro.AlignPageUp | kern/modules/addr-macro/src/lib.rs:62-64 | a page multiple; below the last page the least one at or above the address, the address itself when aligned; within the last page the sum wraps to 0 |
| AddrMacro.AlignUpDown | kern/modules/addr-macro/src/lib.rs:58-64 | up and down land on one boundary, a page apart exactly for unaligned addresses |
| AddrMacro.HexDigits | kern/modules/addr-macro/src/lib.rs:45 | lower-case hex digits without a leading zero |
| AddrMacro.Display | kern/modules/addr-macro/src/lib.rs:43-47 | "0x" followed by the digits |
| AddrMacro.HexRoundTrip | kern/modules/addr-macro/src/lib.rs:45 | the printed digits denote the address |
| AddrMacro.DisplayInjective | kern/modules/addr-macro/src/lib.rs:43-47 | different addresses display differently |
| Loader.HeadLen | kern/modules/loader/src/lib.rs:44 | the head length is the segment start's offset within its page |
| Loader.FileStart | kern/modules/loader/src/lib.rs:56-60 | the file chunks start after the head chunk, at most at fsize |
| Loader.Issue | kern/modules/loader/src/lib.rs:30-73 | the calls are issued in order; Ok exactly when all succeed; otherwise the walk stops at and returns the first failure |
| Loader.IssueAppend | kern/modules/loader/src/lib.rs:23-31 | a walk over a concatenation continues over the second part only if the first succeeded |
| Loader.DataCovered | kern/modules/loader/src/lib.rs:44-70 | the head and the file chunks copy [0, fsize) exactly once, in order |
| Loader.FileCallsPaged | kern/modules/loader/src/lib.rs:56-70 | each file chunk starts on a page boundary and copies at most a page |
| Loader.HeadPaged | kern/modules/loader/src/lib.rs:44-54 | the head chunk ends within the first page |
| Loader.BssCallsSteps | kern/modules/loader/src/lib.rs:72-74 | the bss part is visited at fsize and every PAGE_SIZE below msize with length 0 |
| Loader.BssCalls | kern/modules/loader/src/lib.rs:72-74 | the bss loop as written: calls from fsize up in whole-page steps below msize (Loader.BssCallsSteps, BssTailPageMissed) |
| Loader.PagedBssCalls | kern/modules/loader/src/lib.rs:72-74 | the corrected bss walk, stepping to each next page boundary, which reaches every page the bss part touches (Loader.PagedBssCovers) |
| Loader.BssTailPageMissed | kern/modules/loader/src/lib.rs:72-74 | the written bss loop misses the last page of a bss part that starts late in a page (see Findings) |
| Loader.PagedBssCovers | kern/modules/loader/src/lib.rs:72-74 | the corrected bss walk calls the loader on every page the bss part touches |
| Loader.LoadFile | kern/modules/loader/src/lib.rs:56-70 | the file loop issues exactly the file chunks, stopping at the first error |
| Loader.LoadBss | kern/modules/loader/src/lib.rs:72-74 | the bss loop issues exactly the bss calls, stopping at the first error |
| Loader.LoadHead | kern/modules/loader/src/lib.rs:44-54 | issues exactly the head chunk, which exists only for an unaligned segment, and returns its error |
| Loader.LoadSegment | kern/modules/loader/src/lib.rs:36-77 | head, file and bss calls in order, the first error ending the segment |
| Loader.Load | kern/modules/loader/src/lib.rs:19-34 | no segment table is ElfParseError before any call; otherwise the PT_LOAD segments are loaded in order up to the first error |
| AllCalls.UptrTryCast | kern/modules/syscall/src/all.rs:78-86 | Ok exactly for a non-null pointer below usize::MAX/2 whose object ends at or below it; else InvalidVirtAddr |
| AllCalls.UptrTryCastArrayAsWritten | kern/modules/syscall/src/all.rs:88-96 | the array check with `ptr + len * size` wrapping (see Findings) |
| AllCalls.ArrayEndWraps | kern/modules/syscall/src/all.rs:89 | a slice of 2^64 - 0x800 bytes at 0x1000 passes the written check |
| AllCalls.UptrTryCastArray | kern/modules/syscall/src/all.rs:88-96 | the corrected check: Ok exactly when the whole slice lies below usize::MAX/2 |
| AllCalls.ArrayChecksAgree | kern/modules/syscall/src/all.rs:88-96 | without wrap-around the written and corrected checks agree |
| AllCalls.SingleElement | kern/modules/syscall/src/all.rs:78-96 | a one-element slice is checked as the element |
| AllCalls.Encode | kern/modules/syscall/src/all.rs:65-68 | Ok is 0, an error its discriminant 1 to 6 |
| AllCalls.EncodeRoundTrip | kern/modules/syscall/src/all.rs:65-68 | `ApexReturnCode::from` and `as_result` on the caller's side recover the outcome |
| AllCalls.Handle | kern/modules/syscall/src/all.rs:14-69 | an unknown number is InvalidSyscallNumber; a known one passes on its service's kernel error or encodes its APEX outcome |
| OnceLocks.OnceLock.constructor | kern/src/util/once_lock.rs:19-24 | UNINIT, nothing stored |
| OnceLocks.OnceLock.Init | kern/src/util/once_lock.rs:26-39 | only from UNINIT: the value is stored, the state passes INITIALIZING to INITED, Ok; otherwise RepeatInitialization with nothing changed |
| OnceLocks.OnceLock.Get | kern/src/util/once_lock.rs:41-47 | Some exactly in INITED, then the stored value |
| OnceLocks.InitOnce | kern/src/util/once_lock.rs:26-47 | a fresh lock gets nothing, the first init wins, the second is refused, `get` returns the first value |
| Trap.ReasonOf | kern/modules/trap/src/arch/riscv/mod.rs:100-132 | the decode table both ways: each named reason comes exactly from its own scause value (bit 63 plus supervisor software, timer or external; user ecall; breakpoint with sepc; load, store and instruction page faults with stval and R, W or X); every other value is Unknown carrying scause |
| Trap.CauseRoundTrip | kern/modules/trap/src/arch/riscv/mod.rs:100-132 | scause can be read back from every decoded reason |
| Trap.ReasonInjective | kern/modules/trap/src/arch/riscv/mod.rs:100-132 | different causes decode to different reasons |
| Trap.ReasonRoundTrip | kern/modules/trap/src/arch/riscv/mod.rs:100-132 | every reason other than Unknown, with the address the trap reports, is what its own scause value decodes to |
| Trap.StatusOf | kern/modules/trap/src/arch/riscv/mod.rs:136 | the sstatus fields SIE, SPIE, SPP, FS and SUM; FS below 4 |
| Trap.InstructionLength | kern/modules/trap/src/arch/riscv/mod.rs:150-155 | 2 exactly when the low two bits are not 0b11, otherwise 4 |
| Trap.Context.constructor | kern/modules/trap/src/arch/riscv/mod.rs:87-97 | every register 0 |
| Trap.Context.Reason | kern/modules/trap/src/arch/riscv/mod.rs:100-132 | `trap_reason` is the decode of the context's own scause, sepc and stval, and scause can be read back from it |
| Trap.Context.UserSetup | kern/modules/trap/src/arch/riscv/mod.rs:134-139 | sp and sepc set; sstatus has SUM, FS Initial, SPP User and SPIE, with SIE clear; all three interrupt sources enabled |
| Trap.Context.EnableInt | kern/modules/trap/src/arch/riscv/mod.rs:141-143 | sie enables software, timer and external interrupts; other registers unchanged |
| Trap.Context.DisableInt | kern/modules/trap/src/arch/riscv/mod.rs:145-147 | sie is 0, nothing enabled |
| Trap.Context.PcAdvance | kern/modules/trap/src/arch/riscv/mod.rs:149-156 | sepc moves on by the instruction length (wrapping), keeping 2-byte alignment |
| Trap.SystemCallReturn | kern/modules/trap/src/arch/riscv/mod.rs:113-156 | an `ecall` trap decodes to SystemCall and resumes 4 bytes on |

## Left out

- I/O and foreign code: the emulator process, signals, the YAML loader and the regex engine in
  scripts/python/judge.py. The regex search is a parameter, and timeout is a flag ending the line
  stream.
- Concurrency: locks, atomics and per-CPU queues. Every call is modelled as one atomic step, so
  OnceLock's INITIALIZING state is never seen from outside.
- Callbacks and hardware: `map`/`unmap`, the ELF loader closure, APEX services, the timer and
  `hal!` calls. They are parameters, or their arguments are logged.
- Closures: the closures of timed-event handlers, and the events `sched_next` creates, are not
  modelled.
- Removed panics: `unimplemented!`/`todo!` in `ApexReturnCode::from` and `set_mode` become
  unmodelled branches. `core::str::from_utf8` is modelled only as far as the UTF-8 well-formedness
  check.
- Where the model wraps `usize` arithmetic, it follows release builds; a debug build would panic
  instead.
- StackAlloc.StackAllocator.Allocate, StackAlloc.StackAllocator.Reserve: `next + size` and
  `va + size + guard_size` are unbounded `nat` sums, so a region that reaches past usize::MAX is
  not modelled.
- LinearAlloc.LinearAllocator.Allocate: `next_va + ele_size` is an unbounded `nat` sum.
- Interval.Events: `start + len` of a bound is an unbounded `nat` sum.
- StackAlloc.StackAllocator.constructor: `requires start >= guard` (rounded up to pages) excludes
  the underflow of `region.0 - guard_size`, which the source does not check.
- Machine.NextMultipleOf: the overflow panic of `next_multiple_of` is not modelled; the result is
  an unbounded `nat`.
- Bootargs.KeyValue: the source's `a.next().unwrap()` panics on an entry without '='. The model
  returns MissingValue.
- Bootargs.Charge, Bootargs.Account, Bootargs.Schedule: the scheduler's `panic!`s and its
  `find_by_name(..).unwrap()` become SchedError values: an invalid offset, an unknown partition,
  an overdrawn duration and a left-over duration. The entries arrive already parsed. The `unwrap`s
  on a missing key, a bad time or a bad `init` flag, and the inspector and process set-up, are not
  modelled.
- TimedEvent.TimedEvent.Invoke: `requires target != Pending` takes the place of the source's
  panic on a Pending target.
- Bootargs.ParseTimeFromProperUnit: the i64 overflow of value × unit factor is not modelled.
- Process::new is a parameter of ProcessCalls.Create. `Process::MAX_PRIORITY` is the parameter
  `maxPriority`.
- ProcessCalls.CreateCheck: a partition period of 0 is excluded by a precondition.
- Runtime.SortByOffset: an insertion sort, stable, stands for `sort_unstable_by_key`. On entries
  with equal offsets the model picks one order where the source's order is unspecified.
- Runtime.SchedTable.SchedNext requires a non-empty table. The source indexes the table and would
  panic on an empty one.
- The riscv32 target: only its Sv32 indexes are modelled. Its configuration constants are not.
- The general registers other than sp, and `syscall_num` and `run`, in the trap context.
- AllCalls.Handle: the nine services are one parameter, and the pointer checks inside them are not
  modelled per service. ErrorReturnCode's discriminants are taken to equal ApexReturnCode's.
- Judge.Of: the model title-cases ASCII letters only and resolves a class name exactly, after
  the leading spaces and tabs `eval` skips. These configurations, which `Pattern.of` accepts, are
  therefore InvalidPattern in the model. A `type` with non-ASCII letters that Python title-cases
  and NFKC-normalises to a class name (such as a full-width "ｏｒｄｅｒｅｄ") builds that pattern; so
  would any other expression `eval` evaluates to a pattern class. An empty or all-blank `type`
  evaluates to the base `Pattern`, whose `apply` returns None, so the first line judged raises
  TypeError. A `vals` that is a string or another non-list iterable builds one child
  per element (per character for a string). A `count` that is not an integer is accepted when the
  pattern is built, and a float such as 2.0 counts down like an integer.
- Judge.UnorderedStep: judge.py iterates the waiting children as a `set`, so the order in which
  their captures are concatenated is unspecified. The model concatenates them in the order of
  `vals`.
- Interval.ExclusiveIntervals.constructor: `requires 2 * |bounds| < INFINITY` stands for the
  `debug_assert!` on the number of events at kern/modules/util/src/interval.rs:40.
- FastPq.FastPriorityQueue.Enqueue: the `Priority` type admits levels up to MAX (63) only. It
  stands for the `debug_assert!` in `FastPriority::new` and for the panic of the out-of-range
  `queues[pri]` index (and the oversized shift) on a larger level.
- Trap.InstructionLength: instructions longer than 32 bits are taken as 4 bytes, as the source does.

## Findings

| source | as written | input that shows it | evidently intended | confidence | as-written member | corrected member |
|---|---|---|---|---|---|---|
| kern/modules/syscall/src/all.rs:89 | `ptr + len * size_of::<T>()` is computed in usize and wraps | ptr 0x1000, len 0xFFFF_FFFF_FFFF_F800, size 1: the wrapped end 0x800 passes | the whole slice [ptr, ptr + len × size) lies below usize::MAX/2 | medium, not executed | AllCalls.UptrTryCastArrayAsWritten, AllCalls.ArrayEndWraps | AllCalls.UptrTryCastArray, AllCalls.ArrayChecksAgree |
| kern/modules/loader/src/lib.rs:72-74 | the bss loop steps from fsize by whole pages, and the loader maps only the page of each call | segment at 0x10000 with fsize 0x800 and msize 0x2100: calls at 0x10800 and 0x11800, none on page 0x12000 | one call on every page the bss part touches | medium, not executed | Loader.BssCalls, Loader.BssTailPageMissed | Loader.PagedBssCalls, Loader.PagedBssCovers |
| kern/modules/stack-alloc/src/lib.rs:54 | the region test `va + size > end` leaves out the guard, but the stack's pages run to va + guard + size | region (0x10000, 0x1000) with guard 0x1000: `next` is 0xF000, allocate(0x2000) passes and maps 0x11000, past the end | va + guard + size ≤ region end | medium, not executed | StackAlloc.GuardOverrun, StackAlloc.GuardOverrunAllocation | StackAlloc.Fits, StackAlloc.FitsPagesInRegion |

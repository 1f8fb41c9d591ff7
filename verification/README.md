# YiOS kernel model

A Dafny model of the memory management, scheduling and context-switching core
of YiOS, an ARMv8 kernel for the Raspberry Pi 4, with proofs about whole
calls, whole runs and every reachable state.

`dafny verify dfyconfig.toml` checks all files.

## How the modules fit together

- `Bits`, `Pgtable`: the C mask idioms on unsigned words, and the index,
  chunking and descriptor macros written with those masks.
- `PageAlloc`: the bitmap allocator, and runs of requests by its two clients.
- `PageTable`: the specification of translation, which is the hardware walk
  of a four-level table (VMSAv8-64, 4 KB granule, 48-bit addresses; sections
  D5.2 and D5.3 of the Arm Architecture Reference Manual, ARM DDI 0487), and
  the invariant that the tables form a tree. Memory is a map from byte
  addresses to 64-bit words; a word that is absent reads as zero, so every
  finite content of memory is covered. A table is named by its level and its
  position, which makes the effect of one store on every walk a local matter.
- `Mapping`, `Mmu`, `Boot`: the relation between two states of the tables
  that a mapping call promises, the nested do-while loops of the builder
  proved against it, and the boot mapping.
- `Dump`: the page-table dump as a second reader of the same tables.
- `Sched`, `Fairness`: the scheduler as a state machine over tasks numbered
  by pid, and properties of its runs.
- `Lists`, `TaskSystem`, `KernelRun`: the intrusive lists, task structures at
  page addresses, the pid table and the run queue, updated in place, each
  operation proved to be a step of `Sched`, and whole runs of the two.
- `Preempt`: the preemption protocol at the grain at which interrupts strike
  inside the scheduler; fork and wake take effect at one point there.
- `ForkRace`: fork and wake interrupted half way by another fork or wake.
- `Context`, `Switching`: registers and stacks across interrupts and switches.
- `Threads`: the two of them under the task system; stacks are disjoint
  because their pages come from the allocator, and fork and schedule are steps
  of the register machine.
- `Memset`, `Printk`, `ReadBack`, `Printf`: the word-at-a-time fill, number
  formatting, what its text means to a reader, and the conversion loop on top.

## What the code does that its callers should know

- The builder's loops end on `addr != end`, so `CreatePgdMapping` asks for a
  non-empty page range inside 48 bits; its descent treats every non-zero
  entry as a table, so it asks that no block is in the way (`Clear`); and the
  early allocator does not report exhaustion, so it asks for as many free
  pages as `Need` counts, which is exactly how many are taken.
- A section written over an existing table leaves that table's page allocated
  and unreachable. A call loses exactly the pages of the tables it replaces,
  and none if and only if there is no such table (`NoPageLost`); mapping 2 MB
  page by page and then as a section is a case where one is lost
  (`SectionOverPages`), the boot mapping is none.
- `__create_pgd_mapping` of an empty range still writes a section when the
  address is 2 MB aligned (`CreateEmptyMapping`). At boot this happens when
  the text reaches the end of memory; so the boot map is exact if and only if
  the text leaves a page of memory free (`BootMapIsExact`).
- The last 1024 pages the allocator manages lie above installed memory
  (`InsideInstalledMemory` gives the exact bound).
- `walk_pud` steps from the start of its range instead of the current
  address, so a dump ends if and only if each described part lies inside one
  1 GB entry (`DumpEndsIff`); the dump of installed memory does.
- `list_add` of a node that is on the list already makes a cycle that never
  comes back to the head (`AddedOnce`), so waking a queued task hangs the
  next pick.
- `memset` writes nothing for lengths of 2^63 + 8 and more (`Memset`).
- `schedule()` returns with interrupts masked if and only if it picked its own
  caller, whatever ran before the return (`MaskedExactlyWithoutSwitch`); both
  cases occur (`BothPicksHappen`).
- Nothing keeps a fork from being preempted by another fork. The pid table
  stays a filled prefix with unique pids if and only if no fork stores between
  the two halves of another that stores later (`TableGoodIff`); two forks that
  both look before they store share a pid (`TwoForksOnePid`). A `list_add`
  interrupted by another loses a node unless it was complete
  (`ListAddKeepsBothIff`), and a tick inside the split of an odd count costs
  nothing (`TickInsideSplit`).
- A minus sign is not counted against the field width in `number`
  (`FieldWidth`).
- `do_fork` without a free pid keeps the page it took (`DoFork`).

## Model

| member | source | states |
|---|---|---|
| Pgtable.PmdAddrEnd | arch/arm64/include/asm/pgtable.h:22-25 | the mask arithmetic cuts a range at the end of the 2 MB entry of its first address, and nowhere else (likewise the 1 GB and 512 GB forms) |
| Pgtable.PudAddrEnd | arch/arm64/include/asm/pgtable.h:17-20 | the cut is at the end of the 1 GB entry or at the end of the range |
| Pgtable.PgdAddrEnd | arch/arm64/include/asm/pgtable.h:12-15 | the cut is at the end of the 512 GB entry or at the end of the range |
| Pgtable.PageAddr | arch/arm64/include/asm/pgtable.h:37-58 | the address mask of a descriptor yields bits 47..12, a page-aligned 48-bit address |
| Pgtable.SectDesc | arch/arm64/core/mmu.c:33-40 | the section descriptor has block type, the section's address and the same attributes as the page protection, all but the type bits |
| Pgtable.PageDesc | arch/arm64/include/asm/pgtable.h:63-63 | the page descriptor decodes to page type, its address and the attributes of prot |
| Pgtable.SectionAligned | arch/arm64/core/mmu.c:85-86 | the or-and-mask test holds exactly when all three values are 2 MB aligned |
| PageAlloc.PageAllocator.GetFreePage | mm/page_alloc.c:26-38 | returns and marks the lowest free page, or returns 0 and changes nothing exactly when none is free |
| PageAlloc.PageAllocator.FreePage | mm/page_alloc.c:40-43 | clears the mark of the page that holds the address, and no other |
| PageAlloc.OutstandingPagesDisjoint | mm/page_alloc.c:26-43 | over every run of requests and returns by page tables and tasks, outstanding pages are aligned, in the managed window and share no byte, and a refusal means that all pages are out |
| PageAlloc.LowestIsPacked | mm/page_alloc.c:30-35 | the lowest-first scan stops no further up than the number of pages in use |
| PageAlloc.InsideInstalledMemory | mm/page_alloc.c:30-33 | a page lies below installed memory exactly when its index is below NR_PAGES - 1024, so it does whenever fewer pages are held |
| PageTable.WalkInTree | arch/arm64/include/asm/pgtable.h:8-63 | in a well-formed tree the hardware walk of every address stops at the deepest table recorded for it |
| PageTable.OneParent | arch/arm64/core/mmu.c:48-121 | no table page hangs from two entries |
| PageTable.PageStore | arch/arm64/core/mmu.c:58-58 | writing one level 3 entry keeps the tree and changes the translation of its 4 KB only |
| PageTable.SectionStore | arch/arm64/core/mmu.c:33-40 | writing a section keeps the tree and changes the translation of its 2 MB only |
| PageTable.TableStore | arch/arm64/core/mmu.c:48-54 | hanging a fresh zeroed page below an empty entry keeps the tree and changes no translation |
| PageTable.EmptyTree | arch/arm64/core/mmu.c:220-220 | a zeroed root is a tree in which every walk faults |
| Mapping.BuiltCompose | arch/arm64/core/mmu.c:82-141 | mapping two ranges that meet at a 2 MB boundary one after the other is mapping their union, for translations, blocks, tables, memory and page accounts alike |
| Mapping.NeedSplit | arch/arm64/core/mmu.c:82-141 | the tables lacking for a range are those lacking for its parts, when the parts meet at an entry boundary of the loop |
| Mapping.NeedBound | arch/arm64/core/mmu.c:48-121 | a call lacks at most one table per 512 GB entry and per 1 GB entry it meets, plus two when phys and virt agree modulo 2 MB and blocks are allowed, otherwise one per 2 MB chunk |
| Mapping.NoPageLost | arch/arm64/core/mmu.c:85-87 | a call loses no page if and only if no section takes the place of a table |
| Mmu.AddressSpace.EarlyPgtableAlloc | arch/arm64/core/mmu.c:23-31 | the page was free and belonged to no table, is zeroed, and is the only one that comes into use; with no page free, address 0 is cleared and returned |
| Mmu.AddressSpace.EnsureTable | arch/arm64/core/mmu.c:48-54 | afterwards the entry leads to a table, which was there or is new in a page that was free; no translation changes |
| Mmu.AddressSpace.AllocInitPte | arch/arm64/core/mmu.c:42-63 | a range inside one 2 MB chunk is mapped page by page, at the cost of a page that was free exactly when the table was missing |
| Mmu.AddressSpace.MapChunk | arch/arm64/core/mmu.c:83-90 | a chunk is mapped by a section or by pages, with the same translation either way; a table that the section replaces is lost |
| Mmu.AddressSpace.AllocInitPmd | arch/arm64/core/mmu.c:65-95 | a range inside one 1 GB entry is mapped, everything else translates as before, and exactly the lacking tables are taken, from free pages |
| Mmu.AddressSpace.AllocInitPud | arch/arm64/core/mmu.c:97-122 | likewise inside one 512 GB entry |
| Mmu.AddressSpace.CreatePgdMapping | arch/arm64/core/mmu.c:123-142 | every address of the page-rounded range translates to the rounded physical address plus its offset with the requested attributes, every other address as before; the tables stay a tree of pages held from the allocator, only words in table pages change, exactly the lacking tables are taken, in pages that were free, all other pages stay in use or free as they were, and exactly the pages of replaced tables are lost |
| Mmu.AddressSpace.CreateEmptyMapping | arch/arm64/core/mmu.c:82-141 | called with an empty range at a 2 MB boundary, it maps the 2 MB there |
| Boot.BlocksRefinePages | arch/arm64/core/mmu.c:85-90 | building with sections and building with NO_BLOCK_MAPPINGS translate every address alike |
| Boot.SectionOverPages | arch/arm64/core/mmu.c:85-90 | a chunk mapped by pages and then by a section costs one page for ever |
| Boot.CreateIdenticalMapping | arch/arm64/core/mmu.c:144-159 | on cleared tables, the walk becomes the identity exactly on text and the rest of memory, for at most four pages that were free, all others staying as they were; a text that reaches the end of memory brings a section beyond it |
| Boot.CreateMmioMapping | arch/arm64/core/mmu.c:161-165 | adds the device window and nothing else, for at most one page that was free |
| Boot.PagingInit | arch/arm64/core/mmu.c:218-222 | for every text inside installed memory, five free pages suffice; the walk of every 48-bit address is exactly the boot map, and in descriptor bits: text is Normal memory, executable by the kernel and not writable, the rest of memory is writable Normal memory and the device window writable Device memory, both not executable, the access flag is set, and everything else faults; every page taken is still a table and was free before, and the pages in use are those in use before and the tables |
| Boot.BootMapRights | arch/arm64/include/asm/pgtable_prot.h:16-39 | the rights that the three protections give, in bits of the translation and not in their names |
| Boot.BootMapIsExact | arch/arm64/core/mmu.c:154-158 | the boot map covers exactly memory and devices if and only if the page-rounded end of text is below the end of memory |
| Boot.WriteXorExecute | arch/arm64/include/asm/pgtable_prot.h:16-39 | no address of the boot map is both writable and executable for the kernel |
| Dump.WalkPte | kernel/dump_pgtable.c:191-199 | reports one page after the other, each with the descriptor at which its walk stops |
| Dump.WalkPmd | kernel/dump_pgtable.c:201-216 | reports tile the range; each carries the descriptor at which the hardware walk of all its addresses stops |
| Dump.WalkPud | kernel/dump_pgtable.c:219-235 | the same, for a range inside one 1 GB entry |
| Dump.WalkPgd | kernel/dump_pgtable.c:237-255 | the same, when each described 512 GB part lies inside one 1 GB entry |
| Dump.DumpPgtable | kernel/dump_pgtable.c:266-270 | the dump of installed memory ends and reports where every walk of it stops |
| Dump.DumpEndsIff | kernel/dump_pgtable.c:219-255 | iterating the rounds of walk_pgd and walk_pud comes to an end if and only if each described part of the range lies inside one 1 GB entry |
| Dump.DumpOfTwoGigabytesDiverges | kernel/dump_pgtable.c:227-234 | the dump of the first 2 GB never ends once anything is mapped below 512 GB |
| Dump.ReportedOnce | kernel/dump_pgtable.c:191-255 | every address of a tiled range lies in exactly one report |
| Dump.SizeUnit | kernel/dump_pgtable.c:176-180 | the unit loop ends inside "KMGT" and the size it leaves is exact |
| Sched.BestIsFirst | kernel/sched_simple.c:41-49 | the scan returns the first task in queue order with the largest count |
| Sched.PickIsPositive | kernel/sched_simple.c:32-57 | on a non-empty queue a pick needs at most one reset, which happens exactly when all queued counts are 0, and returns a task with a positive count |
| Sched.StepInv | kernel/sched.c:61-117 | every fork, tick, schedule, block and wake keeps counts in range and the queue equal to the runnable tasks without init_task |
| Sched.ReachableInv | kernel/sched.c:61-126 | so in every state reachable from boot, with counts between 0 and DEF_COUNTER + 2 |
| Fairness.ForkConserves | kernel/fork.c:72-73 | fork splits a count without loss, odd or even, and of an odd one the child has one more |
| Fairness.RunCredit | kernel/sched_simple.c:24-66 | over a run without a reset the total falls by exactly the ticks that found a positive count |
| Fairness.SliceLasts | kernel/sched_simple.c:59-66 | a running task with c credits stays the current one through every run of fewer than c ticks, losing one for each, and no epoch ends |
| Fairness.SliceEnds | kernel/sched_simple.c:59-66 | of these ticks exactly the one that takes the last credit reaches the scheduler |
| Fairness.SpentTaskIsRescheduled | kernel/sched_simple.c:61-64 | a tick without credit reaches the scheduler at once |
| Fairness.NewestFirst | kernel/sched_simple.c:10-14 | a task just woken or forked is picked before others with the same count |
| Fairness.PositiveTaskRuns | kernel/sched_simple.c:32-66 | a queued task with a positive count runs within as many ticks as the others have credits, one more if the running one has none, and one more for each fork |
| Fairness.ExhaustedTaskRuns | kernel/sched_simple.c:32-66 | one with no count waits at most for the rest of the epoch and one further epoch |
| Fairness.EpochIsFair | kernel/sched_simple.c:24-66 | between consecutive resets a task still queued at the second that did not fork is charged exactly DEF_COUNTER + priority ticks, which is 27 |
| Fairness.ResetOnlyWhenSpent | kernel/sched_simple.c:51-54 | a reset happens only when every queued task has spent its slice |
| Lists.InsertKeepsRing | include/yios/list.h:25-32 | the four stores put a node into a well-formed ring between two neighbours |
| Lists.DeleteKeepsRing | include/yios/list.h:44-55 | deleting a node leaves the ring of the others well formed |
| Lists.AddedOnce | include/yios/list.h:25-37 | after list_add a walk of the list comes back to its head if and only if the node was not on it |
| Lists.ListHeads.ListAdd | include/yios/list.h:34-37 | the new node is first, the rest in order, links outside the ring untouched |
| Lists.ListHeads.ListAddTail | include/yios/list.h:39-42 | the new node is last |
| Lists.ListHeads.ListDel | include/yios/list.h:50-55 | the node is gone and poisoned, links outside the ring untouched |
| TaskSystem.RunQueue.Enqueue | kernel/sched_simple.c:10-14 | the node heads the queue and nr_running is its length |
| TaskSystem.RunQueue.Dequeue | kernel/sched_simple.c:4-8 | the node leaves the queue and nr_running is its length |
| TaskSystem.RunQueue.Scan | kernel/sched_simple.c:40-49 | one pass from -1000 finds the leader of the queue and its count |
| TaskSystem.TaskRing.SetLinks | include/yios/sched.h:69-75 | the new task is last on the ring of all tasks |
| TaskSystem.TaskRing.Refill | kernel/sched_simple.c:24-30 | every task but init_task gets DEF_COUNTER + priority |
| TaskSystem.Kernel.PickNextTask | kernel/sched_simple.c:32-57 | ends, after at most one reset, with the choice of the model; on an empty queue it changes nothing and returns whatever its variable held |
| TaskSystem.Kernel.TickHandlePeriodic | kernel/sched_simple.c:59-66 | is the tick of the machine, of which SliceLasts and SliceEnds say what it does over runs |
| TaskSystem.Kernel.Schedule | kernel/sched.c:61-82 | is the model's schedule, with rings, table and counters well formed |
| TaskSystem.Kernel.WakeUpProcess | kernel/sched.c:112-117 | is the model's wake |
| TaskSystem.Kernel.FindEmptyTask | kernel/fork.c:14-24 | finds the end of the filled prefix of the pid table, or -1 when it is full |
| TaskSystem.Kernel.DoFork | kernel/fork.c:54-85 | is the model's fork; the child's page is the lowest free one and its pid is its slot; both failures change no task, and a missing pid still costs the page |
| KernelRun.RunEvents | kernel/sched.c:47-126 | every run of the concrete kernel in which forks and wakes are not interrupted half way keeps its structures well formed and ends where the machine does, also when forks fail for want of a page |
| KernelRun.Inspect | kernel/fork.c:9-12 | in a valid kernel g_task is the ring in order, pids are slots, and exactly the runnable tasks without init_task are queued |
| KernelRun.PagingInitBeside | arch/arm64/core/mmu.c:218-222 | paging_init in any valid kernel takes only pages that no task has, and ends with the boot map |
| KernelRun.KernelMain | init/main.c:118-145 | boot with any number of forks before paging_init ends with tasks and tables from one allocator apart |
| KernelRun.ForkBeside | kernel/fork.c:54-85 | a fork beside page tables from the same allocator takes a page that is not theirs, and the tables stay valid |
| KernelRun.MapBeside | arch/arm64/core/mmu.c:123-142 | a mapping call beside tasks from the same allocator takes only pages that are not theirs, and the task system stays valid |
| KernelRun.AllServed | kernel/fork.c:59-61 | with a page for every fork, no event of a run is lost |
| Preempt.StepKeeps | kernel/sched.c:53-110 | every step of scheduler, interrupt entry and exit keeps the counting protocol, as do fork and wake taken as one step each |
| Preempt.BootProtocol | init/init_task.c:5-16 | the protocol holds at boot |
| Preempt.PreemptProtocol | kernel/sched.c:53-110 | in every state reachable by these steps the running task counts 0 outside and 1 inside the scheduler, suspended ones 1, new ones 0; no BUG message is printed and an interrupt inside the scheduler does not enter it again |
| Preempt.InterruptPreemptsIff | arch/arm64/core/entry.S:123-140 | one whole interrupt with n ticks preempts the running task if and only if need_resched was set before or its ticks used up the count; otherwise the task goes on with n credits less and nothing else changed |
| Preempt.PreemptedReturnsUnmasked | kernel/sched.c:97-110 | a task that an interrupt preempted goes on with interrupts unmasked, picked again or not |
| Preempt.BugIsPrinted | kernel/sched.c:53-59 | the message is printed exactly when the count at the entry of __schedule is not 1 |
| Preempt.MaskedExactlyWithoutSwitch | kernel/sched.c:78-85 | over the whole call, with any run of other tasks, ticks and interrupts before the return: schedule() comes back with interrupts masked if and only if it picked its caller |
| Preempt.BothPicksHappen | kernel/sched.c:61-93 | runs from boot to a call of schedule() that switches and to one that picks its caller |
| ForkRace.TableGoodIff | kernel/fork.c:63-78 | however the halves of forks interleave, the pid table ends as a filled prefix in ring order with unique pids if and only if no fork stores between the two halves of another that stores later |
| ForkRace.TwoForksOnePid | kernel/fork.c:63-78 | two forks that both look before either stores give two tasks one pid and one slot |
| ForkRace.KernelTableGood | kernel/fork.c:9-12 | the pid table of every valid kernel is such a prefix |
| ForkRace.ListAddKeepsBothIff | include/yios/list.h:25-37 | list_add interrupted after j of its stores by another on the same list keeps the other node if and only if it was complete |
| ForkRace.TickInsideSplit | kernel/fork.c:72-73 | a tick between the two lines is charged exactly for an even count |
| Context.Core.DoTrapEntry | arch/arm64/core/entry.S:30-54 | the stores build the frame of the specification |
| Context.Core.DoTrapExit | arch/arm64/core/entry.S:56-79 | the loads take back the frame of the specification |
| Context.TrapRoundTrip | arch/arm64/core/entry.S:30-79 | whatever happened to the registers, an intact frame gives back x0..x30, sp, elr and spsr |
| Context.Core.DoSwitch | arch/arm64/core/entry.S:219-240 | saves and loads the contexts of the specification |
| Context.SwitchLoads | arch/arm64/core/entry.S:219-240 | the incoming task has exactly the saved x19..x29, sp and lr, and is current |
| Switching.SwitchIsTransparent | arch/arm64/core/entry.S:219-240 | after any run of other tasks, with their interrupts, switches and forks, a switched-out task continues after its call with the same callee-saved registers, stack pointer and stack |
| Switching.PreemptedTaskReturns | arch/arm64/core/entry.S:123-140 | from trap_entry to the trap_exit of its frame, through any number of switches, further interrupts and other tasks, an interrupted task gets back exactly its x0..x30, sp, elr and spsr |
| Switching.NewThreadEnters | kernel/fork.c:34-52 | the first switch to a new kernel thread enters fn with arg on its own frame top, below a frame of zeros with the processor state for EL1h |
| Switching.StepKeeps | arch/arm64/core/entry.S:30-79 | interrupt entry and exit, switches, thread creation and compiled code keep the context and the live stack of every suspended task |
| Threads.PagesGiveLayout | kernel/fork.c:26-32 | tasks in different pages, and init_task below the boot stack, have disjoint stacks and contexts |
| Threads.KernelLayout | kernel/fork.c:9-32 | so in every valid kernel |
| Threads.BootThreads | arch/arm64/core/start.S:57-60 | at boot the machine runs init_task on the boot stack, with nobody suspended |
| Threads.ForkThread | kernel/fork.c:54-85 | do_fork creates its thread in a page apart from all tasks, which is a step of the register machine, or changes nothing |
| Threads.ScheduleThreads | kernel/sched.c:61-82 | __schedule switches to a task that is suspended in the register machine, or to nobody |
| Threads.OwnStepRuns | arch/arm64/core/entry.S:123-140 | what the running task does in between, interrupts included, leaves the two machines coupled |
| Memset.ByteMemory.Memset | arch/arm64/lib/memset.S:30-52 | for every 64-bit n below 2^63 + 8 exactly the n bytes at buf become the low byte of c; from there on none does |
| Memset.FillsAgree | arch/arm64/lib/memset.S:30-52 | the result is that of a byte-at-a-time fill |
| Memset.PageZeroed | arch/arm64/core/mmu.c:28-28 | zeroing a page byte by byte is zeroing its 512 words and no other |
| Printk.Number | kernel/printk.c:62-134 | the text is padding, sign, prefix, zeros and digits as specified, and null exactly for a base outside 2..36 |
| Printk.Convert | kernel/printk.c:100-105 | the digit buffer holds the digits of the magnitude, in at most 64 slots |
| Printk.NumberReadsBack | kernel/printk.c:100-105 | for every 64-bit value and base the digits read back as the magnitude |
| Printk.FormattedLength | kernel/printk.c:78-131 | the exact length of the text |
| Printk.FieldWidth | kernel/printk.c:80-131 | a wide enough field is filled exactly, with one more column for a minus sign |
| ReadBack.Anatomy | kernel/printk.c:62-134 | the text of every number is blanks, the sign its value and flags ask for, the prefix of its base, zeros, the digits of its magnitude without leading zeros in the case asked for, and blanks, with the blanks where the flags put them and of exactly this length |
| ReadBack.SignOccurs | kernel/printk.c:80-91 | a minus sign occurs exactly in the text of a negative value, a plus sign exactly where it is asked for |
| ReadBack.TextReadsBack | kernel/printk.c:62-134 | skipping blanks, taking a sign, skipping a prefix and reading digits gives back the value, for every word, base, width, precision and flag set |
| Printk.ScanNumber | kernel/printk.c:49-60 | the text behind the leading digits, and their value as an int, which is exact if and only if it is at most INT_MAX |
| Printk.ScanInvertsNumber | kernel/printk.c:49-134 | for 0..INT_MAX, scanning plain decimal output gives the number back and stops behind it |
| Printf.ScanFlags | kernel/printk.c:176-195 | the flags are exactly the flag characters in front, in any order |
| Printf.ScanPrecision | kernel/printk.c:208-218 | the precision behind a point, 0 for a point alone or a negative value |
| Printf.PutChar | kernel/printk.c:236-244 | the character in its field, on the left or on the right |
| Printf.PutString | kernel/printk.c:247-264 | the string cut to the precision, in its field |
| Printf.PutArg | kernel/printk.c:234-337 | each conversion prints the text that its character, length and flags mean |
| Printf.ConvertOne | kernel/printk.c:174-338 | one conversion is scanned whole and prints the text of its argument |
| Printf.MyPrintf | kernel/printk.c:151-342 | for every format of literal text and supported conversions the output is the literal text with the text of each argument in its place, and the result its length |
| Printf.IntegerAnatomy | kernel/printk.c:287-337 | what d, i, u, o, x and X print under every flag, width and precision, by the characters of the directive and the C value of the argument |
| Printf.IntegerReads | kernel/printk.c:287-337 | and their text reads back as that value |
| Printf.BareInteger | kernel/printk.c:287-337 | without flags, the digits of the C value in base 10, 8 or 16, and a minus sign |
| Printf.BarePointer | kernel/printk.c:278-285 | p prints at least 16 hexadecimal digits in capitals that read as the word |
| Printf.CharMeans | kernel/printk.c:236-244 | c prints the low byte, with blanks up to the width |
| Printf.StringMeans | kernel/printk.c:247-264 | s prints its string or <NULL>, up to the precision, with blanks up to the width |
| Printf.SizesMean | kernel/printk.c:195-218 | width and precision are the decimal numbers of the directive |
| Printf.PrintInteger | kernel/printk.c:151-342 | myprintf of a percent sign, a length and an integer conversion reads back in decimal, octal or hexadecimal as the C value |
| Printf.PrintPointer | kernel/printk.c:151-342 | and of a pointer as the word |

## Assumptions

- do_fork and wake_up_process are not preempted by another fork or wake, nor
  ticked inside the split of the count, in the runs of `Sched`, `Fairness`,
  `KernelRun`, `Preempt` and `Threads`; `ForkRace` says what happens otherwise.
- init_task never blocks; it is not on the queue that a blocked task leaves.
- tick_handle_periodic has no caller in the source; it is a step of the
  environment.
- Compiled code of the running task writes neither the saved context nor the
  live stack of a suspended task, keeps its stack pointer inside its stack,
  and leaves its own interrupt frame alone until it returns to it
  (`Switching.Works` and `BelowFrame`). There is room for an interrupt frame
  on the running stack (`Traps`).
- The root table, `init_task`, the head of the run queue and the boot stack
  lie below LOW_MEMORY, where the linker and the start-up code put them; the
  root table is page aligned, and `init_task` is below the boot stack.
- Words in memory are addressed by the byte address of their first byte, and
  the stores of `Context` are 8-byte aligned relative to each other.
- Table descriptors carry no hierarchical attributes; the builder writes none.
- Addresses do not wrap around at 2^64; the chunking macros are modelled with
  their wrap-around.

## Left out

- Mmu.AddressSpace.CreatePgdMapping: does not cover a range that meets an existing block partly, where the source takes the block for a table, nor one for which the free pages do not suffice, where it goes on with address 0.
- Mmu.AddressSpace.CreateEmptyMapping: does not cover address 0, addresses that are not 2 MB aligned, nor NO_BLOCK_MAPPINGS; there the loops of the source run through the whole address space.
- Dump.WalkPud: covers ranges inside one 1 GB entry, the only ones on which the loop ends.
- Printk.Number: does not model the undefined negation of the most negative value beyond its usual wrap-around.
- Printk.ScanNumber: models the undefined overflow of an int as its usual wrap-around.
- Sched.Schedule, TaskSystem.Kernel.Schedule: cover non-empty queues; on an empty one the source switches to an uninitialised pointer.
- TaskSystem.Kernel.WakeUpProcess: covers tasks that are off the queue; for the others see `Lists.AddedOnce`.
- rq->curr and nr_switches, which nothing reads.
- Printf.MyPrintf: does not cover %n, * and unknown conversions, arguments of the wrong kind, nor the size argument, which the source ignores.
- System registers, barriers, TLB maintenance and enabling of the MMU.
- UART, GPIO, timer and interrupt-controller drivers, exception decoding and early boot assembly, which set device and system registers.
- mem_init, and the text printed by the dump: they only print.
- Secondary cores, which are parked.

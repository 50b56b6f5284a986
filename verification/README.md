# A verified model of the TraitOS kernel core

This project models, in Dafny, the parts of the TraitOS x86_64 kernel where its logic is
hardest, and proves what they promise over all inputs and all runs:

- **Scheduler and blocking IPC** (`tasks.dfy`, `task_table.dfy`, `round_robin.dfy`, `ipc*.dfy`,
  `task_resources.dfy`, `task_counters.dfy`): the 32-slot task table with its priority round robin,
  the stacks and spaces its tasks own, and the mailbox and recursive mutex on top of
  `ttask_block`/`ttask_wake`. Each section with interrupts off is one atomic step; a run is any
  sequence of steps, interleaved with timer ticks, yields, exits, creations and priority changes.
  `Apply` is one step, `Exec` a run, `Trace` its events.
- **Physical frames** (`frames.dfy`, `frame_choice.dfy`, `frame_bitmap.dfy`): the bitmap allocator
  with its moving hint, single frames and contiguous runs, set up from any memory map.
- **Page tables** (`paging.dfy`, `paging_bits.dfy`, `spaces.dfy`, `space_runs.dfy`, `teardown.dfy`,
  `machine.dfy`): memory as pages of 512 words, address spaces as four-level trees whose tables come
  from that allocator. A ghost map `own` records which frame holds which table; `MachineOk` says
  that every table frame is in use, belongs to one place of one tree, and is linked there.
- **ELF loading** (`elf_parse.dfy`, `elf_format.dfy`, `elf_load.dfy`, `elf_image.dfy`,
  `elf_loader.dfy`, `elf_success.dfy`, `elf_access.dfy`, `phys_bytes.dfy`, `load_teardown.dfy`):
  from the bytes of a file to the bytes a program reads through its page tables, and back to free
  frames.
- **Kernel heap** (`heap*.dfy`): first fit with splitting, bump growth, a free list linked through
  block headers.
- **Ramfs** (`ramfs*.dfy`): path resolution and creation over a linked tree, removal of subtrees.
- **Shell tokenizer** (`shell*.dfy`): quoting, escaping and variable expansion, with its inverse.

Code that updates things in place is modelled in place: classes `TaskTable`, `WaitQueue`,
`MailboxRecord`, `MutexRecord`, `FrameBitmap`, `Ram`, `KernelHeap`, `FileTree` and `Tokenizer` carry
the kernel's arrays, rings, links and counters, and every method is proved to compute a function of
the old state. The theorems are about those functions. Widths are written out: `Wrap64`, `Inc32`,
`Dec32`, truncating casts as `%`.

Where a promise turns out not to hold for all inputs, the code is kept as it is and the exact
condition is proved, with an input that fails: contiguous allocation when the free frames at the
two ends of memory join, frame 0 and the failure value, memory map entries from 16 TiB up or ending
beyond 2^64, ranges that end in the last page, closed tables above a user page, program headers near
the end of the address range, segments of 4 GiB or more, segments that start inside a page, requests
that wrap in `tmalloc`, damaged block headers, file names of 64 characters or more, paths that end in
a slash, `.` or `..`, arguments of 128 characters or more, and a task that blocks while nobody else
is READY.

One comment in the kernel says something else than its code, and the model follows the code:
`ttask.c` describes a long slice for the idle task "when it is the only READY task", but
`ttask_slice_ticks` gives 32 ticks to priority 0 always.

All proofs are in the `.dfy` files; `dafny verify dfyconfig.toml` checks the project.

## Model

| member | source | states |
|---|---|---|
| `Tasks.PickIndexEx` | src/ttask_core.h:13-29 | The scanning loop returns the first slot, in cyclic order after the current one, of the highest eligible priority, or -1 when none is eligible |
| `Tasks.PickIsBest` | src/ttask_core.h:13-29 | The value of a full scan meets that declarative rule for every table, priority and excluded slot |
| `Tasks.PickIsUnique` | src/ttask_core.h:13-29 | The rule leaves no choice: two slots that meet it are the same |
| `Tasks.PickNextRule` | src/ttask.c:38-49 | `ttask_pick_next` returns the best READY slot, without the current one if its slice is used up, and the current one only if nothing is eligible |
| `Tasks.PickNextReady` | src/ttask.c:38-49 | If another slot is READY the picked slot is READY |
| `Tasks.BlockFallsBackIff` | src/ttask.c:232-253 | `ttask_block` takes its "nobody else runnable" way out if and only if no other task is READY |
| `Tasks.SliceIsPower` | src/ttask_core.h:49-55 | A slice is 32 ticks for priority 0 and otherwise 2 to the priority modulo 8, cut at 16; it doubles from priority 1 to 4 |
| `Tasks.BlockRunsBest` | src/ttask.c:232-253 | After a block the READY task of the highest priority among the others, the first in scan order, runs and the caller is BLOCKED; without one the caller goes on; no other record changes |
| `Tasks.ExitRunsBest` | src/ttask.c:269-276 | After an exit the same task runs, with a full slice, and no third record changes |
| `Tasks.BestOtherIsUnique` | src/ttask_core.h:13-29 | That rule leaves no choice |
| `Tasks.ExpiredYields` | src/ttask.c:38-49 | A task at the end of its slice gives way at the next tick to that task, whatever the priorities |
| `Tasks.TickSpends` | src/ttask.c:278-286 | A tick costs the running task one tick of slice, if any is left; a task switched in has a full one; no third record changes |
| `Tasks.CreateTakes` | src/ttask.c:129-162 | Creation takes the first FREE or EXITED slot for a task that starts from nothing with a full slice and owns what it was given; no other record changes |
| `Tasks.SetPrioritySets` | src/ttask.c:307-316 | A live task gets the priority and its full slice; a dead slot or an id out of range is left alone; nothing else changes |
| `Tasks.FirstReusable` | src/ttask.c:134-142 | Slot search of `ttask_create`: the first FREE or EXITED slot, all earlier ones being in use |
| `TaskTables.TaskTable.constructor` | src/ttask.c:74-85 | After `ttask_init` slot 0 is READY and current and every other slot is FREE |
| `TaskTables.TaskTable.PickNextSlot` | src/ttask.c:38-49 | Copying states and priorities and scanning gives the slot of the specification, changing nothing |
| `TaskTables.TaskTable.Switch` | src/ttask.c:51-72 | In-place switch to the task the rule picks (`PickNextRule`), with the slice of its priority (`SliceIsPower`) and the counters one up (`CountersExact`) |
| `TaskTables.TaskTable.OnTick` | src/ttask.c:278-286 | In-place tick: charge the running task, then switch |
| `TaskTables.TaskTable.BlockCurrent` | src/ttask.c:232-253 | In-place block, including the fallback, equals `Block` of the old table, and `BlockRunsBest` says who runs then |
| `TaskTables.TaskTable.WakeTask` | src/ttask.c:257-266 | In-place wake changes only a BLOCKED slot in range |
| `TaskTables.TaskTable.ExitCurrent` | src/ttask.c:269-276 | In-place exit equals `Exit` of the old table, and `ExitRunsBest` says who runs then |
| `TaskTables.TaskTable.CreateTask` | src/ttask.c:116-162 | In-place creation reuses the first FREE or EXITED slot, gives back the stack and the address space of a task that exited there, and undoes to FREE when no stack is available |
| `TaskTables.TaskTable.ChangePriority` | src/ttask.c:307-316 | In-place priority change equals `SetPriority` of the old table, and `SetPrioritySets` says what that sets |
| `RoundRobin.TierTick` | src/ttask.c:278-286 | With two or more READY tasks of the top priority, one tick moves the CPU to the next of them in slot order |
| `RoundRobin.TierEntered` | src/ttask.c:278-286 | From any running task one tick enters that top tier |
| `RoundRobin.CyclicTurns` | src/ttask.c:38-72 | After any number k of ticks the running slot is the k-th cyclic successor, whatever the slices are |
| `RoundRobin.EveryMthTick` | src/ttask.c:38-72 | Each of the m tasks of the tier runs on exactly every m-th tick |
| `RoundRobin.WithinSlice` | src/ttask.c:51-56 | A lone top task that was switched in keeps the CPU and loses one tick of slice per tick |
| `RoundRobin.OnePeriod` | src/ttask.c:278-286 | After exactly its slice another READY task gets one tick, then the lone top task is back with a full slice |
| `RoundRobin.DutyCycle` | src/ttask_core.h:49-55 | For ever: in every period of slice + 1 ticks the lone top task runs on all ticks but the last; `DutyNumbers` has the numbers |
| `RoundRobin.DutyNumbers` | src/ttask_core.h:38-55 | In numbers, for ever: a lone top task of priority 1, 2, 3 or 4 to 7 runs on 2 of 3, 4 of 5, 8 of 9 or 16 of 17 ticks, one of priority 0 on 32 of 33; from 8 on the priority counts modulo 8 |
| `RoundRobin.RaisedRunsNext` | src/ttask.c:278-316 | A READY task raised above all others is switched in by the next tick, with a full slice |
| `IpcObjects.RingPush` | src/tipc_core.h:102-109 | Writing slot (head + count) mod size appends to the ring's contents |
| `IpcObjects.RingPop` | src/tipc_core.h:111-119 | Advancing head removes the first element of the ring's contents |
| `IpcObjects.WaitQueue.Push` | src/tipc_core.h:58-65 | Appends an id to the queue's contents, or refuses when it holds 16 |
| `IpcObjects.WaitQueue.Pop` | src/tipc_core.h:67-75 | Removes and returns the oldest id, or `TIPC_NONE` when empty |
| `IpcObjects.MailboxRecord.SendOnce` | src/tipc.c:42-55 | One pass of the send loop on the rings and the task table is `SendStep` of their contents |
| `IpcObjects.MailboxRecord.RecvOnce` | src/tipc.c:67-80 | One pass of the receive loop is `RecvStep` |
| `IpcObjects.MutexRecord.LockOnce` | src/tipc.c:100-117 | One pass of the lock loop is `LockStep` |
| `IpcObjects.MutexRecord.Unlock` | src/tipc.c:121-141 | The unlock is `UnlockStep`, with the depth on 32 bits |
| `IpcSafety.StepKeepsInv` | src/tipc.c:33-141 | Every enabled step of send, receive, lock, unlock, tick, yield, exit, create or priority change keeps the invariant on queues, states, messages, mutexes and counters |
| `IpcSafety.Safety` | src/tipc.c:33-141 | The invariant holds after every legal run from power-on, with any number of mailboxes and mutexes |
| `IpcTheorems.BlockedIffQueuedOnce` | src/tipc.c:33-119 | In every reachable state a task is BLOCKED iff its id occurs exactly once over all wait queues, and otherwise it occurs in none |
| `IpcTheorems.NoLostWakeup` | src/tipc.c:33-82 | With waiting receivers, messages do not outnumber woken receivers yet to retry; the same for senders and free slots; with both queues non-empty at least 8 woken tasks are runnable |
| `IpcTheorems.MutexNeverStranded` | src/tipc.c:92-141 | A free mutex with waiters always has a READY waiter about to retry, and the owner never waits |
| `IpcTheorems.EveryPopWakes` | src/ttask.c:257-266 | Whenever a queue shrinks it lost its head, which was BLOCKED and is READY afterwards: no wake is dropped by the state test |
| `IpcTheorems.FallbackNeverTaken` | src/ttask.c:243-248 | In every run, a task that waits really parks |
| `IpcTheorems.BlocksMinusWakes` | src/ttask.c:239-264 | In every run the number of BLOCKED tasks is total_blocks minus total_wakes, modulo 2^32 |
| `IpcTheorems.ParkExactIff` | src/ttask.c:239-249 | A parking task keeps queue membership and states in agreement if and only if some other task is READY |
| `IpcTheorems.IdleAloneBreaks` | src/tipc.c:66-81 | Concrete failure: the idle task alone, receiving from an empty mailbox, stays READY and stays queued |
| `IpcRuns.ExactlyOnceFifo` | src/tipc.c:33-82 | Under every interleaving, messages delivered so far followed by the ring equal the messages accepted, in order, each stamped with its sender |
| `IpcRuns.MutexBalance` | src/tipc.c:92-141 | For every task id, successful locks minus unlocks equal its recursion depth if it owns the mutex and 0 otherwise, in every run of fewer than 2^32 steps |
| `IpcRuns.MutexBalanceWrapped` | src/tipc.c:107-138 | In runs of any length the same law holds modulo 2^32 |
| `IpcRuns.RecordedAreCallers` | src/tipc.c:50-53 | Every id recorded in an object comes from a task that called it |
| `IpcRuns.RefusalNeedsMany` | src/tipc.c:112-115 | A refused call means 16 other waiters, and one more id for a mutex, its owner |
| `IpcRuns.FewCallersNeverRefused` | src/tipc.c:92-119 | With at most 17 contenders a mutex never refuses, with at most 16 senders or receivers a mailbox never does |
| `IpcWaiters.WaitersFifo` | src/tipc_core.h:58-75 | In every run the tasks that joined a wait queue are, in order, those that left it and then those still in it |
| `IpcWaiters.LeavesIff` | src/tipc.c:42-141 | Somebody leaves a queue if and only if it is not empty and the call at its other end succeeded |
| `IpcWaiters.Outcomes` | src/tipc.c:33-141 | Which of success, waiting and refusal each call answers, by what it finds, null objects included |
| `TaskCounters.CountersExact` | src/ttask.c:51-286 | In every run each counter of every task is, on 32 bits, the number of ticks it ran, of times it was switched in, parked and woken since its slot was last taken |
| `TaskCounters.TotalsExact` | src/ttask.c:51-286 | In every run the global counters of switches, blocks and wakes are, on 32 bits, the number of times these happened |
| `TaskResources.Conserved` | src/ttask.c:116-200 | In every run, under every interleaving: the stacks (and the address spaces) tasks received are those they hold and those given back, counted with multiplicity; a FREE slot owns nothing |
| `TaskResources.NoSharedStack` | src/ttask.c:129-162 | In every run in which `tmalloc` hands out only stacks nobody holds, no two tasks hold the same stack |
| `TaskResources.NeverFromTheRunning` | src/ttask.c:116-148 | In every legal run the slot a creation takes, and whose stack it gives back, is not that of the running task |
| `Frames.ChoiceIsComplete` | src/tpmm.c:136-186 | The two-part scan finds a frame iff one is free in its range, wherever the hint is, and the frame found is free |
| `FrameChoice.ChoiceIsFirst` | src/tpmm.c:136-186 | The frame chosen is the lowest free one from the hint up, or without one the lowest at all |
| `FrameChoice.NextIsAbove` | src/tpmm.c:145-155 | After a frame was taken the next one taken is the lowest free one above it, as long as there is one |
| `FrameChoice.FreedIsNext` | src/tpmm.c:276-289 | A frame given back below the hint is the next one taken |
| `FrameChoice.FreedAboveWaits` | src/tpmm.c:276-289 | One given back from the hint up is taken once no frame between is free |
| `Frames.FrameZeroLooksLikeFailure` | src/tpmm.c:136-159 | Concrete input: with only frame 0 free the frame chosen is 0, whose address is the failure value |
| `Frames.ContigScanSound` | src/tpmm.c:189-226 | While frame 0 is reserved, a run found by the scan with the carried counter is wholly free and inside the range |
| `Frames.ContigScanComplete` | src/tpmm.c:189-226 | A failed search, wherever the hint is, means that no such run lies wholly at or above the hint, nor wholly below it |
| `Frames.ContigScanExact` | src/tpmm.c:189-226 | For every map, hint, cap and page count: the run found is wholly free and inside the range if and only if the free frames at the top of the range and those at its bottom do not join to make it up; when they do, the run named starts at the top |
| `FrameChoice.ContigIsFirst` | src/tpmm.c:189-274 | Unless the ends join, the run found is the lowest from the hint up, or without one the lowest below the hint, and there is none iff neither part has one |
| `Frames.ReservedNeverJoins` | src/tpmm.c:195-214 | With frame 0 reserved the ends never join |
| `Frames.CarriedCounterUnsound` | src/tpmm.c:195-214 | Concrete failure with frame 0 free: the run named ends beyond memory |
| `Frames.HandedWasFree` | src/tpmm.c:136-274 | Whatever any allocator hands out is in use after, and was free before unless a run was joined from two ends |
| `Frames.SecondHandout` | src/tpmm.c:136-289 | Over every history: between two hand-outs of a frame there is a free of it, unless the second is a run joined from two ends |
| `Frames.NoDoubleHandout` | src/tpmm.c:136-289 | Over every history in which frame 0 is reserved and never freed, between two hand-outs of a frame there is a free of it |
| `Frames.JoinedHandsTwice` | src/tpmm.c:195-225 | Concrete history with frame 0 free: a frame beyond memory is handed out twice without being freed |
| `Frames.RegionOpensWhatItCovers` | src/tpmm.c:108-123 | For every 64-bit entry: it opens exactly the whole frames it covers if and only if it is neither one from 16 TiB up whose truncated start opens something, nor one that covers memory and ends beyond 2^64 |
| `Frames.TruncatedRegion` | src/tpmm.c:113-115 | Concrete failure: one page at 16 TiB opens frame 0 |
| `FrameBitmaps.BitAfterSet` | src/tpmm.c:52-67 | Setting or clearing one bit of a bitmap word changes that frame's bit and no other |
| `FrameBitmaps.FrameBitmap.SetBit` | src/tpmm.c:52-56 | `bit_set` on the word array sets the bit of that frame and no other; frames past the bitmap are ignored |
| `FrameBitmaps.FrameBitmap.ClearBit` | src/tpmm.c:58-62 | `bit_clear` clears the bit of that frame and no other; frames past the bitmap are ignored |
| `FrameBitmaps.FrameBitmap.Alloc` | src/tpmm.c:136-159 | Takes the frame of the two-part scan, or changes nothing; the free count stays the number of clear bits; 0 is returned iff nothing is free or frame 0 is the one chosen, and iff nothing is free while frame 0 is reserved |
| `FrameBitmaps.FrameBitmap.AllocLow` | src/tpmm.c:163-186 | The same below 1 GiB |
| `FrameBitmaps.FrameBitmap.AllocContig` | src/tpmm.c:189-226 | For every map: marks exactly the run found, or returns 0 and changes nothing; the allocator is in order afterwards if and only if the ends of memory did not join; with frame 0 reserved 0 is returned iff nothing was found, and then neither part holds such a run |
| `FrameBitmaps.FrameBitmap.AllocLowContig` | src/tpmm.c:231-274 | The same below 1 GiB, with its bounds on the page count, also when the hint is above 1 GiB; the run ends beyond 1 GiB when the ends join |
| `FrameBitmaps.FrameBitmap.Free` | src/tpmm.c:276-289 | Frees the frame if it is in range and used, keeps the count exact and lowers the hint |
| `FrameBitmaps.FrameBitmap.ReserveRange` | src/tpmm.c:79-84 | Removes from the free set exactly the frames the byte range touches, their numbers cut to 32 bits |
| `FrameChoice.TouchedIff` | src/tpmm.c:79-84 | For a range that does not wrap: the frames touched are those that hold a byte of it; an empty one that starts inside a page touches that page |
| `FrameChoice.CutGoesRound` | src/tpmm.c:79-84 | For every range: cut to 32 bits its frames are those less than its length away from its start, counted round |
| `Frames.ReserveEndsIff` | src/tpmm.c:79-84 | The loop over a range comes to an end if and only if the range does not end in the last page of the 64-bit address space |
| `FrameBitmaps.FrameBitmap.ReleaseRange` | src/tpmm.c:321-337 | For every 64-bit range: frees the frames it touches, from the first number cut to 32 bits up to the end of memory, and ends |
| `FrameChoice.TotalIsTop` | src/tpmm.c:100-125 | Memory ends right after the highest frame some entry of the memory map opens, and has no frame iff none opens any |
| `FrameBitmaps.FrameBitmap.InitFrom` | src/tpmm.c:86-134 | From any memory map: free are the frames opened by its entries, minus the low megabyte and the kernel image; the count is exact and no clear bit lies past the end |
| `Paging.LeafEntryFields` | src/tvmm.c:212-212 | For every address and flag word the entry written is present, has exactly the write, user and no-execute bits of `flags`, and names the frame of `phys` joined bit by bit with the address bits of `flags`, of which a proper flag word has none |
| `Paging.LeafEntryBits` | src/tvmm.c:212-212 | Bit by bit, the frame in the entry is that of `phys` joined with the address bits of `flags` |
| `PagingBits.LeafBits` | src/tvmm.c:212-212 | Every bit of the entry written for a page: bits 12 to 51 of `phys`, the bits of `flags`, and PRESENT |
| `PagingBits.TableBits` | src/tvmm.c:53-54 | Every bit of the entry written for a table: its frame, PRESENT, WRITE, and USER iff asked for |
| `PagingBits.FlagBits` | src/tvmm.h:7-10 | PRESENT, WRITE, USER, page size and no-execute are bits 0, 1, 2, 7 and 63 |
| `PagingBits.FrameBits` | src/tvmm.c:19-19 | The frame number of an entry is its bits 12 to 51 |
| `PagingBits.IndexBits` | src/tvmm.c:9-17 | The four table indices are bits 39 to 47, 30 to 38, 21 to 29 and 12 to 20 of the address |
| `PagingBits.PhysIsPage` | src/tvmm.c:240-266 | Whatever the memory holds, huge pages included, the address found is that of a page below 2^52 |
| `Paging.LeavesUnshared` | src/tvmm.c:41-65 | No two pages, of one space or of two, share a last-level entry |
| `Paging.MapRefines` | src/tvmm.c:196-216 | On success mapping changes exactly one entry of the map from (space, page) to entries; on failure none; table frames stay distinct and in use |
| `Paging.UnmapRefines` | src/tvmm.c:218-236 | Unmapping clears exactly one entry of that map |
| `Paging.PhysIsLeaf` | src/tvmm.c:240-266 | `vmm_aspace_phys` answers the frame of the page's entry iff it is present in a user slot |
| `Paging.MapThenPhys` | src/tvmm.c:196-266 | After a successful map the page translates to that frame |
| `Paging.MapSucceedsIff` | src/tvmm.c:196-216 | Mapping succeeds if and only if the page lies in a user slot and there are at least as many free frames below 1 GiB as tables missing on its walk |
| `Spaces.CreateKeeps` | src/tvmm.c:76-98 | A new space maps nothing, shares the kernel slots, takes one free frame and changes no translation; a failed creation gives the frame back |
| `Spaces.CreateSucceedsIff` | src/tvmm.c:76-98 | A space is created if and only if there is a free low frame, the one the allocator chooses, and memory for its handle |
| `Spaces.LeafTestIsExact` | src/tvmm.c:149-164 | The access is allowed through all four levels iff the leaf grants it and every table above is open to user mode |
| `Spaces.MapKeepsTables` | src/tvmm.c:41-56 | Mapping keeps tables writable, and those of a space open to user mode while every mapping in that space carries the USER flag |
| `Spaces.RangeUserExact` | src/tvmm.c:166-185 | When the tables of this space are open, the check says yes iff the range is empty or lies in the user region with every byte accessible through all four levels |
| `Spaces.ClosedTableFoolsCheck` | src/tvmm.c:41-56 | Whenever a page is first mapped without USER and a USER page next to it afterwards, the check passes a page no user access can reach |
| `Spaces.RemappedFoolsCheck` | src/tvmm.c:41-56 | With three free low frames it can be done in any space: map a page of an empty slot without USER, then again with USER; both succeed |
| `Spaces.SmallMachineFooled` | src/tvmm.c:149-185 | Concrete machine on which this happens |
| `SpaceRuns.StepRefines` | src/tvmm.c:76-236 | Creating, mapping, unmapping and destroying, successful or refused, and any other use of memory and frames in between, are single updates of a plain table from (space, page) to entries |
| `SpaceRuns.HistoryRefines` | src/tvmm.c:76-236 | So is every history of them, over any number of spaces; tables stay writable, those of a space open while its mappings carry USER, and no table outlives its space |
| `SpaceRuns.TranslationIsTable` | src/tvmm.c:240-266 | After every history from boot, destructions and reuse of frames included, `vmm_aspace_phys` answers the last frame mapped at the page and not unmapped since |
| `SpaceRuns.CheckIsExact` | src/tvmm.c:149-185 | After every history from boot in which the mappings of this space carry USER, `vmm_range_user` says yes for it iff the range is empty or every byte is accessible through all four levels, whatever other spaces map |
| `Teardown.DestroyReleases` | src/tvmm.c:102-128 | For a space whose leaf frames are its own, whatever other spaces map: the frames freed are distinct, in use, all of this space, none of them a PDPT; the free set grows by exactly them |
| `Teardown.DestroySparesOthers` | src/tvmm.c:102-128 | No table of another space is freed, and a leaf frame of another space only if this space holds it too |
| `Teardown.DestroyIsComplete` | src/tvmm.c:102-128 | For every user page its PD, page table and leaf frame are among the frames freed |
| `Teardown.DestroyKeeps` | src/tvmm.c:114-128 | The remaining spaces stay in order and keep their tables |
| `PhysicalMachine.Ram.TableEnsure` | src/tvmm.c:41-56 | In-place: finds or wires a zeroed child table |
| `PhysicalMachine.Ram.TableLookup` | src/tvmm.c:59-65 | The child's frame if present; in an ordered machine it is a table of this tree |
| `PhysicalMachine.Ram.Map` | src/tvmm.c:196-216 | In-place mapping computes `MapPage` of the old machine, with the partial effects of a failure |
| `PhysicalMachine.Ram.Unmap` | src/tvmm.c:218-236 | In-place unmapping computes `UnmapPage` |
| `PhysicalMachine.Ram.Phys` | src/tvmm.c:240-266 | The walk computes `PhysOf` |
| `PhysicalMachine.Ram.PageGrants` | src/tvmm.c:149-164 | The walk computes `PageHas` |
| `PhysicalMachine.Ram.RangeIsUser` | src/tvmm.c:166-185 | The page loop computes `RangeUser` |
| `PhysicalMachine.Ram.Create` | src/tvmm.c:76-98 | In-place creation computes `CreateSpace`, both failures included |
| `PhysicalMachine.Ram.FreeTable` | src/tvmm.c:102-112 | The recursive loop frees exactly the sequence `FreedFrom`, in order |
| `PhysicalMachine.Ram.Destroy` | src/tvmm.c:114-128 | Frees `Freed` and nothing else, writes no table, and does nothing to the current space |
| `PhysBytes.SetByteAt` | src/telf.c:47-50 | Storing a byte through the physmap changes that byte of memory and no other |
| `PhysBytes.PutBytesAt` | src/telf.c:48-50 | A copy changes exactly its range, byte for byte |
| `ElfParse.HeadersExact` | src/telf_core.h:117-154 | For every file: the header loop accepts iff every header lies in the file and every PT_LOAD header passes its checks, and the plan lists exactly those, in order; it reads outside the file iff a header in the last 56 bytes of the address range follows good ones |
| `ElfParse.BoundCheckIff` | src/telf_core.h:119-121 | The bound check on a header keeps it inside the file if and only if its 64-bit sum does not wrap |
| `ElfParse.ParseOutsideIff` | src/telf_core.h:84-154 | Parsing reads outside the file if and only if the file header passes its checks and such a header is reached |
| `ElfParse.WildFileReadsOutside` | src/telf_core.h:119-122 | Concrete failure: a 64-byte file whose program header offset is 2^64 - 56 |
| `ElfParse.ParseElf` | src/telf_core.h:84-174 | The loops compute `Parse` for every file, with every error code in its order and an explicit result when bytes outside the file are read; `PlanIsFile` ties the plan to the bytes of the file |
| `ElfFormat.PlanIsFile` | src/telf_core.h:104-173 | For every accepted file: one plan entry for each PT_LOAD header, in file order; R, W and X are bits 2, 1 and 0 of its flags byte, address, offset and sizes its bytes at 16, 8, 32 and 40; the entry point is bytes 24 to 31 of the file |
| `ElfFormat.HeaderBytes` | src/telf_core.h:126-132 | Every field of a program header is the little-endian word at its place in the file |
| `ElfFormat.SegmentDescribes` | src/telf_core.h:145-152 | The segment of a header that lies in the file: its address uncut, offset and sizes the low 32 bits of theirs, R, W and X bits 2, 1 and 0 of the flags byte |
| `ElfFormat.HeaderPlaces` | src/telf_core.h:104-119 | Where the program headers are, by the bytes of the file header |
| `ElfFormat.EhdrAcceptsIff` | src/telf_core.h:87-115 | The file header passes if and only if its bytes are those of a 64-bit little-endian x86-64 executable with one to four program headers of at least 56 bytes |
| `ElfFormat.EhdrBlames` | src/telf_core.h:87-115 | When each error code is returned, by the bytes: all that is tested before is right, and this is wrong |
| `ElfFormat.HeaderRefusedFor` | src/telf_core.h:134-143 | A PT_LOAD header is refused for the first of: bytes not in the file, memory too small or past the address range, alignment no power of two or not agreed on |
| `ElfFormat.ParseVerdict` | src/telf_core.h:117-173 | The first bad program header, unless it is read past the end of the file, is blamed; without one a file is accepted iff it has a PT_LOAD header and no overlap, and each refusal has its code |
| `ElfParse.FindOverlap` | src/telf_core.h:159-169 | The nested loops report an overlap iff some pair overlaps |
| `ElfParse.NoOverlapNoSharedPage` | src/telf_core.h:159-169 | Segments that pass the test have no 4 KiB page in common |
| `ElfFormat.OverlapIsSharedPage` | src/telf_core.h:159-169 | The overlap test fires if and only if a 4 KiB page belongs to both segments, unless one is empty and starts on a page boundary |
| `ElfParse.ParseSound` | src/telf_core.h:84-174 | An accepted file gives segments whose page sets are pairwise disjoint, and they lie in the file and in their memory if and only if the sizes still fit on 32 bits |
| `ElfParse.PlanCoversIff` | src/telf_core.h:145-149 | The pages of the planned segment hold every byte the header asks for if and only if it asks for less than 4 GiB |
| `ElfParse.HeaderSound` | src/telf_core.h:134-149 | An accepted header gives a segment inside the file and inside its memory iff its sizes still fit on 32 bits; below 4 GiB the segment is the header uncut; `SegmentDescribes` has its fields and rights by the bytes |
| `ElfLoad.CopyStaysInsideIff` | src/telf.c:48-48 | The copy leaves every frame outside its run alone if it is no longer than the run, and otherwise writes the frame after it |
| `ElfLoad.TruncatedCopyOverruns` | src/telf_core.h:147-149 | Concrete failure: an accepted header with two pages of file bytes and 4 GiB + 16 bytes of memory gets one frame |
| `ElfLoad.LoadSegmentLoads` | src/telf.c:18-50 | A pass that succeeds leaves the segment's pages on consecutive data frames with its rights, holding its image |
| `ElfLoad.LoadSegmentOther` | src/telf.c:41-43 | A pass, successful or not, changes no entry of other spaces or of other pages |
| `ElfLoad.LoadSegmentKeepsData` | src/telf.c:31-50 | A pass writes no data frame that was in use before |
| `ElfLoad.TailUntouched` | src/telf.c:47-50 | Beyond its memory size the last page of a segment keeps what its frame held before |
| `ElfLoad.LowRunNone` | src/telf.c:31-33 | When no frames are found for a segment, no run of that length lies wholly above the hint, nor wholly below it |
| `ElfSuccess.FlagsOfBits` | src/telf.c:35-39 | The page flags of a segment bit by bit: USER, WRITE for W, no-execute without X, and nothing else |
| `ElfSuccess.LowRunIff` | src/tpmm.c:231-274 | A run of low frames is found if and only if it is not empty and there is one wholly above or wholly below the hint, and it is the lowest of those |
| `ElfSuccess.SegmentLoadsIff` | src/telf.c:18-43 | A pass returns OK if and only if the segment lies in the user region, none of its pages is mapped, a run of frames is found and every page gets mapped; otherwise it returns TELF_E_RANGE |
| `ElfSuccess.SegmentLoads` | src/telf.c:18-50 | With a run for its pages and three more low frames for each of them, a segment in the user region on free pages is loaded |
| `ElfLoad.LoadedKept` | src/telf.c:15-51 | A segment in place stays in place while later, page-disjoint segments are loaded |
| `ElfImage.LoadIsFaithful` | src/telf.c:8-53 | After a load that returns OK, reading any byte of any segment of the plan through the page tables gives the file byte or zero, with W and NX exactly as the plan says |
| `ElfAccess.LoadIsAccessible` | src/telf.c:35-43 | In a space whose tables are open, every byte of every segment loaded passes a user-mode access through all four levels: reads always, writes iff the plan says W |
| `ElfAccess.ProgramAccess` | src/tvmm.c:41-98 | So it is for a program loaded into a newly created space |
| `ElfAccess.ProgramIsFile` | src/telf.c:8-53 | In terms of the bytes of the file alone: at distance n from the address in a page-aligned PT_LOAD header the program reads the file byte at distance n from its offset, or zero; it may write iff bit 1 and execute iff bit 0 of the flags byte is set, through all four levels |
| `ElfImage.UnalignedIsShifted` | src/telf.c:21-50 | Every byte of a segment that starts inside a page: at vaddr + k stands the byte for k + vaddr mod 4096, and in the last vaddr mod 4096 bytes what the frame held before the load |
| `ElfImage.UnalignedHeader` | src/telf_core.h:134-143 | Concrete input: such a header is accepted |
| `ElfImage.PageBytes` | src/telf.c:8-53 | After a load every byte of every page of a segment is its image, or beyond it what the frame held before the load |
| `ElfImage.AllReadableIff` | src/telf.c:8-53 | For a header loaded into a fresh space: every byte it asks for can be read through the page tables if and only if it asks for less than 4 GiB |
| `ElfImage.DefensiveCheckNeverFires` | src/telf.c:27-29 | In a fresh space, for an accepted plan, the check against mapped pages never fires on a non-empty segment |
| `ElfImage.EmptySegmentRefused` | src/telf.c:22-33 | A segment of size 0 on a page boundary is always refused, changing nothing |
| `ElfImage.LoadLeavesOthersAlone` | src/telf.c:8-53 | A load, complete or broken off, changes no translation of another space and no data frame in use before |
| `ElfLoader.FindMapped` | src/telf.c:27-29 | The page loop finds a mapped page iff there is one |
| `ElfLoader.MapPages` | src/telf.c:41-43 | The mapping loop computes `MapRun`, stopping at the first failure |
| `ElfLoader.FillFrames` | src/telf.c:47-50 | Copy and clear compute `Filled` |
| `ElfLoader.LoadOne` | src/telf.c:15-51 | One pass of the loop computes `LoadSegment` in place |
| `ElfLoader.Load` | src/telf.c:8-53 | The whole loader computes `LoadFile` in place |
| `LoadTeardown.LoadHeld` | src/telf.c:8-53 | A load, complete or broken off, keeps the tree of its space such that every frame in it has one owner and is linked from its parent; what is no longer free is in that tree or lost, and only a mapping broken off loses frames: the rest of its run |
| `LoadTeardown.HeldIsFreed` | src/tvmm.c:102-128 | Every frame of such a tree but a PDPT is freed by its destruction |
| `LoadTeardown.LoadThenDestroy` | src/tvmm.c:76-128 | Creating a space, loading a program into it, successfully or not, and destroying it: the free set is the old one minus exactly the PDPT frames and the frames lost; a successful load loses none |
| `Heap.FirstFit` | src/tmalloc.c:84-104 | The place found is the first free block large enough; all before it are too small |
| `HeapTheorems.WantCovers` | src/tmalloc.c:77-79 | The rounded request covers the request if and only if it is at most 2^64 - 16; `WantIsLeast` bounds it from above |
| `HeapTheorems.WantIsLeast` | src/tmalloc.c:77-79 | It is the least multiple of 16, at least 16, that covers the request |
| `HeapTheorems.PagesAreLeast` | src/tmalloc.c:52-53 | A chunk is the least number of pages for the request and for 64 KiB |
| `HeapTheorems.HasFitIff` | src/tmalloc.c:84-104 | First fit succeeds iff some free block is large enough |
| `HeapSafety.TakeFitKeeps` | src/tmalloc.c:86-101 | Taking a free block, split or whole, keeps blocks disjoint and accounts exact |
| `HeapTheorems.TakeFitSplits` | src/tmalloc.c:86-101 | What is left of a block stays in its place in the list iff it can hold a header and 16 bytes; otherwise it goes with it, and less than 32 bytes are given up |
| `HeapSafety.GrowKeepsIff` | src/tmalloc.c:50-73 | A granted chunk keeps the heap in order if and only if it ends inside the address space |
| `HeapSafety.CarveKeeps` | src/tmalloc.c:114-119 | Carving from the bump region keeps blocks disjoint and accounts exact |
| `HeapTheorems.MallocKeepsIff` | src/tmalloc.c:75-122 | `tmalloc` keeps the heap in order if and only if a free block serves the request or neither the bump arithmetic nor the granted chunk runs past the address space |
| `HeapTheorems.MallocNullIff` | src/tmalloc.c:75-122 | NULL exactly when no free block fits, the bump region is too small, and growth is refused, wraps, or gives a chunk that has no room for its own first 16 bytes |
| `HeapTheorems.MallocWhere` | src/tmalloc.c:83-121 | A request is served from the first free block in list order that is large enough, without one at the bump pointer, and only without room there from a new chunk |
| `HeapTheorems.MallocGives` | src/tmalloc.c:75-122 | A returned block is new to its owner, disjoint from every block in use, leaves those alone, holds the request iff rounding did not wrap, and is less than 16 bytes larger unless it is the least block |
| `HeapTheorems.FreeKeepsIff` | src/tmalloc.c:124-139 | Freeing a block in use keeps the heap in order if and only if its magic word is gone or its size word is intact |
| `HeapTheorems.FreeThenMalloc` | src/tmalloc.c:83-139 | Freeing a block and asking again for its size gives the block back and restores the heap exactly |
| `HeapTheorems.HistoriesKeep` | src/tmalloc.c:50-139 | Every history of calls keeps the heap in order, and the waste never decreases |
| `HeapTheorems.HeapIsSafe` | src/tmalloc.c:50-139 | From boot, after any history: any two blocks are disjoint, aligned and inside the mapped heap |
| `HeapTheorems.HeapAccounts` | src/tmalloc.c:29-139 | From boot, after any history: no block is listed twice, each is free or in use; used_bytes and block_count exact; total_bytes = extents + bump remainder + waste |
| `HeapTheorems.RoundingWraps` | src/tmalloc.c:77-79 | Concrete failure: a request of 2^64 - 1 bytes gets 16 |
| `HeapTheorems.BumpWraps` | src/tmalloc.c:107-119 | Concrete failure: a request of 1 GiB is carved past the address space |
| `Heap.CountersSmall` | src/tmalloc.c:29-31 | The counters never come near their width |
| `KernelHeap.KernelHeap.ClientStore` | src/tmalloc.c:16-23 | Whatever the owner of a block writes into it, header included, the free list and the counters stay |
| `KernelHeap.KernelHeap.Walk` | src/tmalloc.c:84-104 | Following links through memory reaches the first fit, and the address of the link to it |
| `KernelHeap.KernelHeap.TakeAt` | src/tmalloc.c:86-101 | Unlinking, splitting and marking in memory computes `TakeFit`; the list in memory stays whole |
| `KernelHeap.KernelHeap.GrowHeap` | src/tmalloc.c:50-73 | Computes `Grow` |
| `KernelHeap.KernelHeap.Allocate` | src/tmalloc.c:75-122 | Computes `Malloc` for every size, and leaves a valid heap iff neither the bump arithmetic nor the growth ran past the address space; `MallocWhere` and `MallocGives` say what block that is |
| `KernelHeap.KernelHeap.Release` | src/tmalloc.c:124-139 | Computes `Free`; NULL and a block already on the free list change nothing |
| `Ramfs.AddKeepsIff` | src/tfs.c:189-201 | Linking in a node keeps the tree in order if and only if its name is proper and new among its siblings |
| `Ramfs.AddLinksIff` | src/tfs.c:189-201 | It keeps the links in order if and only if its name is proper |
| `Ramfs.Child` | src/tfs.c:50-56 | A child of that name, or 0 when there is none |
| `RamfsCreate.Resolve` | src/tfs.c:80-127 | Whatever the path, long segments included, missing directories are created so that the links stay in order, nothing moves, and a returned leaf name is free in a directory |
| `RamfsCreate.ResolveKeepsIff` | src/tfs.c:80-127 | Sibling names stay unique if and only if no directory created on the way has a name that, cut to 63 characters, is taken |
| `RamfsCreate.ShortNeverCollides` | src/tfs.c:58-70 | With segments under 64 characters that never happens |
| `RamfsCreate.ResolvedPathLeads` | src/tfs.c:80-127 | Once the leaf is found in its directory, the whole path, with its `.`, `..` and repeated slashes, leads to it |
| `RamfsCreate.LongPathLost` | src/tfs.c:129-159 | No path with a segment of 64 characters or more is ever found |
| `RamfsCreate.LookupExtends` | src/tfs.c:129-159 | Adding nodes that hide no older one changes no lookup that succeeded |
| `RamfsTheorems.MadeIsFoundIff` | src/tfs.c:161-187 | In every tree, also one with siblings of one name: a node that was created is new, and is found by the same path if and only if every segment has less than 64 characters |
| `RamfsTheorems.MakeKeepsIff` | src/tfs.c:161-187 | A creation, successful or not, keeps sibling names unique if and only if nothing collides on the way |
| `RamfsTheorems.MakeKeepsLookups` | src/tfs.c:161-187 | In every tree, if nothing collides, every path that led somewhere leads to the same node after a creation, successful or not |
| `RamfsTheorems.MakeExisting` | src/tfs.c:161-169 | A path that exists is not created again and nothing changes |
| `RamfsTheorems.MakeSucceedsIff` | src/tfs.c:80-187 | A node is returned if and only if the path ends in a name, not a slash, `.` or `..`, of less than 64 characters, missing in the directory the walk before it reaches, and memory is left |
| `RamfsTheorems.WalkLeads` | src/tfs.c:80-127 | The walk that creates missing directories reaches exactly the node the path leads to in the tree it leaves, and hides no older node |
| `RamfsTheorems.ImproperGivesNull` | src/tfs.c:80-126 | A path ending in a slash, `.` or `..` gives NULL, and the tree is the one in which all its names were created as directories |
| `RamfsTheorems.TouchMakesDirectory` | src/tfs.c:161-187 | Concrete inputs: `touch a/` and `mkdir a/.` create the directory `a` and return NULL |
| `RamfsNames.CanonicalFound` | src/tfs.c:129-159 | With unique sibling names every node is found by its canonical path |
| `RamfsNames.AllFoundIff` | src/tfs.c:129-159 | In every linked tree every node is found by its canonical path if and only if no two siblings have the same name |
| `RamfsPaths.SegmentsAreNames` | src/tfs.c:84-107 | However many slashes stand before, between and after them, the segments of a path are its names, and it ends in a name iff no slash follows |
| `RamfsPaths.DotIsHere` | src/tfs.c:95-98 | `.` changes nothing, wherever it stands |
| `RamfsPaths.DotDotUndoes` | src/tfs.c:99-103 | `..` after a name that was found leads back, wherever it stands |
| `RamfsPaths.DotDotIsParent` | src/tfs.c:129-159 | From a node other than the root `..` leads to its parent, and at the root it stays |
| `RamfsNames.OlderNodesFound` | src/tfs.c:129-187 | A creation changes no canonical path, and if nothing collides older nodes are found by theirs |
| `RamfsNames.LongNamesCollide` | src/tfs.c:58-127 | Concrete family, from boot: creating `s/x` for a name `s` of 64 characters or more succeeds and is not found; creating `s/y` then leaves two directories of one name |
| `RamfsRemove.FreedOnce` | src/tfs.c:222-234 | `free_children` frees no node twice |
| `RamfsRemove.FreedIsUnder` | src/tfs.c:222-234 | It frees exactly the nodes below |
| `RamfsRemove.RemoveKeeps` | src/tfs.c:236-252 | Removal keeps the links in order and takes away exactly one subtree |
| `RamfsRemove.RemovedAt` | src/tfs.c:236-252 | What stays keeps its name, kind, place and children, but for the node removed |
| `RamfsRemove.RemoveKeepsNames` | src/tfs.c:236-252 | Unique sibling names stay unique |
| `RamfsRemove.RemovedIsFreed` | src/tfs.c:236-252 | The nodes that leave the tree are the nodes freed, each once |
| `RamfsRemove.RemainingFound` | src/tfs.c:236-252 | Every other node is still found by its canonical path |
| `RamfsRemove.RemovedNotFound` | src/tfs.c:236-252 | No node of the removed subtree is found |
| `RamfsRemove.TreeIsSafe` | src/tfs.c:80-252 | After every history of creations and removals, any paths: an acyclic tree with matching links, in which every node is found iff sibling names are unique |
| `RamfsRemove.NamesStayUnique` | src/tfs.c:80-252 | Sibling names are unique after every history in which nothing collides |
| `RamfsRemove.ShortHistories` | src/tfs.c:58-127 | Nothing collides in a history whose path segments all have less than 64 characters |
| `RamfsObject.FileTree.FindChild` | src/tfs.c:50-56 | Following `next` links finds that child |
| `RamfsObject.FileTree.LookupPath` | src/tfs.c:129-159 | The cursor loops compute `Lookup` over the path's segments |
| `RamfsObject.FileTree.ResolveCreate` | src/tfs.c:80-127 | The loop with its in-place creations computes `Resolve`, for every path |
| `RamfsObject.FileTree.MakeNode` | src/tfs.c:161-177 | Computes `Make` on the linked records, for every path |
| `RamfsObject.FileTree.Unlink` | src/tfs.c:241-245 | The pointer-to-pointer loop takes exactly this node out of its list |
| `RamfsObject.FileTree.FreeChildren` | src/tfs.c:222-234 | The recursive loop frees exactly the records below, reading no freed record |
| `RamfsObject.FileTree.Remove` | src/tfs.c:236-252 | Computes `Removed`; NULL and the root are refused |
| `Shell.TokenizeInvertsQuoting` | src/tsh.c:163-205 | For any arguments and any environment, the line that escapes every character (`""` for an empty argument) tokenizes back to exactly those arguments |
| `Shell.EscapedReads` | src/tsh.c:180-199 | A run of escapes, up to a blank or the end, reads as its characters |
| `ShellWords.LineReads` | src/tsh.c:163-205 | Every line laid out from words of plain and escaped characters, variables, dollar signs and quotes, with any blanks and a comment, comes back as what its words mean |
| `ShellWords.EveryLineReads` | src/tsh.c:163-205 | There is no other line: every one is laid out so, and its arguments are what its words mean |
| `ShellWords.WordReads` | src/tsh.c:180-199 | Every such word reads as the meaning of its pieces and ends at a blank outside quotes or at the end of the line |
| `ShellWords.QuotedReadsPlain` | src/tsh.c:180-199 | What stands between double quotes reads as itself, blanks included, if it has no quote, backslash or dollar sign |
| `ShellWords.PlainReads` | src/tsh.c:180-199 | So does what stands outside them without a blank |
| `ShellWords.EnvGetIsValue` | src/tsh.c:28-34 | The value of a variable is that of the first entry with the key |
| `ShellWords.CharClasses` | src/tsh.c:141-147 | Blanks, first and further characters of a name by their ASCII codes |
| `ShellState.QuotedLine` | src/tsh.c:163-205 | For at most 8 arguments of at most 127 characters the quoted line is one the buffers can hold, and comes back argument by argument |
| `ShellState.Tokenizer.Append` | src/tsh.c:129-134 | Characters past the row are dropped but counted; the rest of the buffer is untouched |
| `ShellState.Tokenizer.ExpandVar` | src/tsh.c:138-161 | The expansion appends the value, or `$` when no name follows |
| `ShellState.Tokenizer.ReadToken` | src/tsh.c:176-201 | For every token: the buffer is the old one with the first 127 characters in the row and a terminator after the whole length, if that is inside the buffer, and nothing else changed; the cursor stops where the token ends; `WordReads` says what the token is |
| `ShellState.Tokenizer.Tokenize` | src/tsh.c:163-205 | For every line: either every terminator lands in the buffer, one row per argument is filled as said and their number returned, or it stops at the first that does not; `EveryLineReads` says what the arguments are |
| `ShellState.RowsIff` | src/tsh.c:129-202 | Each argument is found in its row as a C string, cut to 127 characters, whatever the buffer held before, if and only if every argument has less than 128 characters |
| `ShellState.EndInRowIff` | src/tsh.c:201-201 | A terminator stays in its row if and only if the argument has less than 128 characters |
| `ShellState.ExpandedOverruns` | src/tsh.c:138-201 | Concrete lines, with a variable of 64 characters: `$A$A` puts its terminator into the next row, and after seven arguments outside the buffer |
| `ShellState.Tokenizer.Lookup` | src/tsh.c:28-34 | The value of the first entry with the key, and whether there is one |

## Left out

- Tokenizer.Tokenize: what a terminator stored outside the buffer overwrites, and what happens after it.
- ParseElf: what the bytes outside the file are when they are read.
- Load: files whose parsing reads outside them, and plans whose file size exceeds the memory size on 32 bits; `ElfParse.ParseOutsideIff` and `ElfLoad.CopyStaysInsideIff` characterise both.
- Release: pointers that were never returned by `tmalloc`.
- DestroyReleases: spaces in whose own tree a leaf frame occurs twice, or is also a table; no space made by `telf_load` is one (`LoadTeardown.LoadHeld`).
- MutexBalance: stated for fewer than 2^32 steps, since the depth is a 32-bit counter; `MutexBalanceWrapped` has no bound.
- ReserveRange: ranges that end in the last page of the 64-bit address space, on which the loop never ends (`Frames.ReserveEndsIff`).
- PageGrants: the kernel slots; its only caller stays in the user region.
- Ram.Destroy: spaces as under DestroyReleases.
- CreateTask: names, entry points and the first stack frame.
- MallocNullIff: calls in which the bump arithmetic or a granted chunk passes the address space; `HeapTheorems.MallocKeepsIff` says that they break the heap.
- MallocGives: the same calls.
- MallocWhere: the same calls.
- ContigIsFirst: maps in which the free frames at the two ends of memory join; `Frames.ContigScanExact` says what happens then.
- ResolvedPathLeads: paths with a segment of 64 characters or more; `RamfsCreate.LongPathLost` says that they lead nowhere.
- GrowHeap: whether it obtains frames and mappings is a parameter; undoing a half-made chunk is not modelled.
- FreeChildren: the data buffers of files.
- Remove: likewise.
- The CR3 and TSS hand-off after a context switch, and user/kernel stacks.
- Task creation is one step; preemption between the state change and the stack set-up is not modelled.
- Slot 0, the idle task, neither blocks nor exits in a legal run, as the kernel uses it; `IpcTheorems.ParkExactIff` shows why.
- Kernel-half mappings (`vmm_map_page`, `vmm_unmap_page`, `vmm_kernel_phys`): same walks over slots every space shares.
- Decoding of Multiboot tags; the memory map is a sequence of entries.
- TLB flushes, interrupt flags, hardware registers and assembly.
- File contents (`tfs_write`), mounts, tar unpacking, procfs and sysfs generators.
- Filling and seeding the environment, command history.
- System call dispatch, security set-up, drivers, the shell's commands.

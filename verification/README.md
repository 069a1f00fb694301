# Zenix kernel: verified model of its stateful managers

This Dafny project models the parts of the Zenix kernel that keep state, and proves what they
promise over all inputs and all runs. Each manager is a class (or a group of methods) in the shape
of the C file it models. Its methods are proved against functions on values, and the theorems are
about those functions.

| Files | Models |
|---|---|
| `HeapLayout.dfy`, `HeapTheory.dfy`, `HeapWords.dfy`, `HeapRuns.dfy`, `Heap.dfy` | `kernel/mm/heap.c`: the first-fit allocator whose headers lie inside the words it manages, and what its clients see over whole runs |
| `AddressSpace.dfy`, `PageTables.dfy`, `Tlb.dfy` | `kernel/mm/paging.c`: directory and table pool, and the processor's translation cache beside them |
| `Terminal.dfy`, `Console.dfy` | `kernel/core/monitor.c`: the 25x80 console against a terminal that forgets nothing |
| `FrameSets.dfy`, `FrameBitmap.dfy` | `kernel/mm/pmm.c`: the frame bitmap against a set of used frames |
| `ProcessRows.dfy`, `Processes.dfy` | `kernel/proc/process.c`: process table, pids, and the heap blocks each process owns |
| `RoundRobin.dfy`, `Scheduler.dfy` | `kernel/proc/scheduler.c` and `kernel/drivers/timer/pit.c`: linked ready queue, rotation, timer |
| `Scancodes.dfy`, `Keyboard.dfy` | `kernel/drivers/keyboard/keyboard.c`: ring buffer under interrupts, scancode translation |
| `Paths.dfy`, `Vfs.dfy` | `kernel/fs/vfs_complete.c`: path walk and parent split |
| `Machine.dfy` | 32-bit words, wrap-around, page alignment |

`dafny verify dfyconfig.toml` checks the whole project.

## Conventions

* A `uint32_t` is the subset type `Word`; where the C code can wrap, the wrap is written out
  (`kmalloc`'s rounding, `pmm_init`'s memory size and addresses, the tick counter). Everywhere
  else, assigning to a `Word` proves that nothing wraps.
* A C string is the sequence of its characters before the terminating null.
* Callers' obligations are those the code itself relies on: `kfree` is given null or the payload
  address of a block in the list (used or already freed), `process_terminate` is given null or a
  process in the table, `process_init` runs on a heap with room for one record.
* The heap layout is a function of the live blocks alone (`HeapLayout.Canonical`). Order of
  frees, undoing an allocation and returning to the initial heap all follow from that one fact.
* In `FrameBitmap`, `|= 1 << k` and `&= ~(1 << k)` are written as adding or subtracting the mask
  when the bit has to change, and the bit test is on the binary expansion of the word.
* `vfs_create`, `vfs_mkdir` and `vfs_unlink` have the same body up to the callback they use, and
  are one method here.

## Where the code does less than a caller might expect

Each of these is stated as an exact condition.

* `kmalloc` hands out enough bytes, and at most 19 more, exactly for requests up to 0xFFFFFFFC; the
  three larger ones are rounded to 0 and succeed exactly when any block is free, however small
  (`HeapTheory.MallocExact`, `HeapTheory.MallocSuffices`, `HeapTheory.HugeRequest`,
  `HeapTheory.HugeRequestSucceeds`).
* A page mapped with `PAGE_USER` is reachable from user mode exactly when its 4 MiB region is new
  or was created for user mode (`AddressSpace.UserReachable`, `Tlb.FirstMappingDecides`). The tables
  of the first 16 MiB are created for the kernel at boot, so whatever is mapped and unmapped
  afterwards, with any flags, no virtual page below 16 MiB is ever reachable from user mode
  (`Tlb.BootStaysSealed`). Frames are not closed: mapped for user mode at a higher address, those
  below 16 MiB can be reached (`AddressSpace.FramesAreNotClosed`).
* `paging_map_page` has no effect exactly when its region needs a table and the pool is used up
  (`AddressSpace.MapTakesEffect`; one page in each of 256 regions does it,
  `AddressSpace.PoolRunsOut`), and leaves every coherent translation cache coherent exactly
  when the page was not present or is mapped as it already was (`Tlb.MapCoherentIffCareful`).
* Boot keeps the kernel and the bitmap out of the free frames exactly when the kernel ends
  at least 132 KiB below 4 GiB (`FrameSets.KernelReserved`); a result 0 of `pmm_alloc_page` is also
  what it returns for frame 0 when that frame is free (`FrameSets.ZeroMeansExhausted`).
* The console keeps the text colour exactly for 7-bit characters or the colour 0xFF
  (`Terminal.ColourKept`), and backspace undoes a character exactly when it did not end a row
  (`Terminal.BackspaceUndoes`).
* A time slice is ten ticks except where the tick counter wraps, where it is six
  (`RoundRobin.SliceLength`).
* At most 63 calls of `process_create` ever succeed, because pids are not given back: once they are
  used up it fails for good, however many slots are empty (`ProcessRows.CreationsBounded`,
  `ProcessRows.NoMoreProcesses`), and from any state with room for a process they can be used up
  with the table as it was (`ProcessRows.PidsUsedUp`, `ProcessRows.SlotsWithoutPids`).
* Names joined by slashes come out of the path again exactly when none exceeds 127 characters, the
  first is not empty or the path starts with a slash, and the last is not empty or the path ends
  with one (`Paths.ComponentsOfJoin`, which gives the condition for each of the four forms); a path
  that starts with an empty name loses it (`Paths.LeadingNameLost`).
* `vfs_create`, `vfs_mkdir` and `vfs_unlink` act on the node the whole path resolves to exactly
  under `Paths.SplitSafe`, for bare names, paths that end in a name and paths that end in a slash
  (`Paths.SplitAgrees`, `Vfs.ParentAgrees`, `Vfs.ParentAgreesOnlyIfSafe`).

## Model

| member | source | states |
|---|---|---|
| HeapLayout.Canonical | kernel/mm/heap.c:68-98 | two heaps with no gap, no overlap and no two adjacent free blocks that have the same live blocks are block for block the same |
| HeapLayout.FirstFit | kernel/mm/heap.c:41-63 | the block found is free and large enough, and no earlier one is |
| HeapLayout.CarveWellFormed | kernel/mm/heap.c:44-57 | taking a block, split or not, keeps the heap tiled and coalesced |
| HeapLayout.CarveLive | kernel/mm/heap.c:44-57 | taking a block adds exactly one live block and disturbs no other |
| HeapLayout.ReleaseTiles | kernel/mm/heap.c:79-97 | merging in both directions leaves no gap and no overlap |
| HeapLayout.ReleaseCoalesced | kernel/mm/heap.c:79-97 | after a free, no two neighbours are both free |
| HeapLayout.ReleaseLive | kernel/mm/heap.c:79-97 | a free removes exactly the freed block from the live ones |
| HeapLayout.StepsRelease | kernel/mm/heap.c:79-97 | merging with the next block and then with the previous one yields one free block over the whole run |
| HeapTheory.MallocEffect | kernel/mm/heap.c:33-66 | a failed call changes nothing; a successful one adds one new live block of the rounded size and at most 16 bytes more |
| HeapTheory.FreeEffect | kernel/mm/heap.c:68-98 | the live blocks afterwards are those whose payload does not start at the pointer, and the heap stays well formed |
| HeapTheory.MallocSizes | kernel/mm/heap.c:33-66 | seen as a map from pointers to sizes, the heap gains a key it did not have |
| HeapTheory.FreeSizes | kernel/mm/heap.c:68-98 | seen as that map, the heap loses the freed key and nothing else |
| HeapTheory.AllocatedInside | kernel/mm/heap.c:5-6 | allocated payloads lie inside the heap's address range |
| HeapTheory.FreesCommute | kernel/mm/heap.c:68-98 | two frees in either order reach the same layout |
| HeapTheory.FreeOrderIrrelevant | kernel/mm/heap.c:68-98 | a batch of frees reaches a layout that depends only on which pointers are freed |
| HeapTheory.FreeEverything | kernel/mm/heap.c:68-98 | once every live block is freed, in any order, the heap is the single initial free block |
| HeapTheory.FreeUndoesMalloc | kernel/mm/heap.c:33-98 | freeing what an allocation returned restores the layout from before it, split or not |
| HeapTheory.LiveDisjoint | kernel/mm/heap.c:46-59 | two live blocks do not overlap, headers included |
| HeapTheory.MallocComplete | kernel/mm/heap.c:41-65 | a nonzero request fails exactly when no stretch free of live blocks holds header and rounded size, and otherwise gets the lowest one |
| HeapTheory.MallocFails | kernel/mm/heap.c:34-36 | a request of 0 bytes gets null and changes nothing, and so does one that no block fits |
| HeapTheory.MallocExact | kernel/mm/heap.c:38-65 | for every nonzero request and the multiple of 4 it rounds up to: failure exactly when no gap holds it; otherwise a block at the lowest such gap, exactly that large if 20 bytes more would fit and else as large as the gap, so never more than 19 bytes over the request |
| HeapTheory.NodeRequest | kernel/mm/heap.c:38-59 | a request of 172 bytes on the fresh heap gets 172 bytes and puts the next header at 0x4000B8 |
| HeapTheory.MallocSuffices | kernel/mm/heap.c:38-39 | the block is as large as requested exactly when the rounding does not wrap |
| HeapTheory.HugeRequest | kernel/mm/heap.c:38-65 | a request whose rounding wraps succeeds exactly when any block is free |
| HeapTheory.HugeRequestSucceeds | kernel/mm/heap.c:38-59 | the largest request succeeds on the fresh heap with a block of no bytes |
| HeapTheory.RunWellFormed | kernel/mm/heap.c:33-98 | every run of allocations and frees keeps the tiling and the coalescing |
| HeapTheory.HistoryIrrelevant | kernel/mm/heap.c:33-98 | two runs from boot that leave the same blocks live leave the same heap |
| HeapTheory.SameSizesSameLayout | kernel/mm/heap.c:33-98 | the allocated pointers with their sizes determine the whole layout |
| HeapTheory.Conservation | kernel/mm/heap.c:100-106 | used bytes, free bytes and one header per block add up to the heap size |
| HeapWords.PayloadApart | kernel/mm/heap.c:8-12 | a payload word lies in no header and in no other block |
| HeapWords.CarveStored | kernel/mm/heap.c:46-56 | the words a split writes store exactly the split layout |
| HeapWords.JoinStored | kernel/mm/heap.c:82-97 | the two words a merge writes store exactly the merged layout |
| HeapRuns.PayloadPersists | kernel/mm/heap.c:33-98 | in every run of allocations, frees and client stores, a block that is live and not freed stays live, and each word of its payload holds what was last stored in it |
| Heap.KernelHeap.constructor | kernel/mm/heap.c:17-24 | from memory of any contents, a heap of one free block |
| Heap.KernelHeap.Search | kernel/mm/heap.c:41-63 | the list walk ends at the first block that fits, or at null when there is none |
| Heap.KernelHeap.KMalloc | kernel/mm/heap.c:33-66 | the words store the layout and the result is the pointer that the specification demands; no live payload word changes, which makes it a step of `HeapRuns` |
| Heap.KernelHeap.SplitBlock | kernel/mm/heap.c:45-57 | writes exactly the header words of a split, or only the used flag |
| Heap.KernelHeap.KFree | kernel/mm/heap.c:68-98 | the words store the specified layout for null, a used or an already freed block; no payload word changes, not even the freed block's |
| Heap.KernelHeap.Predecessor | kernel/mm/heap.c:88-92 | the second list walk ends at the block whose successor is the freed one, or at null for the first block |
| Heap.KernelHeap.Store | kernel/mm/heap.c:59 | a client's write to its own payload changes no header and no other payload |
| Heap.KernelHeap.HeapGetUsed | kernel/mm/heap.c:100-102 | the sum of the sizes of the used blocks |
| Heap.KernelHeap.HeapGetFree | kernel/mm/heap.c:104-106 | free payload plus one header for every block beyond the first |
| AddressSpace.OnlyThatPage | kernel/mm/paging.c:121-166 | mapping or unmapping a page changes no other page's translation |
| AddressSpace.MapTakesEffect | kernel/mm/paging.c:121-151 | corollary of the plain map: a mapping takes effect exactly when its region has a table or the pool has one left; otherwise nothing changes |
| AddressSpace.MapWalk | kernel/mm/paging.c:121-151 | frame and rights the processor sees after a mapping, bit by bit of the flags |
| AddressSpace.MapWithholds | kernel/mm/paging.c:146-150 | a mapping without the write bit is read-only and one without the user bit is not reachable from user mode |
| AddressSpace.PhysicalAfter | kernel/mm/paging.c:121-183 | every address of a mapped page is translated to its offset in the frame given, of an unmapped page to 0 |
| AddressSpace.UnmapUndoesMap | kernel/mm/paging.c:121-166 | unmapping a freshly mapped page restores all pages and keeps every region |
| AddressSpace.UserReachable | kernel/mm/paging.c:136-149 | corollary of the plain map: exact condition for a user mapping to be reachable from user mode |
| AddressSpace.BootCloses | kernel/mm/paging.c:97-102 | the boot mapping leaves the first 16 MiB with tables that withhold the user right |
| AddressSpace.KernelRegionsStayClosed | kernel/mm/paging.c:121-166 | every mapping with any flags and every unmapping keeps those tables closed, and no virtual page under them is reachable from user mode |
| AddressSpace.FramesAreNotClosed | kernel/mm/paging.c:121-151 | right after boot, a user mapping above 16 MiB of the heap's first frame is reachable from user mode |
| AddressSpace.PoolRunsOut | kernel/mm/paging.c:23-39 | after one page in each of 256 regions, no mapping in another region has any effect |
| AddressSpace.IdentityStep | kernel/mm/paging.c:100-102 | one round of the boot loop extends the identity mapping by one page |
| PageTables.SetEntry | kernel/mm/paging.c:146-150 | writing one table entry changes the meaning of one page, because present directory entries name distinct tables |
| PageTables.AddTable | kernel/mm/paging.c:128-141 | linking a cleared table adds its region, adds no page, and keeps entries distinct and counted |
| PageTables.PageTables.AllocPageTable | kernel/mm/paging.c:23-39 | hands out tables in order, cleared, and -1 once 256 are gone; other tables keep their entries |
| PageTables.PageTables.EnsureTable | kernel/mm/paging.c:125-144 | finds or links the table of a region without changing any page; an exhausted pool leaves everything as it was |
| PageTables.PageTables.MapPage | kernel/mm/paging.c:121-151 | the directory and the pool mean the plain map with the page set, removed when the present flag is missing, or unchanged when the pool is exhausted: a step of `Tlb` |
| PageTables.PageTables.UnmapPage | kernel/mm/paging.c:153-166 | the plain map without the page, and the processor's cached translation of it dropped: a step of `Tlb` |
| PageTables.PageTables.GetPhysical | kernel/mm/paging.c:168-183 | frame and offset of a mapped page, 0 for an unmapped one |
| PageTables.PageTables.constructor | kernel/mm/paging.c:89-95 | a cleared directory maps nothing |
| PageTables.PagingInit | kernel/mm/paging.c:75-119 | without a frame for the directory nothing happens; otherwise exactly the first 4096 pages are mapped, to themselves and for the kernel |
| Tlb.MapCoherentIffCareful | kernel/mm/paging.c:121-151 | mapping keeps every coherent cache coherent exactly when the page was not present or is mapped as before |
| Tlb.CarefulStep | kernel/mm/paging.c:121-166 | every careful step of the kernel and every step of the processor keeps a coherent cache coherent |
| Tlb.RunCoherent | kernel/mm/paging.c:121-166 | over every careful run with arbitrary caching and dropping, what is cached is what the tables say |
| Tlb.LastMappingWins | kernel/mm/paging.c:121-166 | after a page is mapped, carefully if it is cached, cache and tables translate it to the frame given until it is mapped or unmapped again, however carelessly other pages are mapped |
| Tlb.UnmappedStaysGone | kernel/mm/paging.c:153-166 | after a page is unmapped, neither cache nor tables translate it until it is mapped again, whatever else happens |
| Tlb.RegionRightFixed | kernel/mm/paging.c:128-144 | over every run, a region keeps the right its table was created with |
| Tlb.FirstMappingDecides | kernel/mm/paging.c:128-150 | in every run, a page mapped for user mode is reachable from it exactly if the first mapping in its region asked for that right |
| Tlb.SealedStep | kernel/mm/paging.c:121-166 | no mapping, unmapping, caching or dropping makes a virtual page below 16 MiB reachable from user mode by tables or cache |
| Tlb.BootStaysSealed | kernel/mm/paging.c:97-166 | from the boot mapping, over every run of these with any flags, careful or not, no virtual page below 16 MiB is reachable from user mode by tables or cache |
| Terminal.Cell | kernel/core/monitor.c:78 | the low byte of a cell is always its character |
| Terminal.ColourKept | kernel/core/monitor.c:78 | the high byte is the colour exactly for 7-bit characters or colour 0xFF, and 0xFF for other characters |
| Terminal.FeedConcat | kernel/core/monitor.c:90-94 | printing two strings in turn is printing their concatenation |
| Terminal.HistoryFrozen | kernel/core/monitor.c:33-46 | rows that have left the screen never change, so the scrollback stays right |
| Terminal.TextInOrder | kernel/core/monitor.c:77-85 | printable text fills consecutive cells from the cursor on, across row ends and scrolling, and disturbs no other cell |
| Terminal.BlankScreen | kernel/core/monitor.c:13-21 | a cleared terminal is 2000 blanks in the given colour with the cursor in the top left corner |
| Terminal.NewlineEffect | kernel/core/monitor.c:67-69 | a newline goes to column 0 of the next row and changes no cell |
| Terminal.TabEffect | kernel/core/monitor.c:75-85 | a tab goes to the next multiple of 4, from column 76 on to the next row, and changes no cell |
| Terminal.BackspaceEffect | kernel/core/monitor.c:70-74 | a backspace goes back by one and blanks the cell it comes to, and in column 0 does nothing |
| Terminal.RowAdded | kernel/core/monitor.c:33-46 | a row is added exactly when the cursor leaves the last one, and it is blank in the given colour |
| Terminal.BackspaceUndoes | kernel/core/monitor.c:70-80 | backspace takes back a character exactly when it did not end a row, leaving a blank |
| Terminal.DecimalDenotes | kernel/core/monitor.c:96-113 | the digits printed denote the number and do not start with a zero, except for the number 0, which is one digit |
| Console.Console.ClearScreen | kernel/core/monitor.c:13-21 | the console shows a blank terminal |
| Console.Console.SaveLineToScrollback | kernel/core/monitor.c:23-31 | appends the characters of the top row while there is room, and leaves the saved rows alone |
| Console.Console.ShiftUp | kernel/core/monitor.c:37-43 | rows move up by one, the last is blank |
| Console.Console.Scroll | kernel/core/monitor.c:33-46 | a cursor below the screen adds one row to the terminal; screen and scrollback still show it |
| Console.Console.PrintChar | kernel/core/monitor.c:66-88 | screen, cursor and scrollback show the terminal fed the same character: its last 25 rows and its first scrolled-off rows, at most 100 |
| Console.Console.PrintString | kernel/core/monitor.c:90-94 | the same for a string |
| Console.Console.PrintDec | kernel/core/monitor.c:96-113 | the same for the decimal digits of a number |
| Console.DigitBuffer | kernel/core/monitor.c:102-108 | the buffer holds the digits in reverse, and its 32 bytes are never exceeded |
| Console.Colour | kernel/core/monitor.c:122-124 | the two halves of the attribute are the low halves of the two colours |
| FrameSets.Frames.FirstFree | kernel/mm/pmm.c:23-30 | the lowest free frame at or above a given one |
| FrameSets.KernelReserved | kernel/mm/pmm.c:48-60 | exact condition, under 32-bit wrap-around, for the first free frame to lie above the kernel and the page-aligned bitmap behind it |
| FrameSets.FreeStartExact | kernel/mm/pmm.c:58-60 | the first free frame lies right behind the page-aligned bitmap, in 32-bit arithmetic |
| FrameSets.AllocLowest | kernel/mm/pmm.c:77-87 | the lowest free frame is taken and its address returned |
| FrameSets.FreeEffect | kernel/mm/pmm.c:89-102 | a free gives back the frame the address lies in, wherever in the frame it points, and no other |
| FrameSets.ZeroMeansExhausted | kernel/mm/pmm.c:77-87 | a result 0 means exhaustion exactly when frame 0 is used |
| FrameSets.StepAccounted | kernel/mm/pmm.c:77-102 | an allocated frame was neither held nor reserved, and used frames stay reserved plus held |
| FrameSets.Run | kernel/mm/pmm.c:77-102 | in every run of a client that frees what it holds, the used frames are the reserved and the held ones, without overlap |
| FrameSets.NothingLost | kernel/mm/pmm.c:77-102 | a client that holds nothing again has left memory as it found it |
| FrameSets.ZeroUnambiguous | kernel/mm/pmm.c:77-87 | with frame 0 reserved, 0 means exhaustion throughout every run |
| FrameBitmap.WithMaskBits | kernel/mm/pmm.c:11-13 | setting a bit of a word sets that bit and no other |
| FrameBitmap.WithoutMaskBits | kernel/mm/pmm.c:15-17 | clearing a bit of a word clears that bit and no other |
| FrameBitmap.OneBit | kernel/mm/pmm.c:11-21 | the same across the words of the bitmap |
| FrameBitmap.FrameAllocator.BitmapFindFree | kernel/mm/pmm.c:23-30 | the lowest free frame, -1 when there is none |
| FrameBitmap.FrameAllocator.constructor | kernel/mm/pmm.c:32-75 | memory size in 32 bits; a frame of memory is used exactly if its address lies below the end of the bitmap, in 32 bits; the count right, bits beyond memory set |
| FrameBitmap.FrameAllocator.AllocPage | kernel/mm/pmm.c:77-87 | the set of used frames gains the lowest free frame, whose address is returned; the count stays the number of set bits |
| FrameBitmap.FrameAllocator.FreePage | kernel/mm/pmm.c:89-102 | the set loses the frame of any address; a free or out-of-range frame changes nothing |
| ProcessRows.TerminateUndoesCreate | kernel/proc/process.c:37-50 | terminating a process right after creating it restores the heap layout |
| ProcessRows.CreatedPlaces | kernel/proc/process.c:37-50 | the record goes to the lowest gap of 120 bytes, then the stack to the lowest of 4096, and there is no room exactly when one of them is missing |
| ProcessRows.AddRow | kernel/proc/process.c:52-75 | a new process keeps pids distinct and blocks singly owned |
| ProcessRows.RemoveRow | kernel/proc/process.c:97-107 | a process leaves with its own blocks and no one else's |
| ProcessRows.SlotRemains | kernel/proc/process.c:32-75 | while pids remain, the search for an empty slot finds one |
| ProcessRows.CreateKeeps | kernel/proc/process.c:31-84 | a creation keeps the table sound and touches no allocation but its own two |
| ProcessRows.TerminateKeeps | kernel/proc/process.c:86-108 | a termination keeps the table sound and touches no allocation but the process's own |
| ProcessRows.NoLeak | kernel/proc/process.c:31-108 | over any sequence of creations and terminations with no other heap client, when the table holds again what it held at the start, the heap has the layout it had at the start |
| ProcessRows.CreationsBounded | kernel/proc/process.c:31-64 | in every run the successful creations are the pids given out, so never more than are left |
| ProcessRows.NoMoreProcesses | kernel/proc/process.c:32-35 | once the pids are used up, every creation fails in every run |
| ProcessRows.PidsUsedUp | kernel/proc/process.c:31-108 | from any state with room for a process, pairs of creation and termination use up all pids and change nothing else |
| ProcessRows.SlotsWithoutPids | kernel/proc/process.c:13-108 | from the state after boot, a run of 63 successful creations ends with 63 empty slots and no process can be created again |
| Processes.ProcessTable.constructor | kernel/proc/process.c:13-29 | the idle process has pid 0, runs, has no stack, and is alone in the table; on the fresh heap this is the state from which `ProcessRows` counts |
| Processes.ProcessTable.Create | kernel/proc/process.c:31-84 | fails exactly when the pids are used up or the heap has no room for record and stack, and then changes nothing; otherwise the first empty slot gets a process with the next pid: the step of `ProcessRows` |
| Processes.ProcessTable.Terminate | kernel/proc/process.c:86-108 | the process leaves the table and the heap gets back its stack and record; every other process keeps its blocks: the step of `ProcessRows` |
| RoundRobin.RotatesBy | kernel/proc/scheduler.c:54-89 | i calls rotate the ring of processes by i places |
| RoundRobin.ExactlyOnce | kernel/proc/scheduler.c:54-89 | each of n + 1 processes is current exactly once in n + 1 consecutive states, and the order repeats |
| RoundRobin.SwitchAfter | kernel/drivers/timer/pit.c:11-19 | nothing is rescheduled before the next switch, and one rotation happens at it |
| RoundRobin.TicksCounted | kernel/drivers/timer/pit.c:13 | after n ticks the counter is n more, in 32 bits |
| RoundRobin.TurnsInTicks | kernel/drivers/timer/pit.c:11-19 | after any number of ticks the ring has turned once for every multiple of ten the counter has reached, wraps included |
| RoundRobin.SliceLength | kernel/drivers/timer/pit.c:11-19 | a slice is ten ticks unless the counter wraps in it, and then six |
| RoundRobin.BoundedWait | kernel/drivers/timer/pit.c:11-19 | from any counter value, position k of the queue runs within 10 * (k + 1) ticks |
| RoundRobin.BoundedWaitWithArrivals | kernel/proc/scheduler.c:19-31 | whatever is enqueued between the ticks, position k of the queue still runs within 10 * (k + 1) ticks |
| Scheduler.Scheduler.Enqueue | kernel/proc/scheduler.c:19-31 | the linked list gains a process at its end; null changes nothing; a ready process added while another runs is an arrival of `RoundRobin` |
| Scheduler.Scheduler.Dequeue | kernel/proc/scheduler.c:34-48 | the linked list loses its first process, which is unlinked; empty gives null |
| Scheduler.Scheduler.FindIdle | kernel/proc/scheduler.c:63-70 | the first process of the table with pid 0, or null |
| Scheduler.Scheduler.IdleIsFirst | kernel/proc/scheduler.c:63-70 | the idle process is the first entry of the table with pid 0, and null when there is none |
| Scheduler.Scheduler.UpcomingChoice | kernel/proc/scheduler.c:57-79 | with processes waiting the first of them is next; with none a running process goes on, and one that does not run gives way to an entry with pid 0 if there is one |
| Scheduler.Scheduler.Schedule | kernel/proc/scheduler.c:54-89 | who runs next in every case, with the queue; with one process running and the others ready it stays so and the ring rotates |
| Scheduler.Scheduler.TurnsDiffer | kernel/proc/scheduler.c:54-89 | the processes that take turns are all different |
| Scheduler.Timer.TimerCallback | kernel/drivers/timer/pit.c:11-19 | one tick of the specified clock; the counter is one more, in 32 bits |
| Scancodes.CapsIsParity | kernel/drivers/keyboard/keyboard.c:45-48 | caps lock is on exactly after an odd number of presses |
| Scancodes.ShiftIsHeld | kernel/drivers/keyboard/keyboard.c:37-44 | shift is on exactly when a shift key was pressed and none released since |
| Scancodes.TypingKeys | kernel/drivers/keyboard/keyboard.c:15-61 | which scancodes type a character: no release, no modifier, no key without one |
| Scancodes.TypesUpper | kernel/drivers/keyboard/keyboard.c:54-59 | after any stream of scancodes a key types its upper character exactly when a shift key is held or caps lock was pressed an odd number of times |
| Scancodes.CapitalsExactly | kernel/drivers/keyboard/keyboard.c:15-59 | for a letter key that is the capital or the small letter |
| Keyboard.Push | kernel/drivers/keyboard/keyboard.c:61-67 | a character goes behind the pending ones and overwrites none |
| Keyboard.Keyboard.Handler | kernel/drivers/keyboard/keyboard.c:32-68 | for every scancode the typed character, if any, goes behind the pending ones unless 255 are pending, and the modifiers follow the key |
| Keyboard.Keyboard.GetChar | kernel/drivers/keyboard/keyboard.c:79-87 | returns and removes the oldest pending character, NUL when there is none |
| Keyboard.StepIsInterrupt | kernel/drivers/keyboard/keyboard.c:32-68 | an interrupt step of the interleavings does to the driver what the handler does |
| Keyboard.ReaderIsGetChar | kernel/drivers/keyboard/keyboard.c:79-87 | the reader's steps without interrupts do what `keyboard_getchar` does |
| Keyboard.StepInv | kernel/drivers/keyboard/keyboard.c:32-87 | any step of reader or interrupt keeps: accepted = delivered, in hand, pending, in order |
| Keyboard.DroppedOnlyWhenFull | kernel/drivers/keyboard/keyboard.c:62-66 | a character is dropped exactly when 255 accepted ones are still in the buffer |
| Keyboard.DeliveredInOrder | kernel/drivers/keyboard/keyboard.c:32-87 | in every interleaving the delivered characters are a prefix of the accepted ones, and of what was typed while nothing was dropped |
| Keyboard.NoNul | kernel/drivers/keyboard/keyboard.c:61 | no typed character is NUL |
| Keyboard.DeliveredNotNul | kernel/drivers/keyboard/keyboard.c:79-87 | in every interleaving no delivered character is NUL, so a NUL result is never a key |
| Keyboard.NulMeansEmpty | kernel/drivers/keyboard/keyboard.c:80-82 | the reader returns NUL exactly when the buffer was empty as it read the head, whatever arrives before the comparison |
| Keyboard.ReaderProgress | kernel/drivers/keyboard/keyboard.c:79-87 | six steps of the reader deliver the oldest pending character, whatever arrives between them |
| Paths.WalkName | kernel/fs/vfs_complete.c:72-80 | a name of at most 127 characters before a slash is one component |
| Paths.LongName | kernel/fs/vfs_complete.c:72-80 | a longer name is cut after 127 characters and the rest of it is the next component |
| Paths.WalkJoin | kernel/fs/vfs_complete.c:72-80 | exact condition for the loop, behind the skipped slash, to take joined names apart into the same names |
| Paths.WalkJoinSlash | kernel/fs/vfs_complete.c:72-80 | the same with a slash behind the last name |
| Paths.ComponentsOfJoin | kernel/fs/vfs_complete.c:64-80 | exact conditions for whole paths, one for each of the four forms with and without a slash at either end |
| Paths.LeadingNameLost | kernel/fs/vfs_complete.c:64-67 | the names "" and "a" join to a path whose only component is "a" |
| Paths.WalkChars | kernel/fs/vfs_complete.c:72-80 | the components one after the other are the path without its slashes: no other character is lost, changed or moved |
| Paths.WalkSlash | kernel/fs/vfs_complete.c:72-80 | what a slash separates, and the empty name a second slash adds |
| Paths.LastSlash | kernel/fs/vfs_complete.c:208-213 | a slash after which there is none, -1 for a path without one |
| Paths.SplitAgrees | kernel/fs/vfs_complete.c:224-240 | exact condition, for every path, for the directory's names and the name to be the components of the whole path |
| Vfs.NextComponent | kernel/fs/vfs_complete.c:72-80 | every round consumes input and yields the next component |
| Vfs.ResolvePath | kernel/fs/vfs_complete.c:51-94 | the node reached by looking up the components in turn from the root, or none at the first failure |
| Vfs.FindLastSlash | kernel/fs/vfs_complete.c:208-213 | the scan finds the last slash |
| Vfs.CopyDirectory | kernel/fs/vfs_complete.c:223-231 | the buffer holds what is before the last slash, at most its first 255 characters |
| Vfs.Operate | kernel/fs/vfs_complete.c:205-241 | the callback gets what is behind the last slash and the node that at most 255 characters before it resolve to, or the root and the whole path; it is called exactly if that node exists and has it |
| Vfs.ResolveFollows | kernel/fs/vfs_complete.c:71-92 | a chain of finddir callbacks along the components from the root gives the result |
| Vfs.ResolveOnlyFollows | kernel/fs/vfs_complete.c:51-94 | every result is the end of such a chain |
| Vfs.ResolveStops | kernel/fs/vfs_complete.c:82-91 | a node on the way without finddir, or without the next name, gives no result |
| Vfs.ResolveJoined | kernel/fs/vfs_complete.c:51-94 | resolving joined names of at most 127 characters equals folding the lookups over them, in each of the four forms under its condition |
| Vfs.ParentAgrees | kernel/fs/vfs_complete.c:205-241 | for any operation and any safely split path, the whole path resolves to what the directory and name passed to the callback name, and to nothing when there is no directory |
| Vfs.ParentAgreesOnlyIfSafe | kernel/fs/vfs_complete.c:205-241 | where every lookup succeeds, callback and whole path agree, for any operation and any path, exactly if the path is safely split |

## Left out

- Processes.ProcessTable.Terminate: does not unlink the process from the ready queue, because the code does not either; the scheduler's round-robin results are for runs in which no queued process is terminated.
- Processes.ProcessTable.Create: does not model the process name, the saved registers, the creation time and the zeroing of the record; a record's fields are those of a Dafny object, its heap address is kept beside them.
- PageTables.PageTables.GetPhysical: cannot tell an unmapped page from physical address 0, as in the code.
- Tlb.RunCoherent: caches whole translations only; paging-structure caches, accessed and dirty bits and the global bit are not modelled.
- Admission of processes: nothing in the kernel enqueues a created process, and `scheduler_add` has no body; `Enqueue` is the admission step.
- `scheduler_tick`: replaced by `timer_callback` as the timer handler when the kernel starts.
- Context switch, `invlpg` and loading the directory: the switch is the assignment of the current process; `invlpg` drops the page from a ghost map.
- Heap and frame allocator are separate: nothing keeps `pmm_alloc_page` from returning frames of the heap's range, and no claim is made that they are disjoint.
- Attribute bits of page table entries other than present, rw, user and frame; `paging_switch_directory` and the page fault handler.
- `pmm_alloc_page` multiplies a signed page number; for addresses from 2 GiB on the model takes the usual 32-bit result.
- `scroll_up`, `scroll_down` and `print_hex`: plain message printing.
- The file descriptor table, `vfs_read`, `vfs_write`, `vfs_seek`, `vfs_readdir` and `vfs_stat`: dispatch to callbacks that are not part of this model.
- File system callbacks are pure functions of a node and a name during one call.
- The keyboard port read: the scancode is a parameter of the handler.
- Memory ordering and compiler caching of the ring indices: every step of the reader sees the current memory.
- Initial ramdisk, system calls, user mode, graphics, mouse, shell and applications.
- Log printing inside the managers.

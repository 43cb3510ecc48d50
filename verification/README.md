# MariobrOS, verified

A Dafny model of the hard parts of MariobrOS, a small x86 kernel, and proofs of what they keep over whole runs.
`dafny verify dfyconfig.toml` checks everything.

| part | files | main results |
|---|---|---|
| boundary-tag heap | `Memory`, `Sequences`, `HeapView`, `HeapOrder`, `HeapImage`, `Heap`, `HeapClient` | every run of allocations, frees and writes keeps the byte-level heap well formed and live buffers independent of each other; a request gets as much as it needs of the first block with room, and fails exactly for want of room, pages or frames, and then nothing changes; the order of the free list after every operation; a freed register block can still be read |
| frames and page directories | `Bitset`, `PageDir`, `Paging`, `AddressSpaces`, `MemoryRuns` | a private page's frame belongs to one page of one process; fork copies, and succeeds if and only if there are the frames and windows it needs; teardown frees exactly its own frames, and exactly when stale entries or a failed fork spoil that; over every run frames are conserved and processes isolated |
| processes | `Queue`, `Scheduling`, `ProcessTable`, `ProcessSteps`, `KernelRuns`, `Kernel`, `UserHeap` | every run keeps the family forest, the runqueues and the history of exits; what fork, wait, exit and run leave in every slot and register; no lost wakeup; fair selection; context switches are invisible |
| disk and files | `AtaPio`, `FileData`, `FileLaws`, `Directory`, `DirBlocks`, `FileTree`, `Descriptors` | word-exact transfers; a file behaves as an array of bytes, each found where the inode's bytes say; `rm_dir` ends and deletes exactly a subtree; descriptors survive resizing |
| loading | `Elf`, `Split` | which headers are accepted, and that every LOAD segment appears as file bytes and zeros through scattered pages; splitting is undone by joining |

How the model is built:

- The heap is real memory: an `array<Byte>` with little-endian words, on which the methods of `Heap.Heap` read and write
  headers, list pointers and end tags as `src/malloc.c` does. A ghost `View` says which blocks those bytes describe; the
  lemmas of `HeapImage` tie the two. The used bit of an end tag is not part of the invariant: `mem_free` leaves it stale.
- Page directories are two-level sequences of entries, physical memory is a sequence of pages, and the frame bitmap is an
  array of 32-bit words. A ghost map gives each used frame its owner.
- Runqueues are circular doubly linked lists of heap objects. The process table is a sequence, and `Kernel.Kernel` updates it,
  the processor's registers and the heap-pointer globals step by step. What an event does to the kernel is the relation
  `KernelRuns.Next` between two snapshots, whose only actor is the process running in the first; whole runs are sequences of such
  snapshots, and the theorems about them apply to the runs of `Kernel.Kernel.Run`.
- The disk is a sequence of bytes behind a drive that delivers or accepts one word at a time and must be asked for exactly
  as many as were announced.
- `throw` halts the kernel. The model returns an error (`Drive.ReadPio`, `Elf.CheckAndLoad`) or proves that the case does not
  occur where a method's precondition holds.
- Formats that others rely on are stated twice: as the code computes with them, and in bytes and plain numbers (`Memory.Value`,
  `FileData.LeadsTo`, `Directory.Holds`, `Elf.SegmentShown`); likewise the effects of fork, wait, exit and run on slots and registers
  (`ForkMeans`, `WaitMeans`, `ExitMeans`, `LaunchMeans` in `ProcessSteps` and `KernelRuns`). Lemmas show the two to agree.
- Sizes are mathematical integers, except where the source's width matters: block sizes wrap at 32 bits
  (`Heap.BlockSizeCovers`), sector counts at 16 bits (`AtaPio.AnnouncedExact`), link counts at 16 bits.

Where the source's documentation and its code disagree, the model follows the code:

- `src/syscall.h:53-58` promises 0 in `eax` to a caller of `wait` without children. Slots that are free count as children as
  long as they name the caller, so that init, and any process whose collected child's slot has not been reused, waits for ever
  instead (`InitAlwaysWaits`, `CollectedStillCounts`; exactly when 0 is returned: `WaitReturnsZero`).

## Model

| member | source | states |
|---|---|---|
| `Heap.BlockSizeCovers` | src/malloc.c:461-467 | the block size computed for a request covers both headers, the worst padding and the request if and only if the sum fits in 32 bits; then it is at most 8 + size + alignment, or the least size of a block |
| `Heap.WrapHappens` | src/malloc.c:461-467 | a request for which the computation wraps around and a block of 16 bytes is given for 4 GB |
| `Heap.CeilMultipleExact` | src/math.c:23-30 | the result is the least multiple of k that is not below n if and only if that multiple fits in 32 bits |
| `HeapView.FreeListExact` | src/malloc.c:178-225 | the list from `first_free_block` visits every free block exactly once, and nothing else |
| `HeapView.TilesExactly` | src/malloc.c:161-170 | every byte of the heap lies in exactly one block |
| `HeapView.LiveRangesDisjoint` | src/malloc.c:461-504 | the ranges of two live pointers share no byte |
| `HeapView.MergeKeeps` | src/malloc.c:263-273 | merging a block with both neighbours restores "no two adjacent free blocks" and keeps tiling, list and used blocks |
| `HeapView.ReleaseKeeps` | src/malloc.c:513-531 | after a free the heap is sound again, and all other used blocks are unchanged |
| `HeapView.TakeKeeps` | src/malloc.c:482-495 | splitting off a used block keeps the heap sound and the other used blocks unchanged |
| `HeapView.TakeSize` | src/malloc.c:482-495 | the request gets exactly what it needs, or the whole block if less than 16 bytes would be left |
| `HeapView.ExtendKeeps` | src/malloc.c:334-387 | growth adds free room at the end, merged with a free last block, and keeps the heap sound |
| `HeapOrder.UnlinkOrder` | src/malloc.c:208-225 | taking a block out leaves the others in the list, in their order |
| `HeapOrder.ReleaseOrder` | src/malloc.c:513-531 | after a free the block stands at the front of the list, unless it joined the free block before it, which keeps its place; a free block behind it is gone from the list; the others keep their order |
| `HeapOrder.TakeOrder` | src/malloc.c:482-495 | after an allocation the block is gone from the list, what is left of it stands at the front, the others keep their order |
| `HeapOrder.ExtendOrder` | src/malloc.c:334-387 | after growth the new block stands at the front, unless it joined a free last block, which keeps its place |
| `HeapImage.TagRoundTrip` | src/malloc.c:150-170 | size and used bit share a word without disturbing each other |
| `Heap.Heap.constructor` | src/malloc.c:390-403 | a new process heap is sound: one free block of one page |
| `Heap.Heap.Remove` | src/malloc.c:208-225 | exactly that block leaves the list, whatever its position, and only pointers inside free blocks are written |
| `Heap.Heap.InsertFront` | src/malloc.c:178-202 | the block becomes the head of the list |
| `Heap.Heap.SetBlock` | src/malloc.c:161-170 | head and end tag agree on the size; no other byte changes |
| `Heap.Heap.GetPrevBlock` | src/malloc.c:97-102 | the end tag leads to the block that ends here |
| `Heap.Heap.MergeWithNext` | src/malloc.c:232-257 | bytes and view agree after the merge |
| `Heap.Heap.MergeAround` | src/malloc.c:263-273 | bytes and view agree after merging both ways, and the surviving block is returned |
| `Heap.Heap.FindHeader` | src/malloc.c:518-523 | the backward scan over zero padding stops at the header of the block that the pointer was allocated from, for every alignment |
| `Heap.Heap.MemFree` | src/malloc.c:513-532 | the block of the pointer is free, alone or merged, and stands where `ReleaseOrder` says in the list; all other used blocks stay, and only headers, list pointers and end tags of blocks not in use are written |
| `Heap.Heap.FindBlock` | src/malloc.c:468-471 | the first free block in list order that is large enough, or none is |
| `Heap.Heap.AllocPages` | src/malloc.c:334-387 | a free block at the end, by as few pages as complete the last block to the wanted size, if and only if those pages are unmapped and as many frames are free; the list, the size of the block and the mapping of the new pages, for user mode and writing, are exact; otherwise no change at all: same bytes, blocks, list, frames and present pages |
| `Heap.Heap.MemAllocAligned` | src/malloc.c:419-505 | NULL if and only if no free block is large enough and the heap cannot grow, and then nothing changes; otherwise the block is the first in list order that is large enough, or the one at the end that growth made; it is cut to what is needed, so that it is below max(size + alignment + 8, 16) + 16 bytes, and what is left leads the list; the result is aligned and its range lies between the headers of that block, every other live range keeps its block and bytes, and exactly the pages behind the old end are mapped |
| `HeapClient.Arena.Alloc` | src/malloc.c:419-505 | a fresh, aligned buffer of its own, in a block chosen and cut as for `MemAllocAligned`, all others unchanged; none if and only if there is no room and no growth |
| `HeapClient.Arena.Free` | src/malloc.c:513-532 | exactly one buffer disappears |
| `HeapClient.Arena.Load` | src/malloc.c:419-532 | what was stored in a buffer is read, whatever was allocated, freed or written elsewhere since |
| `HeapClient.Arena.Act` | src/malloc.c:419-532 | each request makes one new aligned buffer of its size, removes one, or changes one byte, and nothing else; an allocation without effect is one for which there is no room |
| `HeapClient.Arena.Run` | src/malloc.c:419-532 | every run is a sequence of such steps, the heap stays well formed, and a buffer neither freed nor written keeps place and bytes |
| `HeapClient.BufferStays` | src/malloc.c:419-532 | in every state of a run, a buffer that no request concerned has its place and bytes |
| `HeapClient.ReadAfterFrees` | src/syscall.c:262-270 | the word read from the freed register block is the one it held before that and all later frees |
| `Bitset.AssignHas` | src/bitset.c:27-35 | one member changes, no other bit of the packed words does |
| `Bitset.FullWord` | src/bitset.c:43-59 | a word has all its bits set if and only if it is 0xFFFFFFFF, so the test misses no clear bit and skips only full words |
| `Bitset.Bitset.SetBit` | src/bitset.c:27-35 | the packed words refine a set of numbers |
| `Bitset.Bitset.GetBit` | src/bitset.c:37-40 | membership |
| `Bitset.Bitset.FirstFalseBit` | src/bitset.c:43-59 | the least number missing from the set, or -1 if none is |
| `Bitset.Bitset.ParamFfb` | src/bitset.c:61-79 | the least missing number from `first` on if and only if no clear bit is skipped in the word after a run of full ones |
| `Bitset.SkipHappens` | src/bitset.c:61-79 | a set for which the search jumps over a clear bit |
| `PageDir.PhysicalAddressMeans` | src/paging.c:48-73 | nonzero exactly for mapped addresses: the top ten bits select the table, the next ten the entry, whose frame stands above the twelve bits of offset |
| `PageDir.Update` | src/paging.c:200-227 | writing one entry changes the translation of one page only, even when a table has to be made |
| `Paging.MapKeeps` | src/paging.c:84-128 | mapping a free frame keeps every frame with one owner |
| `Paging.UnmapKeeps` | src/paging.c:137-149 | unmapping a private page keeps it, too, and gives up exactly that frame |
| `Paging.WindowKeeps` | src/paging.c:267-284 | a temporary kernel mapping of any frame leaves ownership and all other directories as they are |
| `Paging.FramesPrivate` | src/paging.c:84-149 | two private pages with the same frame are the same page of the same process |
| `Paging.FramesAccounted` | src/paging.c:577-668 | used frames are exactly frame 0, the kernel's and base's, and the private ones of live directories |
| `Paging.Vm.constructor` | src/paging.c:470-529 | identity mapping below the end of the kernel, frame 0 reserved, base a copy of the kernel directory |
| `Paging.Vm.RequestVirtualSpace` | src/paging.c:252-265 | the least free frame for the page, if and only if the page is unmapped and a frame is free; no change otherwise |
| `Paging.Vm.ReleasePage` | src/paging.c:286-292 | exactly one frame becomes free |
| `Paging.Vm.FindUnmappedPage` | src/paging.c:236-248 | the first unmapped page from 1 on, 0 if there is none |
| `Paging.Vm.OpenWindow` | src/paging.c:267-284 | a kernel address with the offset of the physical one, if and only if some kernel page from 1 on is unmapped; no frame changes hands |
| `Paging.Vm.CloseWindow` | src/paging.c:286-292 | the window is gone, its frame still in use |
| `Paging.Vm.TakeFrame` | src/paging.c:609-616 | the least free frame is set aside; none if and only if all are owned or set aside |
| `Paging.Vm.RollBack` | src/malloc.c:301-310 | from any failure position, the present pages, the frames and their owners are those before the loop |
| `Paging.Vm.ExtendHeap` | src/malloc.c:283-328 | all pages, mapped for user mode and writing, if and only if none of them is mapped and there are frames enough; else none |
| `AddressSpaces.ForkConsistent` | src/paging.c:577-649 | adding the child with the frames taken for it keeps every frame with one owner |
| `AddressSpaces.CopyComplete` | src/paging.c:589-645 | after the loops the child maps the parent's pages with the same flags, base pages shared, the others with equal contents in other frames |
| `AddressSpaces.Machine.CopyPage` | src/paging.c:609-637 | if and only if a frame is free and two kernel pages are unmapped, the least free frame holds a copy of the source frame; no other frame's contents change, and both windows are closed; a frame taken without windows to fill it stays marked and is lost |
| `AddressSpaces.Machine.ForkPageDir` | src/paging.c:577-649 | the fork succeeds if and only if the parent has no page of its own, or there are as many free frames as it has own pages and two kernel pages for windows; then the child is a copy with frames of its own and no existing frame changes owner or contents; on failure at page k, exactly those frames of the parent are marked free that belong to its pages from k to the end of that table or to stale entries before, and one more frame is lost if and only if one was free and the windows were missing |
| `AddressSpaces.TakenCount` | src/paging.c:603-640 | at every page, the loops have taken one frame for each own page of the parent before it |
| `AddressSpaces.ForkedCould` | src/paging.c:603-649 | a fork that came to its end had the frames and windows it needs |
| `AddressSpaces.StuckCouldNot` | src/paging.c:609-637 | one that stopped had not, wherever it stopped; it loses a frame if and only if one was free and the windows were missing |
| `AddressSpaces.RobbedExact` | src/paging.c:586-601 | what the teardown of an unfinished fork releases: the frames taken for the child and those of the parent just named |
| `AddressSpaces.FailureRobs` | src/paging.c:586-601 | the frame of the own page at which a fork stops is among those marked free, and the parent goes on using it; by `ForkPageDir` there is such a page in every failed fork |
| `AddressSpaces.ForkFails` | src/paging.c:577-649 | a fork that fails: with 64 frames, the parent's page on the last of them, the page stays mapped and its frame is marked free |
| `AddressSpaces.Machine.FreePageDir` | src/paging.c:651-668 | the directory is gone and its own frames are free; the bitmap agrees with the owners again if and only if no unmapped entry named a frame of somebody else |
| `AddressSpaces.Machine.ReleaseFrames` | src/paging.c:655-665 | the bits cleared are exactly those of the frames that entries outside the base directory name, mapped or not |
| `AddressSpaces.TeardownExact` | src/paging.c:137-143 | among all used frames, those that teardown releases are exactly the ones of that process if and only if no unmapped entry names a frame of somebody else |
| `AddressSpaces.StaleHappens` | src/paging.c:137-149 | such an entry arises: after a page is given back and its frame goes to another process, in any consistent state |
| `AddressSpaces.Machine.NewPageDir` | src/paging.c:532-575 | base pages as in the base directory, plus code, stack and heap pages, for user mode and writing, each in a frame of its own, and the first heap page holds the new heap: if and only if those pages are different and none is in the base directory, 18 frames are free and a kernel page is unmapped |
| `AddressSpaces.FrameElsewhere` | src/paging.c:84-149 | no other page of any directory shows a private page's frame |
| `AddressSpaces.Machine.UserStore` | src/paging.c:48-73 | a store to a private page is seen by no other page of any process, parent and child included |
| `MemoryRuns.ValidConserves` | src/paging.c:577-668 | in every state the model reaches, the bitmap marks exactly frame 0 and the frames of kernel, base and live processes |
| `MemoryRuns.StaleIsForeign` | src/paging.c:137-143 | whether a teardown would free a frame of somebody else can be read off the directories and the bitmap |
| `MemoryRuns.DoFork` | src/paging.c:577-649 | a fork gives a copy, and no page of any process, parent included, changes; it fails exactly for want of frames or windows |
| `MemoryRuns.AllowedMeans` | src/paging.c:532-668 | which events a run carries out, in terms of directories and owners: all that make sense, but for a teardown that would free a frame of somebody else |
| `MemoryRuns.Run` | src/paging.c:532-668 | over every run of creations, forks, heap growths, stores and teardowns, each event does what it is for, and the directories and pages it does not concern stay; frames are conserved, and every page that is neither stored to by its process nor torn down with it keeps its frame and contents; the run ends early only at a creation or fork for which frames or windows are missing, and then this held up to that event |
| `Queue.Queue.Enqueue` | src/queue.c:19-36 | the circular list refines a FIFO sequence: one element at the back |
| `Queue.Queue.Dequeue` | src/queue.c:38-58 | the oldest element leaves |
| `Queue.Queue.IsEmpty` | src/queue.c:13-16 | true exactly for the empty sequence |
| `Scheduling.SearchQueue` | src/scheduler.c:29-49 | draining and restoring a queue only rotates it behind its first runnable process |
| `Scheduling.RunQueues.Remove` | src/syscall.c:250-260 | the queue without one process, order kept; the other queues untouched |
| `Scheduling.RunQueues.SelectNewProcess` | src/scheduler.c:20-54 | the process stands in its queue behind none that is runnable, and no queue of higher priority has a runnable one; it and those before it go to the back of that queue, the other queues stay; without any the current process goes on |
| `Scheduling.ChosenIsPicked` | src/scheduler.c:20-54 | the choice as the search makes it is this one, for all queues |
| `Scheduling.SelectAdvances` | src/scheduler.c:26-50 | if nothing of higher priority is runnable, a selection picks a runnable process or brings it forward in its queue |
| `KernelRuns.MovesIndex` | src/syscall.c:193-301 | forks, exits and waits push no process back in its runqueue |
| `KernelRuns.Fair` | src/scheduler.c:20-54 | in every run of the kernel in which a process stays runnable at index i of its queue with nothing of higher priority runnable, it gets the processor within i + 1 selections, whatever else comes, goes and changes |
| `ProcessTable.Forest` | src/syscall.c:279-301 | from every live process, parents lead to init or idle |
| `ProcessTable.BirthKeeps` | src/syscall.c:207-227 | a new process keeps family, runqueues and history |
| `ProcessTable.ReapedKeeps` | src/syscall.c:240-277 | collecting a Zombie keeps them, delivers the code it exited with, and records it as collected once |
| `ProcessTable.ExitStarts` | src/syscall.c:283-284 | becoming a Zombie keeps everything but what concerns its children and parent |
| `ProcessTable.Reparent` | src/syscall.c:287-294 | handing a child to init keeps the family |
| `ProcessTable.ExitEnds` | src/syscall.c:296-300 | with all children handed over and the parent not waiting, the whole invariant holds again |
| `ProcessTable.WaitKeeps` | src/syscall.c:303-327 | waiting without a Zombie child keeps it |
| `ProcessTable.ChosenRuns` | src/scheduler.c:20-54 | as long as idle is runnable, the selected process is runnable |
| `ProcessSteps.NoLostWakeup` | src/syscall.c:279-327 | no waiting process has a Zombie child |
| `ProcessSteps.QueuedOnce` | src/syscall.c:193-301 | a process stands in a runqueue if and only if its slot is in use, at one place of one queue, that of its priority |
| `KernelRuns.CollectedOnce` | src/syscall.c:240-327 | over a whole run, no process ever created is collected twice, however often its slot is used again |
| `ProcessSteps.ExitStep` | src/syscall.c:279-301 | an exit changes other processes only by handing children to init and by waking a waiting parent with pid and exit code |
| `ProcessSteps.WaitStep` | src/syscall.c:303-327 | a wait changes other processes only by collecting one Zombie child |
| `ProcessSteps.ForkIs` | src/syscall.c:193-232 | fork answers 0 if and only if no slot is free or the child would outrank its parent, and changes nothing else then; otherwise the first free slot is a copy whose eax is 2 and ebx the parent, with the given directory, the asked priority and the same heap pointers, the parent has 1 and the child's pid, and no other slot changes |
| `ProcessSteps.ReapedMeans` | src/syscall.c:240-277 | the parent runs on with 1 in eax, the child's pid in ebx and its exit code in ecx, all else of it unchanged; the child's slot is free; no other slot changes |
| `ProcessSteps.WaitIs` | src/syscall.c:303-327 | wait collects the Zombie child with the least pid as `ReapedMeans` says; without one it blocks if any slot names the caller, and otherwise answers 0; nothing else changes |
| `ProcessSteps.ExitIs` | src/syscall.c:279-301 | slot by slot: children go to init; init, if it waits, is told of the first Zombie among them; a parent that still waits is told of the caller, whose slot is then free, and a Zombie's otherwise |
| `KernelRuns.NextStep` | src/scheduler.c:91-137 | every event is a step whose only actor is the process that runs |
| `KernelRuns.CallMeans` | src/scheduler.c:106-137 | in every run, each system call does that to slots and registers; then a caller that halts or cannot go on gives way to the process `SelectNewProcess` describes, and any other goes on |
| `KernelRuns.TickMeans` | src/scheduler.c:91-104 | in every run, a timer tick in user mode only makes that choice |
| `KernelRuns.KeyMeans` | src/keyboard.c:269-516 | in every run, a key launches the programs of a run command one after the other; existing processes and the running one stay; `run_executed` is set if and only if a slot came into use |
| `KernelRuns.Resumed` | src/scheduler.c:58-137 | in every run of the kernel, from the moment a process loses the processor until it has it again, its registers, heap pointers and directory stay as they were; one that waited finds, at most once, 1 in eax, the pid of a collected child in ebx and the code it exited with in ecx, and all else as before |
| `ProcessSteps.InitAlwaysWaits` | src/syscall.c:311-321 | init never gets the answer "no children" |
| `ProcessSteps.CollectedStillCounts` | src/syscall.c:311-321 | after collecting its last child, a process that waits again blocks |
| `ProcessSteps.WaitReturnsZero` | src/syscall.c:311-326 | the answer is 0 if and only if no slot, free or not, names the caller as parent |
| `KernelRuns.DoneStep` | src/syscall.c:475-482 | every system call is a step that leaves the contexts of all others alone but for collected exit codes |
| `Kernel.Kernel.constructor` | src/scheduler.c:292-343 | the initial state satisfies every invariant, with init running |
| `Kernel.Kernel.SyscallFork` | src/syscall.c:193-232 | what `ForkIs` says of slots and registers; the child enters the runqueue of its priority at the back, or nothing is enqueued |
| `Kernel.Kernel.ResolveExitWait` | src/syscall.c:240-277 | what `ReapedMeans` says of parent and child, by register; the child leaves its runqueue, and the collection is recorded |
| `Kernel.Kernel.SyscallExit` | src/syscall.c:279-301 | what `ExitIs` says of every slot: children belong to init, which is told of the first Zombie among them if it waits; then a waiting parent is told |
| `Kernel.Kernel.SyscallWait` | src/syscall.c:303-327 | what `WaitIs` says: the Zombie child with the least pid is collected, by register; without one the caller waits, or gets 0 if no slot names it |
| `Kernel.Kernel.RunProgram` | src/scheduler.c:258-289 | the least free slot holds a runnable child of process 1 with priority 1 and the program's context, at the back of that runqueue, or is free again if there is no such program; no other slot changes; `run_executed` is set exactly when a program starts |
| `Kernel.Kernel.RunHandler` | src/shell.c:336-346 | one program after the other, each in the least slot still free; processes that exist are not touched |
| `Kernel.Kernel.KeyboardHandler` | src/keyboard.c:269-516 | a key in user mode: the kernel's pointers and directory replace the process's, a run command may create processes, and the same process goes on with its own registers, pointers and directory |
| `KernelRuns.LaunchLive` | src/scheduler.c:258-289 | however many programs are run, a slot in use stays as it is |
| `KernelRuns.LaunchIs` | src/scheduler.c:258-289 | launching means that: first free slot, parent 1, priority 1, the given context, and no other slot |
| `KernelRuns.LaunchesAll` | src/shell.c:336-346 | a run command is a chain of such launches |
| `KernelRuns.StartsMeans` | src/scheduler.c:258-289 | `run_executed` is set by a command if and only if some free slot is in use afterwards |
| `Kernel.Kernel.CallHeap` | src/syscall.c:28-65 | `malloc` and `free` work on the caller's pointers in the caller's directory, and the kernel's pointers come back unchanged |
| `Kernel.Kernel.EnterHeap` | src/syscall.c:28-34 | the caller's heap pointers and directory are in place, the kernel's pointers saved |
| `Kernel.Kernel.LeaveHeap` | src/syscall.c:38-43 | the caller's pointers as the allocator left them are saved in its context, the kernel's are back |
| `UserHeap.SyscallMalloc` | src/syscall.c:45-57 | between the two switches, the process's own heap serves the request as `mem_alloc` promises, from the same block and of the same size, NULL exactly for want of room; eax gets the pointer, the saved pointers are again that heap's, the kernel's its own, and no other process changes |
| `UserHeap.SyscallFree` | src/syscall.c:59-65 | likewise for `free` of a live pointer, with the list as `ReleaseOrder` says |
| `Kernel.Kernel.SyscallHlt` | src/syscall.c:410-429 | any number of timer interrupts change nothing; the next other interrupt, a key that may run programs, ends the halt and asks for a new process; if a program was started since the last halt, the first timer interrupt ends it already |
| `Kernel.Kernel.SwitchBefore` | src/scheduler.c:58-72 | entering the kernel changes no process's context and no kernel pointer |
| `Kernel.Kernel.SwitchAfter` | src/scheduler.c:74-89 | leaving neither |
| `Kernel.Kernel.TimerHandler` | src/scheduler.c:91-104 | in the kernel only a request for later; otherwise another process gets the processor, and all contexts stay |
| `Kernel.Kernel.SyscallHandler` | src/scheduler.c:112-137 | the call's effect on its caller and its relatives; then the same process, or the one selected if the caller cannot go on or asked for that |
| `Kernel.Kernel.React` | src/scheduler.c:91-137 | each event leads from the kernel's state to a next one that it allows: processes, runqueues, running process, kernel pointers and the record of collected processes |
| `Kernel.Kernel.Run` | src/scheduler.c:91-137 | every run of computations, timer ticks, keys and system calls keeps all invariants in every state, and each state follows from the one before by an act of the process that runs in it |
| `AtaPio.AnnouncedExact` | src/ata_pio.c:168-170 | the 16-bit sector count is right if and only if the true one is below 65536 |
| `AtaPio.CountWraps` | src/ata_pio.c:168-170 | a length of 32 MB that passes the test against more than 256 sectors |
| `AtaPio.Drive.ReadPio` | src/ata_pio.c:158-206 | for every offset, length and parity the buffer gets exactly the requested bytes, and the drive has delivered exactly 256 words for each announced sector |
| `AtaPio.Drive.ReadLba` | src/ata_pio.c:135-156 | the sectors' bytes, a count of 0 standing for 256 |
| `AtaPio.Drive.WriteLba` | src/ata_pio.c:208-231 | exactly those sectors change, a count of 0 standing for 256 |
| `Memory.Splice` | src/ata_pio.c:208-231 | what is written is read back, and no other byte changes |
| `Memory.WordValue` | src/filesystem.c:46-62 | a word read from bytes is the number they stand for, least significant first |
| `FileData.InodeInBlock` | src/filesystem.c:46-62 | an inode lies in one block of its group's table and does not cross its end |
| `FileData.FileSystem.UpdateBlock` | src/filesystem.c:32-43 | read, modify and write a block: exactly the given bytes of the disk change |
| `FileData.FileSystem.SetInode` | src/filesystem.c:46-53 | the 128 bytes of inode k, which start at 512 * (2048 + factor * t) + 128 * ((k - 1) mod n) for the table block t of group (k - 1) / n |
| `FileData.FileSystem.UpdateInode` | src/filesystem.c:55-62 | exactly those 128 bytes of the disk change |
| `FileLaws.InodeRoundTrip` | src/filesystem.c:46-62 | an updated inode is read back, and every other inode is as before |
| `FileData.LeadsToOne` | src/filesystem.c:229-235 | the block read or written for offset n * block_size is the one whose number stands at byte 40 + 4n of the inode for n < 12, and otherwise at word n - 12 of the block whose number stands at byte 88 |
| `FileData.FoundIs` | src/filesystem.c:215-235 | bytes are found at an offset of a file, by that definition, if and only if they stand where the model reads and writes them |
| `FileData.FileSystem.ReadInodeData` | src/filesystem.c:215-235 | the bytes that stand on the disk where inode and offset lead, direct or single-indirect, as many as asked for or as the block has left |
| `FileData.FileSystem.WriteInodeData` | src/filesystem.c:263-285 | afterwards the disk has the given bytes where inode and offset led, and is otherwise unchanged |
| `FileLaws.DataRoundTrip` | src/filesystem.c:215-285 | reading after writing at the same offset returns the bytes written |
| `FileLaws.WriteFile` | src/filesystem.c:263-285 | every block of the file reads as before, with the new bytes in their place |
| `FileLaws.WriteKeepsLayout` | src/filesystem.c:263-285 | the file's blocks stay distinct and off each other's path, so writes can follow each other |
| `FileLaws.WriteElsewhere` | src/filesystem.c:263-285 | files that share no block do not see each other's writes |
| `FileLaws.LoadFile` | src/scheduler.c:157-165 | reading block by block yields the whole file: every byte is the one to which the inode leads at its offset |
| `FileLaws.Found` | src/filesystem.c:215-235 | a file's contents are, byte for byte, what stands where the inode leads |
| `Directory.HoldsMeans` | src/fs_types.h:124-130 | an entry in bytes: inode in the first four, size in the next two, length of the name, type, name |
| `Directory.CountLinks` | src/filesystem.c:514-519 | one link less if and only if the removed entry's type has the bit 2, and 65535 after 0 |
| `Directory.DropKeepsChain` | src/filesystem.c:514 | after the predecessor takes over an entry's size, the remaining entries tile the block, in order, with their names |
| `Directory.RemoveFile` | src/filesystem.c:488-521 | on the disk: the first entry with that inode after "." and ".." is gone; the link count at byte 26 of the directory's inode drops by one, in 16 bits, if and only if the entry's type has the bit 2; no other byte outside the block changed; or the error code |
| `DirBlocks.RemovalKeeps` | src/filesystem.c:488-521 | a removal from one directory leaves the blocks and inodes of all others as they were, so all directories stay readable |
| `FileTree.DeleteKeepsTree` | src/filesystem.c:761-773 | deleting a file or an empty directory leaves a tree |
| `FileTree.FileTree.DeleteFile` | src/filesystem.c:761-773 | on the disk, exactly one entry is removed from one directory; exactly one inode is released |
| `FileTree.NotEmpty` | src/filesystem.c:844-892 | a directory with anything left below it is not empty |
| `FileTree.FileTree.RmDir` | src/filesystem.c:844-892 | working on the bytes of the disk, the loop ends; exactly the directory and all below it are deleted, the parent's block loses that entry, the entries of every other directory are unchanged; the root is emptied and reported with 1 |
| `Descriptors.AllMoved` | src/fs_inter.c:215-235 | by counting, every open entry above the first quarter finds a hole below |
| `Descriptors.Table.constructor` | src/fs_inter.c:242-254 | no row in use |
| `Descriptors.Table.Open` | src/fs_inter.c:8-79 | one more descriptor with its entry, at its number, all others as before, whether the table doubled or not |
| `Descriptors.Table.Expand` | src/fs_inter.c:20-35 | doubling keeps every descriptor's entry and marks the new half free |
| `Descriptors.Table.Shrink` | src/fs_inter.c:210-238 | halving keeps every open descriptor's entry and the link back to it, and packs the open rows in front |
| `Descriptors.Table.Close` | src/fs_inter.c:204-240 | one descriptor less, all others as before; when the table is halved, the rows in use are again exactly the open ones if and only if the new memory reads as free behind the first rows, as many as descriptors are left |
| `Descriptors.DirtyMemory` | src/fs_inter.c:215-235 | memory full of old rows leaves rows in use that no descriptor leads to |
| `Elf.WriteByte` | src/elf.c:9-23 | a byte written through the page array is one byte of the code window |
| `Elf.CheckMeans` | src/elf.c:34-56 | the error names the first of the six tests on the header's bytes that fails; there is none if and only if all succeed |
| `Elf.Shown` | src/elf.c:60-74 | a segment that is loaded stands in memory, through the array of pages, as the entry's words for offset, address, size in the file and size in memory ask |
| `Elf.CheckAndLoad` | src/elf.c:26-78 | the error is that of the first failing test on the header's bytes, and then nothing changes; otherwise, for every entry of the program header table below the number in bytes 44 and 45 whose type is 1, memory shows its file bytes followed by zeros up to its memory size, as the Program Header chapter of the TIS ELF Specification 1.2 asks; memory outside the pages is untouched |
| `Split.StrSplit` | src/string.c:45-79 | all the words of the string, in order; without the empty ones on request |
| `Split.NonEmptySplits` | src/string.c:45-79 | leaving out the empty words keeps all others, in order |
| `Split.WordsJoin` | src/string.c:45-79 | the words contain no separator, and joining them with it gives back the string |
| `Split.JoinOnce` | src/string.c:45-79 | no other list of words without separators joins to that string |

## Left out

- Heap.Heap.MemAllocAligned: requests whose size computation wraps around are excluded; `Heap.BlockSizeCovers` says exactly which, `Heap.WrapHappens` shows one.
- Heap.Heap.InsertFront: only insertion at the front, the one form in use; `insert_after` with a block has no caller.
- Heap.Heap.AllocPages: the page tables needed for growth exist already; the kernel heap pointers are not written back if growth has to allocate them (src/malloc.c:358-372). The empty heap of `malloc_install`, on which it dereferences NULL (src/malloc.c:338-340), is excluded.
- AddressSpaces.Machine.ForkPageDir: a failure of `mem_alloc` for a page table is not modelled.
- AddressSpaces.Machine.NewPageDir: the contents of the first heap page are given, they are those `Heap.Heap.constructor` writes.
- MemoryRuns.Run: ends at the first failed creation, which halts the kernel, or fork, after which frames in use are marked free (`FailureRobs`); a teardown that would free somebody else's frame is passed over, what it does is `FreePageDir`.
- Paging.Vm.ExtendHeap: heap growth before paging is enabled, and of the kernel's own heap, is not modelled.
- Page tables and directories are not themselves kept in kernel memory, so the frames that hold them, the TLB and the `user`/`rw` checks of the processor are not modelled.
- Kernel.Kernel.Run: init and idle never exit, idle never waits and fork priorities are at least 0; events that break this are passed over.
- Kernel.Kernel.SyscallFork: a negative priority, which indexes the runqueues out of bounds, is excluded.
- Kernel.Kernel.SyscallExit: init and idle are excluded.
- Kernel.Kernel.SyscallWait: idle is excluded.
- HeapClient.Arena.Run: requests that wrap around are passed over.
- Kernel.Kernel.RunProgram: whether the program is found, and the context it starts with, are parameters.
- Kernel.Kernel.KeyboardHandler: what a key does to screen and shell is not modelled, nor is Ctrl-C, which calls `kill_family`.
- UserHeap.SyscallMalloc: while the allocator works, the fields of its object stand for the two global pointers; they are written back before the kernel's return.
- Runs of the kernel (`Kernel.Kernel.Run`) and of the memory (`MemoryRuns.Run`) are not joined: the directory of a forked or launched process is a parameter of the kernel's event.
- Kernel.Kernel.ResolveExitWait: the shell's list of launched programs is not modelled; that the freed register block is still readable is `HeapClient.ReadAfterFrees`.
- Kernel.Kernel.SyscallHandler: `printf` and the file calls only set `eax`; an invalid call number is excluded.
- AtaPio.Drive.ReadPio: requests of 65536 sectors or more are excluded, see `AtaPio.CountWraps`; drive errors and the polling before each sector are not modelled.
- FileData.FileSystem.ReadInodeData: direct and single-indirect blocks only; the double and triple ones divide by the block size instead of the entries per block (src/filesystem.c:241-255).
- FileData.FileSystem.WriteInodeData: likewise.
- FileTree.FileTree.RmDir: directories of one block with unique inodes, whose blocks overlap neither each other nor an inode. Types whose number has the bit of FILE_DIR count as directories, as in the source.
- FileTree.FileTree.DeleteFile: the bitmap of inodes is a set, and the release of data blocks, with the writes to the disk that it takes, is not modelled.
- Descriptors.Table.Close: closing a descriptor that is not open is excluded; the source then reads freed memory.
- Elf.CheckAndLoad: files whose headers or segments reach beyond the file or the code window are excluded; the source does not test for them.
- The mapping of the code pages into the kernel by `load_code`; `Elf` starts from the array of pages.
- Split.StrSplit: words of 128 characters or more overflow the source's buffer and are excluded.
- `allocate_block`, `allocate_inode`, `unallocate_*`, `prepare_blocks`, `erase_file_data`: their scans and shared buffer do not keep the natural invariants.
- `add_file`, `find_inode`, `create_file`: name matching reads past the name, and compaction starts at the wrong offset.
- `kill_family` (Ctrl-C): it follows stale parents and collects processes that are no Zombies.
- Port I/O other than the data port, keyboard, screen, shell, serial log, descriptor tables of the processor, assembly stubs.

# A verified model of the kernel's memory management, synchronisation and file reading

The repository is a small i386 kernel. This project models its hardest parts in Dafny and
proves properties of them: what every step of a protocol keeps, what holds over whole
runs, and what each in-place algorithm computes. `dafny verify dfyconfig.toml` checks the
whole project.

| component | files | form |
|---|---|---|
| boundary-tag heap, kernel and user library | `HeapBlocks`, `HeapMemory`, `Heap` | class over one array; its value is a map of blocks and a free list |
| frame allocator and two-level page tables | `PageTables`, `PageCopy`, `Vmm` | class over physical memory as frames of words, with a ghost map that says what each frame is used for |
| several address spaces over time | `Spaces` | methods that run operations of the machine in any order |
| context switching | `Threads` | transition system, any number of cores and threads |
| intrusive queue, condition variable | `Queue`, `Condition` | linked classes that refine a sequence |
| semaphore, one-shot barrier, bounded buffer, reusable barrier | `Semaphore`, `Barrier`, `BoundedBuffer`, `ReusableBarrier`, `Totals` | transition systems, any number of threads |
| block reads, files, directories | `BlockIo`, `Ext2` | methods over arrays of bytes, each against a function |
| i-nodes and paths | `Paths` | methods over the device, each against a function |
| the stack of a new program | `ExecStack` | methods over an array of bytes, and a decoder |
| line drawing, integer formatting, random numbers | `Line`, `FormatInt`, `Random` | loops against closed forms |
| bytes, words and other definitions shared by these | `Basics` | functions |

How to read the models:

- The heap's value is `HeapState`: which blocks tile the array, with signed sizes, and the
  order of the free list. `Stores` says an array represents such a value. Methods give the
  new value as `Carve` or `Release` of the old one; the laws are about those functions. A
  ghost log of the calls made so far, `calls`, ties each heap object to the run that led to
  its value, so what is proved of all runs holds of every object.
- The paging machine's ghost map `owner` gives each allocated frame one role (the kernel's
  directory or tables, a directory, a user table, a user page, or loose), and a role names
  its parent. `Consistent` says memory agrees with the roles. An address is a frame number
  times 4096. A method that can reach `Debug::panic` for want of frames returns `ok`, and
  says that `!ok` implies `Exhausted`. Page tables hold words with the low bits 7 or 0, as
  the code writes them; `EntryBits`, `IndicesAreShifts` and `GetVaInverse` tie the arithmetic
  on them to the bit operations, in the 32-bit format of section 4.3 of the Intel SDM, Volume 3A.
  `TypeOfMode` and `ComplementIsDifference` do the same for an i-node's mode and a random seed.
- In the transition systems every access to shared state, or section under a lock, is one
  step; a run is any sequence of steps, so all interleavings are covered. A step that
  cannot happen in a state leaves it unchanged. The barrier and the bounded buffer contain
  whole semaphore states and take their steps, so the semaphore's own invariant is used,
  not restated.
- Offsets, counts and words are unbounded integers in the model; where 32-bit wrap-around
  can matter it is written out (`WordsFor`, `Slot`, `Piece`, `NodeOffset`, `Int32`, `Magnitude`).

Some promises are false as they stand, and are replaced by the exact condition:

- The rounding in malloc wraps for the three largest requests (`WordsForSuffices`).
- A random seed can make one half of the generator stuck: two seeds do
  (`WSticksForTwoSeeds`).
- A printed field is as wide as asked for except when zeros are wanted both for the width
  and for the precision (`WidthLaw`).
- A hole in a file reads as zeros exactly when its index is within the file's sectors, which
  do not count holes, and the device block it is read from is zero: the first block, or,
  under a null indirect pointer, the block that a word of the first one names
  (`HoleReadsAsZeros`; `HolesThatFail` gives inputs that fail).
- delete_pd recovers an address space exactly when no page of its user half is mapped
  (`DropLeaksExactlyMappedPages`; `PageLeftBehind` is a run that loses a frame).
- `no_preempt` is not always clear outside `block`: a thread runs on with it set exactly when
  the last thing that happened on its core was a yield that found nothing ready
  (`UnpreemptibleExactly`; `YieldInVainStopsPreemption` is such a run).
- What realloc copies fits the new block exactly when the rounding of the size did not wrap
  or the block given happens to be large enough for all of the old one (`MoveFits`;
  `WrappedMoves` has a heap in which it does not fit, and one in which it does).

The comment in `kernel/block_io.h` promises -1 from `read_all` for any offset past the end;
the code returns 0 when no bytes are asked for, and the model follows the code.

## Model

| member | source | states |
|---|---|---|
| HeapBlocks.After | kernel/heap.cc:126-222 | After any run of calls: blocks tile the array, no two available blocks are neighbours, the free list holds exactly the available blocks, and the callers' view of what they hold is exactly the live blocks |
| HeapBlocks.RunsKeepPayloadsApart | kernel/heap.cc:140-222 | At every point of every run the payloads held are in bounds and disjoint; with everything given back the heap is one block again |
| HeapBlocks.EveryCellInOneBlock | kernel/heap.cc:25-35 | Tiling means every word lies in exactly one block |
| HeapBlocks.KernelChoiceIsBest | kernel/heap.cc:150-173 | malloc fails exactly when no block fits; otherwise it takes the smallest of the first twenty that fit, the earliest on ties |
| HeapBlocks.FirstFitChoiceIsFirst | tetris.dir/sbin/heap.c:125-161 | The user library's malloc fails exactly when no block fits; otherwise it takes one that fits, and every block ahead of it in the free list is too small |
| HeapBlocks.CarveKeepsInv | kernel/heap.cc:175-185 | Taking or splitting a block keeps the invariant |
| HeapBlocks.CarveGives | kernel/heap.cc:175-185 | malloc takes the words asked for and at most three more; what is left of the block is available and first on the list; all other blocks are as they were |
| HeapBlocks.CarveKeepsOrder | kernel/heap.cc:175-185 | The other available blocks stay on the list in their order |
| HeapBlocks.ReleaseKeepsInv | kernel/heap.cc:203-221 | Giving a block back, with merging on both sides, keeps the invariant |
| HeapBlocks.FreeUndoesMalloc | kernel/heap.cc:176-221 | free right after malloc restores the blocks exactly; only the place in the free list changes, to the front |
| HeapBlocks.NothingLiveIsFresh | kernel/heap.cc:126-138 | With nothing live the heap is as initialised |
| HeapBlocks.CallExtendsRun | kernel/heap.cc:140-222 | A run is longer by one call, granted, refused or freeing, exactly when the outcome fits the state it has led to, and then leads to what malloc and free compute |
| Heap.Heap.HeldBlocksAreApart | kernel/heap.cc:140-222 | Of any heap object, whatever calls were made on it: the live blocks are those its callers hold, their payloads are in bounds and disjoint, and with none held it is one block |
| HeapMemory.PayloadWriteStores | kernel/heap.cc:186-186 | Whatever a holder writes into its payload, the heap and the other payloads are intact |
| HeapMemory.UnlinkLinked | kernel/heap.cc:85-99 | Unlinking a block leaves the list of the others, doubly linked, in order |
| HeapMemory.TakeStores | kernel/heap.cc:175-185 | The words malloc writes represent the carved heap |
| HeapMemory.GiveStores | kernel/heap.cc:203-221 | The words free writes represent the released heap |
| HeapMemory.ChecksPass | tetris.dir/sbin/heap.c:33-55 | The checks of block indices, which are on in the user library, pass for the head of the free list, for its links, and for a live block and its two neighbours |
| Heap.WordsForSuffices | kernel/heap.cc:145-146 | A block holds the request if and only if the rounding does not wrap, and beyond the smallest block no word is asked for in vain |
| Heap.Heap.constructor | kernel/heap.cc:126-138 | heapInit gives one available block between two taken sentinels, and then takes the lock's block from it |
| Heap.Heap.ForUser | tetris.dir/sbin/heap.c:15-19 | heap_init gives one available block between two taken sentinels |
| Heap.Heap.Remove | kernel/heap.cc:85-99 | The in-place unlink is `Unlink` |
| Heap.Heap.MakeAvail | kernel/heap.cc:101-110 | Tags and links of a block pushed on the free list |
| Heap.Heap.Scan | kernel/heap.cc:150-173 | The search loop finds `KernelChoice` |
| Heap.Heap.Malloc | kernel/heap.cc:140-189 | The new heap is the old one carved at the kernel's choice; the pointer is the payload of a block that was available and is now live, with room for every byte asked for, null exactly when no block is large enough, and the array's start exactly for no bytes; every live payload keeps its contents; the call, granted or refused, is logged |
| Heap.Heap.MallocFirstFit | tetris.dir/sbin/heap.c:125-161 | The same, pointer and all, for the user library's choice |
| Heap.Heap.Free | kernel/heap.cc:191-222 | The new heap is the old one released at that block, every other live payload keeps its contents; freeing a free block panics and changes nothing |
| Heap.Heap.Realloc | tetris.dir/sbin/heap.c:193-218 | The payload moves to a fitting block with its first bytes intact, all other payloads keep theirs, and the old block is given back even on failure; size 0 frees, the null pointer allocates, and a free block's pointer does nothing; the pointer is as malloc's; for every size whose copy fits |
| Heap.MoveFits | tetris.dir/sbin/heap.c:208-214 | What is copied fits the payload of the block malloc gives, if and only if the rounding of the size did not wrap or that payload has room for all words of the old block |
| Heap.WrappedMoves | tetris.dir/sbin/heap.c:208-214 | Two reachable heaps and a request whose rounding wraps: in one the copy runs over the end of the new block, in the other it fits |
| Heap.LowBytes | tetris.dir/sbin/heap.c:212-213 | A partial last word of the copy takes just the bytes copied |
| PageTables.EntryBits | kernel/vmm.cc:22-28 | Or-ing in the low bits and masking them off, on aligned 32-bit addresses, is the arithmetic used here |
| PageTables.EntriesGrantAll | kernel/vmm.cc:22-28 | Every entry in use in the user half is present, writable and open to users, with no other flag |
| PageTables.GetVaInverse | kernel/vmm.cc:76-78 | get_va inverts the split of an aligned address into its two indices |
| PageTables.IndicesAreShifts | kernel/vmm.cc:19-23 | The two indices of an address, taken by division here, are the shifts and masks of the code |
| PageTables.KernelHalfIsIdentity | kernel/vmm.cc:139-147 | In every address space the kernel half maps physical memory, first page excepted, to itself, and nothing else |
| PageTables.OtherSpacesKept | kernel/vmm.cc:19-61 | What is confined to one address space changes no translation of another |
| PageTables.LeavesUnshared | kernel/vmm.cc:162-174 | A user page's frame backs that page only, in that space only |
| PageTables.AllocThenMap | kernel/vmm.cc:19-29 | alloc_frame and map add exactly one translation, to a zeroed frame that was not in use |
| PageTables.MapApic | kernel/vmm.cc:57-58 | Mapping an APIC page changes exactly that translation |
| PageTables.LeafGone | kernel/vmm.cc:31-43 | Unmapping removes exactly one translation and gives its frame back |
| PageTables.EmptiedHasNoLeaves | kernel/vmm.cc:107-134 | With every slot emptied, no page of the space is left |
| PageTables.DropLeaksExactlyMappedPages | kernel/vmm.cc:63-69 | In any consistent memory, delete_pd recovers every frame of the space if and only if no page of its user half is mapped |
| PageTables.KernelMapped | kernel/vmm.cc:139-147 | The finished kernel map is a consistent memory |
| PageTables.FramesAreConserved | kernel/physmem.cc:13-64 | Frames in use, on the free list and never handed out add up to the whole range |
| PageCopy.CopyDone | kernel/vmm.cc:80-105 | The finished copy maps the same user pages, to equal contents, in frames that were not in use, and leaves the original as it was |
| PageCopy.CopyAdvances | kernel/vmm.cc:91-101 | Copying one page keeps all pages copied before equal to their originals |
| Vmm.Machine.constructor | kernel/physmem.cc:54-64 | The allocator starts with the whole range and an empty list, whatever memory holds |
| Vmm.Machine.AllocFrame | kernel/physmem.cc:20-41 | A zeroed frame that was not in use: the head of the list, or else the next of the range; it fails exactly when both are used up |
| Vmm.Machine.DeallocFrame | kernel/physmem.cc:43-51 | The frame is free again, and only its first word changes |
| Vmm.Machine.Map | kernel/vmm.cc:19-29 | One entry is written, in a new table if there was none |
| Vmm.Machine.GlobalInit | kernel/vmm.cc:139-147 | The kernel's directory maps every page of memory but the first to itself |
| Vmm.Machine.PageFault | kernel/vmm.cc:162-177 | A user-half fault adds exactly that page, zeroed; others panic |
| Vmm.Machine.Unmap | kernel/vmm.cc:31-43 | Exactly that translation goes, and exactly its frame is given back |
| Vmm.Machine.MakePd | kernel/vmm.cc:49-61 | A fresh space with the kernel half and both APIC pages and nothing else; all else is unchanged |
| Vmm.Machine.DeleteUserMem | kernel/vmm.cc:107-134 | Every user page and every table without an APIC page is given back; both APIC pages stay |
| Vmm.Machine.DeletePd | kernel/vmm.cc:63-69 | The directory and its tables are given back and pages still mapped are not: the space is recovered if and only if none is |
| Vmm.Machine.DeepCopyMem | kernel/vmm.cc:80-105 | The user half becomes a copy in fresh frames; the original and both APIC mappings are unchanged |
| Vmm.Machine.Fork | kernel/threads.h:195-206 | A new space that is a copy of another's user half, with nothing else changed |
| Spaces.Lifetime | kernel/vmm.cc:49-69 | A space is made, any faults map their pages in it, and it is emptied and deleted: the frames in use, and every word of them, are as they began |
| Spaces.Interleaved | kernel/vmm.cc:19-134 | Spaces are made, copied from one another, faulted into, unmapped from and deleted in any order: each operation has its effect on its own space and on no other, and once all are deleted the frames in use, every word of them, and the number of frames left are as they began |
| Spaces.DeleteSpace | kernel/vmm.cc:63-134 | delete_user_mem and delete_pd together give back exactly the frames of that space |
| Spaces.PageLeftBehind | kernel/vmm.cc:49-69 | With five frames left, make_pd, one page fault and delete_pd all succeed, and that page's frame is still allocated, with nothing referring to it |
| Spaces.MapStack | kernel/sys.cc:123-129 | The new program's stack pages are mapped to zeroed frames, enough for the bytes needed and one word more and not one too many, or the frames ran out |
| Threads.NeverOnTwoCores | kernel/threads.h:90-124 | In every reachable state no thread is on two cores, no unsaved context is resumed, and no switch is interrupted by another |
| Threads.ResumedContextsWereSaved | kernel/context.s:5-81 | In every reachable state the context a core is about to resume is saved, and so is the one it leaves; a thread that executes is not in its save area |
| Threads.QueuedOnlyOnceAndSaved | kernel/context.s:5-81 | A thread in a queue is there once, in no other, on no core, in no thread's hands, its registers are saved and its `no_preempt` is clear |
| Threads.IdleThreadsDoNotHop | kernel/threads.h:107-116 | Idle threads stay on their own cores |
| Threads.NoThreadIsLost | kernel/threads.cc:32-50 | A thread made and not deleted is on a core, in a queue, or on its way to one |
| Threads.BlockedThreadsGoWhereAsked | kernel/threads.h:90-124 | Over every run a thread that blocks is added to the end of the queue its own call named, or of the ready queue when the timer made it yield, and to no other; an idle thread to none |
| Threads.BlockStarts | kernel/threads.h:95-99 | A running thread that calls `block` starts at once, with its `no_preempt` set |
| Threads.WokenThreadsBecomeReady | kernel/threads.cc:46-50 | Over every run `schedule` adds to the ready queue just the thread its caller last took from a waiting queue, or made |
| Threads.TicksPreemptExactly | kernel/pit.cc:140-148 | In every reachable state a tick makes a thread yield exactly if it runs, is not idle, and has `no_preempt` clear |
| Threads.DeletedThreadsWereZombies | kernel/threads.cc:38-44 | Over every run the threads deleted are those taken from the zombies |
| Threads.FlagStaysExactly | kernel/threads.h:95-105 | In every reachable state and for every step: a core comes to run a thread whose `no_preempt` is set exactly when the step was a yield that found nothing ready, and goes on so exactly as long as it does not block |
| Threads.UnpreemptibleExactly | kernel/threads.h:90-124 | Over every run: a running thread has its `no_preempt` set if and only if the last thing that happened on its core was such a yield |
| Threads.YieldInVainStopsPreemption | kernel/threads.h:95-105 | A run from the initial state on one core after which the only thread runs with `no_preempt` set and ticks pass it over |
| Threads.StepKeepsInv | kernel/threads.cc:109-127 | Every step, from entering `block` to publishing, timer ticks, wake-ups, creation and reaping, keeps every thread in one place |
| Threads.QueuesAreFifo | kernel/threads.h:101-103 | Over any run, what was in a queue and what was added since is, in order, what was taken from it and what is in it now |
| Threads.ReadyThreadsAreServedInTurn | kernel/threads.h:101-103 | The thread at position i of the ready queue is the (i+1)-th that any core takes from it |
| Threads.TakerIsServed | kernel/threads.h:101-120 | The core that takes a thread from the ready queue is the one that switches to it |
| Queue.Queue.Add | kernel/queue.h:23-32 | Appends to the sequence the links represent, touching only the last node |
| Queue.Queue.Remove | kernel/queue.h:34-45 | Takes the first, or reports an empty queue |
| Queue.Queue.RemoveAll | kernel/queue.h:47-53 | Hands over the whole chain |
| Queue.ChainIsFunction | kernel/queue.h:23-45 | The links determine the sequence |
| Condition.Condition.Enqueue | kernel/condition.h:75-88 | The waiter is queued if and only if no notification came since it released the lock |
| Condition.Condition.Notify | kernel/condition.h:98-112 | The first waiters, up to the limit, are taken out in order, in a new epoch |
| Semaphores.SemaphoreLaw | kernel/semaphore.cc:4-41 | Over every run: initial count + ups = count + grants, waiting implies a zero count, and waiters are served in order |
| Semaphores.NoWaiterIsMissed | kernel/semaphore.cc:14-23 | A blocked thread is in the queue before any unit can be given |
| Semaphores.StepKeepsInv | kernel/semaphore.cc:4-41 | Every section keeps the ledger, the queue, the lock's owner and the hand-offs in order |
| Barrier.NobodyLeavesEarly | kernel/barrier.h:20-29 | No thread passes before all have arrived |
| Barrier.ExactlyOneUnit | kernel/barrier.h:23-28 | From the last arrival on exactly one unit exists, in the count or in a thread's hands; before that none |
| Barrier.StepWorks | kernel/barrier.h:20-29 | Every step that does anything leaves strictly less to do |
| Barrier.SomeStepWorks | kernel/barrier.h:20-29 | While not everybody is through, some step does something and does not panic |
| Barrier.EverybodyGetsThrough | kernel/barrier.h:20-29 | From every reachable state, all can get through |
| Barrier.AllGetThroughFromTheStart | kernel/barrier.h:20-29 | n threads that start together can all get through a barrier for n |
| Barrier.NeverPanics | kernel/barrier.h:20-23 | No run of at most n threads panics |
| BoundedBuffer.BufferIsFifo | kernel/bb.h:25-44 | Under every interleaving what was taken is a prefix of what was put, with at most N elements between |
| BoundedBuffer.CallsTakeEffectOnce | kernel/bb.h:25-44 | Over every run, each thread's finished calls have put just the values it gave them and taken one element for each get, once each and in order |
| BoundedBuffer.SlotsAreConserved | kernel/bb.h:25-44 | Semaphore counts, units being handed over and operations in flight always sum to N |
| BoundedBuffer.NoSlotIsOverwritten | kernel/bb.h:28-28 | A put writes a slot that holds no element still to be taken, alone with the ring |
| BoundedBuffer.ThreadsWaitOnlyWhenTheyMust | kernel/bb.h:25-44 | There is no deadlock: when no thread can go on, each is outside, or waits to put into a full buffer or to get from an empty one |
| BoundedBuffer.StepKeepsInv | kernel/bb.h:25-44 | Every statement and semaphore section keeps the ring, the accounts and the mutual exclusion |
| ReusableBarrier.ArrivalLaw | kernel/barrier.h:48-67 | Whenever the lock is free, arrivals = epoch * N + (N - count), and just that many threads are inside for the current generation |
| ReusableBarrier.GenerationsAreWhole | kernel/barrier.h:48-67 | To each finished generation belong exactly N calls, those that have returned and those still inside; to the current one those that have arrived |
| ReusableBarrier.NobodyLeavesEarly | kernel/barrier.h:48-67 | No call of generation g returns before (g + 1) * N calls arrived |
| ReusableBarrier.FinishedThreadsAreNotStuck | kernel/condition.h:68-94 | No thread of a finished generation is in the queue; its own next two steps bring it out, even if the notification came before its handler |
| ReusableBarrier.SomeStepWorks | kernel/barrier.h:48-67 | With at least N threads some step does something in every reachable state |
| ReusableBarrier.StepWorks | kernel/barrier.h:48-67 | Every step that does anything completes the generation or leaves strictly less to do in it |
| ReusableBarrier.GenerationsGoOn | kernel/barrier.h:48-67 | However the steps are ordered, at most four for each thread that do anything go by in one generation |
| ReusableBarrier.RunsCompleteGenerations | kernel/barrier.h:48-67 | So a run of so many steps from the start completes more than g generations |
| ReusableBarrier.EverybodyGetsThrough | kernel/barrier.h:48-67 | From every reachable state with at least N threads, the generation can be completed and everybody come out |
| BlockIo.PieceOfBlock | kernel/block_io.cc:14-31 | A piece of a block is a piece of the concatenated contents |
| BlockIo.Read | kernel/block_io.cc:6-33 | One read gives the bytes up to the end of a block or of the contents, or the error codes |
| BlockIo.ReadStops | kernel/block_io.cc:6-33 | A read stops as soon as it has what was asked for, or meets the end of a block or of the contents, and no sooner |
| BlockIo.ReadAll | kernel/block_io.cc:35-46 | The loop gives exactly min(n, size - offset) bytes, that slice of the contents, and ends |
| Ext2.ReadBlock | kernel/ext2.cc:138-158 | Twelve direct pointers, one indirect block, and a panic beyond or past the file's sectors |
| Ext2.BlockIsNamed | kernel/ext2.cc:138-158 | Blocks 0 to 11 of a file are those the i-node names; block 12 + i is the one named by word i of the indirect block; there are no others, and none past the sectors |
| Ext2.FileByte | kernel/ext2.cc:138-158 | Every byte of a file reads as the device byte that its block's pointer names, or cannot be read, as its block cannot |
| Ext2.PieceIsBytes | kernel/block_io.cc:35-46 | A read of a file succeeds exactly when each of its bytes can be read, and gives them |
| Ext2.HoleReadsAsZeros | kernel/ext2.cc:138-158 | Any hole (null direct pointer, null indirect pointer, or null word of the indirect block) reads as zeros if and only if its index is within the sector count and the device block it is read from is there and zero |
| Ext2.HolesThatFail | kernel/ext2.cc:138-158 | Holes that read as other bytes, that read as zeros though the first block is not zero, and that cannot be read |
| Ext2.StrEq | kernel/libk.cc:14-24 | True if and only if the C strings are equal |
| Ext2.CStringIsPrefix | kernel/libk.cc:14-24 | A C string is what comes before the first zero byte |
| Ext2.LastMatchIsLast | kernel/ext2.cc:160-170 | The number found is that of the last record with the name, or zero if there is none |
| Ext2.FindIn | kernel/ext2.cc:160-170 | The scan of a directory's records gives the last match, the failed assertion, or the endless loop of a zero-size record |
| Ext2.ReadRecord | kernel/ext2.h:199-218 | The fields of a record are where the format puts them, and must all be there |
| Ext2.RecordRoundTrip | kernel/ext2.h:199-218 | A record laid out field by field reads back as its i-node number, name and size |
| Ext2.DirectoryRoundTrip | kernel/ext2.h:199-218 | The scan of a directory lists the entries that were laid out, in order, and then what follows them |
| Ext2.DirectoryEnds | kernel/ext2.h:199-218 | Entries alone are listed in full; a directory that ends within a record's fixed fields fails an assertion; a record of size zero is scanned for ever |
| Paths.GetNode | kernel/ext2.cc:93-111 | The i-node is decoded from the bytes of the device that its number and group name; there is none if one of the four assertions fails or the bytes are not there |
| Paths.NodeRoundTrip | kernel/ext2.h:59-89 | An i-node laid out field by field, in the order and widths of the struct, decodes to the same mode, size, sectors, direct and indirect pointers |
| Paths.NodeInTable | kernel/ext2.cc:93-111 | get_node of node i of a group gives the i-node laid out at place i of the group's table |
| Paths.NoSuchNode | kernel/ext2.cc:94-103 | There is no node 0, none above the count, and none of a group or table that is not there |
| Paths.DirectoriesByMode | kernel/ext2.h:91-101 | A directory is what has type 4 in the top bits of its mode |
| Paths.EnterFinds | kernel/ext2.cc:160-170 | Looking a name up needs a directory whose records can be listed; the last record with the name decides, and without one, or with number 0, there is no such file |
| Paths.Find | kernel/ext2.h:276-306 | Path lookup, with every node and directory read from the device, is the left fold of directory lookup over the components |
| Paths.LookupStaysInDirectories | kernel/ext2.h:199-200 | A lookup that comes to an end looks only into directories, and their records can be listed |
| Paths.FindComposes | kernel/ext2.h:276-306 | find(c, p/q) = find(find(c, p), q) |
| Paths.ComponentsOfJoined | kernel/ext2.h:280-295 | A path made of names gives back the names |
| Paths.SlashesDoNotMatter | kernel/ext2.h:281-281 | Repeated, leading and trailing slashes change nothing |
| ExecStack.BytesNeeded | kernel/sys.cc:180-187 | The size computed in exec is the size of what is laid out |
| ExecStack.NewStack | kernel/sys.cc:123-129 | The pages mapped cover it and one word more, and no page is too many |
| ExecStack.PlaceStrings | kernel/sys.cc:131-139 | Every string is in place, below what was placed before |
| ExecStack.SetupExecStack | kernel/sys.cc:121-156 | The stack pointer ends exactly where the program will start, and memory decodes to the argument list |
| ExecStack.DecodingIsUnique | kernel/sys.cc:141-155 | It decodes to no other list |
| ExecStack.OffsetsGrow | kernel/sys.cc:134-137 | Strings do not overlap |
| ExecStack.OffsetsAreContiguous | kernel/sys.cc:131-155 | argc, argv, the table with its null, and the strings follow one another without a gap, each string rounded up to words |
| Line.DrawLine | kernel/graphics.cc:43-82 | For any 32-bit coordinates of points less than 2^31 apart, no sum overflows and the loop plots max(dx, dy) + 1 pixels, each the closed form's |
| Line.LineJoinsItsEnds | kernel/graphics.cc:43-82 | In every octant the line starts and ends at the given points and stays in their box |
| Line.LineIsConnected | kernel/graphics.cc:59-81 | One pixel per major step, at most one step aside |
| Line.LineIsStraight | kernel/graphics.cc:59-81 | After every step twice the error is at most the major length |
| Line.MinorIsClosest | kernel/graphics.cc:60-66 | The minor coordinate is the true one rounded to nearest |
| FormatInt.Convert | kernel/snprintf.cc:431-437 | The digits of the number, least significant first; the cutoff at twenty is never reached |
| FormatInt.FewerThanTwentyDigits | kernel/snprintf.cc:431-437 | Eleven digits are enough for 32 bits |
| FormatInt.FmtInt | kernel/snprintf.cc:400-488 | What each character of the output is, and where: spaces on the left, or on the right with the minus flag, then the sign asked for, the zeros, and the digits in base and case, with the number of each |
| FormatInt.FormattedIsLaidOut | kernel/snprintf.cc:439-487 | The same law of the format itself |
| FormatInt.ReadsBack | kernel/snprintf.cc:400-488 | Stripped of spaces, the output reads back as the value, in base 8, 10 or 16 |
| FormatInt.WidthLaw | kernel/snprintf.cc:439-449 | The field has the width asked for if and only if zeros are not wanted for both width and precision |
| FormatInt.ParseDigits | kernel/snprintf.cc:431-437 | Digits read back as the number |
| Random.StepLaw | kernel/random.h:24-29 | No step overflows 32 bits, and 65536 times the result is congruent to the argument |
| Random.SeedsAreComplements | kernel/random.h:13-22 | The halves start as the seed and its bitwise complement, but for the four seeds where one is moved on by one |
| Random.Random.Next | kernel/random.h:24-29 | Both halves step, and the result combines them in 32 bits |
| Random.ZNeverSticks | kernel/random.h:13-29 | From no seed does the first half get stuck, however many numbers are drawn |
| Random.WSticksForTwoSeeds | kernel/random.h:13-29 | The second half is stuck after any number of draws if and only if the seed is one of two |
| Random.StuckAreMultiples | kernel/random.h:16-21 | The values the constructor avoids, and the two it misses, are the multiples of the modulus |

## Left out

- The lock around malloc and free. The block checks behind the `safe` flag, off in the kernel and on in the user library, are not steps of the methods; HeapMemory.ChecksPass is about the heap a call starts from, not about the moment in free when one neighbour has been unlinked.
- Heap.Heap.Realloc: sizes whose copy does not fit the new block are excluded for a block being moved, and only those (Heap.MoveFits); so is a nonzero request for the pointer that malloc(0) returns, for which the code reads the word before its array.
- Heap.Heap.Free: the pointer must be the payload of a block there is now; for any other, such as a stale one into a block that has since been merged away, the code takes whatever word precedes it for a header.
- Heap.Heap.constructor: when no block is left for the lock, operator new panics; the model then only shows the refused call. What the lock's constructor writes into its block is a payload write.
- TLB invalidation, CR3, accessed and dirty bits; mapping over a page that is already mapped; more than 2 GB of memory; APIC addresses that are not page aligned or not in the upper half.
- Vmm.Machine.Unmap: an APIC page is excluded; the code would give its frame, which is a device and not memory, to dealloc_frame.
- Vmm.Machine.Fork: the copy of the descriptor table in copy_from is not part of this model.
- Spaces.MapStack: the pages must be unmapped and not an APIC page, so less than about 240 MB of them; over others the code would map without looking.
- Spaces.Interleaved: each operation is atomic; operations of different cores inside one another, under the allocator's locks, are not modelled. Faults and unmappings are at user addresses other than the APIC pages; a fault on a page that is mapped does nothing here, as the processor raises none.
- Vmm.Machine.PageFault: what a failed call has changed is not stated, because the machine has stopped.
- The locks in the frame allocator: its methods run one at a time here.
- Register contents: a context switch saves, loads and publishes, in that order. The interrupt flag is modelled only where the switch turns it off.
- Threads.Apply: a thread may yield or block wherever it is running, which allows more runs than the code.
- Spinning: an attempt to take a lock that is held is not a step. Fairness, and progress of the scheduler, are not stated.
- ReusableBarrier.GenerationsGoOn: fairness is not modelled; steps that do nothing are not counted. With fewer than N threads nobody gets through, and nothing is stated.
- Barrier.EverybodyGetsThrough: says that all can get through from any state; with StepWorks it excludes endless runs of effective steps, and fairness between threads is not needed or modelled.
- ReusableBarrier.Apply: notifyAll is one step, as all of it happens under the lock; the loop itself is in Condition.Condition.Notify. A barrier for no threads fails its assertion and is excluded.
- BoundedBuffer.Init: capacities over 2^31 are excluded, where the sum of head and count can wrap; no array of that many elements fits the address space twice over.
- Reference counting (`Shared`), the process table and its descriptors, and the thread that reaps zombies, beyond the reaping step.
- BlockIo.Read: blocks are values; the driver that reads them, and the choice between reading in place and through a temporary block, are not modelled.
- Ext2.Scan: directories within 64 KB of 4 GB are not treated specially, where the 32-bit offset could wrap.
- Paths.Find: mounting, which reads the super block and the group table, symbolic links, permissions, and double and triple indirect blocks (which panic) are not part of this model. A node or directory block that cannot be read stops the machine; which assertion fails is not told apart.
- ExecStack.NewStack: an array of zeros stands for the pages; Spaces.MapStack is the mapping, with its frames and its failure.
- ExecStack.SetupExecStack: strings that would reach past the end of the address space are excluded, over about 256 MB of them. The ELF file and the switch to user mode are not part of this model.
- Line.DrawLine: points 2^31 or more apart, along the axes, are excluded, where the error term can overflow; clipping and the frame buffer, so a pixel is a pair of coordinates.
- FormatInt.FmtInt: format string parsing and floating point. There is no limit on the characters emitted: the code passes one along and never uses it.
- Port I/O, device drivers, boot, keyboard, graphics other than lines, and the game.

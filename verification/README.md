# Verified model of the kernel's allocators, address spaces, tasks and printf

This project models four parts of a small i386 kernel and proves what they are for.

* **The kernel heap** (`Memory`, `Regions`, `OrderedArray`, `HeapInvariant`, `HeapSteps`, `HeapFacts`, `HeapSizes`,
  `Heap`, `HeapRuns`, `HoleOrder`). Memory is a sequence of bytes; headers and footers are read and written in it,
  little-endian, at the offsets the compiler gives `header_t` and `footer_t`. The invariant `HeapOk` says that one
  sequence of regions is recorded twice: by boundary tags in memory and by the index of holes. `KernelHeap.Heap` is
  the allocator as an object whose methods keep it and say exactly how far the heap grows and contracts;
  `HeapRuns.Run` follows whole runs of allocations, stores and frees.
* **The heap as the C text has it** (`HeapAsWritten`, `FreeAsWritten`, `HeapExamples`). Several lines of
  `kernelheap.c` do not do what their comments and callers need. `Heap` follows the intention and marks each such
  place with "Repair". Beside it the C steps are modelled literally, in 32-bit arithmetic, and for each it is proved
  on exactly which heaps and requests it keeps the promise; `HeapExamples` gives heaps on which it does not.
* **Frames, page tables, clones and the boot map** (`FrameBitmap`, `Paging`, `AddressSpaces`, `HeapPages`, `Boot`).
  The bitset is an array of 32-bit vectors, page tables and directories are objects that can be shared, physical
  memory is an array of frames. `HeapPages` has the loops of `expand` and `contract` on these page tables, and the
  heap's `alloc` and `free` with the frames they take and give back. The entry layout is that of 32-bit paging,
  section 4.3 of the Intel SDM volume 3A.
* **Tasks** (`TaskRuns`, `Tasks`, `TaskStacks`, `StackMove`). `Tasks.Scheduler` is the linked ready queue with
  `task_switch` and `fork` as methods; each is proved to be a step of the state machine in `TaskRuns`, about whose
  runs the theorems are. `TaskStacks.Run` follows whole runs of switches, forks and memory accesses of any number of
  tasks: that `fork` returns 0 in each child, and the number of the child in its parent, is read from their stacks,
  each in an address space of its own. `StackMove` is `move_stack`.
* **printf** (`Numerals`, `FormatParser`, `Sink`, `Conversions`, `IsoReference`, `Printf`, `IsoPrintf`, `IsoFormat`),
  exactly as the C code has it. `Printf.Output` is the text an unbounded printer would produce; `IsoReference` and
  `IsoPrintf` state what section 7.21.6.1 of ISO/IEC 9899:2011 asks for, and where the code agrees; `IsoFormat` goes
  from the text of whole formats, with any number of directives, to what is printed of which argument.

The asserts and panics of the C code are explicit failure results or preconditions. The registers that the C code
reads are parameters.

Where code and comments disagree, and what is proved about it:

* `x & 0xFFFFF000 != 0` tests the lowest bit of x, and `contract` masks with 0x1000 (`RoundMeets`, `ContractMeets`).
* The search and the split of `alloc` allow for different front gaps (`SearchMeetsSplit`, `SplitMeetsFrontGap`), and
  the remainder is judged before the gap is taken off (`CarveMeets`).
* Growing the heap enlarges the endmost hole even when a block lies after it (`ExtendMeets`).
* `free` announces that it rewrites the footer of a hole on its right and does not, and it looks for the wrong entry
  when a hole vanishes; its probes read the words outside the heap (`FreeMeets`).
* The comparison of the index compares a hole with itself, so the "ordered" array is a stack (`ComparesNothing`,
  `StackKeepsOrder`, `StackFindsLarger`).
* The loop of `contract` leaves the page at the new end its frame (`Heap.Contract` keeps that).
* `free_frame` passes a frame number as an address (`FreeingMeets`, `Pager.FreeFrameAsWritten`); the frame bitset is
  allotted in bytes (`AllotmentMeets`); `first_frame` has no result when every frame is in use, and is taken to return
  the -1 that its caller tests for; frame 0 reads as "no frame" (`Pager.AllocFrameTwice`).
* `clone_table` copies the pages that have no frame and skips those that have one (`CloneAsWrittenTranslates`).
* A value of zero with a precision of zero loses its field, and `%c` has none (`IntMeetsIso`, `CharacterMeetsIso`).
  The length modifiers `h` and `hh` narrow nothing (`ConvertedMeetsIso`). `vsnprintf` returns the length of the whole
  text, as section 7.21.6.5 of ISO/IEC 9899:2011 asks, exactly when that is at most the size of the buffer, and else
  the size of the buffer, which counts the NUL (`Vsnprintf`).

## Model

| member | source | states |
|---|---|---|
| Memory.WriteHeader | include/stdlib/kernelheap.h:15-21 | a header written is read back, and no byte or word outside its 12 bytes changes |
| Memory.WriteFooter | include/stdlib/kernelheap.h:23-27 | a footer written is read back, and no byte or word outside its 8 bytes changes |
| Regions.TilesDisjoint | common/stdlib/kernelheap.c:239-285 | regions at different places of a tiling share no byte |
| OrderedArrays.OrderedArray.Insert | common/stdlib/ordered_array.c:36-57 | the array with the item before the first element that is not less than it |
| OrderedArrays.OrderedArray.Remove | common/stdlib/ordered_array.c:67-75 | the array without the element at that position, the others in order |
| OrderedArrays.OrderedArray.Lookup | common/stdlib/ordered_array.c:60-64 | the element at that position |
| OrderedArrays.OrderedArray.constructor | common/stdlib/ordered_array.c:20-29 | an empty array of that capacity |
| OrderedArrays.InsertedSorted | common/stdlib/ordered_array.c:36-57 | insertion keeps an array sorted, for any strict weak order |
| OrderedArrays.InsertedMultiset | common/stdlib/ordered_array.c:36-57 | insertion adds exactly one occurrence of the item |
| OrderedArrays.RemovedSorted | common/stdlib/ordered_array.c:67-75 | removal keeps an array sorted |
| OrderedArrays.RemovedMultiset | common/stdlib/ordered_array.c:67-75 | removal takes away exactly one occurrence |
| OrderedArrays.NeverLessInsertsInFront | common/stdlib/kernelheap.c:128-131 | with a comparison that never holds every insertion is at the front |
| HeapFacts.InitialOk | common/stdlib/kernelheap.c:158-164 | one hole with a header and no footer is a heap |
| HeapInvariant.SpliceOk | common/stdlib/kernelheap.c:134-378 | replacing adjacent regions, their tags and their index entries keeps the whole invariant and every byte of the blocks around them |
| HeapFacts.Probe | common/stdlib/kernelheap.c:312-329 | in a heap each header leads to the next, the words before a header are the footer of the region before it, and a region ends at the end of the heap exactly when it is the last |
| HeapFacts.StoreOk | common/stdlib/kernelheap.c:288 | a byte stored anywhere in the payload of a block damages no tag and no other block |
| HeapSteps.CarveOk | common/stdlib/kernelheap.c:239-285 | cutting a front hole, a block and a tail hole out of a hole keeps the invariant, adds exactly that block, changes no byte of another |
| HeapSteps.GrowLastOk | common/stdlib/kernelheap.c:213-222 | enlarging the last hole with the heap keeps the invariant and every block |
| HeapSteps.AddHoleOk | common/stdlib/kernelheap.c:202-212 | a new hole at the old end keeps the invariant and every block |
| HeapSteps.FreeOk | common/stdlib/kernelheap.c:306-376 | a block that becomes a hole with its neighbours, or vanishes with the end of the heap, leaves a heap whose other blocks are untouched |
| HeapSizes.FrontGap | common/stdlib/kernelheap.c:239-242 | a front gap is nothing or at least 20 bytes, and puts the payload at a page boundary |
| HoleOrder.GapIsLeast | common/stdlib/kernelheap.c:239-242 | no smaller gap can hold a hole and align the payload |
| HeapSizes.ContractTarget | common/stdlib/kernelheap.c:79-87 | the length after contraction is the least that is whole pages, at least HEAP_MIN_SIZE, and leaves of the last hole nothing or at least 20 bytes |
| HeapSizes.GrowthStep | common/stdlib/kernelheap.c:176-224 | when no hole fits, the growth that a request needs is one step of expand and the growth that it needs after that step |
| HeapSizes.GrowthAtMost | common/stdlib/kernelheap.c:176-224 | no request makes the heap grow more than three steps, and none that need not be aligned more than one |
| KernelHeap.Heap.constructor | common/stdlib/kernelheap.c:134-166 | the index takes its words first, the heap starts at the next page boundary after them and is valid: one hole, with no byte outside its header written |
| KernelHeap.Heap.FindSmallestHole | common/stdlib/kernelheap.c:100-126 | the first hole in index order that can hold the request with its gap, or -1 when none can |
| KernelHeap.Heap.Expand | common/stdlib/kernelheap.c:54-74 | fails exactly beyond max_address; else the end moves by at least a page, exactly the new pages gain frames, and every page up to the end has one |
| KernelHeap.Heap.Contract | common/stdlib/kernelheap.c:76-98 | the heap takes the least length it can have, if that is shorter; exactly the pages beyond the one at the new end lose their frames |
| KernelHeap.Heap.Extend | common/stdlib/kernelheap.c:176-222 | fails exactly beyond max_address and then changes nothing; else the tiling is the old one with its last hole larger by exactly the new bytes, or with a new hole of them, the last hole is big enough for the request, and every block keeps its bytes |
| KernelHeap.Heap.TakeFrom | common/stdlib/kernelheap.c:227-288 | one new block, at the least gap after the start of the hole that was chosen, of the request or less than 20 bytes more; every other block untouched |
| KernelHeap.Heap.Alloc | common/stdlib/kernelheap.c:168-289 | a payload inside the heap, big enough, aligned if asked, in a block of its own, no byte of another block changed; it succeeds exactly when the growth it needs fits below max_address and then grows by exactly that: nothing when some hole fits, one step of the rounded request if it need not be aligned, at most three if it must; so it never panics where three (one) steps fit |
| KernelHeap.Heap.UnifyLeft | common/stdlib/kernelheap.c:306-323 | a hole on the left takes the block in, with both tags right |
| KernelHeap.Heap.UnifyRight | common/stdlib/kernelheap.c:325-345 | a hole on the right joins, with both tags right |
| KernelHeap.Heap.ShrinkAtEnd | common/stdlib/kernelheap.c:347-371 | the heap ends in or at the hole, at the least length it can have if that is shorter, and what is left of the hole is nothing or a hole with both tags |
| KernelHeap.Heap.Free | common/stdlib/kernelheap.c:292-378 | exactly that block is gone, every other block keeps its bytes, no two holes are neighbours, and if the hole that the block becomes reaches the end, the heap ends at the least page boundary that is not below HEAP_MIN_SIZE and leaves of that hole nothing or at least 20 bytes |
| HeapRuns.IndexIsSmall | common/stdlib/kernelheap.c:284-285 | the index holds at most one entry more than there are live blocks |
| HeapRuns.Run | common/stdlib/kernelheap.c:168-378 | any run of allocations, stores and frees, of any length, that holds at most room blocks at once: exactly the blocks taken and not given back are live, disjoint, big enough and aligned; each reads back the last byte stored at each offset; blocks from before have kept every byte; and along the run an allocation gets a block exactly when there is room left and the growth it needs ends at max_address or below, the heap grows by exactly that, contracts with a free exactly as far as the freed hole lets it, and moves its end with nothing else |
| HeapRuns.TakeIsServed | common/stdlib/kernelheap.c:168-289 | in such a run every allocation gets a block while there is room left and max_address is three steps of growth away, one if it need not be aligned |
| HoleOrder.BySizeOrders | common/stdlib/kernelheap.c:128-131 | the intended comparison is a strict weak order and keeps the index sorted by size |
| HoleOrder.SortedFindsSmallest | common/stdlib/kernelheap.c:100-126 | on a sorted index the first fit is a smallest fit, and -1 means none fits |
| HoleOrder.FindUnaligned | common/stdlib/kernelheap.c:100-126 | for a request that need not be aligned the search of the heap returns the first fit, and on a sorted index a smallest fit |
| HoleOrder.ComparesNothing | common/stdlib/kernelheap.c:128-131 | the comparison as written is the one that never holds |
| HoleOrder.StackKeepsOrder | common/stdlib/kernelheap.c:128-131 | with it an insertion keeps the index sorted exactly when the hole is not larger than the first one |
| HoleOrder.StackFindsLarger | common/stdlib/kernelheap.c:100-131 | and then a larger hole is taken in place of a smaller one that fits |
| HeapAsWritten.RoundMeets | common/stdlib/kernelheap.c:58-62 | the rounding as written is right exactly for odd sizes and whole pages |
| HeapAsWritten.ContractMeets | common/stdlib/kernelheap.c:80-87 | the target as written is right exactly for sizes up to HEAP_MIN_SIZE and whole pages with bit 12 clear |
| HeapAsWritten.SearchMeetsSplit | common/stdlib/kernelheap.c:107-116 | exactly where the gap of the search is the gap of the split |
| HeapAsWritten.SplitMeetsFrontGap | common/stdlib/kernelheap.c:239-244 | exactly where the gap of the split can hold a hole |
| HeapAsWritten.StrideMeets | common/stdlib/kernelheap.c:66-72 | steps of 1000 bytes request a frame for every page of the new range exactly unless the last step falls short, and always for whole pages |
| HeapAsWritten.CarveMeets | common/stdlib/kernelheap.c:227-288 | the carving as written, which reads the size of the hole again after it has written a footer in front, serves every unaligned request, and an aligned one exactly when CarveCondition holds |
| FreeAsWritten.ExtendMeets | common/stdlib/kernelheap.c:176-222 | the growing as written leaves a heap with the same blocks exactly when no block lies after the endmost hole |
| FreeAsWritten.FreeMeets | common/stdlib/kernelheap.c:292-378 | free as written, asserts included, leaves a heap with the other blocks that is not longer exactly when FreeCondition holds of the block and, for the first and the last block, the words outside the heap do not look like the tag of a hole |
| HeapExamples.EveryTilingIsAHeap | common/stdlib/kernelheap.c:134-378 | every arrangement of blocks and separate holes is the tiling of some heap |
| HeapExamples.FreeBeforeInnerHole | common/stdlib/kernelheap.c:325-345 | a heap where free leaves a footer that names a header which is gone |
| HeapExamples.FreeAtEnd | common/stdlib/kernelheap.c:361-376 | a heap where free leaves an index entry beyond the end |
| HeapExamples.FreeInShortHeap | common/stdlib/kernelheap.c:86-87 | a heap shorter than HEAP_MIN_SIZE that free makes longer |
| HeapExamples.FreeBehindFooter | common/stdlib/kernelheap.c:312-323 | a heap with words before it that look like the footer of a hole, where freeing the first block fails |
| HeapExamples.FreeBeforeHeader | common/stdlib/kernelheap.c:325-345 | a heap with words after it that look like the header of a hole, where freeing the last block fails |
| HeapExamples.AlignedNearPageEnd | common/stdlib/kernelheap.c:240-252 | a heap where an aligned request breaks the heap |
| HeapExamples.ExtendPastBlock | common/stdlib/kernelheap.c:213-222 | a heap where growing runs over a block |
| FrameBitmap.OneBit | common/stdlib/paging.c:16-36 | setting or clearing one bit of a word leaves the other 31 alone |
| FrameBitmap.UsedChanges | common/stdlib/paging.c:20-36 | setting and clearing a bit adds and removes exactly that frame |
| FrameBitmap.CountIsUsed | common/stdlib/paging.c:10-46 | the number of set bits is the number of frames in use |
| FrameBitmap.FreeingMeets | common/stdlib/paging.c:95-107 | freeing with the frame number as the address is right exactly for frame 0 |
| FrameBitmap.AllotmentMeets | common/stdlib/paging.c:116-118 | the bytes allotted hold the bit of a frame exactly for the first quarter of the frames |
| FrameBitmap.Bitmap.constructor | common/stdlib/paging.c:116-118 | a bitset with no frame in use |
| FrameBitmap.Bitmap.Set | common/stdlib/paging.c:21-27 | the words with the bit of that address set |
| FrameBitmap.Bitmap.Clear | common/stdlib/paging.c:30-36 | the words with the bit of that address cleared |
| FrameBitmap.Bitmap.FirstFree | common/stdlib/paging.c:49-67 | the least free frame, or -1 when every frame is in use |
| Paging.Pager.AllocFrame | common/stdlib/paging.c:72-92 | a page with a frame keeps it; another gets the least free one and the flags asked for; the frames in use stay exactly those of pages, none with two |
| Paging.Pager.AllocFrameTwice | common/stdlib/paging.c:72-92 | alloc_frame can be repeated without effect exactly when frame 0 is in use |
| Paging.Pager.FreeFrame | common/stdlib/paging.c:95-107 | exactly the page's frame becomes free |
| Paging.Pager.FreeFrameAsWritten | common/stdlib/paging.c:95-107 | as written, the frame stays in use while no page has it |
| Paging.OwnersCounted | common/stdlib/paging.c:10-107 | the set bits are as many as the pages with a frame, and frame 0 |
| Paging.Pager.CopyPage | common/stdlib/process.s:2-31 | one frame receives the words of another and no other frame changes |
| Paging.Link | common/stdlib/paging.c:207-210 | a page table entered into a directory is in one place of it, with its physical address plus 7 for the processor beside it; no other entry changes |
| Paging.Walk | common/stdlib/paging.c:207-210 | what the processor finds in any directory that is linked: no present bit for a page without a table, and else present, writable and user, and the page-aligned address of the table |
| Paging.Pager.GetPage | common/stdlib/paging.c:195-217 | the entry of the address; a missing table is made, blank, page-aligned and its own, exactly when asked for, linked with its physical word; before the heap is there it lies at the boot placement, which moves past it, apart from all tables before |
| Paging.Pager.CloneTable | common/stdlib/paging.c:244-264 | each chosen entry is copied, with its flags, to a frame that was free, which holds the same words; nothing in use before is written |
| Paging.Pager.CloneDirectory | common/stdlib/paging.c:267-296 | exactly the kernel's tables are shared, every other is a clone, and each has its physical word in its place; it fails only when every frame is in use |
| AddressSpaces.OneEntryPerFrame | common/stdlib/paging.c:72-92 | two virtual pages share a frame exactly when they are one entry of one table |
| AddressSpaces.CloneTranslates | common/stdlib/paging.c:267-296 | the clone maps what the original maps, to equal words, in the same frame if the table is the kernel's and else in a fresh one |
| AddressSpaces.CloneAsWrittenTranslates | common/stdlib/paging.c:249-262 | with the guard as written, the clone maps what a table maps exactly when that is nothing |
| AddressSpaces.WritesAreSeen | common/stdlib/paging.c:72-92 | after any run of writes through a directory a page that it maps holds what was written last to each of its words, and else what it held |
| AddressSpaces.WritesStayApart | common/stdlib/paging.c:267-296 | no run of writes through other tables changes a page |
| AddressSpaces.ClonesAreIsolated | common/stdlib/paging.c:267-296 | after a clone, no run of writes through non-kernel tables of either side is seen by the other |
| AddressSpaces.ClonesAreApart | common/stdlib/paging.c:267-296 | after a clone, the tables of either side that are not the kernel's are not in the other |
| AddressSpaces.Act | common/stdlib/paging.c:72-107 | a mapping gives the page a frame with the flags asked for, an unmapping takes it, and no other entry changes; what one program stores, maps or unmaps leaves every page that is behind a table of another address space as it was, and its own pages but for what it stores or unmaps |
| AddressSpaces.TakeTurns | common/stdlib/paging.c:72-107 | however the programs of several address spaces take turns to store, map and unmap, a page behind a table of one of them only keeps its frame and holds exactly what its own program has stored |
| AddressSpaces.AllocPage | common/stdlib/paging.c:72-92 | get_page and alloc_frame of an address: the page gets the least free frame, or keeps its own, and the entry of no other page changes |
| AddressSpaces.MapPage | common/stdlib/paging.c:72-92 | the same once frame 0 is in use: the page has its frame or a new one with these flags |
| AddressSpaces.UnmapPage | common/stdlib/paging.c:95-107 | the page of that address loses its frame, which becomes free, and no other entry changes |
| HeapPages.GiveFrames | common/stdlib/kernelheap.c:54-74 | the loop of expand, in steps of 1000 bytes, gives every new page a frame once, with the flags of the heap, and no other page; it panics only when every frame is in use |
| HeapPages.TakeFrames | common/stdlib/kernelheap.c:76-98 | the loop of contract takes exactly the frames of the pages beyond the one at the new end |
| HeapPages.AllocOnPages | common/stdlib/kernelheap.c:54-74 | alloc with the frames that expand takes: the pages of the heap stay exactly the pages of the kernel directory that have a frame; the new ones get the flags asked for and no other entry changes; it fails beyond max_address, and when every frame is in use |
| HeapPages.FreeOnPages | common/stdlib/kernelheap.c:76-98 | the same for free with the frames that contract gives back: the pages beyond the one at the new end, and no others, lose theirs |
| Boot.MapNext | common/stdlib/paging.c:143-149 | the next page gets the next frame, unless there is none |
| Boot.IdentityMap | common/stdlib/paging.c:140-145 | the loop terminates; every page up to the final placement and one more has the frame of its own number; it panics exactly when the memory is smaller than that, and never if it is large enough for the tables it needs |
| Boot.FillHeap | common/stdlib/paging.c:147-149 | the pages of the heap get the frames that follow |
| Boot.InitialisePaging | common/stdlib/paging.c:111-149 | from the empty bitset on: every page up to the final placement is behind the frame of its own number, so those of the kernel, of the bitset and of the directory, which starts a page right behind them; the page tables lie between the directory and the final placement, apart from each other; the heap's pages are behind the frames that follow; it succeeds for every placement up to 14 MB |
| TaskRuns.StepOk | common/stdlib/task.c:82-163 | after every step the numbers in the queue are 1, 2, 3 and so on, the current task is in it, and a task waiting inside fork has an older one in its parent_task |
| TaskRuns.RoundRobin | common/stdlib/task.c:123-145 | until its turn a task comes one nearer with each switch, one farther with each fork before the wrap, and no other way |
| TaskRuns.TurnComes | common/stdlib/task.c:123-145 | its turn comes within its distance and one switch per fork before the wrap |
| TaskRuns.FirstTaskStarves | common/stdlib/task.c:97-101 | and forks can put the wrap off for ever |
| TaskRuns.ContextsKept | common/stdlib/task.c:129-149 | what is loaded for a task is what it saved at its own last switch, or at its fork |
| TaskRuns.DirectoryKept | common/stdlib/task.c:87-101 | each task keeps the directory cloned for it, in the order of the forks |
| TaskRuns.ZeroOnceInTheChild | common/stdlib/task.c:103-118 | fork returns 0 in the child exactly once, when it first runs, whatever tasks write over their own locals in between |
| TaskRuns.PidOnceInTheParent | common/stdlib/task.c:103-118 | the child's number is returned exactly once, in an older task |
| TaskRuns.ValuesAreForked | common/stdlib/task.c:103-118 | every value that fork returns is 0 or the number of a task made in the run |
| Tasks.Scheduler.constructor | common/stdlib/task.c:8-24 | no task, and 1 as the next number |
| Tasks.Scheduler.InitialiseTasking | common/stdlib/task.c:33-51 | the queue is one task with number 1 and the current directory |
| Tasks.Scheduler.TaskSwitch | common/stdlib/task.c:123-163 | nothing before there are tasks; else one Switch step on an acyclic list that ends at null, loading what the next task saved, and a task that goes on inside fork has an older one in its parent_task |
| Tasks.Scheduler.LastTask | common/stdlib/task.c:97-100 | the last task of the queue |
| Tasks.Scheduler.SaveParent | common/stdlib/task.c:87 | parent_task is on the stack of the running task, and no stack of another task has changed |
| Tasks.StackCloned | common/stdlib/task.c:89 | the clone's page of the stack, in a frame of its own, holds the locals that the page held when the clone was made |
| Tasks.StackSpared | common/stdlib/task.c:89-118 | and no run of writes through other page tables changes them |
| Tasks.Scheduler.CloneStack | common/stdlib/task.c:89 | parent and child have the same locals, behind tables that no other task has; no stack of another task has changed; it fails only when every frame is in use |
| Tasks.Scheduler.Enqueue | common/stdlib/task.c:91-114 | one Fork step on the linked queue: the new task at its end, with the registers of the running one |
| Tasks.Scheduler.ComeBack | common/stdlib/task.c:105-118 | new_task as the running task's own stack has it if parent_task there is the running task, and else 0 |
| Tasks.Scheduler.ForkProcess | common/stdlib/task.c:82-119 | one Fork step; the parent gets the new number; the new task is last in the queue, in a clone of the address space whose stack has the parent in parent_task and does not have new_task; its table for the stack is in no other address space and the stacks of the other tasks are as they were; no frame in use has become free |
| Tasks.Scheduler.ForkInChild | common/stdlib/task.c:105-118 | a task that is switched to inside fork, with an older task in the parent_task of its own stack, gets 0 |
| TaskStacks.Start | common/stdlib/task.c:33-51 | tasking begins with one task that has its stack |
| TaskStacks.Switch | common/stdlib/task.c:123-163 | a switch is one Switch step, keeps every task's locals on its own stack, and a task that it resumes inside fork returns what the state machine says |
| TaskStacks.Fork | common/stdlib/task.c:82-119 | a fork is one Fork step, keeps every task's locals on its own stack, apart from all others, and adds the new task's |
| TaskStacks.UseMemory | common/stdlib/paging.c:72-107 | whatever the running task stores, maps or unmaps, but for the page of its stack, changes its own locals at most |
| TaskStacks.Run | common/stdlib/task.c:82-163 | any run of switches, forks, stores, mappings and unmappings on the linked queue and in memory is a run of the state machine; fork returns in memory what it returns there: 0 in each new task exactly once, when it first runs, and its number once, in an older task; it ends early only when every frame is in use |
| StackMove.MoveStack | common/stdlib/task.c:182-210 | every word of memory after the move: copied words and visited words are rebased once if they point strictly inside the old stack, all others keep |
| StackMove.RebaseWords | common/stdlib/task.c:193-206 | exactly the visited words that point strictly inside the old stack move by the offset |
| StackMove.CopyWords | common/memory.c:51-56 | the words are copied and no other changes |
| StackMove.MovesAllWhen | common/stdlib/task.c:185-206 | every copied word is rebased, whatever the memory holds, exactly when the old stack is empty or less deep than the new one is long |
| StackMove.ChainMoves | common/stdlib/task.c:185-209 | the chain of saved base pointers on the new stack is the old chain moved by the offset |
| StackMove.VisitsMapped | common/stdlib/task.c:168-173 | every visited word is in a mapped page exactly when the lowest is, and always for whole pages |
| StackMove.MapStack | common/stdlib/task.c:168-173 | with the unsigned counter: nothing for a size beyond sp; else, if the loop stops, every page from sp down to sp less the size has a frame, its own or a new writable one, and no other page changes; if it would wrap around address 0, it goes on until alloc_frame panics |
| Numerals.Valconv | common/printf.c:301-323 | the numeral of the value in the alphabet, at most one character for each table entry, the rest of the buffer kept |
| Numerals.Tables | common/printf.c:110-178 | the tables are the powers of 10, 8 and 16 that cover 64 bits |
| Numerals.NumeralUnique | common/printf.c:301-323 | digits below the base without a leading zero that have a value are its only numeral |
| Numerals.DigitsEval | common/printf.c:301-323 | the numeral of a value evaluates to it |
| FormatParser.ParseFormat | common/printf.c:182-298 | the directive at a position and where it ends, read without passing the NUL |
| FormatParser.RoundTrip | common/printf.c:182-298 | any spelling of flags, width, precision, lengths and conversion is read as what it means, to its last character |
| FormatParser.CanonicalRoundTrip | common/printf.c:182-298 | every directive a caller can ask for, printed with the letter that the standard gives its conversion, is parsed back as that conversion, flags, width, precision and length, wherever it stands |
| FormatParser.CutOff | common/printf.c:211-235 | END_STRING alone is returned exactly when the format ends before a conversion character |
| Conversions.ConvertDigits | common/printf.c:340-347 | at most 20, 22 or 16 digits, spelling the value |
| Conversions.DoConversionInt | common/printf.c:326-400 | the sink is fed the text of the conversion, and the count of what it took is returned |
| Conversions.DoConversionString | common/printf.c:403-428 | the same for strings |
| IsoReference.IntMeetsIso | common/printf.c:326-400 | the text is that of the standard exactly unless value and precision are zero and something is to be shown |
| IsoReference.AlphabetIsIso | common/printf.c:340-347 | the alphabets are the digits of the standard: 0 to 9, then a to f, or A to F for X |
| IsoReference.ZeroLosesItsField | common/printf.c:338-339 | %5.0d of zero |
| IsoReference.IntTextSpells | common/printf.c:326-400 | spaces, prefix, digits that spell the value, spaces; as long as the widest of the field and its content |
| IsoPrintf.IntTextReads | common/printf.c:326-400 | the digits of the text have the value, and a minus is there exactly if it is negative |
| IsoPrintf.ConvertedMeetsIso | common/printf.c:451-490 | an integer directive prints what the standard says exactly when its argument fits its length modifier and value and precision are not both zero, or nothing is to be shown |
| IsoPrintf.CharLengthIsIgnored | common/printf.c:451-490 | %hhd of 300, which the standard turns into 44 and the code does not |
| IsoPrintf.StringMeetsIso | common/printf.c:403-428 | the text of %s is the one text that is the string, cut to the precision, in a field of blanks |
| IsoFormat.FormatMeets | common/printf.c:431-524 | the output of a format put together from literal text and directives is the literals and, of each directive, what it prints of its own argument: the k-th directive that reads one prints the k-th argument, a null pointer as (null), and a directive that the end of the format cuts off prints nothing |
| IsoFormat.ArgMeetsIso | common/printf.c:431-524 | there a d, i, o, u, x or X prints what the standard says of its argument exactly when that fits its length modifier, and value and precision are not both zero or nothing is to be shown |
| IsoFormat.ConvertedIs | common/printf.c:451-507 | each conversion prints its argument, read with the size of its length modifier, in the field of the standard, but for zero with a precision of zero and for %c |
| IsoFormat.ToBitsIs | common/printf.c:456-490 | a value read in so many bits is the argument but for a multiple of the size, and in range |
| IsoFormat.WideText | common/printf.c:456-490 | in any spelling of the length modifiers 64 bits are read exactly for two l or a j, without an h |
| Printf.CharacterMeetsIso | common/printf.c:334-337 | %c is that of the standard exactly without a field, for arguments not negative or multiples of 128 |
| Sinks.Sink.Put | common/printf.c:533-545 | a full buffer refuses; the last place gets the NUL |
| Sinks.Sink.Feed | common/printf.c:388-397 | a text is taken up to the room there is |
| Sinks.CutConcat | common/printf.c:430-524 | feeding two texts one after the other, refused or not, is feeding both at once |
| Printf.DoPrintf | common/printf.c:431-524 | the sink is fed the whole output, which IsoFormat.FormatMeets spells out, and the number of characters it took is returned |
| Printf.Vsnprintf | common/printf.c:580-591 | the buffer is the first size - 1 characters of the output and a NUL, nothing else is written; the smaller of length and size is returned, which is the length exactly if that is at most the size |
| Printf.PrintfToScreen | common/printf.c:547-566 | the screen gets the whole output and its length is returned |
| Printf.SignedPrintsBack | common/printf.c:451-474 | what %d prints is padding, a minus exactly for negative numbers, and digits that spell the magnitude |

## Left out

- KernelHeap.Heap.Alloc: assumes room in the index, which HeapRuns.IndexIsSmall bounds by the live blocks, and does not model the 32-bit wrap of size + 20 for requests near 4 GB.
- KernelHeap.Heap.Free: takes only a null pointer or the payload of a live block, for which the asserts on the magic numbers hold.
- KernelHeap.Heap.Expand: the pages behind the heap are a set here; HeapPages.AllocOnPages and FreeOnPages tie it to the kernel's page tables from one call of alloc or free to the next, with the frames taken after the tags are written and not before.
- FreeAsWritten.FreeMeets: a tag that would lie partly outside the modelled memory counts as none.
- OrderedArrays.OrderedArray.constructor: the slots of the heap's index are an array of their own and not bytes of the heap's memory.
- Paging.Pager.CloneDirectory: physicalAddr is not modelled; a new table is an object of its own at any page-aligned physical address, and not memory of the heap, whose growth may itself take frames.
- AddressSpaces.ClonesAreIsolated: kernel tables made after a clone do not reach it, in the code as in the model.
- Boot.InitialisePaging: ends before create_heap and the first clone, which are modelled on their own.
- Tasks.Scheduler.TaskSwitch: the assembly that loads the registers is not modelled beyond what is loaded.
- TaskRuns.ZeroOnceInTheChild: a saved eip is one of the two places that call read_eip and not a number; the two locals of fork lie in one page of the stack, at the same place in every task.
- TaskStacks.Run: between the timer interrupts the running task does what it likes to its own address space, but does not unmap the page of its stack; that the tables of a clone take memory from the kernel heap is not part of the run.
- StackMove.MoveStack: memory is by words, so pointers kept at addresses that are not multiples of 4 are not seen; the stacks lie in memory and the copy does not overlap itself.
- Printf.DoPrintf: arguments are a sequence of integers and strings; an argument that is missing or of the wrong kind reads as zero or as "(null)"; widths and precisions do not overflow an int.
- Floating point, `%n` and wide characters, which the printf engine does not have.
- The screen, PCI, keyboard, timer, descriptor tables and interrupt stubs: hardware effects without deep properties.
- The statistics and task printing functions, page_fault and panic: diagnostics.

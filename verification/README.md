# Verified model of Toynix

Toynix is a small x86 kernel with user-space servers. This project models the parts of it whose correctness is not
visible from any one function, and proves what they promise: its allocators, page sharing and copy-on-write fork, the
block layer and the directories of its file system, its scheduler and message passing on several processors, and its
hand-written concurrency. `dafny verify dfyconfig.toml` checks everything.

Code that changes things in place is modelled by classes, arrays and loops, each proved against a specification on
values; protocols are modelled as steps of a state machine, and their properties hold for every run.

| modules | models | main results |
|---|---|---|
| `Words`, `BuddyTree`, `Buddy`, `BuddyRace` | the buddy allocator, whose manager array is an implicit tree | the array is the canonical value of the set of live blocks; NULL exactly when no aligned block is free; free undoes alloc; several callers never hold overlapping blocks |
| `CowMemory`, `EagerFork`, `ForkTraces`, `ForkExactness`, `ForkCode` | copy-on-write fork and its fault handler | every interleaving of reads, writes, faults and further forks is one of an eagerly copying fork, and every one of those can be had; exactly when this holds |
| `PageTables`, `Paging` | page tables, reference counts, the free list | counts equal references after every operation, and other mappings keep page and permissions; tearing an environment down leaks nothing |
| `Bitmap`, `FsBlocks`, `FsState`, `FileSystem`, `FsCuts` | the block layer and files | every block has one owner; files are flat byte arrays; exactly when a read or a write succeeds; truncation frees exactly what it clears |
| `Paths`, `FsTree`, `Directories` | directories and paths | a path walk is the fold of lookups; create, remove and rename change one path each; what was created can be opened |
| `SchedSpec`, `SchedRuns`, `SchedLaws`, `Sched` | environments on several processors under the kernel lock | each running environment is on exactly one processor; bounded bypass; message rendezvous; whom a system call can reach and whom it leaves alone; when an old id is found |
| `ThreadQueue`, `Mailbox` | cooperative threads, semaphores, mailboxes | messages are delivered once, in order, under every interleaving |
| `Pipe`, `PipeRefs`, `PipeRuns` | pipes at the grain of single loads and stores, and of single mappings | bytes read are a prefix of bytes written, and both ends make progress; exactly when "closed" is a false answer, and what an end of file means |
| `LwipHeap`, `LwipMem` | the lwIP heap | gap-free tiling, no free neighbours, exact lowest-free mark; what each call does to the memory that clients hold |
| `MallocList`, `MallocRuns`, `MallocSpans`, `MallocHeap` | `malloc`, `free`, `realloc`, `sbrk` | tiling up to the break exactly while `sbrk` has not failed; when `free` and `realloc` end the program; what is freed is handed out again; bytes kept by `realloc` |
| `Div64` | 64-bit division from 32-bit parts | the quotient is exact; exactly when the remainder is |

Some promises turned out not to hold of the code as written. For each there is the exact condition, and where the
failure takes more than one step, a concrete run:

- The remainder that `_64bit_divide` stores is wrong exactly when a dividend below 2^32 is divided by a divider of at
  least 2^32 (`Div64.Divide`).
- `sys_env_set_status` may make a receiving environment runnable. A message sent to it while it runs then lets a
  second processor run it as well (`SchedRuns.ReceiverOnTwoProcessors`). It keeps the invariant exactly when its
  target is not current elsewhere and is not a receiver being made runnable (`SchedRuns.SetStatusExact`).
- A buddy pool whose smallest block is one byte hands the same block out twice, because order 0 also means taken
  (`BuddyTree.SmallestBlocksDistinctIff`); requests above 2^31 are rounded to the smallest block
  (`Words.NextPow2WrapsAbove`, `Buddy.WantedOrderCovers`).
- Copy-on-write fork behaves like eager copying, in every run from a state, exactly when two things hold there
  (`ForkExactness.FaithfulIff`). No mapping that a fork would duplicate shares its page with another mapping such that
  one of the two is writable and not both are `PTE_SHARE`. And what an environment that can fork has mapped at address
  0 holds the bytes of the zero page, is not copy-on-write and has no writer: `sys_page_map` takes source address 0
  for the zero page, so that fork gives the child that page and, if the parent's own page was private and writable,
  the parent too (`ForkExactness.ZeroLost`, `ForkExactness.ZeroLostByParent`). With a writable `PTE_SHARE` page there
  fork panics.
- `sys_page_alloc`, `sys_page_map` and `sys_ipc_try_send` pass any permission bits on to `page_insert`, which puts
  them into two words: the entry of the page and the directory entry of its page table. Tables and reference counts
  stay right exactly when the bits change neither of the two page numbers, as bits below 4096 never do
  (`PageTables.InsertCountsIff`, `Paging.Kernel.PageInsert`). With permission 0x1000, an odd page and an even page
  table, the directory entry is the one that goes astray (`PageTables.DirectoryGoesAstray`).
- `_pipeisclosed` says "closed" of an open pipe exactly when as many descriptors are mapped without their data page as
  there are descriptors of the other end and data pages without descriptor (`PipeRefs.FalseExactlyWhen`). fork maps
  all descriptor pages before any data page and so gets there (`PipeRuns.ClosedTooEarly`); so does a close between the
  two looks at the counts (`PipeRefs.LooksApart`, `PipeRuns.ClosedBetweenLooks`).
- While no fork is unfinished, `devpipe_read` reports the end of the file with bytes left unread exactly when, between
  its tests for an empty and for a closed pipe, more bytes are stored than taken (`PipeRuns.EndOfFile`,
  `PipeRuns.ByteMissed`).
- `buddy_alloc` tests the size before it takes the lock. A caller that has passed the test panics exactly when the
  blocks it could have had overlap one that was taken meanwhile (`BuddyRace.CrashIff`, `BuddyRace.SecondCrashes`).
- `extend_heap` compares the result of `sbrk` with -1, which `sbrk` never returns (`MallocHeap.Heap.Sbrk`): when the
  heap is full, or a page cannot be mapped, the new block is linked at the break that has not moved. After `malloc`
  the blocks tile the heap exactly if a block fitted or the break has moved (`MallocHeap.Heap.Malloc`). If it has not,
  the next request that no block fits gets the same address, and following the list never ends from then on
  (`MallocHeap.MallocTwice`, `MallocHeap.HandedOutTwice`).
- `valid_addr` asserts that the address lies below the break. `free` and `realloc` end the program exactly for the
  last block below the break if it is empty, as after `malloc(0)`, and for a block at a break that has not moved
  (`MallocRuns.StopsIff`, `MallocRuns.EmptyBlockStops`). If no request rounds to 0 and the heap can grow, they never
  do (`MallocRuns.NothingStops`).
- `realloc` to one of the three largest sizes rounds it to 0 and cuts the block (`MallocList.AlignIsEnough`), and
  `mem_malloc` of one of them returns a block of 12 bytes (`LwipHeap.RoundUpIsEnough`).
- An old environment id is found again exactly when a multiple of 524287 environments have been created in its slot
  (`SchedRuns.StaleIdInRuns`).
- `file_rename` keeps names unique exactly when the target directory has no other file of that name
  (`Directories.MovedUnique`). Of two files with one name in a directory, lookups find the first. It also moves a
  directory into itself: what was renamed can be reached afterwards exactly when the target path does not lead through
  it (`Directories.RenamePaths`, `Directories.CreateThenLose`).
- `file_set_size` also shortens directories in use. Every used block keeps an owner exactly when no record in the
  blocks that are given up names a block (`FsCuts.CutLeaksUnless`). The root is a record that can be removed or
  renamed as well; after that no path leads anywhere (`FsTree.WithoutRoot`).

Where code and comments disagree the code is followed: `sched_yield` chooses the least-run environment although its
comment says round robin, and `sys_ipc_recv` and `sys_ipc_try_send` refuse addresses at or above `UTOP` although their
comments accept them as "no page" (address 0 plays that part).

## Model

| member | source | states |
|---|---|---|
| `Words.NextPow2IsLeast` | include/math.h:6-18 | for every request up to 2^31 the bit-smearing result is the least power of two not below it, and its logarithm is exact |
| `Words.NextPow2WrapsAbove` | include/math.h:6-18 | the rounding is a bound for its argument exactly up to 2^31; above, it wraps to 0 |
| `Words.BitTrickDecides` | include/math.h:4 | for every nonzero word, `x & (x - 1) == 0` holds exactly for the powers of two |
| `Words.OneBit` | lib/math.c:6-17 | every one-bit word is some 2^k with k below 32, and the de Bruijn table lookup returns k |
| `BuddyTree.EntryIsLargestFree` | lib/buddy.c:81-104 | the value an entry must have is the order of the largest wholly free aligned block below it, and 0 if there is none |
| `BuddyTree.EntryFromChildren` | lib/buddy.c:142-151 | that value follows from the two children by the maximum, or one more when both are wholly free |
| `BuddyTree.RepresentsUnique` | lib/buddy.c:49-55 | the set of live blocks determines the whole manager array, stale entries included |
| `BuddyTree.UnrelatedDisjoint` | lib/buddy.c:90-107 | blocks of unrelated tree nodes do not overlap |
| `BuddyTree.FreeNodeIsFreeBlock` | lib/buddy.c:76-107 | a free node is a free block aligned to its own size inside the pool |
| `BuddyTree.FreeBlockIsFreeNode` | lib/buddy.c:76-107 | every free aligned block of a size of the tree is a node of it |
| `BuddyTree.DescendFindsFreeNode` | lib/buddy.c:81-90 | the downward search in a right array ends at a free node of the wanted order |
| `BuddyTree.RootDecides` | lib/buddy.c:76-77 | the root entry reaches an order exactly when some aligned block of that order is free |
| `BuddyTree.LiveBlocksFitPool` | lib/buddy.c:97 | sizes of live blocks sum to at most the pool |
| `BuddyTree.TotalOfPart` | lib/buddy.c:97 | the size of part of the live blocks is at most that of all of them |
| `BuddyTree.NothingLive` | lib/buddy.c:49-55 | with nothing live every entry is the full order of its node |
| `BuddyTree.EntryBelowLive` | lib/buddy.c:96-104 | entries below a live block keep the full order of their node |
| `BuddyTree.SmallestBlocksDistinctIff` | lib/buddy.c:96-104 | two allocations of the smallest block get different blocks exactly when the smallest block is larger than one byte |
| `Buddy.WantedOrderCovers` | lib/buddy.c:73-79 | the order searched for is the least that covers the request and the node size; a request above 2^31 is rounded to the node size |
| `Buddy.SizesAccepted` | lib/buddy.c:23-34 | the sizes are accepted exactly when both are powers of two and the pool is a multiple of the node |
| `Buddy.FillOrders` | lib/buddy.c:49-55 | the initial array represents a pool with nothing live |
| `Buddy.RoundRequest` | lib/buddy.c:73-79 | size and order of the block to hand out |
| `Buddy.Search` | lib/buddy.c:81-90 | the search loop ends where the specification of the descent ends |
| `Buddy.RaiseMaxima` | lib/buddy.c:99-104 | the upward loop of alloc turns an array right below the taken node into a right array |
| `Buddy.MergeBuddies` | lib/buddy.c:142-151 | the upward loop of free does the same, merging wholly free buddies |
| `Buddy.Climb` | lib/buddy.c:130-134 | from the first leaf of a live block the climb stops at that block and no earlier |
| `Buddy.FirstIndex` | lib/buddy.c:128-130 | the leaf computed from the address lies within the block at that address |
| `Buddy.BuddyPool.Init` | lib/buddy.c:15-58 | accepts exactly the right sizes and starts with nothing live |
| `Buddy.BuddyPool.Find` | lib/buddy.c:76-95 | a free aligned block of the order, or none exists |
| `Buddy.BuddyPool.Take` | lib/buddy.c:96-104 | the live set grows by the block, its size leaves the free size, the array stays right |
| `Buddy.BuddyPool.AllocOrder` | lib/buddy.c:76-107 | NULL exactly when no free aligned block of the order exists; else a block that was free |
| `Buddy.BuddyPool.Alloc` | lib/buddy.c:61-108 | NULL exactly for request 0 or when no free aligned block of the rounded size exists, and then nothing changes |
| `Buddy.BuddyPool.Locate` | lib/buddy.c:128-137 | a live address leads to its block; the sanity panic is not reached |
| `Buddy.BuddyPool.GiveBack` | lib/buddy.c:139-151 | the live set shrinks by the block and its size returns |
| `Buddy.BuddyPool.Free` | lib/buddy.c:110-153 | NULL is ignored; a live address is removed from the live set and its size returned |
| `Buddy.AllocThenFree` | lib/buddy.c:61-153 | alloc then free restores every entry of the manager array |
| `Buddy.FreeAll` | lib/buddy.c:110-153 | freeing all live blocks, in any order, restores the initial array and the full size |
| `BuddyRace.RunKeepsInv` | lib/buddy.c:61-153 | whatever several callers do, every block in use is in one hand |
| `BuddyRace.HandsApart` | lib/buddy.c:61-153 | in every run blocks in different hands do not overlap |
| `BuddyRace.TakesOrCrashes` | lib/buddy.c:80-94 | a caller past the size test takes a block, or panics exactly when none is free |
| `BuddyRace.SearchPanicsIff` | lib/buddy.c:80-94 | the search stays at the root, and the offset is negative, exactly if no block of the order is free |
| `BuddyRace.CrashIff` | lib/buddy.c:76-94 | after another caller took a block, it panics exactly when all blocks that fitted before overlap that one |
| `BuddyRace.UndisturbedIsSafe` | lib/buddy.c:76-94 | it does not panic if nobody came between test and lock |
| `BuddyRace.SecondCrashes` | lib/buddy.c:76-94 | a run of two callers in which the second panics |
| `CowMemory.StoreShows` | lib/fork.c:7-42 | a store through a writable mapping changes what that slot reads and nobody else's view, unless the page is common |
| `CowMemory.StoreFits` | lib/fork.c:7-42 | a store keeps what holds of all mappings, common pages and page 0 |
| `CowMemory.StoreHandler` | lib/fork.c:7-42 | a store does not disturb the page fault of another environment |
| `CowMemory.ReadOk` | lib/fork.c:7-42 | reads see the view, and change nothing |
| `CowMemory.MapOk` | lib/fork.c:28-42 | mapping the private copy in the fault handler keeps the invariant and the view |
| `EagerFork.StepOk` | lib/fork.c:7-98 | every step, including each step of the fault handler, keeps the invariant, and is either invisible or one visible event |
| `EagerFork.Follow` | user/dumbfork.c:48-87 | each visible event of the copy-on-write machine can be performed by the eager one, and the states look alike after it |
| `EagerFork.RunExplained` | lib/fork.c:109-156 | from states that look alike, all events of every run can be performed by the eager machine |
| `EagerFork.CowRefinesEager` | lib/fork.c:109-156 | if no mapping that a fork would duplicate is at odds with another and page 0 is safe, every interleaving with any number of forks behaves as with eager copying |
| `ForkTraces.FaultCompletes` | lib/fork.c:7-42 | undisturbed, a write to a copy-on-write page is done once the fault handler has made its five steps |
| `ForkTraces.RunOrderly` | lib/fork.c:7-156 | every run stays in step with the eager machine, and no fork in it panics there |
| `ForkTraces.SameTraces` | lib/fork.c:7-156 | the sequences of reads, writes and forks that can be observed are exactly those of eager copying in which no fork panics |
| `ForkExactness.FaithfulIff` | lib/fork.c:52-98 | every run behaves as with eager copying if and only if no mapping that a fork would duplicate is at odds with another and page 0 of every environment that can fork is safe |
| `ForkExactness.AstrayTrace` | lib/fork.c:52-98 | otherwise a run in which a write is lost to an alias |
| `ForkExactness.LeakTrace` | lib/fork.c:52-98 | or one in which the child sees a later write |
| `ForkExactness.ZeroTrace` | kernel/syscall.c:242-245 | after a fork the child reads the zero page at address 0 |
| `ForkExactness.ZeroLost` | lib/fork.c:77-80 | so a run shows the difference if the parent has other bytes there |
| `ForkExactness.ZeroLostByParent` | lib/fork.c:82-86 | the parent's own page 0 is replaced too if it was private and writable or copy-on-write |
| `ForkExactness.ZeroUnsafe` | lib/fork.c:52-98 | a run shows the difference whenever page 0 of an environment that can fork is not safe |
| `ForkCode.Machine.SysPageMap` | kernel/syscall.c:223-261 | result and new mapping, including the zero page for address 0 and the refusal to add write permission |
| `ForkCode.Machine.SysPageAlloc` | kernel/syscall.c:179-203 | a zeroed writable page at the address |
| `ForkCode.Machine.DupPage` | lib/fork.c:52-98 | both mappings after duplication, of child and parent, for shared, writable, copy-on-write and read-only pages and for page 0; when it panics nothing has changed |
| `ForkCode.Machine.Fork` | lib/fork.c:109-156 | the page loop and the new exception stack give exactly the forked state of the machine; it panics exactly when page 0 is `PTE_SHARE` and writable, and then nothing has changed |
| `ForkCode.Machine.PgFault` | lib/fork.c:7-42 | handled exactly for writes to copy-on-write pages; then the page is replaced by a private copy of its bytes |
| `PageTables.SetLeaf` | kernel/pmap.c:530-541 | writing a page table entry changes the references by that one entry |
| `PageTables.SetLeafKeeps` | kernel/pmap.c:530-541 | every other mapping keeps its page and its permissions |
| `PageTables.NewEntryIsWord` | kernel/pmap.c:537 | the entry that the stored word stands for |
| `PageTables.OredIsWord` | kernel/pmap.c:538 | what or-ing permissions into a directory entry makes of it |
| `PageTables.LinkTable` | kernel/pmap.c:427-441 | linking a zeroed page table adds one reference |
| `PageTables.UnlinkTable` | kernel/env.c:573-575 | unlinking an empty page table removes one |
| `PageTables.LinkRoot` | kernel/env.c:160-202 | a fresh page directory adds one |
| `PageTables.UnlinkRoot` | kernel/env.c:578-581 | dropping an empty one removes it |
| `PageTables.CountUp` | kernel/pmap.c:510-541 | counts stay right when a reference and the count grow together |
| `PageTables.CountDown` | kernel/pmap.c:400-405 | and when both shrink |
| `PageTables.InsertCountsIff` | kernel/pmap.c:536-538 | the counts are right for the pages that the two stored words name exactly if the permission bits change neither page number |
| `PageTables.InsertedMaps` | kernel/pmap.c:536-538 | then the two stores make the one mapping asked for, with its permissions, and keep every other |
| `PageTables.InsertedMisnames` | kernel/pmap.c:536-538 | otherwise the tables do not name what was asked for |
| `PageTables.DirectoryGoesAstray` | kernel/pmap.c:538 | page 1 in page table 2 with permission 0x1000: the directory entry names page 3, and the counts are wrong |
| `PageTables.UserStoresAreIsolated` | kernel/pmap.c:510-541 | a store through a user mapping changes no page table |
| `Paging.Kernel.constructor` | kernel/pmap.c:292-343 | exactly the pages not in use at boot are free, each once |
| `Paging.Kernel.PageAlloc` | kernel/pmap.c:357-374 | fails exactly when the list is empty; else an unreferenced page off the list, zeroed on demand |
| `Paging.Kernel.PageFree` | kernel/pmap.c:380-394 | the page returns to the list |
| `Paging.Kernel.PageDecref` | kernel/pmap.c:400-405 | one reference less, and free at zero |
| `Paging.Kernel.PgdirWalk` | kernel/pmap.c:418-441 | the table, or a new one exactly when asked for and possible, with count one; every mapping stays |
| `Paging.Kernel.PageLookup` | kernel/pmap.c:552-568 | finds exactly the mapped pages |
| `Paging.Kernel.PageRemove` | kernel/pmap.c:582-599 | removes this reference and no other, freeing the page with the last one; other mappings keep page and permissions |
| `Paging.Kernel.Place` | kernel/pmap.c:520-541 | replaces a mapping, also by the same page, without losing or gaining a reference; the tables are right exactly if the permissions change neither page number, and then they are those asked for and other mappings are kept |
| `Paging.Kernel.PageInsert` | kernel/pmap.c:510-541 | fails exactly when a page table is needed and memory is out, and then changes nothing; otherwise tables and counts are right exactly if the permissions change neither page number, and then page and permissions are as asked and other mappings are kept; no page but the directory and the page table changes |
| `Paging.Kernel.EnvSetupVm` | kernel/env.c:160-202 | a page directory of its own, with count one, exactly when a page is free |
| `Paging.Kernel.UnmapTable` | kernel/env.c:567-571 | the inner loop removes the references of one page table |
| `Paging.Kernel.FreeTable` | kernel/env.c:557-576 | and then the table itself |
| `Paging.Kernel.EnvFree` | kernel/env.c:537-587 | removes exactly the references of the environment |
| `Paging.Kernel.SysPageAlloc` | kernel/syscall.c:179-203 | each result exactly when; the page is zeroed; no page lost when memory runs out half way; for every permission word, whether tables and counts are right, and then mapping and permissions |
| `Paging.Kernel.SysPageMap` | kernel/syscall.c:223-261 | each result exactly when, the one reference it adds or moves, and that the page keeps its contents; for every permission word, whether tables and counts are right, and then mapping and permissions |
| `Paging.Kernel.SysPageUnmap` | kernel/syscall.c:272-285 | the one reference it drops |
| `Paging.Kernel.IpcTransfer` | kernel/syscall.c:370-386 | each result exactly when; the page sent with a message is mapped at the receiver with its contents, or nothing changes; for every permission word, whether tables and counts are right |
| `Paging.NothingLeaks` | kernel/env.c:537-587 | a page is free exactly when it is not reserved and nothing refers to it |
| `Bitmap.SetFreeIsExact` | fs/fs.c:42-51 | setting a bit makes exactly that block free |
| `Bitmap.SetUsedIsExact` | fs/fs.c:75-76 | clearing it makes exactly that block used |
| `Bitmap.LowestFree` | fs/fs.c:67-73 | the lowest free block, or the number of blocks exactly when there is none |
| `Bitmap.FreeSetChanges` | fs/fs.c:42-81 | the two bit operations add and remove one element of the free set |
| `FsBlocks.SetPointerOneSlot` | fs/fs.c:146-182 | writing a direct pointer or an entry changes no other pointer of any file |
| `FsBlocks.AddIndirectOneSlot` | fs/fs.c:161-177 | nor does a fresh zeroed indirect block |
| `FsBlocks.DropIndirectOneSlot` | fs/fs.c:562-566 | nor dropping one whose entries are empty |
| `FsBlocks.OwnFresh` | fs/fs.c:203-228 | a block that no slot names gets one owner |
| `FsBlocks.Disown` | fs/fs.c:519-536 | a cleared slot takes the owner from its block |
| `FsState.LinkIndirectGood` | fs/fs.c:161-177 | the file system stays in order and every byte reads as before |
| `FsState.AddBlockGood` | fs/fs.c:203-228 | a new zeroed data block keeps order and bytes, and brings unused records to a directory |
| `FsState.DropBlockGood` | fs/fs.c:519-536 | giving a block up keeps order |
| `FsState.DropIndirectGood` | fs/fs.c:562-566 | giving the indirect block up keeps order and bytes |
| `FsState.SetSizeGood` | fs/fs.c:571-580 | a new size keeps order when no pointer lies past it |
| `FsState.StoreByte` | fs/fs.c:460-461 | a copy into a block changes exactly its byte range of that one file |
| `FsState.ClearsUsed` | fs/fs.c:519-536 | clearing one more used slot frees its block and no other, and counts one |
| `FsState.ClearsBytes` | fs/fs.c:547-567 | after clearing slots, their bytes read as zero and all others as before |
| `FsState.PutRecordGood` | fs/fs.c:391-392 | a record without blocks may become that of an empty file |
| `FsState.MoveRecordGood` | fs/fs.c:650-653 | moving a record hands its blocks to the new place |
| `FsState.MovedByte` | fs/fs.c:650-653 | and its bytes with them |
| `FileSystem.BlocksNamedOnce` | fs/fs.c:143-228 | every block in use and not reserved is named by exactly one slot, no slot names a free block, no slot past the end of a file is in use |
| `FileSystem.BlocksConserved` | fs/fs.c:42-81 | reserved, free and owned blocks add up to the disk |
| `FileSystem.RegularEmptyable` | fs/fs.c:592-604 | any regular file may be truncated or removed |
| `FileSystem.NextMissing` | fs/fs.c:203-228 | the blocks that must be allocated for one block more: that block if it is missing, and the indirect block with the first one that needs it |
| `FileSystem.StopsExactly` | fs/fs.c:410-468 | a loop over the blocks of a range gets through exactly if they lie below the largest size and no more are missing than are free; otherwise it stops at the first that cannot be had |
| `FileSystem.RangeDecides` | fs/fs.c:410-468 | so for the bytes of a range, from the state before the call |
| `FileSystem.FileSystem.constructor` | fs/fs.c:110-128 | a disk with an empty root: what the bitmap marks used is reserved |
| `FileSystem.FileSystem.AllocBlock` | fs/fs.c:59-81 | the lowest free block leaves the free set; fails exactly when the set is empty |
| `FileSystem.FileSystem.FreeBlock` | fs/fs.c:42-51 | the block joins the free set |
| `FileSystem.FileSystem.FileBlockWalk` | fs/fs.c:143-185 | each result exactly when, and at most an indirect block is added |
| `FileSystem.FileSystem.FileGetBlock` | fs/fs.c:203-228 | each result exactly when: it fails for lack of space exactly when fewer blocks are free than are missing, and leaves the hole then; otherwise just those are taken; nothing changes if the block is there; no byte of any file changes |
| `FileSystem.FileSystem.FileFreeBlock` | fs/fs.c:519-536 | clears one slot and frees its block, or nothing |
| `FileSystem.FileSystem.FileTruncateBlocks` | fs/fs.c:547-567 | clears exactly the slots from the new end on, frees exactly their blocks, and the free count grows by the number of slots cleared |
| `FileSystem.FileSystem.FileSetSize` | fs/fs.c:570-580 | the new size; whole blocks past it read as zero, every other byte of every file is kept |
| `FileSystem.FileSystem.FileRead` | fs/fs.c:410-435 | exactly the bytes of the file in range, and no byte changes; succeeds exactly if the range lies below the largest size and no more blocks are missing in it than are free; otherwise the result code, and it has read up to the first block that cannot be had |
| `FileSystem.FileSystem.FileWrite` | fs/fs.c:441-468 | the written range reads back, every other byte of every file is kept; succeeds exactly if the range lies below the largest size and no more blocks are missing in it than are free; otherwise the result code, and it has written up to the first block that cannot be had |
| `FileSystem.FileSystem.FileRemove` | fs/fs.c:592-604 | the record is unused, exactly its blocks are free, other files are kept |
| `FsCuts.CutRunIs` | fs/fs.c:556-560 | the loop over the blocks of a directory clears their slots and takes the records in them along |
| `FsCuts.CutLeaksUnless` | fs/fs.c:547-567 | when a directory is cut, every used block still has an owner exactly if no record in the blocks given up names a block |
| `Paths.ComponentsOfJoin` | fs/fs.c:331-343 | the parts of a path made of parts are those parts |
| `Paths.SkipSlash` | fs/fs.c:187-195 | skips slashes only, which changes no part |
| `Paths.NameEnd` | fs/fs.c:333-336 | cuts off exactly the next part |
| `Paths.NextName` | fs/fs.c:331-343 | the next part and the place of the one after it |
| `FsTree.FreshTree` | fs/fs.c:110-128 | on a disk with an empty root, names are unique and no path but the root resolves |
| `FsTree.HasFirst` | fs/fs.c:243-259 | of the records of a name in a directory there is a first one in search order |
| `FsTree.OnlyChild` | fs/fs.c:243-259 | where names are unique it is the only one |
| `FsTree.ResolveInjective` | fs/fs.c:309-365 | a file has at most one path from the root |
| `FsTree.WithoutRoot` | fs/fs.c:592-604 | once the root record is cleared no path leads anywhere |
| `FsTree.SameResolve` | fs/fs.c:234-262 | states with the same named records resolve every path alike |
| `FsTree.OneMoreResolve` | fs/fs.c:373-397 | with one name more, that path leads to it and every other path leads where it did |
| `FsTree.OnTheWay` | fs/fs.c:592-604 | the paths towards a removed file stay |
| `FsTree.OnlyFileTree` | fs/fs.c:410-468 | changing one regular file's blocks keeps unique names unique and every path |
| `Directories.DirLookup` | fs/fs.c:234-262 | the first record of that name in search order, or none exists; it gets an answer exactly if the blocks up to that record, or all of them, can be had; nothing changes in a directory without holes |
| `Directories.DirAllocFile` | fs/fs.c:266-301 | the first unused record, with no hole before it; succeeds exactly if the first block that is missing or has an unused record lies below the largest size and the blocks it needs are free; names and bytes are kept, also when it fails after growing the directory |
| `Directories.RoomDecides` | fs/fs.c:266-301 | that block is the only one that decides |
| `Directories.ExpandDir` | fs/fs.c:292-300 | the record comes from a fresh block, exactly if one can be had; otherwise the directory is one block longer and ends in a hole |
| `Directories.WalkResolves` | fs/fs.c:309-365 | the walk ends where the path resolves to, and reports the directory exactly when only the last part is missing |
| `Directories.WalkPath` | fs/fs.c:309-365 | the result is the fold of lookups over the non-empty parts; it succeeds when no directory on the way has a hole before the next name; unique names stay unique; nothing changes if no directory has holes |
| `Directories.FileCreate` | fs/fs.c:373-397 | on success that path leads to a new empty file and every other path leads where it did; otherwise all paths do; unique names stay unique; no hole is left before a name of the path; when no directory has holes it succeeds exactly if the path leads nowhere yet and its parent is a directory with room |
| `Directories.FileOpen` | fs/fs.c:401-405 | what the path resolves to, or that it does not; it succeeds when no directory on the way has a hole before the next name |
| `Directories.RemoveAt` | fs/fs.c:592-604 | paths beside the removed one lead where they did; without another record of the name it leads nowhere, so removal undoes creation |
| `Directories.GoneBeside` | fs/fs.c:592-604 | paths that do not lead through the removed record are kept even if another record has its name |
| `Directories.FileRename` | fs/fs.c:636-657 | succeeds exactly if the target is a directory with room; the record of a file or directory moves with its bytes and blocks, also into itself; on failure every path is kept; unique names stay unique exactly when the directory has no other file of that name |
| `Directories.RenamePaths` | fs/fs.c:646-654 | without other records of the name: paths through the new place lead where those through the old one did, those through the old one lead nowhere, every other path leads where it did; what was renamed is reachable exactly if it did not go into itself |
| `Directories.CreateThenLose` | fs/fs.c:636-657 | a new directory renamed into itself lies in itself, and no path leads to it |
| `Directories.MovedUnique` | fs/fs.c:646-654 | names stay unique exactly when the directory has no other file of that name |
| `Directories.ContentsKeepTree` | fs/fs.c:410-580 | reading, writing and resizing regular files keeps every path, and unique names unique |
| `Directories.WriteThenRead` | fs/fs.c:410-468 | a write succeeds exactly if its range lies below the largest size and no more blocks are missing in it than are free; then reading the range succeeds and returns what was written |
| `Directories.CreateThenOpen` | fs/fs.c:373-405 | once a file is created, opening its path succeeds, also on a disk that is full by then, and finds that file |
| `SchedSpec.PickIsLeastRun` | kernel/sched.c:38-47 | the scan chooses the first, in circular order, of the least-run runnable environments |
| `SchedSpec.FullScan` | kernel/sched.c:38-49 | the choice has run no more than any runnable environment |
| `SchedSpec.EnvRunInv` | kernel/env.c:505-532 | switching keeps each running environment on one processor |
| `SchedSpec.SchedInv` | kernel/sched.c:15-112 | so does scheduling, whether it switches, resumes or halts |
| `SchedSpec.FreeAlmost` | kernel/env.c:583-586 | freeing an environment that no other processor runs keeps the table right |
| `SchedSpec.ForkAlmost` | kernel/syscall.c:89-105 | so does creating one |
| `SchedSpec.PutStatusInKernel` | kernel/syscall.c:118-131 | and setting a status within the side condition |
| `SchedSpec.SendInKernel` | kernel/syscall.c:351-397 | and waking a receiver |
| `SchedSpec.ReceiveInKernel` | kernel/syscall.c:410-424 | and waiting for a message |
| `SchedSpec.DestroyInKernel` | kernel/env.c:594-611 | and destroying an environment that is not dying |
| `SchedSpec.TrapKeepsInv` | kernel/trap.c:374-437 | every trap of every processor keeps the invariant within the side conditions |
| `SchedSpec.ErrorsChangeNothing` | kernel/syscall.c:56-131 | a system call that reports an error has changed nothing; a returned id names the new environment, which its creator may change |
| `SchedSpec.ExactlyOneCpu` | kernel/env.c:505-532 | then each running or dying environment is current on exactly one processor |
| `SchedRuns.RunKeepsInv` | kernel/trap.c:374-437 | the invariant holds at every release of the lock in every run |
| `SchedRuns.SetStatusExact` | kernel/syscall.c:118-131 | setting a status keeps it exactly within the side condition |
| `SchedRuns.DestroyExact` | kernel/env.c:594-611 | destroying keeps it exactly when the target is not dying already |
| `SchedRuns.ReceiverOnTwoProcessors` | kernel/syscall.c:118-131 | a run in which a receiver made runnable ends up on two processors |
| `SchedRuns.BoundedBypass` | kernel/sched.c:35-49 | while e is runnable and nothing is created, f is selected at most max(0, e.runs - f.runs + 1) times |
| `SchedRuns.AtMostOneDelivery` | kernel/syscall.c:351-424 | between two receptions at most one send succeeds, and a delivered message is not overwritten |
| `SchedRuns.HandledMessage` | kernel/syscall.c:351-397 | what a trap does to the message fields: only a successful send writes them, with value, sender and permissions |
| `SchedRuns.FailedSend` | kernel/syscall.c:360-383 | a send fails for exactly the listed reasons, and then the whole trap changes nothing but the sender's run counter |
| `SchedRuns.StaleId` | kernel/env.c:396-400 | the id of a slot repeats exactly after a multiple of 524287 allocations |
| `SchedRuns.IdsCount` | kernel/env.c:396-400 | in every run the id of a slot is decided by how many environments were created in it |
| `SchedRuns.StaleIdInRuns` | kernel/env.c:60-95 | in every run an old id is found exactly if its slot is in use and a multiple of 524287 environments were created in it since |
| `SchedRuns.LookupIsExact` | kernel/env.c:60-95 | an id reaches the environment that has it now, and no other |
| `SchedLaws.LookupFinds` | kernel/env.c:60-95 | envid2env finds an environment exactly if it is in use and has the id, or is the caller for id 0, and, where permission is checked, is the caller or its child |
| `SchedLaws.LookupSucceeds` | kernel/env.c:60-95 | it succeeds exactly if there is such an environment |
| `SchedLaws.Answers` | kernel/syscall.c:56-131 | each call succeeds exactly if there is someone it may act on and what it needs is there |
| `SchedLaws.BystanderKept` | kernel/trap.c:374-437 | a trap leaves every environment as it is, apart from giving it the processor, but for the caller, the target it may change or whose message it delivers, and the slot it creates in |
| `SchedLaws.StrangersKept` | kernel/syscall.c:56-131 | in every run, setting a status and destroying leave alone whoever is neither the caller nor its child |
| `SchedLaws.StaysAtRest` | kernel/syscall.c:56-131 | in every run an environment that cannot run stays exactly as it is until a message comes or it is set runnable or destroyed |
| `SchedLaws.ReceptionStep` | kernel/syscall.c:410-424 | after a reception the caller waits at the address it gave, whatever runs next |
| `SchedLaws.ReceiverWaits` | kernel/syscall.c:351-424 | in every run it goes on waiting there until a delivery, or until it is set runnable or destroyed; as long as it waits, every send to its id with a good address, and with its page if one is sent, is delivered |
| `SchedLaws.DeliveryStep` | kernel/syscall.c:384-397 | a delivery makes the receiver runnable with value, sender and permissions, and changes nothing else of it |
| `SchedLaws.ForkStep` | kernel/syscall.c:89-105 | the new environment is a child of the caller, not runnable and waiting for nothing, in a slot that was free |
| `SchedLaws.SetStatusStep` | kernel/syscall.c:118-131 | the target has the status asked for; only a caller that made itself runnable may go on at once |
| `SchedLaws.DestroyStep` | kernel/env.c:594-611 | the slot of the target is free, and it is current nowhere, unless it runs on another processor: then it is dying |
| `SchedLaws.DyingUntilTrap` | kernel/trap.c:398-406 | in every run it stays dying until that processor traps; then its slot is free |
| `SchedLaws.SelectedIsNext` | kernel/sched.c:34-49 | whoever is selected has run least of all that are runnable, and among equals comes first behind the current environment in the circular order of slots, or from slot 0 |
| `SchedLaws.NoneWaitsForIdle` | kernel/sched.c:15-112 | a processor is left without an environment only if none is runnable; otherwise its environment has had one more turn, and the other processors keep theirs |
| `SchedLaws.CallerGoesOn` | kernel/trap.c:425-437 | a caller that does not yield and still runs keeps the processor, and everyone else is as its call left them |
| `SchedLaws.YieldGivesWay` | kernel/sched.c:15-112 | a caller that yields gives way exactly if anyone is runnable |
| `Sched.Kernel.constructor` | kernel/env.c:133-148 | all slots free in order, and the invariant holds |
| `Sched.Kernel.EnvRun` | kernel/env.c:505-532 | the new table and current environment |
| `Sched.Kernel.Scan` | kernel/sched.c:35-47 | the loop finds the first least-run environment of the circular order |
| `Sched.Kernel.AnythingLeft` | kernel/sched.c:75-85 | the loop finds out whether anything may still run |
| `Sched.Kernel.SchedYield` | kernel/sched.c:15-112 | switch, resume or halt |
| `Sched.Kernel.EnvFree` | kernel/env.c:583-586 | the slot is free and first on the list |
| `Sched.Kernel.EnvDestroy` | kernel/env.c:594-611 | dying if it runs elsewhere, freed otherwise |
| `Sched.Kernel.Envid2Env` | kernel/env.c:60-95 | the slot, or refusal, as `SchedLaws.LookupFinds` characterises them |
| `Sched.Kernel.SysExofork` | kernel/syscall.c:89-105 | a new environment with a new id, not runnable, and its id; or the error and no change |
| `Sched.Kernel.SysEnvSetStatus` | kernel/syscall.c:118-131 | the new status, or the error and no change |
| `Sched.Kernel.SysEnvDestroy` | kernel/syscall.c:56-67 | the target is destroyed, or the error and no change |
| `Sched.Kernel.SysIpcTrySend` | kernel/syscall.c:351-397 | delivers exactly when the target waits and the page can be passed; the result code of each refusal |
| `Sched.Kernel.SysIpcRecv` | kernel/syscall.c:410-424 | the receiver waits, as `SchedLaws.ReceiverWaits` says, or the error and no change |
| `Sched.Kernel.Dispatch` | kernel/syscall.c:57-131 | the request of a trap, and what the call returns |
| `Sched.Kernel.Trap` | kernel/trap.c:374-437 | from taking to releasing the lock: the specified step, keeping the invariant |
| `ThreadQueue.Queue.constructor` | include/threadq.h:36-41 | an empty queue |
| `ThreadQueue.Queue.Push` | include/threadq.h:43-57 | the thread is appended, also when `tq_last` is stale |
| `ThreadQueue.Queue.Pop` | include/threadq.h:59-70 | the first thread is taken, NULL exactly when there is none |
| `ThreadQueue.Queue.Wakeup` | lib/thread.c:52-63 | marks exactly the waiters on the address |
| `ThreadQueue.Threads.Create` | lib/thread.c:172-209 | a new thread runs last |
| `ThreadQueue.Threads.Yield` | lib/thread.c:126-147 | the next thread runs and the running one goes to the end |
| `ThreadQueue.CycledRotates` | lib/thread.c:126-147 | after n yields the threads are in their old order, counted round from place n |
| `ThreadQueue.RunsAfter` | lib/thread.c:126-147 | so the n-th thread in line runs after n yields |
| `Mailbox.RingPut` | lib/itc.c:193-200 | the ring update appends |
| `Mailbox.RingTake` | lib/itc.c:222-233 | the ring update removes the first |
| `Mailbox.OneMoreTurn` | lib/itc.c:183-237 | a turn keeps what came in equal to what went out and what is there |
| `Mailbox.Mailbox.constructor` | lib/itc.c:139-171 | an empty mailbox with all slots free, whatever the waiters marks of its semaphores |
| `Mailbox.Mailbox.Signal` | lib/itc.c:88-97 | one unit more, and the waiters are woken if there are any |
| `Mailbox.Mailbox.TakeOrWait` | lib/itc.c:99-137 | takes a unit exactly when there is one, otherwise waits on the word as it is then |
| `Mailbox.Mailbox.Put` | lib/itc.c:190-203 | the message is appended; `ERR_MEM` is not reached |
| `Mailbox.Mailbox.Take` | lib/itc.c:222-236 | the first message is delivered; the panic is not reached |
| `Mailbox.Mailbox.TakeTurn` | lib/itc.c:183-237 | a turn posts exactly when there is room and fetches exactly when there is a message, also after waiting: no wakeup is lost; only a blocked thread waits, and the others go on with what they do |
| `Mailbox.Mailbox.Run` | lib/itc.c:183-237 | for every sequence of turns, received messages are those sent, once each, in order |
| `Pipe.StoreIsHarmless` | lib/pipe.c:185-188 | storing at the write position overwrites no unread byte |
| `Pipe.Pipe.constructor` | lib/pipe.c:14-62 | an empty pipe |
| `Pipe.Pipe.ReaderStep` | lib/pipe.c:124-147 | each load or store of the reader keeps the invariant, and with a byte in the pipe it is one step nearer to taking it |
| `Pipe.Pipe.WriterStep` | lib/pipe.c:166-189 | so for the writer, with room in the pipe; it stores the byte it was given |
| `Pipe.Pipe.Run` | lib/pipe.c:110-192 | in every interleaving the bytes read are a prefix of those written and the buffer is never overrun; a reader takes a byte that is there, and a writer stores one for which there is room, within eight turns of its own |
| `PipeRefs.RunKeepsInv` | lib/fd.c:281-293 | in every run of dup, close, exit and fork, a mapped descriptor page comes with a mapped data page, except in a child whose fork has not finished |
| `PipeRefs.CountsBalance` | lib/pipe.c:74-93 | data pages and descriptors without data page together are as many as descriptors of both ends and data pages without descriptor |
| `PipeRefs.FalseExactlyWhen` | lib/pipe.c:82-83 | "closed" is said exactly when as many descriptors lack their data page as there are descriptors of the other end and data pages without descriptor; with the other end open, that is when it is false |
| `PipeRefs.HalfIsUnborn` | lib/fork.c:122-131 | only a child whose fork has not finished has a descriptor without its data page |
| `PipeRefs.ClosedIsTrue` | lib/pipe.c:74-93 | in every run, while no fork is unfinished, whoever is told the other end is closed is told the truth |
| `PipeRefs.ClosedIsExact` | lib/pipe.c:74-93 | and the answer is exact while nobody is in the middle of dup or close either |
| `PipeRefs.LooksApart` | lib/pipe.c:79-93 | exactly when two looks at the counts in different states say "closed" |
| `PipeRuns.NewPipeInv` | lib/pipe.c:20-62 | a new pipe satisfies the invariant |
| `PipeRuns.WholeFork` | lib/fork.c:122-131 | a fork gives the child every mapping of its parent |
| `PipeRuns.ClosedTooEarly` | lib/fork.c:122-131 | a run from a new pipe in which a fork makes a reader believe that an open pipe is closed |
| `PipeRuns.ClosedBetweenLooks` | lib/pipe.c:79-93 | one in which a close between the two looks does |
| `PipeRuns.StaysShut` | lib/fd.c:281-293 | an end that nobody has open stays shut |
| `PipeRuns.EndOfFile` | lib/pipe.c:127-134 | after an end of file nothing is stored, and all bytes have been read exactly if between the two tests as many were taken as stored |
| `PipeRuns.ByteMissed` | lib/pipe.c:127-134 | a run from a new pipe in which a byte is left unread |
| `LwipMem.SpansApart` | net/lwip/core/mem.c:479-605 | allocations do not overlap, lie in the heap and are aligned |
| `LwipMem.AllocateSpans` | net/lwip/core/mem.c:532-572 | an allocation adds one span that holds the request; what is left of the block is free exactly if it has room for one |
| `LwipMem.ShrinkSpans` | net/lwip/core/mem.c:404-456 | shrinking keeps the start of the span and the bytes asked for, and every other span; what is cut off is free; it ends exactly behind them if a free block follows or the rest has room for one |
| `LwipMem.FreeSpans` | net/lwip/core/mem.c:294-340 | a free removes exactly that span |
| `LwipMem.FreeUndoesMalloc` | net/lwip/core/mem.c:294-340 | free after malloc restores the block list |
| `LwipMem.PlugLeavesNoNeighbours` | net/lwip/core/mem.c:221-254 | after plugging no two neighbours are free |
| `LwipMem.Heap.constructor` | net/lwip/core/mem.c:259-286 | one free block |
| `LwipMem.Heap.PlugHoles` | net/lwip/core/mem.c:221-254 | merges on both sides, relinks, and keeps the lowest-free mark exact |
| `LwipMem.Heap.Free` | net/lwip/core/mem.c:294-340 | frees a live block and plugs; other addresses are ignored |
| `LwipMem.Heap.Malloc` | net/lwip/core/mem.c:479-605 | fails exactly when no free block fits; else the lowest that fits |
| `LwipHeap.RoundUpIsEnough` | net/lwip/core/mem.c:494-501 | the rounded size covers the request exactly unless rounding wraps, and then is the minimum |
| `LwipMem.Heap.Scan` | net/lwip/core/mem.c:515-533 | starting at the lowest-free mark misses no fitting block |
| `LwipMem.Heap.Take` | net/lwip/core/mem.c:537-583 | splits or takes the whole block |
| `LwipMem.Heap.FindLowest` | net/lwip/core/mem.c:574-583 | the mark moves to the next free block or the end |
| `LwipMem.Heap.Realloc` | net/lwip/core/mem.c:354-468 | shrinks in place, with the span and the other spans as `LwipMem.ShrinkSpans` says; refuses to grow |
| `LwipMem.Heap.ShrinkBlock` | net/lwip/core/mem.c:404-456 | the span keeps its start and the bytes asked for; the cut-off part joins a free successor, becomes a block, or stays; other spans are kept |
| `MallocList.MallocCoalesced` | lib/malloc.c:80-105 | malloc keeps neighbours from being both free and the last block in use |
| `MallocList.FreeCoalesced` | lib/malloc.c:141-167 | so does free |
| `MallocList.MallocOthers` | lib/malloc.c:80-105 | malloc keeps every other used block |
| `MallocList.FreeOthers` | lib/malloc.c:141-167 | so does free |
| `MallocList.AlignIsEnough` | lib/malloc.c:20 | rounding up covers the request exactly unless it wraps, and then gives 0 |
| `MallocList.SameEnd` | lib/malloc.c:58-78 | where the list ends is decided by the headers alone |
| `MallocRuns.RunKeepsInv` | lib/malloc.c:80-240 | in every run of malloc, free and realloc, with any failures of sbrk, the blocks tile the heap up to the break, or up to the end of a last block in use at the break, until one address is handed out twice |
| `MallocRuns.StopsIff` | lib/malloc.c:118-125 | the assertions fail exactly for the last block below the break if it is empty, and for a block at a break that has not moved |
| `MallocRuns.NothingStops` | lib/malloc.c:118-240 | in every run in which no request rounds to 0 and sbrk does not fail, the blocks tile the heap, no block in use is empty, and no free or realloc ends the program |
| `MallocRuns.EmptyBlockStops` | lib/malloc.c:118-125 | free(malloc(0)) and realloc(malloc(0), n) end the program |
| `MallocSpans.MallocHands` | lib/malloc.c:80-105 | malloc adds one span that holds the request where nobody held any; what is left of the block is a free block if it has room for one |
| `MallocSpans.FreeTakes` | lib/malloc.c:141-167 | free removes exactly the span of the block; its memory lies in one free block, or behind the end of the list if nothing followed it |
| `MallocSpans.ReleaseTakes` | lib/malloc.c:141-167 | the same with the break: freed memory lies in one free block, or at or above the new end and the new break |
| `MallocSpans.FreedIsReused` | lib/malloc.c:80-167 | a malloc of no more bytes than were freed does not grow the heap, unless the block was given back |
| `MallocSpans.InPlaceSpans` | lib/malloc.c:205-225 | realloc in place keeps the start of the span and the bytes asked for, and every other span; what it does not need is a free block if it has room for one |
| `MallocSpans.MoveSpans` | lib/malloc.c:226-238 | realloc that moves exchanges the old span for the new one; the old memory lies in one free block, or at or above the new end and the new break |
| `MallocHeap.TilesIff` | lib/malloc.c:58-78 | a list that goes on behind the break is no tiling of the heap, however its blocks are counted |
| `MallocHeap.Heap.Sbrk` | lib/sbrk.c:9-39 | the break moves up exactly if there is room and pages enough; no failure is reported as -1, and pages mapped before it stay |
| `MallocHeap.Heap.FindBlock` | lib/malloc.c:22-33 | the first block that fits, or the last block |
| `MallocHeap.Heap.SplitBlock` | lib/malloc.c:36-55 | the block list is cut there and the links are right |
| `MallocHeap.Heap.ExtendHeap` | lib/malloc.c:58-78 | a block at the old break in all cases; when it ends the program; and when the address was handed out before, after which following the list never ends |
| `MallocHeap.Heap.Malloc` | lib/malloc.c:80-105 | the step of the specification for every outcome of sbrk; tiling holds afterwards exactly if a block fitted or the break moved; bytes of other blocks kept |
| `MallocHeap.MallocTwice` | lib/malloc.c:58-105 | two requests that nothing fits, the first when sbrk fails, get one address |
| `MallocHeap.HandedOutTwice` | lib/malloc.c:58-105 | a run from a new heap in which that happens |
| `MallocHeap.Heap.ValidAddr` | lib/malloc.c:118-125 | the three assertions hold exactly if the block lies below the break |
| `MallocHeap.Heap.Fusion` | lib/malloc.c:127-139 | a free successor is absorbed |
| `MallocHeap.Heap.Free` | lib/malloc.c:141-167 | ends the program exactly if the block does not lie below the break, and changes nothing then; otherwise its span, and no other, is free or given back, as `MallocSpans.ReleaseTakes` says |
| `MallocHeap.Heap.CopyBlock` | lib/malloc.c:186-196 | copies the smaller of the two sizes and nothing else |
| `MallocHeap.Heap.ReallocInPlace` | lib/malloc.c:205-225 | taken exactly when the block or the block with its free successor is large enough; keeps address, bytes and other blocks |
| `MallocHeap.Heap.ReallocMove` | lib/malloc.c:226-238 | for every outcome of sbrk: the bytes move and other blocks are kept, or NULL and no change, or the end of the program |
| `MallocHeap.Heap.Realloc` | lib/malloc.c:198-240 | for every 32-bit size and every outcome of sbrk: the step of the specification; where it succeeds, the first min(old, new) bytes survive and other blocks are kept |
| `Div64.AshlIsShift` | lib/div64.c:13-29 | the assembled left shift is multiplication by a power modulo 2^64 |
| `Div64.LshrIsShift` | lib/div64.c:32-48 | the assembled right shift is division by a power |
| `Div64.Align` | lib/div64.c:78-85 | the doubling loop does not overflow and finds the largest shifted divider |
| `Div64.Round` | lib/div64.c:77-88 | each round sets a new lower bit, so or acts as addition, and the rest shrinks |
| `Div64.Subtract` | lib/div64.c:77-93 | quotient and remainder of the long division |
| `Div64.Divide` | lib/div64.c:52-94 | the quotient is exact; the remainder is, exactly unless dividend < 2^32 <= divider |

## Left out

- Devices, ports, boot code, page-directory loading and stack switching: hardware effects; a switch is a state change.
- The rest of lwIP, the shell, user programs, printing, ELF loading and spawning: they would only add easy members.
- Flushing blocks to disk and evicting cached blocks in fs/fs.c: a block is its cached page.
- fs/fs.c file_dir_each_file and fs/fsformat.c.
- FileSystem.FileSystem.constructor: a disk starts with an empty root; a disk that holds files already is reached only by the operations.
- FileSystem.FileSystem.FileBlockWalk: an indirect block is added only to a file long enough to use it, as all callers ask.
- FileSystem.FileSystem.FileGetBlock: only for block numbers below the end of the file or out of range, as all callers ask.
- FileSystem.FileSystem.FileFreeBlock: a block of a directory goes only if its records are unused; FsCuts.CutLeaksUnless is about the others.
- FileSystem.FileSystem.FileTruncateBlocks: a directory is cut only where its records are unused.
- FileSystem.FileSystem.FileSetSize: a directory is cut only where its records are unused.
- FileSystem.FileSystem.FileRead: not for directories, whose blocks are modelled as records and not as bytes; positions are unbounded, so 32-bit overflow of offset plus count is not modelled.
- FileSystem.FileSystem.FileWrite: not for directories and not through a handle of a file removed meanwhile; positions are unbounded numbers.
- FileSystem.FileSystem.FileRemove: for regular files and directories whose records are all unused, as fs/serv.c empties a directory before it removes it; not for the root, which is FsTree.WithoutRoot.
- Directories.DirLookup: directories consist of whole blocks, as the source asserts, which every operation keeps.
- Directories.FileCreate: exactly when it succeeds is stated for file systems in which no directory has holes and for names short enough.
- Directories.RemoveAt: for regular files and directories whose records are all unused, not for the root.
- Directories.FileRename: the source is not the root, whose record would be cleared.
- Directories.RenamePaths: when neither directory has another record of the name.
- FsCuts.CutLeaksUnless: the directory does not lie in one of its own blocks.
- Directories.WalkPath: path names contain no NUL character.
- Paging: the kernel half of page directories, translation caches, and wrap-around of the 16-bit reference counts.
- Paging.Kernel.SysPageAlloc: for environments that exist and that the caller may change.
- Paging.Kernel.SysPageMap: for environments that exist and that the caller may change; physical page 0 is reserved, as page_init makes it.
- Paging.Kernel.EnvSetupVm: the kernel part of the new directory and the entry at which it maps itself are left out.
- EagerFork.CowRefinesEager: the start is a state without page faults under way, in which copy-on-write is found only on mappings that fork can make so; an environment whose fork panics goes on instead of exiting.
- ForkTraces.SameTraces: from such a start; there is always an unused page.
- ForkCode.Machine.SysPageMap: address ranges, the lookup of environments and lack of memory are in Paging.Kernel.SysPageMap.
- ForkCode.Machine.SysPageAlloc: memory never runs out.
- ForkCode.Machine.Fork: the child is blank; memory never runs out; the parent's own stack does not change during the loop.
- ForkCode.Machine.PgFault: memory never runs out; the faulting page is not PFTEMP itself.
- Buddy.BuddyPool.Free: the address is live.
- MallocHeap.Heap.Free: the address is that of a block in use; for others the last assertion depends on what the program has stored there.
- MallocHeap.Heap.ReallocMove: after an address has been handed out twice, copying and freeing are not followed any more.
- MallocHeap.Heap.Sbrk: whether a page can be mapped is an input; a write to a page that is not mapped ends the program.
- BuddyRace.RunKeepsInv: every caller frees only what it holds; the loops under the lock are one step.
- LwipMem.Heap.Free: the address is that of a live block or outside the heap; statistics and protection are left out.
- SchedSpec.TrapKeepsInv: when nothing is left to run the processor stays in the monitor and keeps the lock, so nothing is said after that; saved registers and address spaces are left out.
- Sched.Kernel.Dispatch: what system calls about memory and devices return is left out.
- SchedRuns.BoundedBypass: run counters do not wrap.
- Mailbox.Mailbox.constructor: both semaphores are available; freeing a mailbox in use is left out.
- Mailbox.Mailbox.TakeTurn: a timed wait expires by an input, not a clock.
- ThreadQueue: thread_halt, the kill queue and the contents of thread stacks.
- Pipe.Pipe.Run: positions are unbounded numbers, and there is one reader and one writer.
- PipeRuns.EndOfFile: a store or a taken byte is one step, and an environment stores or takes only between its own dup, close and fork.

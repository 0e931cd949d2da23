# Verified models of the kernel's and user library's hard parts

This project models the parts of this RISC-V teaching kernel (xv6 with a tree-based buddy allocator and process
namespaces) whose correctness is not visible in any one function, and proves what they promise. Code that changes
state step by step is a class whose methods carry the loops and stores of the C code; each method is proved against a
function or predicate on values, and the theorems are about those.

- **Buddy allocator** (`PowersOfTwo`, `BuddyTree`, `BuddyCounters`, `BuddySum`, `BuddySpec`, `BuddyBlock`,
  `BuddyHistory`, `BuddyAllocator`). One tree is an array of `MemNode`s indexed like a heap, with the cached
  `maxFreePage` of every node and the two counters `free` and `free_by_size` moved by deltas around the recursion to the
  root. The abstract state is the set of used bits. The depth of the trees and their number are arbitrary (at least two
  levels). Main results: after any run every cache and counter is a function of the live blocks alone, allocation fails
  exactly when no block of that size is free, release frees exactly the block that starts at the address.
- **Write-ahead log** (`WriteAheadLog`, `LogFile`, `GroupCommit`). Disk states after every block write of `commit` and of
  recovery, with a crash allowed between any two, over whole histories of transactions, crashes and recoveries; the
  group-commit protocol over all interleavings.
- **Buffer cache** (`BufferList`, `BufferCache`). The doubly linked ring and the cache as steps of any number of
  processes; `bread` always yields what was last released.
- **Inode blocks** (`InodeBlocks`, `InodeContents`, `InodeFile`, `InodeTight`). Free map, direct and indirect slots,
  truncation, reading and writing bytes, the order of the `log_write`s and the number of blocks one transaction logs.
- **Page tables** (`PageTree`, `PagePrivate`, `PageCount`, `PageTable`, `PageGrowth`, `PageRelease`). Three-level Sv39
  tables (section 4.4 of the RISC-V Privileged Architecture manual, version 1.12) as words in memory, refined to flat
  maps; exactly how many free pages a mapping takes; growth with rollback; release of whole address spaces.
- **User malloc** (`FreeList`, `Umalloc`). The circular address-ordered free list of section 8.7 of Kernighan and
  Ritchie, second edition, over memory words.
- **Virtio disk** (`VirtioQueue`, `VirtioProtocol`, `VirtioDisk`). Driver, device and interrupt handler over one split
  queue (sections 2.6 and 5.2 of VirtIO 1.1), as atomic steps in every interleaving.
- **Namespaces** (`NamespaceTree`, `NamespaceSteps`, `Namespaces`). The tree of pid namespaces over runs of `fork`,
  `clone`, `exit` and the reaping end of `wait`.
- **Shell parser** (`ShellParser`, `ShellGrammar`, `ShellRender`, `ShellLexer`, `Shell`). A grammar as a relation between
  lines and command trees, the recursive descent, which accepts exactly what the grammar derives, rendering, and
  `nulterminate` on the line buffer.
- **Grep** (`Grep`). The matcher against a declarative meaning of its patterns.

## Where code and expectation differ

- `checker_cnt_page` accepts 2^31 as well, because `2 * cnt` is 32 bits wide and wraps to 0; on 0 its loop does not end.
  `CheckerCntPage` states exactly what is accepted for every nonzero count; `BuddyAlloc` is stated for counts below 2^31
  (`alloc_in_block` takes a 16-bit size, so an accepted 2^31 would reach it as 0).
- The repository's README describes the per-size counters in ascending order of size; the code indexes `free_by_size` by
  depth, so entry 0 counts whole trees. The model follows the code.
- `log_write` tests for a full log before it looks for the block in the log. A write within an operation's budget
  therefore panics exactly when the log is full, and then the block is one that is already logged and needs no slot
  (`GroupCommit.WritePanicsIff`); a full log is reachable (`GroupCommit.FullLogReachable`). It takes an operation that
  goes on writing after its tenth block. A transaction whose tenth block is its last write cannot panic in any
  interleaving (`GroupCommit.InBudgetNeverPanics`), and every chunk of `filewrite` is one (`InodeFile.TransNeverPanics`).
- `clone` checks neither that a namespace node is free nor that the array of pids has room for one more level;
  `Namespaces.Procs.Clone` states exactly when it faults.
- `brelse`, `bpin` and `bunpin` rely on their callers; their rows state exactly when the cache stays consistent.

## Model

| member | source | states |
|---|---|---|
| BuddyAllocator.CheckerCntPage | kernel/buddy_alloc.c:193-200 | accepts exactly the powers of two that fit a tree, and 2^31, for every nonzero 32-bit count |
| BuddyAllocator.WrappedCountAccepted | kernel/buddy_alloc.c:193-200 | 2^31 pages pass the test although no tree is that large |
| BuddyAllocator.SizeLevel | kernel/buddy_alloc.c:193-200 | an accepted count below 2^31 is the block size of exactly one level |
| BuddyBlock.CheckMeaning | kernel/buddy_alloc.c:22-37 | on a node outside used blocks the test on the caches says whether the node is a maximal wholly free block |
| BuddyBlock.LayOutNodes | kernel/buddy_alloc.c:56-78 | the node loop gives every node its children, parent, depth, size and start address, all free |
| BuddyBlock.BlockMem.constructor | kernel/buddy_alloc.c:40-86 | a tree that starts where its slice of nodes_mem says, with all caches and counters right for no live block |
| BuddyBlock.BlockMem.UpdateNodeFreeCnt | kernel/buddy_alloc.c:88-122 | called after one used bit changed below n, it makes every cached maximum right again and moves each level's counter to the true number of maximal free blocks |
| BuddyBlock.BlockMem.AllocInNode | kernel/buddy_alloc.c:124-147 | takes the node reached by descending, which is free and of the requested size, and keeps all caches right |
| BuddyBlock.BlockMem.AllocInBlock | kernel/buddy_alloc.c:149-161 | returns 0 and changes nothing iff the tree has no block of that level, else takes one |
| BuddyBlock.BlockMem.FreeInNode | kernel/buddy_alloc.c:163-184 | releases the used node that starts at the address below this node, if any; going on downwards after the release is harmless |
| BuddyBlock.BlockMem.FreeInBlock | kernel/buddy_alloc.c:186-191 | in the whole tree precisely the live block starting at the address is released, or nothing changes |
| BuddyTree.Aligned | kernel/buddy_alloc.c:72-76 | node i of depth d is the (i - 2^d)-th block of its level, aligned to its own size and inside the tree |
| BuddyTree.Apart | kernel/buddy_alloc.c:72-76 | nodes that are not on one path own disjoint page ranges |
| BuddyTree.MaxFreeUpper | kernel/buddy_alloc.c:100-111 | no wholly free node below i is larger than the recomputed maximum |
| BuddyTree.DescendStep | kernel/buddy_alloc.c:141-146 | a node with room for a smaller size has a child with room for it |
| BuddyCounters.LevelDelta | kernel/buddy_alloc.c:94-99 | on the path of a changed node, a level's count of maximal free blocks changes by what changes in the sibling pair on the path |
| BuddyCounters.OwnLevelDelta | kernel/buddy_alloc.c:128-131 | at its own level taking a block counts one block out or its buddy in |
| BuddyCounters.FreePagesDelta | kernel/buddy_alloc.c:134 | the free pages move by exactly the size of the block |
| BuddySum.FreeIsSumBySize | kernel/buddy_alloc.c:80-84 | free pages are the numbers of maximal free blocks weighted by their sizes |
| BuddySpec.PlaceIsAvailable | kernel/buddy_alloc.c:141-146 | the descent ends at a node of the requested level that is wholly free and inside no used block |
| BuddySpec.RoomIffAvailable | kernel/buddy_alloc.c:154-157 | the root's maximum says exactly whether a block of a level is available |
| BuddySpec.TargetFound | kernel/buddy_alloc.c:163-184 | the descent by address finds the live block starting there iff there is one |
| BuddySpec.NoTargetInFree | kernel/buddy_alloc.c:176-183 | in a wholly free subtree the descent finds nothing |
| BuddySpec.RunKeepsAntichain | kernel/buddy_alloc.c:124-184 | over every run of requests no used block lies inside another |
| BuddySpec.AllocThenFree | kernel/buddy_alloc.c:124-184 | freeing what was just allocated restores the exact state |
| BuddySpec.FreeEverything | kernel/buddy_alloc.c:163-184 | freeing all live blocks in any order, with repetitions, leaves the tree all free |
| BuddyHistory.HistoryIndependence | kernel/buddy_alloc.c:88-184 | two consistent trees with the same live blocks agree in every node and in all of info |
| BuddyHistory.LiveBlocksApart | kernel/buddy_alloc.c:124-147 | live blocks of one tree never overlap |
| BuddyHistory.CountersMean | kernel/buddy_alloc.c:80-84 | free_by_size[d] is the number of maximal free blocks of depth d, at most 2^d; free is their weighted sum, at most the tree |
| BuddyHistory.EmptyIsInitial | kernel/buddy_alloc.c:124-184 | any run of requests that leaves no live block leaves every node unused |
| BuddyHistory.EmptyMemoryIsInitial | kernel/buddy_alloc.c:40-86 | after such a run every node and all of info are as init_block left them |
| BuddyHistory.FreeAllIsInitial | kernel/buddy_alloc.c:163-191 | freeing all live blocks, in any order and with repetitions, leaves every node unused |
| BuddyAllocator.Buddy.constructor | kernel/buddy_alloc.c:209-219 | the trees tile one contiguous range from mem_separator on, all free |
| BuddyAllocator.Buddy.BuddyAlloc | kernel/buddy_alloc.c:235-248 | 0 iff the count is no power of two that fits a tree or no tree has a wholly free block of that size outside live blocks; else one such block of the first tree that has one, with no other change |
| BuddyAllocator.Buddy.BuddyFree | kernel/buddy_alloc.c:221-233 | panics iff the address is unaligned or out of range; else releases precisely the live block that starts at pa, in whichever tree, or changes nothing |
| BuddyAllocator.AllLiveApart | kernel/buddy_alloc.c:209-219 | over all trees together live blocks never overlap |
| BuddyAllocator.SlotStart | kernel/buddy_alloc.c:51 | the start address computed from the node index is k tree sizes after mem_separator |
| WriteAheadLog.InstallKeepsLog | kernel/log.c:68-83 | installing never touches the log area |
| WriteAheadLog.InstalledHomes | kernel/log.c:68-83 | installing changes exactly the recorded blocks, each to the last log block recorded for it |
| WriteAheadLog.PartialInstall | kernel/log.c:68-83 | recovery from any partial install ends where recovery from the start ends |
| WriteAheadLog.RecoveryCrash | kernel/log.c:116-123 | a crash at any write of a recovery does not change what a later recovery produces |
| WriteAheadLog.CrashesKeepRecovered | kernel/log.c:116-123 | the same for any number of interrupted recoveries |
| WriteAheadLog.CommittedIsPost | kernel/log.c:193-203 | from the first write_head on, recovery yields exactly the new contents |
| WriteAheadLog.LoggedIsPre | kernel/log.c:178-191 | before the first write_head, recovery yields exactly the old contents |
| WriteAheadLog.LoggedIs | kernel/log.c:178-191 | write_log puts each contents into its log block and changes nothing else |
| WriteAheadLog.CrashAtomicity | kernel/log.c:193-203 | a commit crashed anywhere, then any number of crashed recoveries and a completed one, leaves the home blocks exactly old or exactly new, switching at the first write_head only |
| WriteAheadLog.CommitCompletes | kernel/log.c:193-203 | an uninterrupted commit ends with an empty header and the new contents at home |
| WriteAheadLog.HistoryDurable | kernel/log.c:116-203 | over any history of completed commits, crashed commits and interrupted recoveries, each home block holds what the last transaction to reach its first write_head stored there, and no other transaction leaves a trace |
| LogFile.Log.WriteLog | kernel/log.c:178-191 | its block writes are the new contents, one by one, into the log |
| LogFile.Log.WriteHead | kernel/log.c:102-114 | one write: the header lists the recorded blocks, later words keep their contents |
| LogFile.Log.InstallTrans | kernel/log.c:68-83 | its block writes are the logged contents, in order, to their homes |
| LogFile.Log.ReadHead | kernel/log.c:86-97 | loads exactly the recorded block numbers |
| LogFile.Log.RecoverFromLog | kernel/log.c:116-123 | from any readable disk its writes are exactly the recovery trace |
| LogFile.Log.Commit | kernel/log.c:193-203 | its writes are exactly the commit trace, and it ends quiet |
| GroupCommit.StepKeepsInv | kernel/log.c:126-235 | each step keeps: committing implies nothing outstanding, logged numbers distinct, lh.n plus unspent budgets at most LOGSIZE |
| GroupCommit.PathKeepsInv | kernel/log.c:126-235 | the same in every reachable state of every interleaving |
| GroupCommit.LogHoldsWrites | kernel/log.c:126-235 | in every interleaving the log holds exactly the blocks written since the last commit ended, so a commit is handed every block of the operations it covers |
| GroupCommit.EndNeverPanics | kernel/log.c:146-175 | the end_op panic is unreachable and a commit starts exactly when the last operation ends |
| GroupCommit.NewBlockFits | kernel/log.c:214-235 | a write of a new block within the budget always finds a slot |
| GroupCommit.WritePanicsIff | kernel/log.c:219-222 | a write within the budget panics iff the log is full, and then its block is already logged |
| GroupCommit.FullLogReachable | kernel/log.c:126-235 | a full log is reachable |
| GroupCommit.InBudgetNeverPanics | kernel/log.c:214-235 | an operation whose writes before the last touch fewer than MAXOPBLOCKS distinct blocks never panics in log_write, whatever other processes do in between |
| GroupCommit.CommitReady | kernel/log.c:161-165 | a commit is handed distinct blocks, no more than fit |
| GroupCommit.Log.BeginOp | kernel/log.c:126-142 | one pass: the process sleeps iff a commit is running or ten more blocks per operation could exceed thirty; else one more operation is outstanding; the log is untouched |
| GroupCommit.Log.LogWrite | kernel/log.c:214-235 | panics iff the log is full or no operation is running, else absorbs a recorded block or appends it; within the budget it is a step of the protocol |
| GroupCommit.Log.EndOp | kernel/log.c:146-166 | one operation fewer, the recorded blocks stay, and this process commits iff none is left |
| GroupCommit.Log.FinishCommit | kernel/log.c:167-175 | the log is empty and open again |
| BufferList.Unlink | kernel/bio.c:124-125 | the ring without the buffer, in both directions |
| BufferList.PushFront | kernel/bio.c:126-129 | the ring with the buffer right after the head |
| BufferCache.HitInv | kernel/bio.c:65-74 | a reference to a cached block keeps the invariant |
| BufferCache.RecycleInv | kernel/bio.c:76-88 | recycling a free buffer loses nothing that was released or recorded |
| BufferCache.AcquireInv | kernel/bio.c:92-103 | bread yields the latest released contents, cached or from disk |
| BufferCache.BrelseInv | kernel/bio.c:116-137 | a buffer that was written or is pinned may be released |
| BufferCache.BrelseExact | kernel/bio.c:116-137 | and only then: otherwise what was released is neither on disk nor kept for the log |
| BufferCache.PinExact | kernel/bio.c:139-144 | pinning keeps the invariant iff the buffer holds a block that is not pinned yet |
| BufferCache.UnpinExact | kernel/bio.c:146-151 | unpinning keeps it iff the block is pinned, and held or up to date on disk |
| BufferCache.PinnedStays | kernel/bio.c:139-151 | a pinned block stays cached and is never recycled |
| BufferCache.NextKeepsInv | kernel/bio.c:58-151 | every step of every process keeps: one buffer per block, the list a permutation of the buffers, the disk up to date for unpinned unheld blocks |
| BufferCache.RunKeepsInv | kernel/bio.c:36-151 | the same in every state of every run after binit |
| BufferCache.StoreIsClean | kernel/bio.c:106-112 | bwrite puts the held contents on disk, touches no other block, and makes the buffer releasable |
| BufferCache.ReleaseIsMostRecent | kernel/bio.c:121-130 | the last reference released puts the buffer first and keeps the order of the others |
| BufferCache.ReadsLastReleased | kernel/bio.c:92-137 | over every run bread returns what the last brelse of the block released, or the boot contents, also after the buffer was recycled |
| BufferCache.Bcache.constructor | kernel/bio.c:36-53 | one ring through all buffers, all free |
| BufferCache.Bcache.Bget | kernel/bio.c:58-89 | the buffer that caches the block, else the least recently used free one relabelled (every buffer behind it on the list is in use), else a panic |
| BufferCache.Bcache.Acquire | kernel/bio.c:92-103 | the holder sees the latest released contents |
| BufferCache.Bcache.Bwrite | kernel/bio.c:106-112 | the disk block becomes the buffer's contents, no other block changes, and the buffer may be released |
| BufferCache.Bcache.Brelse | kernel/bio.c:116-137 | panics iff the buffer is not held; else its contents are released and an unreferenced buffer becomes the most recent; the invariant survives iff the block was written or is pinned |
| BufferCache.Bcache.Bpin | kernel/bio.c:139-144 | one more reference; the invariant survives iff the buffer holds a block that is not pinned yet |
| BufferCache.Bcache.Bunpin | kernel/bio.c:146-151 | one reference less; the invariant survives iff the block is pinned, and held or up to date on disk |
| InodeBlocks.FilledOwnership | kernel/fs.c:382-421 | storing a newly allocated block in an empty slot keeps: every set bit is owned by exactly one slot or is metadata |
| InodeBlocks.FilledSlots | kernel/fs.c:382-421 | no other slot and no other contents change |
| InodeBlocks.PatchedSlots | kernel/fs.c:518-530 | a copy into one file block moves no slot and changes no other block |
| InodeBlocks.FreeNext | kernel/fs.c:425-453 | each block's bit is still set when its turn to be freed comes |
| InodeBlocks.TruncatedInv | kernel/fs.c:425-453 | after truncation the inode owns nothing, its blocks are free and all else is as before |
| InodeContents.WriteResult | kernel/fs.c:505-539 | setting the size at the end gives exactly the old contents with the written bytes spliced in, and no other file changes |
| InodeContents.WriteInv | kernel/fs.c:505-539 | the file has no hole below its new size |
| InodeContents.OnDisk | kernel/fs.c:382-421 | where byte p of a file is on disk: block p / 1024 through twelve direct slots and one block of 32-bit numbers |
| InodeContents.SpliceBytes | kernel/fs.c:505-539 | byte by byte, what a splice is |
| InodeFile.FileSystem.Balloc | kernel/fs.c:65-88 | the first free block, marked, filled with 1024 zeros and logged with its free-map block, or 0 iff there is none |
| InodeFile.FileSystem.Bfree | kernel/fs.c:91-105 | clears the bit of a block in use |
| InodeFile.FileSystem.Bmap | kernel/fs.c:382-421 | the block that one of the twelve direct slots or the indirect block names for the file block, allocated if missing, never shared with another slot; 0 only if the disk is full |
| InodeFile.FileSystem.Itrunc | kernel/fs.c:425-453 | exactly the blocks of the inode are freed, each once, the panic of bfree is unreachable, the inode is empty, other inodes keep their contents, and every changed free-map block and the inode block are logged |
| InodeFile.FileSystem.Readi | kernel/fs.c:471-496 | returns exactly the bytes of the file in the range and allocates nothing |
| InodeFile.FileSystem.Writei | kernel/fs.c:505-539 | refuses a bad range, else the file is its old contents with a prefix of the source spliced in, all of it unless the disk is full; every changed block is logged |
| InodeFile.WriteChunk | kernel/file.c:149-175 | one chunk logs every block it changes, at most MAXOPBLOCKS distinct ones and fewer before its last write, at any offset and for any number of bits per free-map block |
| InodeFile.TransNeverPanics | kernel/file.c:149-175 | no log_write of such a chunk panics, in any interleaving with other operations |
| InodeFile.FileWrite | kernel/file.c:134-181 | one such transaction per chunk of 3072 bytes, from the old state to the new; together they write a prefix of the source, all of it iff it reports success |
| InodeTight.TenBlocks | kernel/file.c:149-160 | the bound is attained with 8192 bits per free-map block, on a disk with log, inodes, free map and data in the order of mkfs: a chunk that logs exactly ten blocks |
| PageTree.SlotsDistinct | kernel/vm.c:85-103 | distinct pages, or pages of distinct roots, never share an entry |
| PageTree.Translation | kernel/vm.c:85-103 | an entry is found by nine bits of the page number at each of three levels, through valid entries without permissions |
| PageTree.WithTableSame | kernel/vm.c:94-99 | an interior table created by walk changes no map |
| PageTree.WithRootGet | kernel/vm.c:196-205 | a new empty root maps nothing and changes no other map |
| PageTree.WithEntryGet | kernel/vm.c:142-165 | storing one entry changes the flat map there and nowhere else |
| PageTree.MadePte | kernel/riscv.h:348-357 | an entry made from a page and permissions gives both back |
| PageTable.VM.constructor | kernel/kalloc.c:26-36 | after boot every page of the pool is free and there is no table |
| PageTable.VM.UvmCreate | kernel/vm.c:196-205 | an empty page table on a page of its own, or 0 iff no page is free; no other map changes |
| PageTable.VM.Walk | kernel/vm.c:85-103 | the last-level table of the address, created if wanted, which takes exactly the pages of the missing tables and fails iff there are fewer; maps unchanged |
| PageCount.TablesNext | kernel/vm.c:85-103 | the number of tables a run of pages lacks grows by those still missing on the next page's path |
| PageCount.RunNext | kernel/vm.c:85-103 | mapping a run page by page uses exactly the pages it lacks, and stops early iff they do not suffice for all |
| PageTable.VM.WalkAddr | kernel/vm.c:108-126 | the physical page of a user-accessible mapped address, else 0 |
| PageTable.VM.MapPages | kernel/vm.c:142-165 | maps the pages in order and succeeds iff there is a free page for every table the range lacks; nothing else changes |
| PageTable.VM.UvmUnmap | kernel/vm.c:170-192 | unmaps exactly these pages and frees each physical page once if asked |
| PagePrivate.PagesOfAre | kernel/vm.c:170-192 | the pages freed with a range are exactly those its entries point to |
| PageTable.VM.UvmDealloc | kernel/vm.c:255-267 | unmaps and frees exactly the whole pages between the sizes |
| PageGrowth.UvmAlloc | kernel/vm.c:225-249 | succeeds iff the free pages suffice for the new pages and for the tables they lack; then maps pages of its own up to the new size, each 4096 zeros, else restores every map and every leaf page; pages in use keep their contents |
| PageGrowth.UvmCopy | kernel/vm.c:305-333 | succeeds iff the free pages suffice for the copies and for the tables they lack; then the child has its own pages with the parent's flags and contents, else every map and leaf page is restored; pages in use keep their contents |
| PageGrowth.GrownMore | kernel/vm.c:232-246 | one more page: all other maps unchanged, the new page disjoint from all pages of the run and the pool |
| PageGrowth.FilledNext | kernel/vm.c:319-326 | filling the next page leaves the contents of all pages already given |
| PageGrowth.RolledBack | kernel/vm.c:235-245 | unmapping and freeing the run restores the maps and the pool |
| PageRelease.FreeWalk | kernel/vm.c:271-287 | frees the table and every table below it exactly once |
| PageRelease.TreesApart | kernel/vm.c:271-287 | distinct tables of one level have disjoint trees |
| PageRelease.TreeIsPaths | kernel/vm.c:271-287 | the tables freewalk frees are exactly the root and the tables that translations through it visit |
| PageRelease.PrunedSame | kernel/vm.c:271-287 | every other root keeps its whole map |
| PageRelease.EmptyIsBare | kernel/vm.c:271-287 | an address space that maps nothing has no leaf entry for freewalk to panic on |
| PageRelease.UvmFree | kernel/vm.c:291-297 | every mapped page, every table on the path of some page and the root become free, and no other table; other roots keep their maps |
| FreeList.InsertSorted | user/umalloc.c:33-42 | freeing keeps the list address-ordered with gaps between blocks |
| FreeList.InsertCover | user/umalloc.c:33-42 | the free units are those before and those of the block |
| FreeList.CarveSorted | user/umalloc.c:75-82 | taking a block or its tail keeps the list address-ordered with gaps |
| FreeList.CarveCover | user/umalloc.c:75-82 | exactly the units handed out leave the free list |
| Umalloc.StopsAt | user/umalloc.c:30-32 | the search in free stops at the header before the block and at no other, the wrap included |
| Umalloc.Heap.FindSpot | user/umalloc.c:30-32 | the search ends, at that header |
| Umalloc.Heap.InsertBlock | user/umalloc.c:24-44 | the cycle of headers becomes that of the list with the block joined to the neighbours it touches |
| Umalloc.Heap.Free | user/umalloc.c:24-44 | one cycle through base again, the block no longer live and its units free, the roving pointer before it, no word of another live block written |
| Umalloc.Heap.MoreCore | user/umalloc.c:46-61 | the new memory, 4096 units or as many as were asked for if that is more, joins the free list, or 0 and no change |
| Umalloc.Heap.Malloc | user/umalloc.c:63-90 | 0 iff nothing fits and sbrk fails; else the last units of the first fit after the roving pointer, which stays before it, after at most one request for at least 4096 units; the free units change by exactly that; live blocks stay disjoint and unwritten |
| Umalloc.FirstFitIs | user/umalloc.c:74-88 | first fit, in list order: every block from the roving pointer round to the chosen one is too small |
| Umalloc.Conservation | user/umalloc.c:24-90 | free units plus live units are the units obtained from sbrk |
| Umalloc.FreeUndoesMalloc | user/umalloc.c:24-90 | freeing the block just allocated restores the free list it came from |
| VirtioQueue.SlotFresh | kernel/virtio_disk.c:272-277 | with fewer than NUM entries waiting, the next slot holds none of them, across the 16-bit wrap |
| VirtioQueue.RingPush | kernel/virtio_disk.c:272-277 | adding an entry keeps all waiting ones |
| VirtioQueue.RingPop | kernel/virtio_disk.c:312-323 | reading at the index gives the oldest entry and keeps the others |
| VirtioProtocol.SubmitInv | kernel/virtio_disk.c:215-281 | submitting keeps the invariant: chains disjoint and formatted, free descriptors plus three per request equal NUM |
| VirtioProtocol.CompleteOwn | kernel/virtio_disk.c:235-265 | following the chain, the device moves exactly the request's sector and buffer and writes its own status byte |
| VirtioProtocol.AckOwn | kernel/virtio_disk.c:312-324 | the handler finds status 0 and releases the buffer of that very request |
| VirtioProtocol.WokenIffAcked | kernel/virtio_disk.c:284-286 | a waiter goes on iff its own request is done, and its buffer then holds what was moved for it |
| VirtioProtocol.FinishInv | kernel/virtio_disk.c:288-291 | cleaning up returns the three descriptors |
| VirtioProtocol.IndicesTell | kernel/virtio_disk.c:312 | the indices differ iff something waits |
| VirtioProtocol.NextKeepsInv | kernel/virtio_disk.c:156-327 | every process, device and interrupt step keeps the invariant |
| VirtioProtocol.RunKeepsInv | kernel/virtio_disk.c:156-327 | it holds in every configuration of every run |
| VirtioDisk.Disk.AllocDesc | kernel/virtio_disk.c:155-166 | the first free descriptor, or none iff none is free |
| VirtioDisk.Disk.FreeChain | kernel/virtio_disk.c:184-197 | frees each descriptor of the chain once |
| VirtioDisk.Disk.Alloc3 | kernel/virtio_disk.c:199-213 | three free descriptors, or no change; fails iff fewer than three are free |
| VirtioDisk.Disk.Start | kernel/virtio_disk.c:215-281 | submits the request iff at most one is in flight: command, three descriptors, buffer and ring entry as written out; else sleeps unchanged |
| VirtioDisk.Disk.End | kernel/virtio_disk.c:288-292 | finishes the request: its three descriptors are free and its buffer forgotten; the panics of free_desc are unreachable |
| VirtioDisk.Disk.Interrupt | kernel/virtio_disk.c:294-327 | acknowledges exactly the finished requests and releases exactly their buffers; its panic is unreachable while the device reports success |
| NamespaceTree.HeirStep | kernel/proc.c:41-47 | one namespace lies in another iff they are equal or its parent does |
| NamespaceSteps.JoinCore | kernel/proc.c:623-628 | joining keeps: cnt_proc is the number of non-exited processes at or below, pids distinct in every shared namespace |
| NamespaceSteps.ForkInv | kernel/proc.c:617-645 | fork keeps the whole invariant |
| NamespaceSteps.CloneInv | kernel/proc.c:696-710 | clone keeps it; the child has pid 1 in its own namespace and is its init |
| NamespaceSteps.ExitInv | kernel/proc.c:804-829 | exit keeps it |
| NamespaceSteps.ReleasedIffEmpty | kernel/proc.c:768-777 | a namespace other than the root is released iff nobody is left at or below it |
| NamespaceSteps.HeirOfOrphans | kernel/proc.c:738-764 | the process that orphans go to has not exited and is in a namespace around p |
| NamespaceSteps.OrphansAdopted | kernel/proc.c:736-764 | every child of p gets the init of the nearest namespace around p whose init is another process; everybody else keeps their parent |
| NamespaceSteps.ExitMeans | kernel/proc.c:804-829 | every namespace around p loses one process, exactly the empty ones are released, and only p's own namespace loses its init, if that is p |
| NamespaceSteps.ForkMeans | kernel/proc.c:617-645 | the child is live in the caller's namespace with the caller as parent, and has the next pid in every namespace around it |
| NamespaceSteps.CloneMeans | kernel/proc.c:692-730 | the child is live in a new namespace below the caller's, as its init and pid 1, with the caller as parent and the next pid in every namespace around |
| Namespaces.Procs.IsHeir | kernel/proc.c:38-50 | whether one namespace lies in the other |
| Namespaces.Procs.NamespaceMalloc | kernel/proc.c:480-490 | the first unused node, or none iff all are used |
| Namespaces.Procs.NamespaceFree | kernel/proc.c:492-500 | exactly that node becomes unused |
| Namespaces.Procs.CleanNode | kernel/proc.c:768-777 | exactly the empty namespaces other than the root become unused |
| Namespaces.Procs.Reparent | kernel/proc.c:736-764 | the parent of every child of p becomes the init of the nearest namespace that has one, nothing else changes |
| Namespaces.Procs.Fork | kernel/proc.c:617-645 | the child joins the parent's namespace, as ForkMeans says |
| Namespaces.Procs.Clone | kernel/proc.c:692-730 | faults iff no node is free or the parent is at the deepest level; else the child starts a namespace below the parent's |
| Namespaces.Procs.Exit | kernel/proc.c:804-829 | the process becomes a zombie and leaves every namespace around it, empty ones are released, and its children get the nearest other init |
| Namespaces.BootInv | kernel/proc.c:537-550 | the state after userinit satisfies the invariant |
| Namespaces.RunKeepsInv | kernel/proc.c:480-865 | it holds in every state of every run of fork, clone, exit and wait |
| ShellGrammar.ParseIffDerives | user/sh.c:345-447 | the descent accepts a token line as a command iff the grammar derives that command from it |
| ShellGrammar.OneMeaning | user/sh.c:345-447 | the grammar is unambiguous |
| ShellGrammar.RedirectsExact | user/sh.c:375-398 | parseredirs collects exactly the longest run of redirections |
| ShellGrammar.WordsExact | user/sh.c:430-447 | the loop of parseexec collects exactly the words and the redirections that stand there, interleaved in any order, at most nine words |
| ShellGrammar.CommandExact | user/sh.c:400-447 | parseexec and parseblock read exactly the command or block that stands there |
| ShellGrammar.PipeExact | user/sh.c:362-373 | parsepipe reads exactly the pipeline that stands there |
| ShellGrammar.LineExact | user/sh.c:345-360 | parseline reads exactly the line that stands there |
| ShellGrammar.SimpleLayers | user/sh.c:416-447 | a simple command is its words, at most nine, with its redirections around them, the last one outermost |
| ShellParser.LineWellFormed | user/sh.c:345-447 | whatever is accepted is a tree of words with at most nine arguments per command |
| ShellRender.RoundTrip | user/sh.c:345-447 | every such tree, written as tokens, is derived from them and parses back to itself |
| ShellLexer.LexIffLaidOut | user/sh.c:266-309 | gettoken reads from a line exactly the tokens it lays out: maximal words and operators between white space |
| ShellLexer.LexSpell | user/sh.c:266-309 | reading the spelling of tokens gives the tokens |
| ShellLexer.ParseTextIff | user/sh.c:266-447 | the parser turns a line into a command iff the line lays out tokens from which the grammar derives it |
| ShellLexer.TextRoundTrip | user/sh.c:266-447 | every such tree, rendered as a line, parses back to itself |
| ShellLexer.Reparse | user/sh.c:266-447 | an accepted line, rendered from its tree, means the same |
| Shell.Classes | user/sh.c:263-264 | white space and operators are exactly these characters |
| Shell.SignTexts | user/sh.c:375-398 | redirection signs and the tokens that end a command are exactly these texts |
| Shell.TokenStands | user/sh.c:266-309 | gettoken in characters: white space, the longest token that stands there, white space |
| Shell.Line.GetTok | user/sh.c:266-309 | the token at the cursor by its characters, its ends, and the cursor after the white space behind it |
| Shell.Line.Peek | user/sh.c:311-321 | skips white space and says whether the next token starts with one of the characters |
| Shell.Line.Redirections | user/sh.c:375-398 | the run of redirections that stands at the cursor, or failure iff one has no file |
| Shell.Line.Arguments | user/sh.c:430-447 | the words and redirections that stand at the cursor up to the end of the simple command, or failure iff there is no such run with at most nine words |
| Shell.Line.ExecCmd | user/sh.c:416-447 | reads the command or block that the grammar derives at the cursor and stops after it, or fails iff there is none; every span of its tree is a maximal word of the line |
| Shell.Line.Block | user/sh.c:400-414 | reads the parenthesised line and the redirections that the grammar derives at the cursor, or fails iff there is none |
| Shell.Line.PipeCmd | user/sh.c:362-373 | reads the pipeline that the grammar derives at the cursor, grouped to the right, or fails iff there is none |
| Shell.Line.LineCmd | user/sh.c:345-360 | reads the line of pipelines, background marks and semicolons that the grammar derives at the cursor, or fails iff there is none |
| Shell.Line.NulTerminate | user/sh.c:449-494 | a NUL after every word of the tree and no other change |
| Shell.AllRead | user/sh.c:449-494 | after that every argument and file name reads as the parser saw it |
| Shell.Line.ParseCmd | user/sh.c:328-343 | succeeds iff the grammar derives some command from the line; the tree, read through its pointers as strings, is that command |
| Grep.HereStar | user/grep.c:88-89 | a starred item matches iff the rest matches after some run of fitting characters |
| Grep.HereOne | user/grep.c:92-94 | any other item matches iff the first character fits and the rest matches |
| Grep.HereEnd | user/grep.c:90-91 | a final $ matches only at the end |
| Grep.MatchStar | user/grep.c:97-105 | true iff the pattern matches after some run of characters that fit |
| Grep.MatchHere | user/grep.c:83-95 | true iff the beginning of the text splits into parts that fit the items, up to the end if anchored |
| Grep.Match | user/grep.c:71-81 | true iff the pattern matches at some position, or at the first with ^ |

## Left out

- BuddyAlloc: stated for 0 < cnt < 2^31, because `checker_cnt_page` does not end on 0 and accepts 2^31 by wrap-around, which no tree can serve.
- The 16-bit sizes and counters of the buddy allocator are unbounded integers here; `BuddyHistory.CountersMean` bounds them, so they fit for up to 16 levels.
- The panic check of `buddy_init` against the end of physical memory is a precondition.
- In `LogFile` the buffer cache is a map of valid buffers; `BufferCache` is the model of the cache itself.
- Group commit, cache, virtio and namespace operations are atomic steps; spinlocks, sleep and wakeup are not modelled.
- One-block disk writes are assumed to be atomic, home blocks lie outside the log, and device numbers are not 0.
- The on-disk copies of inodes and how free-map bits are stored in bytes are not modelled; the number of bits per free-map block is a parameter.
- Itrunc: every change is logged, but the number of blocks one truncation logs is not bounded.
- Writei: stated for user copies that succeed; a failing copy may already have changed the cached block without logging it.
- Directory and path lookup, reference counts of inodes and files, pipes, console and UART buffers.
- UvmCopy: contents are stated for parent pages that are in use, that is neither free nor tables.
- UvmAlloc: interior tables created before a failure stay allocated, as in the source.
- FreeWalk: a leaf entry is a panic in the source and a precondition here.
- Umalloc.Heap.Malloc: sbrk is a parameter that fails or gives memory nobody has; the truncation of its argument to an int is not modelled.
- Virtio feature negotiation, memory barriers and a device that reports errors.
- Zombies keep a pointer to a namespace that may have been released; the theorems quantify over processes that have not exited.
- Namespaces.Procs.Clone: what memory holds after a fault is not stated; pids are unbounded integers.
- Brelse: whether the caller is the process that holds the buffer is not modelled; a buffer is held or not.
- Bunpin: requires a reference to drop; reference counts are unbounded integers.
- Shell.Line.ExecCmd: the tree is built as a value at the end, while the source fills the argument arrays of a struct that redirections already point to; a panic of the parser is a failing result.
- `runcmd`, `getcmd` and the rest of the shell, and the buffer handling of `grep`.
- Trap, context-switch and boot code, interrupt controller and UART registers, `exec`, system-call plumbing and the remaining user programs.

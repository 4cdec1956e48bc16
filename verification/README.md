# A verified model of a small x86 kernel

Dafny models of four parts of the kernel, and proofs about them:

1. **The CFS scheduler on a red-black tree.** `RbShape`, `RbTree`, `RbInsert`, `RbErase` and `RbRemove` work on heap
   nodes with parent, left, right and colour fields, as `rbtree.c` does; a ghost tree with a zipper says what the
   pointers mean. `SchedSpec` is the scheduler over a plain list sorted by virtual time; `SchedInv` and `SchedRuns`
   prove its invariant over whole runs, `SchedFair` that nobody starves, and `SchedAny` what is left in runs with yields
   at any time, when the queue may be out of order; `SchedAccount` says what every step does to every thread, and that no
   tick is lost over whole runs; `CfsQueue` is the scheduler over the red-black tree, with the cached
   leftmost node and the counter, and refines `SchedSpec` step by step.
2. **The file layer.** `FsIndex` is the block index of an inode (12 direct blocks, then single, double and triple
   indirect tables), `FsVolume` all inodes of a volume together with the block bitmap and the inode table on disk,
   `FsAlloc` allocation with its rollbacks, `FsNeed` how many free blocks it takes, `FsRelease` the release of an inode, `FsFile` files as byte sequences,
   `FsDir` and `FsDirOps` directories as values and as maps from names, `FsDirCodec` their entries as bytes,
   `FsDirBlocks` the blocks of a directory on the volume, `FsDirDisk` the operations of `dir.c` on the volume,
   `FsFormat` the layout of a fresh volume, and `FsMount` that the file layer can start from it.
3. **Memory.** `BitSpec` and `BitmapScan` are bitmaps down to their bytes and masks, `Paging` the two-level walk with the
   rights it finds and the directory that maps itself, `PageLayer` the page tables with the kernel half shared by all directories, `PageAlloc`
   runs of pages, `PageDirs` new directories and the pools, `PageBoot` what the loader and `mem_init` set up;
   `ArenaSpec` and `ArenaInv` are the block allocator over lists and headers, `ArenaPages` and `Arena` the allocator on
   top of the page tables.
4. **Synchronisation.** `Sync` has semaphores with barging wake-ups and the re-entrant lock as steps of any number of
   threads, `Ring` the keyboard's ring buffer as steps of one producer and one consumer.

`Common` has the few definitions that several modules share.

Numbers are unbounded except where the width matters: the 32-bit shift in `calc_vruntime_delta`, the 32-bit sums in
`file_read`, `sys_malloc`, `mem_pool_init` and `partition_format`, the 16-bit page count, the 8-bit masks of
`bitmap_scan`, the 8-bit semaphore value and the 8-bit inode number of `inode_sync` are written out. Code that runs with
interrupts off, or under a lock, is one step. Disk reads and writes are reads and writes of a map from block numbers.

## Where the code does less than it promises

Each of these has its exact condition as a theorem:

- `thread_yield` queues the thread before `schedule` accounts for its ticks. The invariant survives exactly when no
  queued thread lies strictly between the thread's virtual time and what it owes (`SchedInv.YieldExact`,
  `CfsQueue.Scheduler.Yield`). After other yields, as `ticks_to_sleep` makes them, the order of the queue is lost; one
  RUNNING thread, a queue of exactly the READY threads, the red-black tree and all assertions hold in every run
  (`SchedAny.EveryRunIsSound`).
- `calc_vruntime_delta` shifts a 32-bit number: it gives the weighted time exactly for less than 16384 ticks
  (`SchedSpec.VDeltaExact`).
- `bitmap_scan` can miss a run from 8 bits on. It finds one exactly when a visible one exists
  (`BitmapScan.Bitmap.Scan`), and is complete exactly for counts of 16 or more that are 0 or 1 modulo 8
  (`BitmapScan.CompleteExactly`).
- `page_table_add` does not look at the answer of `palloc` for a page table, and goes on with frame 0. One page changes
  exactly when there is a table, or a free frame, or frame 0 is no page table yet; no frame but a free one becomes a
  page table exactly in the first two cases (`PageLayer.Layer.PageTableAdd`, `PageLayer.TableTwice`).
  `PageAlloc.MallocPage` says when a page goes wrong in this way, and `PageBoot.WildExample` is a page layer in order in
  which the next one does.
- `inode_sync` cuts the inode number to 8 bits, so a write to a file leaves all inodes on disk right exactly when the
  file is one of the first 256; otherwise it overwrites another one (`FsFile.SyncExact`, `FsFile.FileWrite`).
- `inode_release` reads the inode back with `inode_open`, and its assertion on the number holds exactly when the inode is
  open or in its place on disk (`FsRelease.Release`). So a file that has been written, closed and deleted passes it
  exactly when its inode is one of the first 256 (`FsFile.WriteAndDelete`).
- `file_read` clips at the end of the file exactly when position plus count does not wrap (`FsFile.WantExact`). When it
  wraps, the answer is the rest of the file, and more exactly when the block behind the last byte is allocated
  (`FsFile.FileRead`).
- `alloc_data_block` for a block that is there already loses the old one; conservation survives exactly when there is
  none (`FsAlloc.Volume.AllocDataBlock`).
- `sync_dir_entry` replaces the table of a directory when its first entry is zero, and loses the old one; with one free
  block it then fails and drops the table with all blocks in it. Every block stays accounted for exactly when there is
  no table to replace or no free block (`FsDirDisk.SyncEntry`, `FsDirBlocks.AddBlock`); `FsDirOps.ReplacesExample` is a
  directory to which it happens.
- `create_dir_entry` allows names of 16 characters, whose closing zero the inode number overwrites. Such an entry reads
  back as it was written exactly when the lowest byte of the inode number is zero (`FsDirCodec.SeenExact`); otherwise it
  is added and then not found (`FsDirDisk.AddAndFind`).
- `search_dir_entry` finds the empty name in the first empty slot (`FsDirDisk.Search`).
- `delete_dir_entry` keeps a directory with different names in order exactly when the inode is not that of the directory
  or its parent (`FsDirDisk.DeleteEntry`).
- The loader fills the first 256 entries of its page table and clears no others. The assertion on the directory's own page
  holds, the page layer is in order and the marks are right each exactly when the entries that nobody writes allow it
  (`PageBoot.Boot`).
- `partition_format` writes past its buffer exactly when the bits fill the last bitmap block (`FsFormat.BufferExact`), as
  on a partition of 262848 sectors (`FsFormat.OverflowExample`).
- `sys_malloc` of the last seven sizes below 2^32 returns one page: the sum wraps (`ArenaSpec.CapacityExact`).
- `mem_pool_init` puts the pools below the end of memory exactly when there is more memory than is used, and covers the
  free pages exactly when there are fewer than 65536 (`PageDirs.PoolInitApart`, `PageDirs.PoolInitCovers`).
- The ring's space semaphore starts at 64 though the ring holds 63: the producer needs its look at `ioq_full`
  (`Ring.CheckNeeded`), and a full ring can be reached (`Ring.FullReached`).
- The main thread is started with priority 0, which gives it the weight 88761; the comment beside it says 1024. The
  model follows the code (`SchedRuns.BootOk`).

## Model

| member | source | states |
|---|---|---|
| `RbTree.RotateLeft` | code/lib/kernel/rbtree.c:34-61 | a left rotation rewires exactly the links of the three nodes and the root as the textbook picture says |
| `RbTree.RotateRight` | code/lib/kernel/rbtree.c:70-95 | the mirror image |
| `RbInsert.InsertColor` | code/lib/kernel/rbtree.c:98-163 | from a red leaf linked anywhere in a red-black tree: all red-black rules hold again, in-order contents are unchanged with the leaf in its place; every grandparent and uncle read exists |
| `RbInsert.FixLeft` | code/lib/kernel/rbtree.c:106-129 | one turn of the loop keeps the one permitted red-red fault, the contents, and moves up |
| `RbErase.EraseColor` | code/lib/kernel/rbtree.c:166-240 | from a subtree one black node short: all rules hold again, contents unchanged; every sibling read exists and the loop ends |
| `RbErase.FixShortLeft` | code/lib/kernel/rbtree.c:170-203 | one turn repairs the shortage or moves it up, for a left child |
| `RbRemove.Erase` | code/lib/kernel/rbtree.c:244-315 | erasing any node leaves a red-black tree with consistent parent links whose in-order sequence is the old one without exactly that node |
| `RbRemove.Splice` | code/lib/kernel/rbtree.c:250-288 | the successor takes the node's place, links and colour |
| `RbRemove.EraseSingle` | code/lib/kernel/rbtree.c:290-314 | erasing a node with at most one child |
| `RbRemove.First` | code/lib/kernel/rbtree.c:318-325 | the in-order first node |
| `RbRemove.Next` | code/lib/kernel/rbtree.c:338-356 | the in-order next node, or null after the last |
| `SchedSpec.NiceToWeight` | code/kernel/sched.c:44-49 | every nice value has a weight from 15 to 88761 |
| `SchedAccount.WeightsFall` | code/kernel/sched.c:17-49 | weights fall strictly with the nice value, and nice 0 has 1024 |
| `SchedSpec.VDeltaExact` | code/kernel/sched.c:57-73 | virtual time is the weighted time, and at least 1, exactly for less than 16384 ticks, for every weight of the table |
| `SchedSpec.VDeltaBounds` | code/kernel/sched.c:57-73 | a full period is worth between 8 and 52428 units for every weight of the table |
| `SchedSpec.UpdateCurr` | code/kernel/sched.c:76-107 | only the thread's clocks, its weight if that was 0, and the minimum change; nothing is left unaccounted, and neither its virtual time nor the minimum goes back |
| `SchedInv.UpdateOk` | code/kernel/sched.c:76-107 | the minimum never decreases and never exceeds the current or a queued thread |
| `SchedInv.PosSplits` | code/kernel/sched.c:121-132 | the search path ends behind all threads of equal or smaller virtual time and before all others |
| `SchedInv.EnqueueOk` | code/kernel/sched.c:110-144 | enqueuing keeps the queue sorted, without duplicates, equal to the READY threads, and above the minimum |
| `SchedInv.SwitchOk` | code/kernel/sched.c:211-223 | taking the head leaves one RUNNING thread, the current one |
| `SchedInv.ScheduleOk` | code/kernel/sched.c:171-224 | `schedule` never fails the assertion in `thread_unblock`, never reaches its fallback, and restores the invariant |
| `SchedInv.YieldExact` | code/thread/thread.c:210-217 | `thread_yield` never panics, and keeps the invariant exactly when it overtakes nobody |
| `SchedInv.YieldUnsafeExample` | code/thread/thread.c:210-217 | a state in which it does not |
| `SchedRuns.StartOk` | code/thread/thread.c:170-185 | starting a thread keeps the invariant and the minimum |
| `SchedRuns.TickOk` | code/device/timer.c:86-107 | a tick keeps the invariant and never lowers the minimum |
| `SchedRuns.BlockOk` | code/thread/thread.c:188-196 | so does blocking |
| `SchedRuns.WakeOk` | code/thread/thread.c:199-208 | and unblocking |
| `SchedRuns.StepOk` | code/thread/thread.c:188-217 | every step a caller may make succeeds and keeps the invariant |
| `SchedRuns.StepFresh` | code/device/timer.c:86-107 | no step leaves the current thread with three unaccounted ticks |
| `SchedRuns.BootOk` | code/thread/thread.c:71-87 | the state after `thread_init` satisfies the invariant; main runs with weight 88761 and idle is queued with 9548 |
| `SchedRuns.EveryRunIsSafe` | code/kernel/sched.c:171-224 | after any run of starts, ticks, blocks, wake-ups and safe yields from boot: one RUNNING thread, the queue equal to the READY threads, idle running, queued or blocked, at most two unaccounted ticks, and no assertion failed |
| `SchedAny.ScheduleSound` | code/kernel/sched.c:171-224 | also with a queue out of order, `schedule` fails no assertion, does not reach its fallback, ends with one RUNNING thread and a queue of exactly the READY threads, and leaves nothing unaccounted |
| `SchedAny.StepSound` | code/thread/thread.c:188-217 | every step of every caller, yields at any time included, succeeds and keeps this, wherever in the tree the thread ends up; the minimum never falls |
| `SchedAny.EveryRunIsSound` | code/device/timer.c:67-73 | so in every run from boot, such as those in which `ticks_to_sleep` yields with unaccounted ticks: no assertion fails, one thread is RUNNING, the queue holds exactly the READY threads, idle runs, waits or is blocked, and at most two ticks are unaccounted |
| `SchedAccount.BlockExact` | code/thread/thread.c:188-196 | in all runs: the thread that blocks is charged for its unaccounted ticks, has the new status and is not queued; the first of the queue runs, or idle, and no other thread changes; only idle with an empty queue goes on |
| `SchedAccount.AssertsExact` | code/thread/thread.c:188-208 | the assertions of `thread_block` and `thread_unblock` fail exactly for other statuses than those of a sleep |
| `SchedAccount.WakeExact` | code/thread/thread.c:199-208 | only the thread that is woken changes: READY, brought up to the minimum, in the queue once |
| `SchedAccount.StartExact` | code/thread/thread.c:170-185 | the new thread has the weight of its priority and starts at the minimum; no other changes |
| `SchedAccount.TickCounts` | code/device/timer.c:86-107 | a tick within the period counts for the current thread and does nothing else |
| `SchedAccount.PeriodExact` | code/kernel/sched.c:171-224 | the third tick charges the thread for all three and queues it; the first of the queue runs and no other thread changes |
| `SchedAccount.YieldEffect` | code/thread/thread.c:210-217 | a yield queues the thread at the virtual time it has and charges it afterwards; no thread changes but it and the one that runs |
| `SchedAccount.MinExact` | code/kernel/sched.c:87-106 | after accounting, the minimum is the largest virtual time that all threads in the queue and the current one have reached |
| `SchedAccount.SleepsOn` | code/thread/thread.c:188-208 | in every run, a thread that sleeps stays as it is until a wake-up that names it |
| `SchedAccount.NoTickLost` | code/kernel/sched.c:76-107 | after every run from boot, what a thread has been charged for, and the current one's ticks since, are exactly the ticks that found it running |
| `SchedFair.PeriodProgress` | code/kernel/sched.c:57-107 | every period that does not pick a waiting thread lowers its bound |
| `SchedFair.NoStarvation` | code/device/timer.c:86-107 | driven by ticks alone, a waiting thread runs within the sum over threads not behind it of the difference divided by 8, plus 1, in periods of three ticks |
| `SchedFair.EveryWaiterRuns` | code/device/timer.c:86-107 | so after any run from boot: a waiting thread runs within that bound once ticks alone drive the system |
| `SchedFair.SpreadStays` | code/kernel/sched.c:57-224 | when the current thread has the least virtual time, the spread stays within the larger of its first value and 52428, for ever |
| `CfsQueue.Scheduler.constructor` | code/thread/thread.c:71-87 | the boot state |
| `CfsQueue.Descend` | code/kernel/sched.c:121-132 | the descent ends at a hole of the tree, and says whether it is before all nodes; in a queue in order it is the place that the sorted list prescribes |
| `CfsQueue.Scheduler.Enqueue` | code/kernel/sched.c:110-144 | tree, leftmost node and counter stay in step, also when the queue is out of order; in order, it refines the stable sorted list |
| `CfsQueue.Scheduler.Dequeue` | code/kernel/sched.c:147-157 | removes exactly the thread |
| `CfsQueue.Scheduler.UpdateCurr` | code/kernel/sched.c:76-107 | refines the accounting over the list |
| `CfsQueue.Scheduler.PickNext` | code/kernel/sched.c:160-168 | the leftmost node is the head of the list |
| `CfsQueue.Scheduler.Schedule` | code/kernel/sched.c:171-224 | refines `schedule` over the list from every state in which it is called |
| `CfsQueue.Scheduler.Tick` | code/device/timer.c:86-107 | refines the tick in all runs; keeps the full invariant if it held |
| `CfsQueue.Scheduler.Block` | code/thread/thread.c:188-196 | so for blocking |
| `CfsQueue.Scheduler.Unblock` | code/thread/thread.c:199-208 | refines unblocking |
| `CfsQueue.Scheduler.Wake` | code/thread/thread.c:199-208 | between two steps it keeps what all runs keep, and the full invariant if it held |
| `CfsQueue.Scheduler.Yield` | code/thread/thread.c:210-217 | refines every yield of every run, and the tree stays in step; from a queue in order, the invariant survives exactly when nobody is overtaken |
| `CfsQueue.Scheduler.Start` | code/thread/thread.c:170-185 | refines starting a thread in all runs; keeps the full invariant if it held |
| `CfsQueue.LinkNode` | code/lib/kernel/rbtree.h:40-46 | links a red leaf and changes nothing else |
| `FsIndex.PathIndex` | code/fs/inode.c:271-317 | every logical block number has a slot of its own |
| `FsIndex.IndexPath` | code/fs/inode.c:271-317 | and every data slot a number |
| `FsIndex.PathsInOrder` | code/fs/inode.c:271-317 | higher numbers have later slots, level by level and entry by entry |
| `FsIndex.WordSet` | code/fs/inode.c:355-375 | writing an entry of a table changes that entry and no other |
| `FsAlloc.Volume.GetDataBlock` | code/fs/inode.c:271-317 | the block stored in the slot of the logical number, on all four levels |
| `FsAlloc.Volume.AllocBlock` | code/fs/file.c:60-68 | the lowest free block, nonzero and in the data area, owned by nobody |
| `FsAlloc.Volume.AllocTable` | code/fs/inode.c:320-332 | a zeroed block nobody owned |
| `FsAlloc.Volume.AllocDataBlock` | code/fs/inode.c:335-442 | fails exactly when there are fewer free blocks than one and the tables missing on the way; success: the slot holds a new nonzero block, just these blocks have been taken, all other data slots of all inodes and all data are unchanged, and the bitmap is exact but for the block that was in the slot; failure: nothing a file sees changes, at most one block is free, and the bitmap is exact after every rollback |
| `FsNeed.LackingKept` | code/fs/inode.c:335-442 | whatever a call allocates, the free blocks less the blocks and tables missing in a range of block numbers stay the same |
| `FsVolume.Install` | code/fs/inode.c:335-442 | filling a slot keeps every block in one slot, adds exactly the new block to those held and takes exactly the old one away |
| `FsVolume.InstallAt` | code/fs/inode.c:335-442 | filling a slot changes that slot and no other |
| `FsRelease.FreeBlock` | code/fs/inode.c:149-154 | clears the block's bit; the assertion holds |
| `FsRelease.FreeSlot` | code/fs/inode.c:177-232 | frees exactly the blocks at or below a slot, tables after their contents |
| `FsRelease.Release` | code/fs/inode.c:64-248 | the assertion on the inode's number holds exactly when the inode is open or in its place on disk, so never for a closed one from 256 on; then, for an inode other than the root's, exactly the bits of its data and table blocks are cleared, its bit in the inode bitmap and its place in the inode table; block conservation holds without it; otherwise nothing changes |
| `FsRelease.ConservedWithout` | code/fs/inode.c:159-248 | taking away an inode and exactly its blocks keeps conservation |
| `FsFile.FileWrite` | code/fs/file.c:234-290 | appends exactly the first bytes of the buffer, all of them exactly when there are as many free blocks as blocks and tables are missing, else up to a block that cannot be had; changes no byte of any other file in memory; the inode table on disk stays right exactly below inode 256; -1 exactly when the file would grow too large |
| `FsFile.InodeSync` | code/fs/inode.c:38-61 | the inode goes to the place that the low 8 bits of its number name |
| `FsFile.SyncExact` | code/fs/inode.c:38-61 | which is its own exactly below 256; from there on its own place stays out of date and that of another inode is overwritten |
| `FsFile.FileKept` | code/fs/file.c:234-290 | every other file is a file still, with the same content |
| `FsFile.WriteChunk` | code/fs/file.c:251-277 | one turn of the loop appends its chunk, or changes no file, exactly when the block is missing and cannot be had |
| `FsFile.FileRead` | code/fs/file.c:295-335 | from any position, what the allocated blocks hold there, and the position moves behind it; from a position in the file the slice, clipped at the size; when the sum wraps, the rest of the file and more exactly when the block behind the last byte is allocated |
| `FsFile.WantExact` | code/fs/file.c:296-303 | the clipping is right exactly when position plus count does not wrap |
| `FsFile.WriteAll` | code/fs/file.c:234-290 | any series of writes appends the stored part of each buffer in turn |
| `FsFile.ReadAll` | code/fs/file.c:295-335 | any series of reads, for any counts, gives the answers of `file_read` one after the other; successive slices of the content when no sum wraps |
| `FsFile.WriteThenRead` | code/fs/file.c:234-335 | any series of writes to an empty file, then any series of reads from the start that asks for enough, gives back the concatenation of what was stored |
| `FsFile.WriteAndDelete` | code/fs/inode.c:38-248 | a file written, closed and released: the assertion holds exactly when its inode is one of the first 256 |
| `FsDir.EmptyOwnsOne` | code/fs/dir.c:354-371 | an empty directory owns block 0 and nothing else, so the assertion of `dir_remove` holds |
| `FsDirCodec.SlotRoundTrip` | code/fs/dir.h:27-31 | an entry written to its 24 bytes keeps inode number and type, and its name as far as the bytes go on; a cleared slot is empty |
| `FsDirCodec.SeenExact` | code/fs/dir.c:42-49 | the name is kept exactly when it is shorter than 16 characters or the lowest byte of the inode number is zero |
| `FsDirCodec.PutBlk` | code/fs/dir.c:175-181 | writing a slot of a block changes that entry and no other |
| `FsDirDisk.Search` | code/fs/dir.c:52-95 | the first entry with the name, none exactly when no entry has it; the empty name is found in the first empty slot |
| `FsDirDisk.SyncEntry` | code/fs/dir.c:99-193 | succeeds exactly when the first block with room is allocated or there are free blocks for it; then the directory on disk is in order with exactly one entry more, in the first slot with room, and its size, and no other inode's data changes; every block stays accounted for exactly when no table is replaced or the volume is full; failure changes nothing unless the table is replaced with one block free |
| `FsDirDisk.AddAndFind` | code/fs/dir.c:42-193 | an entry whose name was not found is added and then found under it exactly when the name is shorter than 16 characters or the lowest byte of its inode number is zero |
| `FsDirDisk.DeleteEntry` | code/fs/dir.c:196-304 | the directory on disk loses exactly the first entry of the inode and its size, an emptied block and an emptied table are given back, every block stays accounted for, no other inode's data changes, and the inode is written back; false, and no change, exactly when there is no such entry; among different names the directory stays in order exactly when the entry is not one of its first two |
| `FsDirDisk.OtherDirs` | code/fs/dir.c:99-304 | adding or removing an entry leaves every other directory as it was |
| `FsDirDisk.Handle.Read` | code/fs/dir.c:307-351 | the entry at the position, in scan order, then none |
| `FsDirDisk.Handle.ReadAll` | code/fs/dir.c:307-351 | from position 0 every live entry once, in scan order, and then none |
| `FsDirOps.ReplacesExample` | code/fs/dir.c:137-156 | a directory in order, with all names different, whose table the next entry replaces |
| `FsDirBlocks.AddBlock` | code/fs/dir.c:124-168 | the new block was free and is block `idx` of the directory, with its contents; no other data slot of any inode changes; block conservation survives exactly when no table is replaced or the volume is full; what a failing call leaves behind |
| `FsDirBlocks.RemoveBlock` | code/fs/dir.c:256-287 | exactly the slot of the block, and of the table if it was its only one, is emptied, and their bits are cleared; block conservation holds |
| `FsDirOps.InsertedMap` | code/fs/dir.c:99-193 | as a map from names: the new name is added and no other name sees it |
| `FsDirOps.WithoutMap` | code/fs/dir.c:196-304 | the name of the entry taken out goes and no other name sees it |
| `FsFormat.PlanOrdered` | code/fs/fs.c:36-71 | regions follow one another and all bits denote blocks inside the partition, which ends with the last one or one block behind, for every size with more than the metadata |
| `FsFormat.BufferExact` | code/fs/fs.c:90-114 | the writes end with the buffer exactly when the bits do not fill the last block, and else one block behind it |
| `FsFormat.OverflowExample` | code/fs/fs.c:90-114 | a number of sectors for which they do |
| `FsFormat.BlockBitmap` | code/fs/fs.c:99-114 | exactly bit 0 and the bits past the last block are set; memory behind the buffer stays, unless the bits fill the last block: then a block behind it is overwritten |
| `FsFormat.FreshBlocks` | code/fs/file.c:60-68 | what a fresh bitmap gives out lies in the data area, inside the partition, and is not block 0 |
| `FsFormat.LocateApart` | code/fs/inode.c:16-34 | inodes lie in the table, do not overlap, and are read in two blocks exactly when they lie in two |
| `FsMount.FreshOk` | code/fs/fs.c:36-221 | the bitmap of a fresh volume accounts for exactly the root directory's block, and the inode table for its inode |
| `FsMount.FreshDir` | code/fs/fs.c:686-701 | the directory that formatting or `sys_mkdir` writes is in order, lists itself and its parent, and its empty slots are zero bytes |
| `FsMount.Mount` | code/fs/fs.c:36-221 | a formatted volume satisfies what the file layer and the directory operations keep; its root directory lists "." and "..", and the inode bitmap marks its inode alone |
| `BitmapScan.Bitmap.Test` | code/lib/kernel/bitmap.c:14-18 | the bit |
| `BitmapScan.Bitmap.Set` | code/lib/kernel/bitmap.c:21-30 | that bit is written and no other |
| `BitmapScan.Bitmap.ScanBits` | code/lib/kernel/bitmap.c:40-64 | below 8 bits: the lowest run, -1 exactly when there is none |
| `BitmapScan.Bitmap.ScanBytes` | code/lib/kernel/bitmap.c:66-168 | from 8 bits on: a clear run when a visible one exists, -1 otherwise |
| `BitmapScan.Bitmap.AtFull` | code/lib/kernel/bitmap.c:83-111 | enough full bytes: room behind or before them, or no visible run starts there |
| `BitmapScan.Bitmap.AtShort` | code/lib/kernel/bitmap.c:113-162 | one byte too few: bits on both sides make up for it, or no visible run starts there, though the mask is cut to 8 bits |
| `BitmapScan.Bitmap.Scan` | code/lib/kernel/bitmap.c:33-169 | every answer is a clear run inside the bitmap; below 8 bits the lowest; from 8 on there is one exactly when a visible run exists |
| `BitmapScan.CompleteExactly` | code/lib/kernel/bitmap.c:66-168 | no run is missed exactly for counts of 16 or more that are 0 or 1 modulo 8 |
| `BitmapScan.LowMasked` | code/lib/kernel/bitmap.c:93-94 | the cut mask asks for the low bits, or from 8 on for the whole byte |
| `Paging.PteWalk` | code/kernel/memory.c:76-85 | through the window the processor reaches the page table entry of the address exactly when it has a page table, with the rights of both levels |
| `Paging.PdeWalk` | code/kernel/memory.c:88-96 | and always its directory entry |
| `Paging.V2P` | code/kernel/memory.c:285-290 | `addr_v2p` of a mapped address is its physical address |
| `Paging.EntryWritten` | code/kernel/memory.c:131-142 | a page table entry written changes one page, in exactly the address spaces that share the table, to the frame and the rights it says |
| `Paging.EntryParts` | code/kernel/memory.c:142-186 | the entry that is written is present, leads to its frame, and is open to user mode and to writing |
| `Paging.TableAdded` | code/kernel/memory.c:144-184 | a new cleared page table changes no page in any address space, and directories and cache agree on the kernel half |
| `PageLayer.Layer.PageTableAdd` | code/kernel/memory.c:121-188 | the page leads to the frame, open to user mode and to writing, and no other page changes, in any address space, exactly when there is a table, a free frame, or frame 0 is none yet; then tables, kernel half, open directories and sole use of frames are kept; the frame made a table is in the directory, and was free exactly in the first two cases |
| `PageLayer.TableTwice` | code/kernel/memory.c:151-186 | a frame entered as a page table twice changes a second page |
| `PageLayer.Layer.Share` | code/kernel/memory.c:160-179 | the new entry is in the cache, the kernel's directory and every process's directory, written through their addresses |
| `PageLayer.Layer.Palloc` | code/kernel/memory.c:294-302 | the lowest free frame, used for nothing |
| `PageAlloc.VaddrGet` | code/kernel/memory.c:45-73 | a run of pages that were not marked, now marked; none exactly when there is no run (below 8 pages) or no visible one (from 8 on) |
| `PageAlloc.MallocPage` | code/kernel/memory.c:45-215 | no address exactly when the bitmap has no run to be found; else consecutive pages that were not mapped lead to distinct frames that were free, writable and open to user mode; nothing else changes; only page tables are taken besides, from the pool or frame 0; when frames run out half-way, exactly the first pages are mapped and all marks stay; the assertion on user addresses fails exactly from 0xbffff000 on; the first page makes frame 0 a page table twice exactly when it needs a table, the pool has none and frame 0 is one, and a later one only then |
| `PageAlloc.MfreePage` | code/kernel/memory.c:425-467 | the pages go, exactly their frames are free, exactly their marks are cleared |
| `PageAlloc.MallocThenFree` | code/kernel/memory.c:192-467 | the effects of one after the other restore every address space and all marks, and of the frames keep only page tables |
| `PageAlloc.MapAndUnmap` | code/kernel/memory.c:192-467 | so for the two calls: every address space, all marks and all frames are as they were, but for page tables |
| `PageDirs.CreatePageDir` | code/userprog/process.c:97-136 | a kernel page, writable and open, becomes a directory that maps itself and agrees with all others on the kernel half; no other page changes; without a page the directories stay; no address exactly when the heap has none, and frame 0 is a table twice exactly when the page needs a table, the pool has none and frame 0 is one |
| `PageDirs.FillDir` | code/userprog/process.c:113-133 | empty user half, kernel half copied and opened to user mode, own frame in the last entry |
| `PageDirs.PoolInitApart` | code/kernel/memory.c:308-338 | pools never overlap and start behind used memory; they end below the end of memory exactly when there is more than is used |
| `PageDirs.PoolInitHalves` | code/kernel/memory.c:318-328 | the two pools share the free pages equally, but for what does not fill a byte |
| `PageDirs.PoolInitCovers` | code/kernel/memory.c:314-337 | fewer than 16 free pages are left out exactly when there are fewer than 65536 |
| `PageBoot.SetPage` | code/loader.asm:400-491 | directory entries 0, 768 and 1023, and two page tables; the first megabyte shows up at its own addresses and in the kernel half, writable and open to user mode |
| `PageBoot.BootGood` | code/kernel/memory.c:378-403 | with the kernel's directory mapped at its address and all pools free, the page layer is in order if the entries that nobody writes lead to no frame of the pools |
| `PageBoot.GoodClean` | code/kernel/memory.c:378-403 | and only then |
| `PageBoot.WildExample` | code/kernel/memory.c:151-186 | a page layer in order in which mapping the next user page makes frame 0 a page table twice |
| `PageBoot.Boot` | code/kernel/memory.c:391-406 | from the loader to the end of `mem_init`, for any memory: the assertion on the directory's page holds exactly when its entry was clear, the page layer is in order exactly when the unwritten entries lead to no frame of the pools, and the marks are right exactly when none of them is present in the kernel heap |
| `ArenaSpec.LiveInside` | code/kernel/syscall.c:153-163 | a live allocation lies past the header in the pages of its arena, and masking its address finds the arena |
| `ArenaSpec.LiveApart` | code/kernel/syscall.c:92-169 | live allocations do not overlap |
| `ArenaSpec.CapacityExact` | code/kernel/syscall.c:116-118 | a large allocation is as large as requested exactly when the sum does not wrap, and then a page less would not do |
| `ArenaSpec.CountExact` | code/kernel/memory.c:412-422 | an arena holds as many blocks as fit behind its header |
| `ArenaSpec.SizesDouble` | code/kernel/memory.c:412-422 | block sizes double from class to class, from 16 bytes on |
| `ArenaSpec.ClassOf` | code/kernel/syscall.c:131-134 | the first class that is large enough |
| `ArenaInv.MallocOk` | code/kernel/syscall.c:92-169 | every small block stays either live or free once, headers count the free ones, no arena is all free; what is handed out was not live and is large enough |
| `ArenaInv.FreeOk` | code/kernel/syscall.c:171-201 | so for freeing, which takes back just the block |
| `ArenaInv.MallocExact` | code/kernel/syscall.c:92-169 | succeeds exactly when there is a free block of the class or the page layer gives pages; a small block is the first of its list |
| `ArenaInv.FreeAppends` | code/kernel/syscall.c:181-189 | a freed block goes to the end of its list unless its arena is given back |
| `ArenaInv.FirstFreed` | code/kernel/syscall.c:92-201 | calls in a row hand out the free blocks in the order in which they were freed |
| `ArenaInv.MallocThenFree` | code/kernel/syscall.c:92-201 | one after the other restores marked pages, headers and free blocks |
| `Arena.Allocator.SysMalloc` | code/kernel/syscall.c:92-169 | lists, headers and marks end up as the specification says for the answer of `malloc_page`, which finds no run exactly when there is none to be found; every page of an arena leads to a frame of its pool; of the page tables and frames exactly those of the new pages change, and these are the pages of the new arena that the block lies in |
| `Arena.Allocator.SysFree` | code/kernel/syscall.c:171-201 | lists, headers and marks end up as the specification says; exactly the pages of an emptied arena, as many as it spans, are unmapped and their frames free; nothing for NULL |
| `Arena.Allocator.AllocateAndFree` | code/kernel/syscall.c:92-201 | calling one after the other restores every address space, marked pages, headers and free blocks, and all frames but for page tables |
| `Arena.Allocator.Unlink` | code/kernel/syscall.c:190-195 | all blocks of an arena leave the free list and the others keep their order |
| `Arena.Allocator.Carve` | code/kernel/syscall.c:150-155 | all blocks of a new arena go to the end of the list |
| `Arena.Allocator.constructor` | code/kernel/memory.c:412-422 | empty lists over a page layer in order satisfy the invariant |
| `Sync.SemKeeps` | code/thread/sync.c:21-61 | while anyone waits, at least as many threads have been woken and not yet checked as the value lets in |
| `Sync.NoLostWakeup` | code/thread/sync.c:21-61 | after any run, so no wake-up is lost |
| `Sync.ValueCounts` | code/thread/sync.c:21-61 | the value falls by one for every thread let in and rises by one for every raise |
| `Sync.FirstWoken` | code/thread/sync.c:21-61 | first come, first woken: in every run those who wait are those who came, less those who were woken, in order |
| `Sync.LockKeeps` | code/thread/sync.c:64-93 | every step of lock and release keeps value plus threads inside at 1 and fails no assertion |
| `Sync.LockSafe` | code/thread/sync.c:64-93 | in every run of any threads: mutual exclusion, the thread that has the lock is its holder, no assertion fails, a free lock with waiters has a thread about to try |
| `Sync.CountIsBalance` | code/thread/sync.c:64-93 | in every run, while a thread has the lock the count is its calls of `lock_acquire` less those of `lock_release`; it is outside exactly when these are equal |
| `Sync.LastRelease` | code/thread/sync.c:80-93 | a release gives the lock up exactly when it matches the first acquire |
| `Sync.Leaves` | code/thread/sync.c:80-93 | as many releases as acquires lead out of the lock and leave it free |
| `Sync.Enters` | code/thread/sync.c:64-77 | into a free lock, a thread gets by its own steps |
| `Ring.PutKeeps` | code/device/ioqueue.c:51-67 | every producer step keeps semaphores, positions and contents in step, never waits and fails no assertion |
| `Ring.GetKeeps` | code/device/ioqueue.c:31-48 | every consumer step likewise |
| `Ring.PrefixRead` | code/device/ioqueue.c:7-67 | in every interleaving what has been written are the keys that found the producer ready and less than 63 bytes in the ring, in order, but for one in hand; what has been read is a prefix of them, at most 63 bytes behind |
| `Ring.HeldUp` | code/device/ioqueue.c:31-67 | a thread is held up only by the other in the lock, or when there is nothing to read |
| `Ring.Drains` | code/device/ioqueue.c:31-48 | a consumer that runs while no key comes reads all that has been written |
| `Ring.CheckNeeded` | code/device/keyboard.c:295-298 | without the look at `ioq_full` the assertion fails in a full ring |
| `Ring.FullReached` | code/device/ioqueue.c:51-67 | a full ring with both threads outside it can be reached |

## Left out

- FsAlloc.Volume.AllocDataBlock: the four branches of the source are one walk along the slot's path.
- FsRelease.FreeSlot: the nested loops of `inode_release` are one recursive method over the levels of a table.
- PageAlloc.MallocPage: where frame 0 becomes a page table a second time (`Wild`), the model stops and says no more than when that is; `PageLayer.TableTwice` says what has gone wrong there. `CreatePageDir`, `SysMalloc` and their clients stop with it.
- Arena.Allocator.SysMalloc: the contents of blocks, and the clearing of them, are not modelled; the headers and list links that the source keeps in the pages are fields of the allocator.
- FsDirDisk.SyncEntry: for a directory in order; its loop asks for one block number after the other, where the source collects all of them first. Names are what `create_dir_entry` allows; path walking has room for shorter ones only.
- FsDirDisk.DeleteEntry: for a directory in order.
- FsDirDisk.Search: for directories whose empty slots are zero bytes, as formatting, adding and removing leave them.
- FsRelease.Release: for a table on disk in which no inode in its own place is out of date, as `FileWrite`, `DeleteEntry` and `Release` leave it.
- Paging.TableAdded: the directories agree on the kernel half bit by bit; the accessed bits, which the processor sets in each directory by itself, are not modelled.
- PageDirs.CreatePageDir: the new directory is in the list at once; the time between `create_page_dir` and `list_append` in `process_execute`, in which a new kernel page table would not reach it, is not modelled.
- SchedSpec.NiceToWeight: for nice values that fit its 8-bit parameter; the narrowing of other priorities is not modelled.
- SchedRuns.StartOk: starting a thread is one step, though `thread_start` leaves interrupts on; what a tick in the middle of `enqueue_task` would find is not modelled.
- Sync.LockSafe: the fields of semaphores and locks are values that a step replaces, not fields that a method updates in place, so that all interleavings are one statement; the same holds for `Ring`.
- Ring.PrefixRead: the lock is taken and given back in one step each; `Sync` has its steps.
- BitmapScan.Bitmap.Scan: bitmaps of 2^28 bytes and more, whose bit numbers do not fit the 32-bit result.
- Wrap-around of 64-bit virtual times and tick counters, and of the 32-bit thread count.
- Writing bitmaps back to disk, allocating inodes, counting how often an inode is open, and failures of `sys_malloc` inside the file layer.
- `get_a_page`, path walking, `getcwd`, the file descriptor tables, `rb_last`, `rb_prev` and `sleep`: they would only add easy members.
- The DMA descriptor table, port input and output, partition tables, interrupts and segment set-up, the rest of the boot code, console, keyboard tables and shell.
- `switch_to`, register saving and address-space switches: a context switch changes the current thread.

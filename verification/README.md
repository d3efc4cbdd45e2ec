# i80k in Dafny

A model of the algorithmic parts of i80k, a kernel with its own libc for the Intel 8086 family, and
proofs of what those parts promise. Integers are unbounded in Dafny; wherever the 16-bit `int` and
`size_t` or the 32-bit `long` of the target can wrap, the model wraps explicitly (`U16`, `U32`, `I32`).
A C function is one atomic step, as the kernel assumes, except in the UART model, where every register
access is a step of its own.

| files | what they model |
|---|---|
| `Bits`, `Options`, `Sequences` | powers of two, shifts, exclusive or and masks defined bit by bit; optional values; lists of addresses |
| `BuddyTiling`, `BuddyArena`, `BuddyRuns`, `BuddyHeap` | the buddy allocator of `libc/malloc.c`: sets of blocks, free lists as sequences, whole runs, and the heap object with its lists threaded through memory |
| `BlockSpec`, `BlockDevice`, `Storage` | `kernel/core/blkdev.c` and `kernel/core/subdev.c`: byte ranges over a driver of whole blocks that may fail, partitions as slices |
| `Ext2Spec`, `Ext2` | `kernel/drivers/fs/ext2/io.c`: file blocks, pointer trees and inode reads, on top of `Storage` |
| `PathSpec`, `PathNormalize` | `fs_normalize_path`: a fold over components, and the automaton that rewrites the buffer in place |
| `MountSpec`, `MountTable` | the mount list of `kernel/core/fs.c` and its reference counts |
| `IntrusiveList`, `TaskRings` | the circular lists of `kernel/core/list.h`, and `task_put` and `clk_wakeup` on them |
| `SchedulerSpec`, `SchedulerProofs`, `SchedulerRuns`, `SchedulerTasks`, `Scheduler` | `kernel/core/scheduler.c` and `kernel/clk.c` |
| `PrintfInt`, `PrintfHash`, `PrintfReference`, `PrintfFormat`, `PrintfLaws`, `PrintfDirectives`, `Printf` | `libc/printf.c`: integer fields, the '#' flag, the text that should come out, the format language and its laws, every kind of directive, bounded output |
| `Uart` | `kernel/drivers/pc16550.c` against the emulated device `vboard/devices/p16550.go` |
| `RingBuffer` | `kernel/core/ringbuffer.c` and `ringbuffer.h` |

Each imperative operation is a method proved equal to a function of its inputs or of the old state;
the lemmas then say what is true of those functions over all inputs and all runs.

Where the code falls short of what its comments or the C standard promise, the model follows the code,
and a lemma says when it does meet the promise:

* `malloc` of 65534 or 65535 bytes wraps and returns a block of 8 bytes (`BuddyRuns.RequestFitsIff`);
  `getindex` never returns above 32768 (`BuddyArena.GetIndexStopsIff`).
* Trimming a transfer is exact on a device if and only if it has at most 2^31 - 65535 bytes
  (`BlockSpec.TrimIsExactIff`).
* The `int` results of block transfers have 16 bits: without any fault, a transfer reports its length if
  and only if that is at most 32767 and the device's blocks have at most 16384 bytes; otherwise it
  reports an error, even where it has moved the data (`BlockSpec.CountIsRightIff`,
  `Storage.ResultIsRightIff`).
* An MBR entry whose end wraps around 2^32 is accepted (`Storage.AcceptedEntryIsOnDiskIff`).
* `ext2_read_inode` does not notice a failing read; its count is the same whether or not the device
  failed (`Ext2.Ext2Fs.ReadInode`).
* `find_mount` takes the shortest mounted prefix of a path, so a mount made later above an existing one
  hides it (`MountSpec.FindIsShortest`, `MountSpec.NewMountHides`).
* A second `fs_unmount` while a handle is open leaves that handle on a removed mount
  (`MountSpec.UnmountDanglesIff`).
* A sleep relative to now returns at once for negative times only down to minus the time since boot, and
  an absolute one never for negative times (`Scheduler.RelativeSleepReturnsIff`,
  `Scheduler.AbsoluteSleepReturnsIff`, `Scheduler.NegativeSleepsBlock`).
* A printed number reads back exactly when it has at most 32 digits and, if negative, the 32-character
  buffer has room for its sign: `%040d` of -7 reads as 7 (`PrintfInt.FieldReadsBackIff`,
  `PrintfInt.WideFieldLosesSign`). `PrintfInt.FieldLengthIff` does the same for the length.
* `%#x` can drop leading digits, and near 32 digits part of its prefix (`PrintfHash.HashReadsBackIff`,
  `PrintfHash.PrefixIsWholeIff`).
* Without '#', the precision is the least number of digits, as the C standard asks, if and only if it is
  at most 32 and the field is right-justified or the value has that many digits itself
  (`PrintfInt.PrecisionIsKeptIff`).
* The length modifiers `t`, `j` and `z` all read a `long long`, although `size_t` and `ptrdiff_t` have
  16 bits (`PrintfLaws.SizeModifierNeedsQuad`).

## Model

| member | source | states |
|---|---|---|
| BuddyTiling.BuddyHalves | libc/malloc.c:65-69 | the exclusive-or buddy of an aligned block is its other half: an involution, disjoint, and together they are the parent block |
| BuddyTiling.SplitKeepsGood | libc/malloc.c:133-136 | halving a block in hand and freeing the upper half keeps the tiling and frees no pair of buddies |
| BuddyTiling.MergeKeepsGood | libc/malloc.c:171-175 | joining a block with its free buddy keeps the tiling |
| BuddyTiling.ReleaseKeepsGood | libc/malloc.c:177-178 | freeing a block keeps the tiling if its buddy is not free |
| BuddyTiling.GrowKeepsGood | libc/malloc.c:122-131 | a page from sbrk extends the tiling by one block |
| BuddyTiling.ClearRegionIsFree | libc/malloc.c:171-178 | every aligned region clear of allocated blocks lies inside one free block |
| BuddyTiling.FreeIsMaximalGap | libc/malloc.c:171-178 | a block is free if and only if it is a largest aligned gap between the allocated blocks |
| BuddyTiling.FreeSetIsDetermined | libc/malloc.c:85-94 | allocated blocks and heap size determine the free blocks |
| BuddyArena.IndexIsLeast | libc/malloc.c:41-63 | the index is the least order from 3 on whose block holds the size, and at most 12 exactly for sizes up to a page |
| BuddyArena.GetIndexStopsIff | libc/malloc.c:56-62 | in 16 bits the search loop ends if and only if the size is at most 32768 |
| BuddyArena.FirstNonEmpty | libc/malloc.c:116-120 | the first non-empty list from an order on, all lists before it being empty |
| BuddyArena.SplitDownKeepsGood | libc/malloc.c:133-136 | the whole split loop leaves a good tiling with the block in hand shrunk to the wanted order |
| BuddyArena.CoalesceKeepsGood | libc/malloc.c:166-178 | the whole merge loop and the final insertion leave a good tiling without the block in hand |
| BuddyArena.MallocKeepsInv | libc/malloc.c:96-142 | malloc keeps the invariant, adds exactly one allocation at an unused place, and changes nothing when it fails |
| BuddyArena.FreeKeepsInv | libc/malloc.c:157-179 | free keeps the invariant and removes exactly one allocation |
| BuddyRuns.RunKeepsInv | libc/malloc.c:96-179 | the invariant holds after every run from a good state |
| BuddyRuns.EveryRunTilesTheHeap | libc/malloc.c:41-179 | after any run of malloc and free, free and allocated blocks tile the heap, and live allocations with their headers do not overlap |
| BuddyRuns.HistoryDoesNotMatter | libc/malloc.c:96-179 | two runs that leave the same allocations in heaps of the same size leave the same free blocks |
| BuddyRuns.FreesCommute | libc/malloc.c:157-179 | two frees in either order leave the same free blocks |
| BuddyRuns.FreeUndoesMalloc | libc/malloc.c:96-179 | free right after malloc restores the free blocks, plus one whole page if the heap grew |
| BuddyRuns.FreeingEverythingLeavesPages | libc/malloc.c:157-179 | with nothing allocated the free blocks are exactly the 4096-byte pages of the heap |
| BuddyRuns.MallocFailsIff | libc/malloc.c:102-126 | malloc fails if and only if the size is 0, too large, or no aligned room is left and sbrk fails; the heap grows only without room |
| BuddyRuns.MallocTakesSmallest | libc/malloc.c:102-142 | the new block starts where a free block of the least order with room for request and header started, or at a new page of 4096 bytes if and only if no free block has room |
| BuddyRuns.RequestFitsIff | libc/malloc.c:111-112 | the block returned holds the request and its header if and only if their sum does not wrap |
| BuddyRuns.WrappedRequest | libc/malloc.c:111-112 | a request of 65535 bytes gets a block of 8 |
| BuddyHeap.GetIndex | libc/malloc.c:41-63 | the loops compute the least order |
| BuddyHeap.Heap.FbAdd | libc/malloc.c:71-75 | the list threaded through memory gains the block in front, the others and all headers are kept |
| BuddyHeap.Heap.FbPop | libc/malloc.c:77-82 | takes the first block of a list, or null if there is none |
| BuddyHeap.Heap.FbRemove | libc/malloc.c:84-94 | takes a block out of the middle of a list and says whether it was there |
| BuddyHeap.Heap.TakeBlock | libc/malloc.c:116-131 | the smallest free block that is large enough, or a new page, or null |
| BuddyHeap.Heap.SplitToIndex | libc/malloc.c:133-136 | the split loop on memory does what the split of the lists does |
| BuddyHeap.Heap.Malloc | libc/malloc.c:96-142 | on any reachable heap, memory and result follow the allocator on lists |
| BuddyHeap.Heap.MergeUp | libc/malloc.c:169-178 | the merge loop on memory does what coalescing of the lists does |
| BuddyHeap.Heap.Free | libc/malloc.c:157-179 | on any reachable heap and live pointer, or null, memory follows free on lists |
| BuddyHeap.PayloadIsPrivate | libc/malloc.c:138-141 | no list link and no header lies inside a live payload |
| BuddyHeap.Heap.UserWrite | libc/malloc.c:138-141 | writing to a live payload changes neither lists nor headers |
| BlockSpec.TrimIsExactIff | kernel/core/blkdev.c:124-136 | trimming is the intersection with the device for all requests if and only if the device has at most 2^31 - 65535 bytes |
| BlockSpec.TwoGibibytesReadAsEmpty | kernel/core/blkdev.c:124-136 | a device of 2 GiB trims every request to nothing |
| BlockSpec.BlockTrimIsExactIff | kernel/core/blkdev.c:86-98 | trimming a block range in 32 bits is the intersection with the device for all requests if and only if the device has at most 2^32 - 65535 blocks |
| BlockSpec.CountIsRightIff | kernel/core/blkdev.c:161-333 | the 16-bit result of a transfer without faults is its length if and only if that is at most 32767 and blocks have at most 16384 bytes; otherwise it is negative |
| BlockSpec.LargeTransferReportsError | kernel/core/blkdev.c:201-209 | 64 blocks of 512 bytes, and one byte of a 32768-byte block, come back as -32768 |
| BlockSpec.FailedWriteOutside | kernel/core/blkdev.c:238-333 | nothing outside the range of a failed write changes |
| BlockDevice.Disk.ReadBlock | kernel/core/blkdev.c:100-110 | for any range, the blocks on the device arrive and nothing else in the buffer changes; without faults the result is their byte count in 16 bits |
| BlockDevice.Disk.WriteBlock | kernel/core/blkdev.c:112-122 | for any range, the blocks on the device are replaced, or some of them if the driver fails; without faults the result is their byte count in 16 bits |
| BlockDevice.Disk.DefaultRead | kernel/core/blkdev.c:161-236 | on success a byte range across partial first, whole middle and partial last blocks equals the slice of the device; without faults the result is exactly CleanCount |
| BlockDevice.Disk.DefaultWrite | kernel/core/blkdev.c:238-333 | on success exactly the byte range is replaced; on failure each byte of it is old or new and all others are old; without faults the result is exactly CleanCount |
| Storage.TrimOnDevice | kernel/core/blkdev.c:124-136 | trimming is exact on every device modelled |
| Storage.ByteOfPartition | kernel/core/subdev.c:149-162 | byte i of a partition is byte start times the block size plus i of its disk |
| Storage.Le32Is | kernel/core/subdev.c:38-45 | four bytes are read as v if and only if they are the bytes of v, lowest first |
| Storage.ShiftedOffset | kernel/core/subdev.c:149-162 | the shifted offset does not wrap and the parent's trim never shortens the range |
| Storage.ResultIsRightIff | kernel/core/blkdev.c:138-159 | on any device the result of a transfer without faults is the number of bytes moved, and not negative, under exactly the condition of CountIsRightIff |
| Storage.SubdevRead | kernel/core/subdev.c:149-154 | a read on a partition is a read of the shifted range of the parent |
| Storage.SubdevWrite | kernel/core/subdev.c:156-162 | a write on a partition is a write of the shifted range of the parent |
| Storage.BlkRead | kernel/core/blkdev.c:138-147 | on disks and partitions alike, success means that the buffer got the part of the range on the device, a slice of the parent for a partition; the result without faults is determined |
| Storage.BlkWrite | kernel/core/blkdev.c:149-159 | on disks and partitions alike, exactly the part of the range on the device is replaced, or part of it on failure; the result without faults is determined |
| Storage.BlkReadBlock | kernel/core/subdev.c:135-140 | block reads through a partition are reads of its own bytes, for any range |
| Storage.BlkWriteBlock | kernel/core/subdev.c:142-147 | block writes through a partition replace its own bytes, for any range |
| Storage.WriteThenRead | kernel/core/blkdev.c:149-159 | after a write the range holds the data and every other byte of the device is as before |
| Storage.WriteAndReadBack | kernel/core/blkdev.c:138-159 | a blk_write and a blk_read of the same range that both succeed have moved the same bytes: the buffer holds what was written |
| Storage.PartitionsAreIndependent | kernel/core/subdev.c:135-162 | no write of any range through a partition, failed or not, shows in a disjoint one |
| Storage.WriteBeside | kernel/core/subdev.c:135-162 | byte writes and block writes through one partition leave the contents of a disjoint one as they were |
| Storage.AcceptedEntryIsOnDiskIff | kernel/core/subdev.c:47-55 | an accepted entry lies on the disk if and only if its end does not wrap |
| Storage.WrappedEntryPasses | kernel/core/subdev.c:47-55 | a concrete entry of almost 2^32 blocks accepted on a disk of ten |
| Storage.PublishIs | kernel/core/subdev.c:47-93 | an entry is published as `count` blocks from `start` if and only if those are the numbers whose bytes stand at 454+16i and 458+16i, its type is not 0, its status is 0x80 or 0, its length is not 0, and its start and 32-bit end are on the disk |
| Storage.PublishedAreValid | kernel/core/subdev.c:57-93 | all published partitions lie on their disk when no entry wraps |
| Storage.PublishedExactly | kernel/core/subdev.c:95-126 | the partitions published are those of the good entries, each once and in the order of the sector |
| Storage.MbrProbe | kernel/core/subdev.c:95-126 | publishes in order exactly the partitions whose bytes stand in the good entries for which memory is got, all of them without faults; succeeds without faults if and only if the first sector carries the magic and blocks have at most 16384 bytes |
| Ext2Spec.PosThenBlock | kernel/drivers/fs/ext2/io.c:43-93 | a file block has a position if and only if it is below 12+n+n^2+n^3, the position is in range and leads back to the block |
| Ext2Spec.BlockThenPos | kernel/drivers/fs/ext2/io.c:43-93 | every position in range is the position of its block: with PosThenBlock, a bijection |
| Ext2Spec.LeafIsEnd | kernel/drivers/fs/ext2/io.c:97-144 | the leaf of a sound pointer tree is the one number at which the walk ends, each pointer being the number whose four bytes stand in the block before it |
| Ext2Spec.DeviceBlockIs | kernel/drivers/fs/ext2/io.c:43-176 | the device block of a file block is the end of the walk from the one place that belongs to the file block |
| Ext2Spec.BlockByteIs | kernel/drivers/fs/ext2/io.c:178-256 | a byte of a file is the byte at its place in that device block, or zero in a hole |
| Ext2Spec.BlockPieceIsFilePiece | kernel/drivers/fs/ext2/io.c:178-256 | a piece of one block is the piece of the file at that offset |
| Ext2Spec.FileNext | kernel/drivers/fs/ext2/io.c:178-256 | consecutive pieces of a file are one piece |
| Ext2.Ext2Fs.ReadBlock | kernel/drivers/fs/ext2/io.c:17-20 | a whole file system block of the device, through partition and driver blocks of another size |
| Ext2.Ext2Fs.GetBlock | kernel/drivers/fs/ext2/io.c:22-35 | a new held buffer with the block, or an error and nothing held |
| Ext2.Ext2Fs.PutBlock | kernel/drivers/fs/ext2/io.c:37-41 | takes a buffer that must still be held |
| Ext2.Ext2Fs.IndirectBlock | kernel/drivers/fs/ext2/io.c:97-144 | the last table of the walk, whose entry is the leaf of the pointer tree; every other table was put back, wherever a read or an allocation fails |
| Ext2.Ext2Fs.FileBlockToFsBlock | kernel/drivers/fs/ext2/io.c:147-176 | the number whose four bytes end the walk through the tables, 0 if a pointer on the way is 0; every block acquired is released exactly once |
| Ext2.Ext2Fs.ReadInode | kernel/drivers/fs/ext2/io.c:178-256 | if nothing fails, and the device has blocks of at most 16384 bytes, each byte of the range cut to the size of the file is the byte of the disk at the end of its walk, or zero in a hole; the count is the length of that range, also when a read or an allocation fails, and 0 for files that are or may be larger than 2^31 bytes |
| Ext2.Ext2Fs.UnnoticedFailure | kernel/drivers/fs/ext2/io.c:219-234 | on a device with 32768-byte blocks the first block of a file cannot be read, without any fault, and reading the file there reports the whole block |
| PathSpec.NormalizeIsIdempotent | kernel/core/fs.c:481-611 | the result has no empty, '.' or '..' component and no trailing slash, and a second run changes nothing |
| PathSpec.NormalizeFixesIff | kernel/core/fs.c:481-611 | a path is left alone if and only if it is in that form |
| PathSpec.SplitConcat | kernel/core/fs.c:105-110 | a slash separates the components before it from those after it |
| PathSpec.PrefixContinues | kernel/core/fs.c:105-110 | if the components of p begin those of q, then q is p or goes on behind p with a slash |
| PathNormalize.BackTrack | kernel/core/fs.c:577-592 | stepping back over the output removes exactly the last component, or the leading slash |
| PathNormalize.AtStart | kernel/core/fs.c:508-525 | in states INITIAL and FIELD_START: the invariant is kept, by which the output ends before the unread input and the unread input is as it was, and (input left, rank of the state) falls |
| PathNormalize.InField | kernel/core/fs.c:526-535 | the same in state IN_FIELD |
| PathNormalize.AtSeparator | kernel/core/fs.c:536-550 | the same in states SEP and SEEN_SEP |
| PathNormalize.AtDot | kernel/core/fs.c:551-576 | the same in states DOT and DOTDOT |
| PathNormalize.AfterDot | kernel/core/fs.c:555-572 | the same in state SEEN_DOT |
| PathNormalize.AfterDotDot | kernel/core/fs.c:577-603 | the same in state SEEN_DOTDOT |
| PathNormalize.Automaton | kernel/core/fs.c:505-605 | for every terminated buffer the nine-state loop ends with an output whose stripped form is the normal form, the terminator and what follows untouched |
| PathNormalize.FsNormalizePath | kernel/core/fs.c:481-611 | for every NUL-terminated buffer the in-place result is the fold over components, and nothing past the old terminator changes |
| MountSpec.UnderIsPrefix | kernel/core/fs.c:97-111 | the test of the search holds exactly when the component list of one path begins that of the other |
| MountSpec.FindIsShortest | kernel/core/fs.c:89-130 | the mount found has strictly the fewest components among those whose component lists begin that of the path, and none is found if and only if there is no such mount |
| MountSpec.PathsAreDistinct | kernel/core/fs.c:143-201 | mounted paths are pairwise different |
| MountSpec.StepKeepsTable | kernel/core/fs.c:143-268 | every operation keeps: no path equals or lies beneath an older one |
| MountSpec.RunKeepsTable | kernel/core/fs.c:134-427 | the table stays in order over every run, repeated unmounts included |
| MountSpec.RunKeepsInv | kernel/core/fs.c:134-427 | table and reference counts stay consistent over every run that unmounts each mount at most once |
| MountSpec.RefsFollowHandles | kernel/core/fs.c:134-141 | in runs that unmount each mount at most once, a mount's count is one until unmounted plus its open handles, and every handle's mount is in the list |
| MountSpec.RemovedIffLastReference | kernel/core/fs.c:134-141 | a mount leaves the table exactly when it is unmounted and its last handle is gone |
| MountSpec.UnmountDanglesIff | kernel/core/fs.c:229-243 | an unmount leaves a handle on a removed mount if and only if the count was one and a handle was open |
| MountSpec.DoubleUnmountDangles | kernel/core/fs.c:229-243 | mount, open, unmount and unmount again, from an empty table, leaves the open handle on a removed mount |
| MountSpec.NewMountHides | kernel/core/fs.c:143-201 | after a successful mount every path at or beneath it resolves to it |
| MountSpec.MountOutcome | kernel/core/fs.c:143-201 | mounting succeeds if and only if the path is absolute, no mounted component list begins its own, and device, file system and memory are had; else it answers -22, -19 or the failing call's error and changes nothing |
| MountSpec.UnmountOutcome | kernel/core/fs.c:229-243 | unmounting takes one reference from the mount for the path, removes it with the last one, and touches no other |
| MountSpec.OpenOutcome | kernel/core/fs.c:245-268 | opening adds one reference and one handle to the mount for the path, or nothing if the file system refuses |
| MountSpec.NoMountOutcome | kernel/core/fs.c:229-268 | with no mount for the path both answer -2 and change nothing |
| MountTable.ResolveCopy | kernel/core/fs.c:146-149 | the copy of at most 127 characters and its in-place normalisation |
| MountTable.Matches | kernel/core/fs.c:97-111 | the prefix test of the search accepts exactly the paths whose component lists are prefixes |
| MountTable.FsTable.FindMount | kernel/core/fs.c:89-130 | a mount whose component list begins that of the path, the first such in the list, with one more reference, and the rest of the path; none if there is no such mount |
| MountTable.FsTable.PutMount | kernel/core/fs.c:134-141 | one reference less, and out of the list at zero |
| MountTable.FsTable.FsMount | kernel/core/fs.c:143-201 | all outcomes of mount on the table |
| MountTable.FsTable.FsUnmount | kernel/core/fs.c:229-243 | both references dropped, or an error |
| MountTable.FsTable.FsOpen | kernel/core/fs.c:245-268 | the reference stays with the handle, or goes back if the file system refuses; the driver gets the path below the mount |
| MountTable.FsTable.FsClose | kernel/core/fs.c:343-350 | the handle's reference goes back unless closing fails |
| IntrusiveList.InsertForward | kernel/core/list.h:59-77 | the two next pointers written insert the item into the ring |
| IntrusiveList.RemoveForward | kernel/core/list.h:79-83 | the next pointers written take the item out of the ring |
| IntrusiveList.RingFrame | kernel/core/list.h:59-83 | a list none of whose nodes is touched stays the list it was |
| IntrusiveList.Links.AddHead | kernel/core/list.h:59-67 | the ring with the item after a given entry, both directions; no other node is touched |
| IntrusiveList.Links.AddTail | kernel/core/list.h:69-77 | the ring with the item before a given entry, both directions; no other node is touched |
| IntrusiveList.Links.Delete | kernel/core/list.h:79-83 | the ring without the item, whose own links are cleared; no other node is touched |
| IntrusiveList.Links.RemoveHead | kernel/core/list.h:85-93 | the first item and the ring without it, null for an empty list; no other node is touched |
| IntrusiveList.Links.Length | kernel/core/list.h:273-279 | the number of items |
| TaskRings.TaskLists.TaskPut | kernel/core/scheduler.c:35-60 | on pointers, the ring gets the task at the place task_put gives it in the sequence; no other node is touched and the final assert is unreachable |
| TaskRings.TaskLists.MoveToReady | kernel/clk.c:64-70 | an expired sleeper leaves the sleepers' ring and enters the ready ring |
| TaskRings.TaskLists.ClkWakeup | kernel/clk.c:56-71 | the safe iteration, with nodes moving to the other ring under way, leaves both rings as clk_wakeup on sequences does; other lists in the same memory are untouched |
| SchedulerProofs.EveryTaskInOnePlace | kernel/core/scheduler.c:92-234 | each task is in exactly one of current, ready, zombies and one wait queue, whatever queues there are, and its state says which |
| SchedulerProofs.PutPosition | kernel/core/scheduler.c:35-60 | a task goes behind all of its priority or higher and before all lower ones |
| SchedulerProofs.PutKeepsSorted | kernel/core/scheduler.c:35-60 | the list stays sorted and gains exactly the task |
| SchedulerProofs.ScheduleSwitches | kernel/core/scheduler.c:92-117 | a task that gives up the CPU is replaced by a highest-priority ready task |
| SchedulerProofs.WakeKeepsInv | kernel/core/scheduler.c:228-234 | taking any task off any wait queue and waking it keeps the invariant |
| SchedulerRuns.SchedulePicksHighest | kernel/core/scheduler.c:92-117 | no ready task had a higher priority than the one that runs next |
| SchedulerRuns.TurnComes | kernel/core/scheduler.c:92-117 | in any run of schedule calls, among equal priorities the task at position k runs after k+1 of them |
| SchedulerRuns.TurnComesExactly | kernel/core/scheduler.c:92-117 | and after no fewer |
| SchedulerRuns.TickKeepsInv | kernel/clk.c:73-85 | a clock tick keeps the scheduler's invariant |
| SchedulerRuns.TickWakesOnTime | kernel/clk.c:56-85 | a tick wakes exactly the expired sleepers, leaves the rest in order, and is the first tick at or after their deadline |
| SchedulerRuns.BootIsGood | kernel/core/scheduler.c:82-90 | the state after initialisation satisfies the invariant |
| SchedulerRuns.StepKeepsInv | kernel/core/scheduler.c:92-234 | every operation keeps the invariant |
| SchedulerRuns.EveryRunIsSafe | kernel/core/scheduler.c:92-234 | in every run from boot, with sleeps on and wake-ups from any queues: one place per task, ready empty only while idle runs, every deadline of a sleeper in the future |
| SchedulerRuns.LeavingSwitches | kernel/core/scheduler.c:134-226 | sleeping on any queue, sleeping until a deadline and exiting always switch to another task |
| SchedulerRuns.NeverWakesEarly | kernel/clk.c:56-126 | in every run a sleeper stays asleep until its deadline |
| SchedulerTasks.ExitWakes | kernel/core/scheduler.c:134-170 | the first task in `waiters` that waits for the pid of the exiting task, or for any child and is its parent, leaves the queue and is ready or runs; the others stay in order, nobody else becomes ready, and the exiting task is the last zombie, with its status |
| SchedulerTasks.FirstAwaitingExists | kernel/core/scheduler.c:152-167 | there is always exactly one such first place, or the end of the queue |
| SchedulerTasks.SleepWaits | kernel/core/scheduler.c:218-226 | a sleeping task is last in its queue with what it waits for, the other queues are as before, and one of the ready tasks runs |
| SchedulerTasks.NanosleepSleepsIff | kernel/clk.c:96-126 | the caller sleeps until the deadline if and only if that is ahead |
| SchedulerTasks.NewTask | kernel/core/scheduler.c:121-132 | a new task has the next pid, the current task as parent and the given priority, and stands behind all of its priority or higher and before all lower ones |
| SchedulerTasks.EveryRunHasUniquePids | kernel/core/scheduler.c:82-132 | in every run from boot no two tasks have the same pid |
| SchedulerTasks.PidsAreUnique | kernel/core/scheduler.c:92-234 | and every task keeps its pid, parent and priority |
| SchedulerTasks.TickSwitches | kernel/clk.c:73-85 | a tick is 10 ms; every second one switches to a highest-priority task among the ready ones and those it wakes, the others leave the running task alone |
| Scheduler.DeadlineIsExact | kernel/clk.c:103-115 | the deadline is the time asked for, counted from now if relative, if and only if that is in [0, 2^64) |
| Scheduler.RelativeSleepReturnsIff | kernel/clk.c:96-126 | exactly which relative times return at once |
| Scheduler.AbsoluteSleepReturnsIff | kernel/clk.c:103-115 | exactly which absolute times return at once: negative ones do not |
| Scheduler.NegativeSleepsBlock | kernel/clk.c:103-115 | ten seconds after boot, a delay of minus twenty seconds and the time minus one second both block |
| Scheduler.Kernel.PutReady | kernel/core/scheduler.c:35-60 | the search loop finds the position, and its final assert is unreachable |
| Scheduler.Kernel.Schedule | kernel/core/scheduler.c:92-117 | lists, states and current follow the specification |
| Scheduler.Kernel.WakeUp | kernel/core/scheduler.c:228-234 | the task becomes ready |
| Scheduler.Kernel.WakeFrom | kernel/drivers/block/cf20/cf20.c:81-83 | the k-th task of any queue leaves it and becomes ready |
| Scheduler.Kernel.QueueNew | kernel/core/scheduler.c:121-132 | a new task with the next pid becomes ready |
| Scheduler.Kernel.Exit | kernel/core/scheduler.c:134-170 | the lists and states that ExitWakes describes: the task becomes a zombie and the first task that awaits it ready |
| Scheduler.Kernel.SleepOn | kernel/core/scheduler.c:218-226 | the task joins the queue given, any queue, and gives up the CPU; a null queue is ignored |
| Scheduler.Kernel.Nanosleep | kernel/clk.c:96-126 | sleeps until the deadline, or returns if it has passed |
| Scheduler.Kernel.ClkWakeup | kernel/clk.c:56-71 | the deletion loop over the sleepers |
| Scheduler.Kernel.ClkHandler | kernel/clk.c:73-85 | the whole tick |
| PrintfInt.RevDigitsValue | libc/printf.c:275-284 | the digits in the buffer have the value, if 32 are enough |
| PrintfInt.ValuesFit | libc/printf.c:262-318 | 32 digits are enough for 32-bit values in every base and 64-bit values in bases 8, 10 and 16 |
| PrintfInt.FieldReadsBack | libc/printf.c:170-318 | without '#', a field reads back as the sign and value given, and its length is max(width, digits + sign) with precision zeros counted unless left-justified |
| PrintfInt.FieldReadsBackIff | libc/printf.c:207-318 | without '#', a field reads back as the sign and value given if and only if the value has at most 32 digits and a negative one leaves room for its sign |
| PrintfInt.FieldLengthIff | libc/printf.c:207-318 | its length is max(width, digits + sign) if and only if the buffer has room, or blanks make up for missing digits |
| PrintfInt.CrowdedField | libc/printf.c:207-260 | without room a field is 32 digits with no sign, and blanks |
| PrintfInt.RangeIsRoomy | libc/printf.c:170-318 | nothing is cut off for any such value at width and precision below 32 |
| PrintfHash.HashReadsBackIff | libc/printf.c:226-257 | with '#', for every value, base, width, precision and sign, the digits printed are the value's low ones, and are the value if and only if those kept can hold it |
| PrintfHash.HashRemovesDigits | libc/printf.c:227-234 | "%#4x" of 0x1234 keeps two digits, which cannot hold it |
| PrintfHash.PrefixIsWholeIff | libc/printf.c:226-257 | sign and prefix stand whole before the digits kept if and only if the 32-character buffer has room for all of them |
| PrintfHash.HashCutsPrefix | libc/printf.c:226-247 | "%#32b" of 0x80000000 loses its leading digit and part of its prefix |
| PrintfHash.RevDigitsMod | libc/printf.c:275-284 | the digits stored are the value modulo the base to the 32nd power |
| PrintfInt.WideFieldLosesSign | libc/printf.c:211-257 | "%040d" of -7 is 32 characters that read as 7 |
| PrintfInt.PrecisionIsKeptIff | libc/printf.c:211-224 | without '#', a field has as many digits as the precision if and only if that is at most 32 and the field is right-justified or the value has them itself |
| PrintfInt.LeftPrecisionIsDropped | libc/printf.c:211-224 | "%-.3d" of 5 has one digit |
| PrintfInt.LongPrecisionIsCut | libc/printf.c:216-218 | "%.40d" of 5 has 32 digits |
| PrintfReference.FieldIsRendered | libc/printf.c:179-318 | without '#' and with room, a field is the sign and the numeral of the number, digit by digit from a table, with zeros up to the precision unless left-justified, filled to the width with blanks or zeros |
| PrintfReference.NumeralDigits | libc/printf.c:275-284 | a numeral is made of digits of its base and has the value it was written for |
| PrintfLaws.AtoiIsDigits | libc/printf.c:170-176 | _atoi is the leading decimal number modulo 2^16 |
| PrintfLaws.AtoiInverts | libc/printf.c:170-176 | _atoi inverts the unsigned decimal conversion when no blanks come first |
| PrintfLaws.ConversionReadsBack | libc/printf.c:706-793 | every integer conversion of every argument type prints a field that reads back as the argument, of the length given; PlainPrints and IntegerPrints say which base and which number |
| PrintfLaws.FormatConcat | libc/printf.c:579-903 | a format followed by another prints what the first prints and then what the second prints from the remaining arguments |
| PrintfLaws.SizeModifierNeedsQuad | libc/printf.c:683-700 | a remark on the length modifiers: after 't', 'j' or 'z' an integer conversion is defined only for a long long |
| PrintfDirectives.DirectiveReads | libc/printf.c:601-702 | for all flags, widths and precisions, written or passed for '*', and length modifiers, a directive is read as it is meant |
| PrintfDirectives.ValueIsPassed | libc/printf.c:738-792 | the number converted is the one whose bits are the argument, signed for 'd' and 'i', with the width the length modifier says |
| PrintfDirectives.IntegerPrints | libc/printf.c:706-793 | the whole text of every integer directive, as a field of the number passed in base 16, 8, 2 or 10 with the flags that count for its letter |
| PrintfDirectives.IntegerIsRendered | libc/printf.c:706-793 | without '#' in effect and with room, that text is the number rendered |
| PrintfDirectives.PlainPrints | libc/printf.c:706-793 | "%x" and its kin, with any length modifier, print exactly the number passed in base 16 for x and X, 8 for o, 2 for b, 10 for d, i and u, with a minus if negative and capital digits for X only, and the text reads back as that number |
| PrintfDirectives.CharPrints | libc/printf.c:817-835 | %c prints one character and blanks to the width, on the side the flags say |
| PrintfDirectives.StringPrints | libc/printf.c:837-862 | %s prints the string, cut to the precision if there is one, and blanks to the width |
| PrintfDirectives.PointerPrints | libc/printf.c:864-884 | %p prints capital hexadecimal digits, zeros up to four of them |
| PrintfDirectives.OtherPrints | libc/printf.c:886-894 | any other character, '%' among them, prints itself and takes no argument |
| PrintfDirectives.PlainCharacters | libc/printf.c:589-596 | a format without '%' prints itself |
| Printf.EmitAt | libc/printf.c:126-131 | which character of a text of any length ends up at each place of the buffer |
| Printf.TerminatedIsBounded | libc/printf.c:898-902 | below 2^16 characters the buffer holds the text cut before its last place, a NUL, and its old contents behind |
| Printf.WrappedTextReadsEmpty | libc/printf.c:898-902 | a text of a multiple of 2^16 characters leaves an empty string |
| Printf.Sink.Out | libc/printf.c:126-131 | one character more in the text, stored only inside [0, maxlen) |
| Printf.Sink.OutField | libc/printf.c:179-204 | the buffer backwards with its blanks |
| Printf.DigitLoop | libc/printf.c:277-283 | the do-while loop stores the digits, at most 32 |
| Printf.FillBuffer | libc/printf.c:207-290 | digits, zeros, prefix and sign inside the 32 characters |
| Printf.Sink.Ntoa | libc/printf.c:263-318 | the field is appended to the output |
| Printf.ScanFlags | libc/printf.c:601-634 | the flags loop |
| Printf.ScanNumber | libc/printf.c:170-176 | _atoi on the format |
| Printf.ScanDirective | libc/printf.c:601-702 | flags, width, precision and length, with arguments taken for '*' |
| Printf.Run | libc/printf.c:589-896 | the loop over the format emits what the format language says is printed |
| Printf.Vsnprintf | libc/printf.c:579-903 | for every well-formed format and arguments, any maxlen and a null buffer: the count does not depend on maxlen, it is the number of characters if and only if they are below 2^15, the stored text is the bounded one, nothing else is written |
| Uart.InitializeSetsUp | kernel/drivers/pc16550.c:124-149 | the register writes of initialisation leave data mode, the FIFO and the interrupts set up |
| Uart.StartIsGood | kernel/drivers/pc16550.c:124-149 | the state after initialisation satisfies the invariant |
| Uart.DispatchIsRight | vboard/devices/p16550.go:154-180 | the branch the handler takes is decided by the queues, in this order: 14 bytes received, stale bytes, overrun, nothing left to send with the transmit interrupt on, or none |
| Uart.TransmitInterrupt | kernel/drivers/pc16550.c:184-216 | the transmit start turns the transmit interrupt on, and the handler turns it off when the ring is empty |
| Uart.BurstSizes | kernel/drivers/pc16550.c:157-192 | one interrupt moves up to 16 bytes of the ring out, oldest first, and 14 bytes in |
| Uart.HandlerKeepsInv | kernel/drivers/pc16550.c:151-209 | every register access of the handler keeps the invariant, in which the RX ring holds the last 511 bytes delivered |
| Uart.XmitKeepsInv | kernel/drivers/pc16550.c:211-216 | so does every access of the transmit start |
| Uart.DeviceTakesKeepsInv | vboard/devices/p16550.go:192-224 | so does the device taking a byte to send |
| Uart.DeviceInputKeepsInv | vboard/devices/p16550.go:192-224 | so does the device receiving a byte |
| Uart.RunKeepsInv | vboard/devices/p16550.go:76-224 | the invariant holds after every interleaving |
| Uart.EveryInterleavingIsFaithful | kernel/drivers/pc16550.c:151-209 | in every interleaving, bytes taken from the TX ring are those written followed by those on their way, bytes accepted are those delivered followed by those on their way, and the RX ring holds the last 511 delivered |
| Uart.InputIsAllThere | kernel/drivers/pc16550.c:151-187 | in every interleaving up to 511 accepted bytes are, in order, the RX ring, the byte in the handler's hands and the queue of the device |
| Uart.LogsAreTheInput | vboard/devices/p16550.go:192-224 | the logs of both ends are the bytes the console queued and the bytes that found room in the device |
| Uart.NoDropNoPhantom | vboard/devices/p16550.go:76-137 | a byte written by the handler is never dropped and a byte it reads is never made up |
| Uart.QuietMeansWritten | kernel/drivers/pc16550.c:151-216 | when everything has drained and the ring lost nothing, the output is what the console queued |
| Uart.TypedIsWritten | kernel/drivers/pc16550.c:151-216 | when everything has drained and the ring lost nothing, the output is what was queued before and during the run |
| RingBuffer.MaskWraps | kernel/core/ringbuffer.c:35-47 | the mask is the wrap-around of an index, in 16 bits |
| RingBuffer.MaskDistance | kernel/core/ringbuffer.h:106-117 | the masked difference is the distance from tail to head, negative differences included |
| RingBuffer.QueueView | kernel/core/ringbuffer.c:35-47 | storing at the head, moving the tail when full, is appending and dropping the oldest |
| RingBuffer.LastNAppend | kernel/core/ringbuffer.c:49-56 | dropping byte by byte is dropping once |
| RingBuffer.Ring.IsEmpty | kernel/core/ringbuffer.h:99-101 | true exactly for the empty queue |
| RingBuffer.Ring.IsFull | kernel/core/ringbuffer.h:106-109 | true exactly at n-1 items |
| RingBuffer.Ring.NumItems | kernel/core/ringbuffer.h:114-117 | the length of the queue |
| RingBuffer.Ring.Queue | kernel/core/ringbuffer.c:35-47 | the last n-1 of the old items and the new one |
| RingBuffer.Ring.QueueArr | kernel/core/ringbuffer.c:49-56 | the last n-1 of the old items and all new ones |
| RingBuffer.Ring.Dequeue | kernel/core/ringbuffer.c:58-67 | the oldest item, or none |
| RingBuffer.Ring.DequeueArr | kernel/core/ringbuffer.c:69-83 | the oldest items in order, as many as asked for and present |
| RingBuffer.Ring.Peek | kernel/core/ringbuffer.c:85-96 | the i-th item, or none past the end |

## Left out

- BuddyHeap.Heap.Malloc: requires that the request and its header, in 16 bits, are at most 32768, because `getindex` does not return otherwise; the size of the heap is not bounded by the address space.
- BuddyHeap.Heap.Free: only for live pointers and null; the effect of other pointers is undefined.
- BlockDevice.Disk.DefaultRead: devices of up to 2^31 - 65535 bytes with power-of-two blocks of at most 32768 bytes; what a failing call has put into the range of the buffer is left open.
- Storage.BlkRead: offsets are not negative, null devices and buffers are not modelled.
- Ext2.Ext2Fs.ReadInode: block pointers on the walk and file blocks fit 16 bits and lie on the device; offsets are not negative; the inode is given.
- MountSpec.RefsFollowHandles: for runs in which each mount is unmounted at most once; `UnmountDanglesIff` says what a further unmount does.
- MountTable.FsTable.FsOpen: one operation for files and directories; the file system's own answer is a parameter.
- Scheduler.Kernel.Exit: the task's memory is not freed, since the reaping end of `scheduler_wait` frees a task that is still in the zombie list; nothing is claimed about reaping, or about waiters beyond the first that matches.
- SchedulerRuns.EveryRunIsSafe: only the clock puts tasks on its own list or takes them off, and `waiters` holds only tasks that wait for a pid, as in the kernel; any other queue may be slept on and woken from freely.
- Scheduler.Kernel.Schedule: the context switch itself is not modelled, only who runs next; pids, ticks and nanoseconds are unbounded.
- Printf.Vsnprintf: formats that end inside a directive and arguments of another type than the directive's have no defined result; `_out_char`, `_out_fct` and the wrappers around `_vsnprintf` are not modelled; `char` is signed.
- Uart.EveryInterleavingIsFaithful: overruns are counted as input not accepted; timing, baud rates and the end of the handler are left open; the handler is a state machine over values, since its accesses interleave with the device.
- Lists of tasks, zombies and mounts are sequences of addresses in the scheduler and mount models; only `task_put` and `clk_wakeup` are also carried out on the pointers, in `TaskRings`.
- BuddyHeap.Heap.UserWrite: a memory cell of the heap holds a whole word, so writes of single bytes next to a header are not expressed.
- `sbrk`, drivers, file systems and memory allocation are parameters or plans of outcomes that say whether and how each call succeeds.
- `calloc`, `strdup`, `strlcpy`, the console, task descriptors, `brk`: only easy members.
- Device registration and naming in `blkdev.c`, and the names of partitions.
- `kernel/page.c`: its split loop stops early and its merge loop is unfinished, so the buddy invariants do not hold of it.
- `kernel/drivers/block/cf20`: port I/O; the driver is a block array with a plan of failures.
- `kernel/drivers/fs/ext2/dir.c` and `get_inode_addr`: a missing name counts as found, and inode addresses are narrowed to 16 bits.
- `fs_create_file`, `fs_remove_file`, `fs_stat_fs` and other calls in `fs.c` that only resolve a path and forward to the file system.
- Floating point conversions of `printf`, which the build leaves out.
- Assembly, context switch, boot, board tables, interrupt controller and timer set-up, system call stubs, flash commands.

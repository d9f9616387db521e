# KOS kernel: a verified model of the storage, memory, scheduling and message layers

KOS is a 32-bit x86 kernel. This project models its most intricate code in Dafny and proves what that code promises.

* **FAT16 and FAT32 drivers.** The disk is an array of bytes. `FatImage` and `FatDevice` say where table copies, root
  area and clusters lie; `FatVolume` is the volume as a value, with the bookkeeping (`Layout`) that says which cluster
  belongs to whom; `FatSteps`, `FatLink`, `FatFile`, `FatInsert`, `FatMove` and `FatWrite` are the steps from one
  well-formed volume to the next. `FatDriver.Fat` holds the operations both drivers share, `Fat16` and `Fat32` the rest
  and the theorems, `Fat32Runs` the FAT32 theorems over whole runs of calls. `FatFormat` gives an empty volume of any
  geometry from which all of them start. What a caller sees is a tree: a map from (directory, name) to a subdirectory or
  to a file's bytes. `ShortName` is the 8.3 name coding, `FatTree` and `FatWalk`
  are paths.
* **Memory.** `Pmm` is the bitmap frame allocator, `Paging` the two-level page tables whose tables live in frames of
  that allocator (section 4.3 of volume 3A of the Intel SDM), `HeapBlocks` and `Heap` the split-and-coalesce heap that
  grows through both.
* **Scheduling and messages.** `Scheduler` has the five intrusive ready queues and the sleeping list, `MessageQueues`
  the receiver-filtered message list.
* **Stand-alone algorithms.** `PathNormal` (path normalisation), `Blit` (overlapping rectangle copy over `memmove`),
  `Division` (64-bit restoring division).

Code that updates objects in place is modelled by classes and methods with loops; each method is proved against a
specification on values, and the promises are proved about those. `hide` statements only narrow what a proof looks at.

The device holds all clusters of the volume and does not fail; scratch buffers at fixed addresses are local values;
locks, logging and output are left out. Machine words wrap explicitly wherever the code lets them;
the page size is a 64-bit constant (kernel/include/memory/memory.hpp:8), so sums with it do not wrap before they are
stored in a 32-bit word.

## Findings

Each of these is a place where the code does not do what it is meant to do. The model follows the code.

| what fails | where | stated by |
|---|---|---|
| A FAT16 append is exact, whatever the data, if and only if the file has a start cluster and its end lies in its last cluster. | kernel/src/fs/fat16.cpp:74-102 | `FatWrite.AppendExact` |
| A file without a start cluster loses what is appended: the first new cluster is linked to entry 0 of the table, the size is recorded, the file still reads as empty. | kernel/src/fs/fat16.cpp:74-79, kernel/src/fs/fat32.cpp:495-500 | `FatDriver.Fat.AppendLost`, `FatWrite.AppendExact`, `FatWrite.MediaReads` |
| A file created in the FAT16 root records size 0 and reads back as empty. A second write goes behind its clusters and records its own length, so the file then reads as the beginning of the first write. | kernel/src/fs/fat16.cpp:64-65, kernel/src/fs/fat16.cpp:80-102 | `Fat16.RootWriteIsLost` |
| A FAT32 append is exact, whatever the data, if and only if the file has a start cluster and either does not end on a cluster boundary and ends in its last cluster, or is not empty, ends on a boundary and has exactly one spare cluster. So an append to a file that ends in its last cluster, on a boundary, overwrites that cluster. | kernel/src/fs/fat32.cpp:505 | `FatWrite.AppendExact`, `Fat32.JoinedAppend`, `Fat32.AppendOverwrites` |
| FAT32 descends through files. When such a path makes the driver insert an entry and the file has a start cluster, the entry goes into the clusters of the file: no name is added and its store, slack included, changes. The condition that no file lies on the way is therefore necessary for such an insertion; it is sufficient, not necessary, for lookups, which merely read the file's bytes as slots. A caller can check it beforehand. | kernel/src/fs/fat32.cpp:455-456 | `Fat32Runs.AddEntryThroughFile`, `Fat32Runs.CheckParent`, `Fat32Runs.CheckDirs` |
| When the file on the way has no start cluster, the insertion begins at cluster 0, the sectors two clusters before the data area. Whenever a slot there is free the entry overwrites those sectors, which belong to the last copy of the table if that holds at least two clusters' worth of sectors: with two or more copies they then differ. | kernel/src/fs/fat32.cpp:246-252, kernel/src/fs/fat32.cpp:397-420 | `Fat32Runs.AddEntryBeforeData` |
| Cluster allocation searches the whole table, which is rounded up to sectors. However the clusters are in use, it stays on the device if and only if no entry past the last cluster is 0. | kernel/src/fs/fat16.cpp:416-418 | `FatImage.AllocationInside` |
| Names round-trip through the 11-byte form if and only if they fit 8.3 and do not end in a period. | kernel/src/fs/fat16.cpp:559-570 | `ShortName.PackRoundTrip` |
| The sum in `find_block` wraps: a block that passes the test holds the request if and only if the sum stays below 2^32. On any heap whose only block is free, a request of almost 4 GiB is answered with that block. | kernel/src/memory/heap.cpp:134-136 | `Heap.PassesMeans`, `Heap.HugeRequest` |
| The heap grows over a page that could not be mapped: the result of the mapping is not looked at. A page is mapped if and only if its directory slot has a table or two frames below 64 MiB are free, one for the page and one for the table. All pages of a growth are mapped if and only if as many frames below 64 MiB are free as the missing tables and the pages up to the last of them take. | kernel/src/memory/heap.cpp:112-116, kernel/src/memory/heap.cpp:162-167 | `Heap.Heap.AddPage`, `Heap.Heap.Ensure`, `Paging.NeededIs` |
| `normalize_align` never ends for an alignment above 2^31: no value it computes gets there. | kernel/src/memory/heap.cpp:41 | `Heap.NeverReached` |
| The range loops of unmapping and remapping never end if and only if the size is above 0xFFFFF000: their 32-bit counter wraps before it gets there. | kernel/src/memory/paging.cpp:109-116, kernel/src/memory/paging.cpp:153-160 | `Paging.RangeNeverEnds` |
| A sleep ends when it is meant to if and only if it is at most 42949672 ms long and the 32-bit clock does not wrap before it ends; otherwise it ends early. | kernel/src/process/scheduler.cpp:375-379 | `Scheduler.WakesOnTime` |
| Message ids rise as long as the 32-bit counter has not wrapped; when it wraps, two messages received in order get falling ids. | kernel/src/process/message_queue.cpp:118 | `MessageQueues.IdsRise`, `MessageQueues.IdsWrap` |
| The most negative 64-bit value divided by -1 satisfies a = q*b + r only modulo 2^64. | kernel/src/lib/compiler_rt.cpp:43-60 | `Division.TruncRem` |

## Model

| member | source | states |
|---|---|---|
| `ShortName.PackShortName11` | kernel/src/fs/fat16.cpp:559-570 | accepts exactly the names of allowed characters with at most one period, and then gives their packed form |
| `ShortName.PackRegular` | kernel/src/fs/fat16.cpp:559-570 | whatever is accepted packs to a name that may stand in a slot |
| `ShortName.PackRoundTrip` | kernel/src/fs/fat16.cpp:559-570 | rebuilding the dotted text from the 11 bytes gives the upper-cased name if and only if the name is canonical |
| `ShortName.DottedInjective` | kernel/src/fs/fat16.cpp:686-718 | distinct slot names read as distinct texts, so the two lookups agree |
| `ShortName.MergedName` | kernel/src/fs/fat16.cpp:697-704 | the text rebuilt from a slot is base, period and extension in upper case |
| `ShortName.ComponentsJoin` | kernel/src/fs/fat32.cpp:444-457 | a slash separates the components of a path |
| `FatVolume.ChainsDisjoint` | kernel/src/fs/fat16.cpp:384-430 | chains of a well-formed volume share no cluster and visit none twice |
| `FatVolume.FreeIsUnowned` | kernel/src/fs/fat16.cpp:412-430 | a cluster whose entry is 0 belongs to no chain |
| `FatVolume.ChainDetermined` | kernel/src/fs/fat16.cpp:384-393 | the table alone determines a chain from its first cluster |
| `FatImage.WriteInCluster` | kernel/src/fs/fat16.cpp:380-382 | a write inside a cluster changes that cluster of the volume, no other, and no table copy |
| `FatImage.AllocationInside` | kernel/src/fs/fat16.cpp:412-430 | the search stays on the device, however the clusters are in use, if and only if no entry past the last cluster is 0 |
| `FatDevice.Volume.WriteTableSector` | kernel/src/fs/fat16.cpp:403-408 | after the mirror loop all copies are equal and differ from before in the one entry |
| `FatDriver.Fat.NextCluster` | kernel/src/fs/fat16.cpp:384-393 | reads the entry of the table, in 16 or 28 bits |
| `FatDriver.Fat.UpdateFAT` | kernel/src/fs/fat32.cpp:270-294 | changes exactly one entry in every copy; the top four bits of the raw FAT32 entry stay |
| `FatDriver.Fat.FindFreeEntry` | kernel/src/fs/fat32.cpp:300-322 | the least free entry of the whole table, or 0 |
| `FatDriver.Fat.AllocateCluster` | kernel/src/fs/fat16.cpp:412-430 | takes the least cluster whose entry was 0 and marks it end-of-chain, or finds none free and changes nothing |
| `FatDriver.Fat.FindShortNameInDirCluster` | kernel/src/fs/fat16.cpp:686-718 | finds a name if and only if the directory has it, with its start, size and kind |
| `FatDriver.Fat.FindShortEntryInDir` | kernel/src/fs/fat32.cpp:368-395 | the same by packed name, with the place of the slot |
| `FatDriver.Fat.InsertIntoChain` | kernel/src/fs/fat32.cpp:397-434 | puts a slot in the first free place, extending the directory when it is full; a failed insertion changes nothing and no cluster is free |
| `FatDriver.Fat.AddEntryToDir` | kernel/src/fs/fat16.cpp:461-495 | exactly one name is added, leading to the given chain; all other names stay, also when the directory grows |
| `FatDriver.Fat.ReadChain` | kernel/src/fs/fat16.cpp:760-776 | the chain's bytes, cut at the recorded size and at the buffer |
| `FatDriver.Fat.CreateChain` | kernel/src/fs/fat16.cpp:37-62 | a new chain that no entry leads to and that holds the data and less than one cluster of zeros; the tree is unchanged |
| `FatDriver.Fat.AppendData` | kernel/src/fs/fat16.cpp:74-102 | only this file's chain is written, nothing before the write position changes, and on success all data is placed, followed by zeros only |
| `FatDriver.Fat.AppendLost` | kernel/src/fs/fat32.cpp:495-528 | the same loop begun at cluster 0: the tree is unchanged, the data lies in a chain that only entry 0 of the table leads to |
| `FatDriver.Fat.StoreSizeInDir` | kernel/src/fs/fat16.cpp:123-130 | one file's recorded size changes, in 32 bits |
| `FatWrite.MediaReads` | kernel/src/fs/fat16.cpp:93-95 | entry 0 reads as a cluster if and only if data has been lost |
| `FatWrite.StoredMeans` | kernel/src/fs/fat16.cpp:35-131 | what a reader sees of a write: a new file holds exactly the data, but in the FAT16 root it reads as empty; a file that appends exactly holds old contents and data and ends in its last cluster again |
| `FatWrite.AppendExact` | kernel/src/fs/fat16.cpp:72-131 | every append to a file gives contents and data if and only if, in FAT16, it has a start cluster and ends in its last cluster; in FAT32 with the boundary condition of the findings |
| `FatWrite.UnseenAppend` | kernel/src/fs/fat16.cpp:80-102 | an append that runs out of space keeps the size and changes no byte before the write position, so a file whose recorded size its clusters cover reads as before |
| `FatTree.ReadAfterWrite` | kernel/src/fs/fat16.cpp:720-780 | after one node changes, its path reads the new contents and every path to another entry reads as before |
| `FatTree.WalkInjective` | kernel/src/fs/fat32.cpp:941-954 | only one path leads from the root to a directory |
| `Fat16.FindShortNameInRoot` | kernel/src/fs/fat16.cpp:653-684 | finds a name in the root if and only if it is there |
| `Fat16.FindShortEntryWithOffset` | kernel/src/fs/fat16.cpp:497-536 | finds a packed name in root or directory if and only if it is there, with the place of its slot |
| `Fat16.AddEntryToRoot` | kernel/src/fs/fat16.cpp:538-557 | one name is added to the root, with size 0, or the root area is full |
| `Fat16.WalkToParent` | kernel/src/fs/fat16.cpp:14-29 | reaches the parent directory of the path if and only if every step is a directory |
| `Fat16.ReadFile` | kernel/src/fs/fat16.cpp:720-780 | gives what the tree says the path reads |
| `Fat16.WriteFile` | kernel/src/fs/fat16.cpp:5-132 | on success exactly one node changes and `Stored` gives the node it becomes, for every file; on failure at most bytes behind the write position change and there is a reason; the volume stays well formed |
| `Fat16.CreateEntry` | kernel/src/fs/fat16.cpp:35-70 | a new file has exactly the data in its clusters, with size 0 in the root |
| `Fat16.AppendEntry` | kernel/src/fs/fat16.cpp:72-131 | an existing file becomes what placing the data at the write position makes of its clusters; one without a start cluster keeps none |
| `Fat16.InitDirCluster` | kernel/src/fs/fat16.cpp:432-459 | the cluster holds the two dot entries and zeros |
| `Fat16.Mkdir` | kernel/src/fs/fat16.cpp:572-651 | the tree gains directories only, on success the whole path resolves, on failure there is a reason |
| `Fat16.WriteThenRead` | kernel/src/fs/fat16.cpp:5-132 | what the path reads after a write, for every file: old contents and data if the file is new or ends in its last cluster, nothing if it has no start cluster or is new in the root; every other path reads as before |
| `Fat16.WriteAndRead` | kernel/src/fs/fat16.cpp:720-780 | WriteFile followed by ReadFile on the same volume returns what WriteThenRead says |
| `Fat16.RootWriteIsLost` | kernel/src/fs/fat16.cpp:64-102 | a new file in the root reads back as empty; after a second write it reads as the first one cut to the length of the second |
| `Fat16.RunAll` | kernel/src/fs/fat16.cpp:5-132 | any run of writes and directory creations, failing ones included, keeps chains linked, disjoint and ended and all table copies equal; each call moves the tree by one step |
| `Fat16.RunContents` | kernel/src/fs/fat16.cpp:5-132 | at the end of any run a file outside the root, no write to which failed, holds its first contents and then everything written to it, in order; one without a start cluster is empty |
| `Fat32.WalkToParent` | kernel/src/fs/fat32.cpp:444-457 | reaches the parent of the path exactly when it exists |
| `Fat32.ReadFile` | kernel/src/fs/fat32.cpp:779-829 | gives what the tree says the path reads |
| `Fat32.WriteFile` | kernel/src/fs/fat32.cpp:436-538 | on success exactly one node changes and `Stored` gives the node it becomes, for every file; on failure at most bytes behind the write position change and there is a reason; the volume stays well formed |
| `Fat32.JoinedAppend` | kernel/src/fs/fat32.cpp:501-528 | the append is exact off a cluster boundary; on one, the data goes over the last cluster |
| `Fat32.AppendOverwrites` | kernel/src/fs/fat32.cpp:505-515 | a file of one full cluster starts with the appended byte |
| `Fat32.InitDirCluster` | kernel/src/fs/fat32.cpp:344-366 | the cluster holds the two dot entries and zeros |
| `Fat32.Mkdir` | kernel/src/fs/fat32.cpp:831-876 | the tree gains directories only, on success the whole path resolves, on failure there is a reason |
| `Fat32.SplitParentBasename` | kernel/src/fs/fat32.cpp:919-932 | splits a path at its last slash, cut to the two buffers |
| `Fat32.Rename` | kernel/src/fs/fat32.cpp:915-987 | on success the tree is the old one with one entry moved; on failure nothing changes and there is a reason |
| `Fat32.RenameInPlace` | kernel/src/fs/fat32.cpp:969-975 | overwriting the eleven name bytes renames the entry |
| `Fat32.MoveFile` | kernel/src/fs/fat32.cpp:977-986 | adding the new entry and deleting the old one moves the file, although two entries share a chain in between |
| `Fat32.WriteThenRead` | kernel/src/fs/fat32.cpp:436-538 | what the path reads after a write, for every file: a new one as the data, one that appends exactly as contents and data, one that ends in its last cluster so if and only if it does not end on a cluster boundary; every other path reads as before |
| `Fat32.RenameThenRead` | kernel/src/fs/fat32.cpp:915-987 | the destination reads what the source read, the source no longer resolves, every path that meets neither entry reads as before |
| `Fat32Runs.CheckDirs` | kernel/src/fs/fat32.cpp:840-853 | tells whether a path meets a file on the way |
| `Fat32Runs.CheckParent` | kernel/src/fs/fat32.cpp:444-457 | tells whether the parent of a path lies behind a file |
| `Fat32Runs.AddEntryThroughFile` | kernel/src/fs/fat32.cpp:397-434 | the insertion loop started on the clusters of a file changes that file's store whenever it succeeds, and adds no name |
| `Fat32Runs.AddEntryBeforeData` | kernel/src/fs/fat32.cpp:397-420 | the first turn of the insertion loop at cluster 0 writes exactly when the sectors two clusters before the data area have a free slot, changes no cluster, and breaks the equality of the table copies when those sectors belong to the last of several |
| `Fat32Runs.RunAll` | kernel/src/fs/fat32.cpp:436-538 | any run of writes, directory creations and renames, of which calls whose path meets a file are not made, keeps the volume well formed; each call moves the tree by one step |
| `Fat32Runs.RunContents` | kernel/src/fs/fat32.cpp:915-987 | at the end of a run without failed or boundary writes every key reads what follows from the first tree by appending what was written and carrying texts along with renames |
| `Fat32Runs.WriteAndRead` | kernel/src/fs/fat32.cpp:779-829 | WriteFile followed by ReadFile on the same volume returns what WriteThenRead says |
| `Fat32Runs.RenameAndRead` | kernel/src/fs/fat32.cpp:915-987 | ReadFile, Rename and ReadFile of both paths: the new path reads what the old one read, the old one is gone |
| `Pmm.PMM.Init` | kernel/src/memory/pmm.cpp:33-86 | exactly the frames from 1 MiB to the cap that do not overlap the kernel image are free, and the counter counts them |
| `Pmm.PMM.AllocFrame` | kernel/src/memory/pmm.cpp:106-120 | the least free frame, or 0 when none is free |
| `Pmm.PMM.FreeFrame` | kernel/src/memory/pmm.cpp:122-130 | frees a used frame below the cap and nothing else |
| `Pmm.PMM.MarkRangeUsed` | kernel/src/memory/pmm.cpp:88-95 | takes exactly the frames that overlap the range |
| `Pmm.PMM.MarkRangeFree` | kernel/src/memory/pmm.cpp:97-104 | frees exactly the frames that overlap the range |
| `Pmm.Serve` | kernel/src/memory/pmm.cpp:33-130 | over any run from Init on, with clients that free only what they got, every address handed out is the least usable frame not lent; none lies below 1 MiB, in the kernel or is lent twice |
| `Paging.PageTables.TableFrame` | kernel/src/memory/paging.cpp:41-66 | the retry loop succeeds if and only if the least free frame lies below 64 MiB, and leaves the allocator unchanged otherwise |
| `Paging.PageTables.EnsureTable` | kernel/src/memory/paging.cpp:33-81 | gives a table when there is one or can be one, without changing any translation |
| `Paging.PageTables.MapPage` | kernel/src/memory/paging.cpp:83-98 | the map from pages to frames changes at exactly one page, if and only if the page is reachable |
| `Paging.PageTables.UnmapPage` | kernel/src/memory/paging.cpp:100-107 | exactly one page leaves the map |
| `Paging.PageTables.GetPhys` | kernel/src/memory/paging.cpp:118-125 | the translation of the map, or 0 |
| `Paging.PageTables.RemapPageFlags` | kernel/src/memory/paging.cpp:142-151 | no translation changes, only the flags of one mapped page |
| `Paging.PageTables.MapRange` | kernel/src/memory/paging.cpp:127-140 | maps exactly a prefix of the range, all of it unless a page cannot be reached |
| `Paging.PageTables.UnmapRange` | kernel/src/memory/paging.cpp:109-116 | exactly the pages of the range leave the map |
| `Paging.PageTables.RemapRangeFlags` | kernel/src/memory/paging.cpp:153-160 | no translation changes; exactly the mapped pages of the range get the flags |
| `Paging.RangedAt` | kernel/src/memory/paging.cpp:127-140 | what the range calls make of the map: each page of the range leads to its own frame, all others stay |
| `Paging.RangeNeverEnds` | kernel/src/memory/paging.cpp:109-116 | the counter of the range loops stays below the size for ever if and only if the size is above 0xFFFFF000 |
| `Paging.PageTables.IdentityMap` | kernel/src/memory/paging.cpp:177-181 | maps a prefix of the first 64 MiB to itself, all of it if and only if 16 frames below 64 MiB are free |
| `Heap.NormalizeAlign` | kernel/src/memory/heap.cpp:37-45 | the least power of two from 8 on that covers the alignment |
| `Heap.NeverReached` | kernel/src/memory/heap.cpp:37-45 | above 2^31 the doubling loop reaches no large enough value |
| `Heap.PassesMeans` | kernel/src/memory/heap.cpp:129-142 | what fits passes the test of find_block; what passes fits if and only if the sum does not wrap |
| `Heap.HugeRequest` | kernel/src/memory/heap.cpp:129-142 | on any heap whose only block is free the search answers some request with a block that does not hold it |
| `Heap.Heap.constructor` | kernel/src/memory/heap.cpp:146-158 | an empty or one-block heap over the pages that could be had; all of them are mapped if and only if enough frames below 64 MiB are free, and in any case when the tables of the window are there and the heap ends inside it |
| `Heap.Heap.AddPage` | kernel/src/memory/heap.cpp:162-167 | one more page, mapped to a frame of its own if and only if its table is there or two frames below 64 MiB are free; otherwise the heap grows over an unmapped page; 0 pages when no frame is free |
| `Heap.Heap.Ensure` | kernel/src/memory/heap.cpp:160-169 | extends the range page by page or the frames run out; exactly the recorded pages are not mapped, and there are none if and only if enough frames below 64 MiB were free |
| `Heap.PhysicallyApart` | kernel/src/memory/heap.cpp:160-169 | distinct addresses in mapped pages of the heap translate to distinct physical addresses |
| `Paging.NeededIs` | kernel/src/memory/paging.cpp:33-66 | the frames below 64 MiB that mapping a range takes: one for each page up to the first page of the last missing table and one for each missing table |
| `Heap.Heap.CreateBlockAt` | kernel/src/memory/heap.cpp:64-76 | hangs a free block behind the list |
| `Heap.Heap.SplitBlock` | kernel/src/memory/heap.cpp:87-104 | cuts a block down when the rest is worth a block; no allocation's bytes change |
| `Heap.Heap.AbsorbNext` | kernel/src/memory/heap.cpp:78-85 | joins a block with its free right neighbour |
| `Heap.Heap.FindBlock` | kernel/src/memory/heap.cpp:129-142 | the first block that passes the wrapped test; it holds the request if and only if its sum does not wrap; no fitting block is missed |
| `Heap.Heap.GrowHeap` | kernel/src/memory/heap.cpp:106-127 | on success the last block is free and large enough; on failure the list is unchanged and no frame is free |
| `Heap.LastHolds` | kernel/src/memory/heap.cpp:182-190 | after growth the last block holds the request for every size and alignment in range |
| `Heap.Heap.Alloc` | kernel/src/memory/heap.cpp:171-200 | exactly one region is added, aligned and disjoint from the others, whose bytes are kept; 0 only for size 0 or when the frames run out |
| `Heap.Heap.Free` | kernel/src/memory/heap.cpp:202-223 | exactly the region of the pointer is released, the account drops by its block's size, all other bytes are kept |
| `Heap.Heap.Used` | kernel/src/memory/heap.cpp:225 | the sum of the sizes of the used blocks |
| `Heap.FreeCoalesced` | kernel/src/memory/heap.cpp:202-223 | after a release no two neighbours are both free |
| `HeapBlocks.AllocsApart` | kernel/src/memory/heap.cpp:171-200 | two live allocations share no byte |
| `HeapBlocks.AllFree` | kernel/src/memory/heap.cpp:202-223 | with nothing allocated and no gap, one free block spans the heap |
| `Heap.Serve` | kernel/src/memory/heap.cpp:171-223 | over any run of allocations, frees of live pointers and stores into held memory, even when growth fails, what is held is exactly what is allocated, apart and aligned as asked for, and holds the bytes last stored there, which presumes mapped pages; a held byte is mapped if and only if its page is not one that growth failed to map, and none is added while the heap stays in a window whose tables are there; while a frame is free every request is answered; when all is back and no growth failed, one free block spans the heap |
| `Scheduler.Scheduler.AddToReadyQueue` | kernel/src/process/scheduler.cpp:80-95 | the task goes behind the queue of its class |
| `Scheduler.Scheduler.GetHighestPriorityTask` | kernel/src/process/scheduler.cpp:101-117 | the head of the best queue that is not empty leaves it |
| `Scheduler.Scheduler.ProcessSleepingTasks` | kernel/src/process/scheduler.cpp:119-131 | exactly the due sleepers move to their queues, in order |
| `Scheduler.Scheduler.CreateTask` | kernel/src/process/scheduler.cpp:66-78 | a new task with the next id joins its queue |
| `Scheduler.Scheduler.Schedule` | kernel/src/process/scheduler.cpp:133-175 | wakes exactly the due sleepers, puts the running task behind its class and picks the longest-waiting task of the best class |
| `Scheduler.Scheduler.Yield` | kernel/src/process/scheduler.cpp:177-182 | the same, when there is a running task |
| `Scheduler.Scheduler.SleepCurrent` | kernel/src/process/scheduler.cpp:370-391 | the running task goes to the sleeping list with its wake time, and another one is picked |
| `Scheduler.Scheduler.TerminateCurrentTask` | kernel/src/process/scheduler.cpp:184-198 | the running task leaves for good, and another one is picked |
| `Scheduler.Scheduler.FindTask` | kernel/src/process/scheduler.cpp:299-322 | finds a live task by id if and only if there is one |
| `Scheduler.Scheduler.GetTaskCount` | kernel/src/process/scheduler.cpp:273-297 | the number of live tasks |
| `Scheduler.Scheduler.YieldRound` | kernel/src/process/scheduler.cpp:177-182 | with k tasks in the top class, k yields run each of them once and restore the queues |
| `Scheduler.RunAll` | kernel/src/process/scheduler.cpp:66-198 | over any run each event moves queues, sleeping list, running task, clock and the set of live tasks by exactly one step, and in every state each live task is in exactly one place |
| `Scheduler.Conserved` | kernel/src/process/scheduler.cpp:66-198 | after any run the number of live tasks is that at the start plus the tasks made less those that ended themselves |
| `Scheduler.Stays` | kernel/src/process/scheduler.cpp:133-198 | in any run a task leaves only by ending itself while it runs |
| `Scheduler.NoOvertaking` | kernel/src/process/scheduler.cpp:80-175 | in any run, of two tasks waiting in the same queue the one behind does not run before the one ahead has run |
| `Scheduler.SleepsThrough` | kernel/src/process/scheduler.cpp:119-131 | in any run a sleeper stays asleep as long as the clock is below its wake time |
| `Scheduler.AllWoken` | kernel/src/process/scheduler.cpp:119-139 | after a Schedule only sleepers that are not due remain |
| `Scheduler.WakesOnTime` | kernel/src/process/scheduler.cpp:370-379 | the wake time lies the meant number of ticks ahead if and only if neither the product nor the sum wraps; it never lies later |
| `MessageQueues.MessageQueue.FindMatchingMessage` | kernel/src/process/message_queue.cpp:88-103 | the first message for the receiver and the one before it |
| `MessageQueues.MessageQueue.Send` | kernel/src/process/message_queue.cpp:105-134 | accepts exactly when open, with data, small enough, with room and memory; the message goes to the end with the next id |
| `MessageQueues.MessageQueue.Receive` | kernel/src/process/message_queue.cpp:136-181 | delivers the first matching message, wherever it stands, exactly when there is one |
| `MessageQueues.MessageQueue.Peek` | kernel/src/process/message_queue.cpp:183-208 | shows the first matching message |
| `MessageQueues.MessageQueue.Flush` | kernel/src/process/message_queue.cpp:217-229 | drops all pending messages |
| `MessageQueues.ExactlyOnce` | kernel/src/process/message_queue.cpp:88-181 | every accepted message is exactly one of pending, delivered once or flushed |
| `MessageQueues.IdsDelivered` | kernel/src/process/message_queue.cpp:136-181 | the ids one receiver gets rise strictly while fewer than 2^32 ids were issued |
| `MessageQueues.IdsRise` | kernel/src/process/message_queue.cpp:105-134 | exactly when the id of a later message is larger |
| `MessageQueues.IdsWrap` | kernel/src/process/message_queue.cpp:105-134 | two sends and two receives around the wrap of the counter give falling ids |
| `PathNormal.NormalizeAbsPath` | kernel/src/lib/sysapi.cpp:504-541 | the output is a slash joined with the segments left after dropping "." and popping on "..", then a zero byte |
| `PathNormal.Handle` | kernel/src/lib/sysapi.cpp:530-537 | what one segment does to the output buffer and the start table |
| `PathNormal.NormalForm` | kernel/src/lib/sysapi.cpp:504-541 | the result is absolute, has no ".", ".." or empty segment and no trailing slash, and normalising it again changes nothing |
| `PathNormal.SegmentsOfPath` | kernel/src/lib/sysapi.cpp:520-541 | writing segments out and splitting them again gives them back |
| `Blit.MemMove` | kernel/src/lib/string.cpp:93-110 | the destination holds what the source held before, also when they overlap, and nothing else changes |
| `Blit.BackendState.Blit` | kernel/src/graphics/render_backend.cpp:104-130 | after clipping each destination pixel holds the source pixel's value from before the call, and no other pixel changes |
| `Blit.OneRow` | kernel/src/graphics/render_backend.cpp:116-130 | the row order reads each source row before it is written |
| `Division.UDivCore` | kernel/src/lib/compiler_rt.cpp:7-27 | n = q*d + r with r < d for every nonzero d |
| `Division.TopBits` | kernel/src/lib/compiler_rt.cpp:15-18 | the left shift of the remainder loses no bit |
| `Division.DivDi3` | kernel/src/lib/compiler_rt.cpp:43-60 | truncates toward zero, except the most negative value over -1 |
| `Division.ModDi3` | kernel/src/lib/compiler_rt.cpp:68-84 | the remainder takes the sign of the dividend |
| `Division.TruncRem` | kernel/src/lib/compiler_rt.cpp:43-84 | a = q*b + r with the remainder smaller than the divisor; the quotient is a 64-bit value except at the one overflow |

## Left out

- Device failures: reads and writes of sectors always succeed.
- Mounting, partition detection, listing and enumeration of directories, debug output of both FAT drivers.
- Volumes outside the invariant `Wf`: a volume label or other slot whose 11 bytes have a space or period inside a name (for example NO NAME) is not covered, nor is a media entry that reads neither as 0 nor as an end mark (media byte 0xF0), nor cross-linked chains.
- Paths with "." or ".." components: callers pass normalised paths; in FAT16 a ".." entry of a directory under the root names cluster 0.
- FatDriver.Fat.AllocateCluster: asks that no table entry past the last cluster is 0, the exact condition of the findings. Formatters commonly leave those entries 0; on such a volume the calls behave as stated until no cluster of the device is free, but no theorem here says so.
- FatDriver.Fat.ReadChain: asks that buffer size and cluster size together stay below 2^32, as the code's sum would wrap.
- Fat16.WalkToParent: paths without "." and ".." components, as above.
- Fat16.WriteFile: paths without dot components, as above.
- Fat16.WriteAndRead: paths without dot components whose last name is canonical, and sizes as for ReadFile.
- Fat16.Mkdir: asks that names which the component loop cuts or the packing truncates do not occur, because a truncated name would be packed into a second slot of the same name.
- Fat16.ReadFile: paths without dot components; asks that buffer size and cluster size together stay below 2^32, as the code's sum would wrap.
- Fat32.WalkToParent: asks that no file lies on the way (see Findings) and for no dot components.
- Fat32.ReadFile: asks that no file lies on the way; of a path that names a directory it only states that something is read, because the driver does not tell directories from files there.
- Fat32.WriteFile: asks that no file lies on the way to the parent (see Findings); the condition can be checked with CheckParent.
- Fat32.InitDirCluster: asks for clusters of at most 4096 bytes, the size of its buffer.
- Fat32.Mkdir: asks for clusters of at most 4096 bytes, the size of the buffer in InitDirCluster, and for no file on the way.
- Fat32.Rename: asks that a destination name that packs is canonical, because the code looks the destination up by its uncut text, and for no file on the way.
- Fat32.RenameThenRead: paths whose parent and base fit the two buffers and the component length.
- Fat32Runs.AddEntryThroughFile: files with a start cluster; for the others AddEntryBeforeData has the first turn of the loop, not the case that no slot is free there.
- Fat32Runs.AddEntryBeforeData: the first turn of the loop only.
- Fat32Runs.RunAll: calls whose path meets a file are not made, although the driver has no such guard.
- Fat32Runs.WriteAndRead: asks that no file lies on the way to the parent.
- Fat32Runs.RenameAndRead: asks that no file lies on either way and that the source is not a directory.
- Paging: control registers, the TLB and the effect of remapping the identity window itself; tables are reached by physical address.
- Paging.PageTables.MapRange: a physical start of 0 is excluded, because the check after each page cannot tell it from a failure.
- Paging.PageTables.UnmapRange: sizes up to 0xFFFFF000; above, the loop does not end (see Findings).
- Paging.PageTables.RemapRangeFlags: the same.
- Heap: a store to a page that is not mapped would fault; the model keeps it, and Serve says which pages those are.
- Heap.Heap.Alloc: asks that the address arithmetic of the request stays below 2^32; outside, see Findings.
- Heap.Heap.Free: pointers that are not live (double frees, foreign pointers) are not covered.
- Scheduler: preemption by the timer tick, suspending, resuming, killing or sleeping a task that is not running, blocking and priority changes; whether memory for a thread can be had is an input.
- Message queues: blocking calls, mutexes, condition variables and the queue manager; whether memory can be had is an input.
- PathNormal.NormalizeAbsPath: joined paths below 160 bytes, segments below 80 bytes and at most 32 open segments, the sizes of the code's buffers; one byte less when the text has no leading slash.
- Fill, Upload and Present of the render backend, and the GPU mirror.
- DNS name and answer coding, pipes, events, drivers, the ELF loader, networking, shell and applications.

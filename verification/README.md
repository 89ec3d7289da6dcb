# Zonix in Dafny

A model of the parts of the Zonix kernel where one mistake corrupts a disk, an address space or the
process table, with proofs of what they promise. Each module follows one part of the kernel:

- **FAT32** (`FatChain`, `FatGeometry`, `FatImage`, `FatMount`, `FatVolume`, `FatDirectory`, `FatLookup`, `FatLive`,
  `FatTree`, `FatFile`). The chain walker with its cycle detection on every link graph; the one-sector
  FAT cache over a device any of whose operations may fail; directory operations with their roll-backs;
  the tree of files and directories after every sequence of operations; reading and writing files.
- **Page tables** (`PageTables`, `PageFormats`, `PageTrees`, `AddressSpaces`, `UserFrames`, `FrameCosts`,
  `UserSpaces`, `PageAddresses`). One walk for x86-64, AArch64 and RISC-V Sv39, whose entry formats are
  proved to fit it bit by bit; growing, splitting, pruning and tearing down trees of tables; where every
  frame is.
- **Device windows** (`Mmio`, `DeviceBases`): the sorted list of windows and the pages behind it.
- **Swap** (`SwapEntries`, `Swap`, `SwapTables`): slots, entries and the disk as a state machine, and the
  same on the words of the page tables.
- **Programs** (`ElfLoader`, `UserImages`, `Exec`): which images are accepted, and what user code sees
  through the page tables once one is loaded.
- **Pages** (`FirstFit`, on `Lists`): the first-fit allocator on its circular list.
- **Tasks** (`Processes`, `TaskTable`, `Scheduling`, `WaitQueues`, `Mutexes`, `Semaphores`): fork, exit
  and wait, the process table, priority round robin, and the blocking primitives on every interleaving.
- **Mounts and VirtIO** (`Mounts`, `VirtQueue`): the mount table under concurrent use, and the split
  queue with its wrapping indices.

`Errors`, `Bytes` and `Sequences` hold what several modules share. Each region that runs with interrupts off or
under a spinlock is one step. Interrupts, the device and the scheduler's choices are parameters or any
enabled next step, so the theorems hold for all of them.

Where the code keeps state, the model has a class; `Valid` (or `Sound`, `Inv`) ties its fields to a ghost
picture of them: the link graph of a volume, the place of every table, the pages user code sees.

## Findings

Properties that one would expect and that the code does not have, each with the exact condition:

- **A cyclic file can lose what was written.** `do_file_io` stops when it has its bytes, so a file whose
  clusters form a cycle can be written past its end. `FatFile.CyclicFileClashes` is an instance;
  `FatFile.ReadAfterWrite` says that all writes are read back if and only if the walk does not come back to
  a written place, which `FatFile.ChainNeverClashes` rules out for well-formed chains.
- **Boot ranges that touch are not merged.** `init_memmap` appends a range as it is, so two that touch stay
  two free runs (`FirstFit.TouchingRanges`). `FirstFit.PageAllocator.InitMemmap` keeps the runs apart if and
  only if the range touches none. `free_pages` merges always.
- **The first device window on the VisionFive 2 stops the kernel.** Memory there starts at 0x40000000, so
  the boot tables map the root slot of the device area (`DeviceBases.VisionFive2Occupied`), and `map` finds
  its first page in use (`DeviceBases.FirstWindowOnVisionFive2`). On the QEMU machine windows up to a
  gigabyte are free (`DeviceBases.QemuWindow`).
- **Init must not exit.** With children its adoption loop never ends (`Processes.AdoptionEnds`); without, a
  later exit leaves orphans (`Processes.InitMustLive`). In this kernel `init_main` loops for ever
  (`kernel/sched/init_proc.cpp:23-30`), so neither happens.
- **A name that starts with byte 0xE5 cannot be found again.** It is the mark of a deleted entry, and
  `make_83_name` does not escape it (`FatTree.NewIsLive`).
- **Reading another FAT sector over an unwritten one may lose the write.** After a failed write the cache is
  dirty and `read_entry` does not flush it; `FatImage.DroppedSector` says when that loses the write.
- **A failed FAT read leaves the cache under the wrong name.** The sector number is changed only after the
  read, the buffer by it; `FatImage.SpoiledSector` says when the driver still sees the FAT.
- **Mapping a page that is swapped out loses its slot.** `page_insert` tests for a present entry only and
  writes over a swap entry without releasing it. `Swap.SwapSpace.MapPage` leaves every occupied slot named by
  a page if and only if the page was not out. The loaders map into new address spaces, where no page is.

## Model

| member | source | states |
|---|---|---|
| FatChain.YieldsAreTheWalk | kernel/fs/fat/fat_core.cpp:248-272 | the clusters that `next` yields are those the links lead to, in order |
| FatChain.WalkerFollowsChain | kernel/fs/fat/fat_core.cpp:248-272 | on a chain that ends, `next` yields its clusters in order and then 0 on every later call |
| FatChain.EndMeansChain | kernel/fs/fat/fat_core.cpp:248-272 | the call after `t` yields reports the end if and only if those clusters are a whole well-formed chain; the yields stop at the cluster count |
| FatChain.CheckpointIsCycle | kernel/fs/fat/fat_core.cpp:248-272 | when the checkpoint comparison fires, two positions of the walk hold one cluster and no well-formed chain exists: no false alarm |
| FatChain.RhoEquality | kernel/fs/fat/fat_core.cpp:248-272 | positions of a walk with a tail and a cycle hold one cluster only if they are on the cycle and at least a lap apart |
| FatChain.CycleCaught | kernel/fs/fat/fat_core.cpp:248-272 | a tail of mu and a cycle of lambda clusters are reported at the lesser of link 2^k - 1 + lambda and the visit bound, and in no earlier call, for the least k whose window fits |
| FatChain.EveryCycleCaught | kernel/fs/fat/fat_core.cpp:248-272 | every walk that never leaves the volume is such a tail and cycle with such a window, so every one of them is caught there |
| FatChain.RhoNeverLeaves | kernel/fs/fat/fat_core.cpp:248-272 | conversely, a tail with a cycle never leaves the volume |
| FatChain.ChainUnique | kernel/fs/fat/fat_core.cpp:248-272 | a cluster is the start of at most one well-formed chain |
| FatChain.WalkerDecides | kernel/fs/fat/fat_core.cpp:248-272 | on every link graph, within cluster-count yields, `next` says end if and only if a well-formed chain starts there, and else fails |
| FatChain.LinkValues | kernel/fs/fat.h:14-19 | a link ends a chain if and only if it is one of 0x0FFFFFF8 to 0x0FFFFFFF, and 0 is free |
| Bytes.LeInverts | include/base/bpb.h:142-181 | a number written in little-endian bytes is read back |
| Bytes.FieldRead | include/base/bpb.h:142-181 | every field of a packed record is read back at its place |
| FatGeometry.MountedAsGiven | kernel/fs/fat/fat_core.cpp:47-68 | partition, total, cluster size, reserved sectors, FAT count, FAT size and root are those given, and the cluster count is the greatest for which there is room |
| FatGeometry.MountAccepts | kernel/fs/fat/fat_core.cpp:70-103 | success if and only if the boot sector is of a FAT32 volume with 512-byte sectors and mirrored FATs that lies in the device, has an entry for every cluster and its root among them |
| FatGeometry.MountRefuses | kernel/fs/fat/fat_core.cpp:70-103 | NotSupported if and only if the sector size is another legal one, or a sound boot sector has another version or one active FAT; every other refusal is BadFs |
| FatMount.BootRead | include/base/bpb.h:142-181 | a boot sector laid out as the FAT specification says is read field by field |
| FatMount.SchemeRead | include/base/mbr.h:31-51 | what a boot record stands for, from its signature and the type of its first partition |
| FatMount.EntryRead | include/base/gpt.h:31-49 | an entry is an EFI system partition if and only if its type has that identifier; its start is at offset 32 |
| FatMount.EntryPlace | include/base/gpt.h:71-92 | entry e is 128 e bytes behind the start of the table |
| FatMount.EntryWraps | include/base/gpt.h:71-92 | sector numbers wrap around at 32 bits |
| FatMount.HeaderRead | include/base/gpt.h:51-69 | signature, place and number of the entries of a GUID partition table |
| FatMount.FindEsp | include/base/gpt.h:71-92 | the start of the first EFI system partition of the table; none only if there is none, the table leaves the disk before it, its start has more than 31 bits, or a read failed |
| FatMount.FindGpt | kernel/fs/fat/fat_core.cpp:20-33 | the same from the header on; BadFs if and only if the signature is wrong |
| FatMount.FindPartition | kernel/fs/fat/fat_core.cpp:15-43 | where the volume starts: the first FAT32 partition, the first EFI system partition, or the disk itself; without a failed read it fails only if there is no such place |
| FatMount.OneStart | kernel/fs/fat/fat_core.cpp:15-43 | a disk has at most one such place |
| FatMount.MountDevice | kernel/fs/fat/fat_core.cpp:70-112 | the geometry of the boot sector at that place; without a failed read it fails only if there is no acceptable volume |
| FatGeometry.MountedIsSound | kernel/fs/fat/fat_core.cpp:47-100 | a volume that passes every test of `mount` has its FATs and clusters inside the device, apart from each other, with room for every entry and no 32-bit overflow |
| FatGeometry.ClusterAddress | kernel/fs/fat/fat_core.cpp:236-242 | the 32-bit sector arithmetic of a mounted volume never wraps and gives the true address of every sector of every cluster |
| FatGeometry.ClustersDisjoint | kernel/fs/fat/fat_core.cpp:236-242 | two clusters share no sector |
| FatGeometry.EntryAddress | kernel/fs/fat/fat_core.cpp:148-162 | the 32-bit arithmetic finds the FAT sector and word of every valid cluster |
| FatGeometry.FatAddress | kernel/fs/fat/fat_core.cpp:164-197 | the address of a FAT sector in each copy is computed without wrap-around |
| FatImage.SetWord | kernel/fs/fat/fat_core.cpp:164-197 | storing an entry changes its four bytes and no other |
| FatImage.StoredFat | kernel/fs/fat/fat_core.cpp:164-197 | a stored entry changes the link of its cluster alone and keeps the four reserved bits |
| FatImage.DroppedSector | kernel/fs/fat/fat_core.cpp:148-162 | reading another FAT sector over an unwritten one loses the write if and only if the first copy on disk does not hold the words of the dropped sector |
| FatImage.SpoiledSector | kernel/fs/fat/fat_core.cpp:148-162 | after a failed read into the cache the driver goes on seeing the FAT if and only if the words it left there are the same |
| FatVolume.FatInfo.constructor | kernel/fs/fat/fat_core.cpp:47-68 | after a mount on agreeing copies cache and disk hold the FAT of the disk |
| FatVolume.FatInfo.CopiesAgree | kernel/fs/fat/fat_core.cpp:164-197 | with a clean cache every FAT copy on disk is the same FAT |
| FatVolume.FatInfo.ReadEntry | kernel/fs/fat/fat_core.cpp:148-162 | the link of the cluster in the FAT that cache and disk together hold, BadFs off the volume, Io if and only if a read failed, and only then is the volume given up |
| FatVolume.FatInfo.WriteCopies | kernel/fs/fat/fat_core.cpp:189-195 | on success all copies hold the buffer; a failure leaves the FAT readable through the dirty cache; data sectors are untouched |
| FatVolume.FatInfo.Flush | kernel/fs/fat/fat_core.cpp:171-178 | an unwritten sector gets to all copies before the cache moves on, or the error is reported and the cache is still dirty |
| FatVolume.FatInfo.WriteEntry | kernel/fs/fat/fat_core.cpp:164-197 | on success all copies agree on the FAT with this one link changed; after a failed write the FAT is the old one or the one with this link; nothing outside the FATs changes; only a failed FAT read gives the volume up |
| FatVolume.FatInfo.NextCluster | kernel/fs/fat/fat_core.cpp:248-272 | the method on the cached FAT does what the walker does on the link graph |
| FatVolume.FatInfo.ValidateChain | kernel/fs/fat/fat_core.cpp:223-226 | success if and only if the chain is well formed; BadFs means that no chain exists |
| FatVolume.FatInfo.Unlink | kernel/fs/fat/fat_core.cpp:227-233 | a prefix of the chain is free and every other link is as before, whatever writes failed; all of it on success |
| FatVolume.FatInfo.FreeChain | kernel/fs/fat/fat_core.cpp:223-234 | a malformed chain is refused with no link changed; a well-formed one is freed whole on success, a prefix of it on a device error |
| FatVolume.FreedEntries | kernel/fs/fat/fat_core.cpp:223-234 | freeing a chain zeroes the links of exactly its clusters |
| FatVolume.FatInfo.Rollback | kernel/fs/fat/fat_dir.cpp:269-276 | a new one-cluster chain is free again and the FAT is otherwise as before; if a write fails here the FAT is one of these two |
| FatVolume.FatInfo.AllocCluster | kernel/fs/fat/fat_core.cpp:199-221 | the first free cluster, zeroed and ended, with no other link or cluster touched; Full if and only if no cluster is free; a failed attempt leaves the FAT as it was unless its clean-up fails too, a second failure, and then a free cluster is marked and no other word differs |
| FatVolume.FatInfo.Claim | kernel/fs/fat/fat_core.cpp:201-217 | one attempt: the cluster is an ended, zeroed chain, or the FAT is as it was; two failures leave the cluster marked at worst |
| FatDirectory.EntryWritten | include/base/bpb.h:60-108 | a new entry byte by byte: name, attributes at 11, the halves of the first cluster at 20 and 26, zeros |
| FatDirectory.ClusterRead | include/base/bpb.h:84-86 | the first cluster is read from these places |
| FatDirectory.AttributeBits | include/base/bpb.h:71-82 | directories and live entries by their attribute bits |
| FatDirectory.DotsWritten | kernel/fs/fat/fat_dir.cpp:416-439 | the first sector of a new directory byte by byte: "." names itself, ".." the parent given, zeros |
| FatDirectory.MadeDots | kernel/fs/fat/fat_dir.cpp:392-463 | after `mkdir` the new directory begins with these two entries, on every volume |
| FatDirectory.TryCluster | kernel/fs/fat/fat_dir.cpp:287-310 | the entry goes to the first free slot of the cluster and nothing else changes, or the cluster has no free slot; a failed write leaves that one sector in any state |
| FatDirectory.Extend | kernel/fs/fat/fat_dir.cpp:312-347 | on success the directory has one more zeroed cluster with the entry in its first slot; else FAT and data are as before but for free clusters; only if the link and the undoing of it failed, two failures, is the caller told that it may have been made; a failed clean-up leaks the new cluster and nothing more |
| FatDirectory.AddDirEntry | kernel/fs/fat/fat_dir.cpp:278-350 | the entry is in the first free slot of the directory or in a new last cluster, and nothing else changed; Full only with no free cluster, BadFs only for a malformed directory; an error changes nothing but free clusters, unless the device failed while the entry was written, or twice around its link, and only then is the caller told that the entry may exist; a failed clean-up, a second failure, marks free clusters at worst |
| FatDirectory.Locate | kernel/fs/fat/fat_dir.cpp:136-168 | the first matching live entry in directory order, or no entry before the end mark matches |
| FatDirectory.RemoveDirEntry | kernel/fs/fat/fat_dir.cpp:352-390 | the first matching entry is marked deleted and no other byte of the volume changes; a failed write leaves the sector of that entry in any state, every other error changes nothing |
| FatDirectory.Publish | kernel/fs/fat/fat_dir.cpp:420-463 | the dot entries are written and the new directory is named in its parent, or the new cluster is free again, or a second failure kept clusters marked |
| FatDirectory.Mkdir | kernel/fs/fat/fat_dir.cpp:392-463 | success: a new cluster that begins with "." naming itself and ".." naming the parent, or 0 for the root, named once in the parent, where no such name was; failure, for every pattern of failing writes and data reads: every FAT copy is word for word as before and only free clusters differ; if a clean-up fails as well, free clusters stay marked at worst; only if the device failed while the entry was written, or twice around its link, may the entry exist, and then the cluster is kept |
| FatDirectory.CreateFile | kernel/fs/fat/fat_dir.cpp:465-488 | an empty file is named in the parent, where no such name was; an error changes nothing but free clusters, or the device failed while the entry was written; a failed clean-up marks free clusters at worst |
| FatDirectory.UnlinkFile | kernel/fs/fat/fat_dir.cpp:490-508 | the file that the name finds is no longer named and its whole chain is free; a directory is refused; every error has its reason and says what is free and what data may differ: none, or the sector of the entry |
| FatDirectory.FreeAndRemove | kernel/fs/fat/fat_dir.cpp:490-558 | the chain is free and the entry deleted; else the chain is malformed and nothing changed, or part of it is free, or all of it and the name is not found any more, which takes chains that overlap; data differs only in the sector of the entry, after a failed write to it |
| FatDirectory.DirectoryEmpty | kernel/fs/fat/fat_dir.cpp:520-549 | empty if and only if every entry up to the end mark is dot, dot-dot or deleted |
| FatDirectory.DotNames | kernel/fs/fat/fat_dir.cpp:541-546 | the names that the emptiness test passes over |
| FatDirectory.Rmdir | kernel/fs/fat/fat_dir.cpp:510-558 | an empty directory is no longer named and its chain is free; NotEmpty only if it holds an entry, and then nothing changes; every error has its reason and says what is free and what data may differ |
| FatLookup.PlacedIsFound | kernel/fs/fat/fat_dir.cpp:278-310 | an entry put in the first free slot is what a later lookup of its name finds |
| FatLookup.NewIsFound | kernel/fs/fat/fat_dir.cpp:312-347 | so is an entry in a new cluster of the directory |
| FatLookup.AddedIsFound | kernel/fs/fat/fat_dir.cpp:278-350 | wherever `add_dir_entry` puts an entry whose name was absent, lookup finds that entry |
| FatLookup.MadeIsFound | kernel/fs/fat/fat_dir.cpp:392-463 | after `mkdir` a lookup of the name finds a directory entry for the new cluster |
| FatLive.AllocKeepsForest | kernel/fs/fat/fat_core.cpp:199-221 | allocating a cluster keeps the chains well formed and disjoint |
| FatLive.ExtendKeepsForest | kernel/fs/fat/fat_dir.cpp:312-347 | so does linking a one-cluster chain behind the tail of another |
| FatLive.ReleaseKeepsForest | kernel/fs/fat/fat_core.cpp:223-234 | so does freeing a whole chain |
| FatLive.AllocStray | kernel/fs/fat/fat_core.cpp:199-221 | allocating a cluster as a chain of its own makes and hides no cluster in use that is on no chain |
| FatLive.GrownStray | kernel/fs/fat/fat_dir.cpp:312-347 | nor does growing a directory |
| FatLive.ReleaseStray | kernel/fs/fat/fat_core.cpp:223-234 | nor does freeing a chain |
| FatTree.GainKeeps | kernel/fs/fat/fat_dir.cpp:278-350 | an entry that names the one chain nothing names yet makes every chain named exactly once |
| FatTree.LossKeeps | kernel/fs/fat/fat_dir.cpp:352-390 | an entry that goes leaves the chain it named as the one chain nothing names |
| FatTree.PlaceKeeps | kernel/fs/fat/fat_dir.cpp:287-310 | an entry added in place keeps the tree of files and directories sound |
| FatTree.ExtendKeeps | kernel/fs/fat/fat_dir.cpp:312-347 | an entry added in a new cluster does too |
| FatTree.DropKeeps | kernel/fs/fat/fat_dir.cpp:352-390 | marking the found entry deleted keeps the tree sound, its chain being the loose one |
| FatTree.FreeKeeps | kernel/fs/fat/fat_core.cpp:223-234 | freeing the loose chain keeps the tree sound |
| FatTree.OwnKeeps | kernel/fs/fat/fat_dir.cpp:392-463 | a free cluster made an empty directory is one loose chain more |
| FatTree.NewIsLive | kernel/fs/fat/fat_dir.cpp:214-227 | a new entry can be seen by lookup if and only if its first byte is not 0xE5, the mark of a deleted entry |
| FatTree.MkdirKeeps | kernel/fs/fat/fat_dir.cpp:392-463 | `mkdir` keeps: chains are disjoint and well formed, every chain but the root is named by exactly one live entry, every live entry names a chain |
| FatTree.CreateKeeps | kernel/fs/fat/fat_dir.cpp:465-488 | so does creating a file |
| FatTree.UnlinkKeeps | kernel/fs/fat/fat_dir.cpp:490-508 | so does unlinking a file, whose chain goes |
| FatTree.RmdirKeeps | kernel/fs/fat/fat_dir.cpp:510-558 | so does removing an empty directory, which is never the one that holds the entry |
| FatTree.WriteKeeps | kernel/fs/fat/fat_dir.cpp:38-85 | so does writing to a file that is found: no directory changes |
| FatTree.FailKeeps | kernel/fs/fat/fat_dir.cpp:392-488 | so does an operation that failed, published nothing and cleaned up |
| FatTree.PathIsLive | kernel/fs/fat/fat_dir.cpp:229-267 | a path of directory names from a live directory leads to a live directory |
| FatTree.ResolveParent | kernel/fs/fat/fat_dir.cpp:229-267 | the directory a path leads to; NotFound only if some part is absent or no directory in the directory before it, BadFs only if that one is malformed |
| FatTree.StepKeepsTree | kernel/fs/fat/fat_dir.cpp:392-558 | every operation, and every one that fails and cleans up, keeps the tree of files and directories, and the clusters in use on no chain are the same |
| FatTree.EveryRun | kernel/fs/fat/fat_dir.cpp:392-558 | after any sequence of operations, failed ones that clean up included, on a sound volume the tree is sound and no cluster has leaked: those in use on no chain are those of the start |
| FatFile.ChainReaches | kernel/fs/fat/fat_dir.cpp:38-85 | the links of a well-formed chain that is long enough reach as far as a transfer needs |
| FatFile.ClampMeans | kernel/fs/fat/fat_dir.cpp:38-50 | a transfer is cut off at the end of the file; refused if and only if it is of a directory, starts behind the end, or has bytes to move and no first cluster |
| FatFile.ReadFile | kernel/fs/fat/fat_dir.cpp:38-85 | the bytes of the chain at offset, as many as the file has; given memory and a working device it succeeds if and only if the links reach that far |
| FatFile.WriteFile | kernel/fs/fat/fat_dir.cpp:38-85 | exactly the addressed bytes of the chain change, to what the last write at each address was; given memory and a working device it succeeds if and only if the links reach that far |
| FatFile.ReadsBack | kernel/fs/fat/fat_dir.cpp:38-85 | if no two positions share an address, what was written is read back |
| FatFile.ClashIsRevisit | kernel/fs/fat/fat_dir.cpp:38-85 | two positions share an address if and only if the walk comes back to a cluster a write covers at the same place twice |
| FatFile.ChainNeverClashes | kernel/fs/fat/fat_dir.cpp:38-85 | on a well-formed chain no two positions share an address |
| FatFile.ReadAfterWrite | kernel/fs/fat/fat_dir.cpp:38-85 | every write is read back, for all data, if and only if the walk does not come back to a written place |
| FatFile.CyclicFileClashes | kernel/fs/fat/fat_dir.cpp:38-85 | two clusters that link to each other: a write of 1025 bytes succeeds and is not read back |
| WaitQueues.WakeupOneKeeps | kernel/sync/waitqueue.cpp:34-44 | one wake-up more on its way and one sleeper fewer, or the queue was empty |
| WaitQueues.FallAsleepKeeps | kernel/sync/waitqueue.cpp:15-32 | the queue stays exactly the sleepers, each once |
| WaitQueues.ResumeKeeps | kernel/sync/waitqueue.cpp:15-32 | a task that runs again is off the queue, whoever made it runnable, and no wake-up is lost |
| WaitQueues.WaitQueue.Sleep | kernel/sync/waitqueue.cpp:15-32 | the task is last in the queue |
| WaitQueues.WaitQueue.FinishSleep | kernel/sync/waitqueue.cpp:15-32 | its entry is gone, also when no waker took it off |
| WaitQueues.WaitQueue.Wakeup | kernel/sync/waitqueue.cpp:34-44 | the longest waiter is woken and no other |
| WaitQueues.WaitQueue.WakeupAll | kernel/sync/waitqueue.cpp:46-54 | everyone queued is woken, nobody else is touched and the queue is empty |
| Mutexes.StepKeeps | kernel/sync/mutex.cpp:7-40 | every atomic region keeps: the owner is the one task inside, and a free mutex with waiters has a wake-up on its way |
| Mutexes.MutualExclusion | kernel/sync/mutex.cpp:7-40 | on every interleaving at most one task is inside, the assertion of `unlock` never fires, and a free mutex with queued tasks has a wake-up on its way |
| Mutexes.NobodyStuck | kernel/sync/mutex.cpp:7-40 | whatever a task is at, its next step can be taken |
| Mutexes.Mutex.Begin | kernel/sync/mutex.cpp:7-20 | a call of `lock` is the arrival step and keeps the invariant |
| Mutexes.Mutex.WakeUp | kernel/sync/mutex.cpp:7-20 | a task that slept leaves the queue and may try again |
| Mutexes.Mutex.Round | kernel/sync/mutex.cpp:7-20 | one round of `lock` takes the free mutex or sleeps, as the machine does, and keeps the invariant |
| Mutexes.Mutex.TryOnce | kernel/sync/mutex.cpp:22-30 | `try_lock` takes the mutex if and only if it is free |
| Mutexes.Mutex.Release | kernel/sync/mutex.cpp:32-40 | the caller holds the mutex, as `unlock` asserts, and gives it up |
| Mutexes.Mutex.FinishRelease | kernel/sync/mutex.cpp:32-40 | then the longest waiter is woken |
| Semaphores.StepKeeps | kernel/sync/semaphore.cpp:5-36 | every atomic region keeps: the count is initial + ups - downs and not negative, and each unit a sleeper could have has a wake-up on its way |
| Semaphores.EveryRun | kernel/sync/semaphore.cpp:5-36 | that holds in every state of every interleaving |
| Semaphores.QuietMeansSettled | kernel/sync/semaphore.cpp:5-36 | once all wake-ups are acted on nobody sleeps while a unit is available |
| Semaphores.NobodyStuck | kernel/sync/semaphore.cpp:5-36 | whatever a task is at, its next step can be taken |
| Semaphores.Semaphore.Begin | kernel/sync/semaphore.cpp:5-19 | a call of `down` is the arrival step and keeps the invariant |
| Semaphores.Semaphore.WakeUp | kernel/sync/semaphore.cpp:5-19 | a task that slept leaves the queue and may try again |
| Semaphores.Semaphore.Round | kernel/sync/semaphore.cpp:5-19 | one round of `down` takes a unit if and only if there is one, else sleeps |
| Semaphores.Semaphore.TryOnce | kernel/sync/semaphore.cpp:21-28 | `try_down` takes a unit if and only if there is one |
| Semaphores.Semaphore.Release | kernel/sync/semaphore.cpp:30-36 | one unit more |
| Semaphores.Semaphore.FinishRelease | kernel/sync/semaphore.cpp:30-36 | then the longest waiter is woken |
| PageFormats.X86Lawful | arch/x86/include/asm/page.h:63-117 | x86-64 entries: page and table entries give back what they were made of, with memory type 3 for uncached pages and 0 for others, and the 512 pieces of a block translate every address as the block did, with the same rights and memory type |
| PageFormats.ArmLawful | arch/aarch64/include/asm/page.h:66-130 | the same for AArch64 descriptors, with memory attribute 1 for uncached pages |
| PageFormats.SvLawful | arch/riscv64/include/asm/page.h:103-172 | the same for RISC-V Sv39 entries, which have no memory type |
| PageFormats.X86EntryBits | arch/x86/include/asm/page.h:71-74 | every bit of a page entry from every bit of the request |
| PageFormats.ArmEntryBits | arch/aarch64/include/asm/page.h:79-94 | the same for AArch64, with access flag and privileged execute-never |
| PageFormats.SvEntryBits | arch/riscv64/include/asm/page.h:134-137 | the same for Sv39, with accessed and dirty |
| PageFormats.X86PieceBits0 | arch/x86/include/asm/page.h:76-85 | a 4 KB piece of a block keeps every other bit of it |
| PageFormats.X86PieceBits1 | arch/x86/include/asm/page.h:76-85 | so does a larger piece |
| PageFormats.ArmPieceBits0 | arch/aarch64/include/asm/page.h:96-99 | a 4 KB piece of a block keeps its attributes |
| PageFormats.ArmPieceBits1 | arch/aarch64/include/asm/page.h:96-99 | so does a larger piece |
| PageFormats.SvPieceBits | arch/riscv64/include/asm/page.h:139-142 | a piece of a block keeps its flags |
| PageFormats.X86Reads | arch/x86/include/asm/page.h:94-112 | which bits presence, kind, rights and memory type are read from |
| PageFormats.ArmReads | arch/aarch64/include/asm/page.h:101-124 | the same for AArch64, with the bits of table descriptors |
| PageFormats.SvReads | arch/riscv64/include/asm/page.h:144-158 | the same for Sv39 |
| PageFormats.X86TableBits | arch/x86/include/asm/page.h:67-69 | a table entry: its address and every right |
| PageFormats.ArmTableBits | arch/aarch64/include/asm/page.h:75-77 | a table descriptor: its address, valid, table |
| PageFormats.SvTableBits | arch/riscv64/include/asm/page.h:130-132 | a pointer entry: its page number, valid |
| PageFormats.IndexBits | arch/x86/include/asm/page.h:50-61 | the bits of an address that each level is indexed with |
| PageFormats.FrameBits | arch/x86/include/asm/mmu.h:24-26 | the addresses a frame can have: whole pages, within the address bits of an entry |
| PageFormats.UserTops | arch/x86/include/asm/page.h:92 | user space is 47 bits on x86-64 and AArch64 and 38 on Sv39 |
| PageTables.EmptyTableKeeps | kernel/mm/pmm.cpp:131-156 | hanging a zeroed table into an absent slot changes no translation |
| PageTables.SplitKeeps | kernel/mm/pmm.cpp:131-156 | replacing a block by the table of its pieces changes no translation: not the address, not the rights, not the memory type |
| PageTables.MergedRights | include/kernel/vm_flags.h:14-16 | a rewritten entry keeps its frame and has the union of both rights |
| PageTrees.Prune | kernel/mm/pmm.cpp:251-289 | cutting off an empty table changes no translation and leaves a tree |
| AddressSpaces.AddressSpace.AllocTable | kernel/mm/pmm.cpp:82-95 | a zeroed frame with one reference, or none if the allocator is empty or none is wanted |
| AddressSpaces.AddressSpace.DescendLevel | kernel/mm/pmm.cpp:131-156 | follows, splits or fills a slot with no translation changed and at most one frame taken; nothing changes if that fails or a table was there |
| AddressSpaces.AddressSpace.GetPte | kernel/mm/pmm.cpp:238-249 | the leaf slot of the address, growing a tree of tables with no translation changed; none only if a frame is missing or none is to be made; nothing changes if the leaf table was there |
| AddressSpaces.AddressSpace.PageInsert | kernel/mm/pmm.cpp:392-403 | exactly this page is mapped, to this frame with these rights, and every other address translates as before; Exists only if it was mapped, NoMem only when the frames ran out on the way; success only if it was not mapped |
| AddressSpaces.AddressSpace.UnmapPage | kernel/mm/pmm.cpp:251-289 | the page is unmapped, no other address changes, and no empty table of the allocator is left on its path |
| AddressSpaces.UserAddress | kernel/mm/pmm.cpp:291-307 | success if and only if the address is a user address whose whole path lets user code read, or write, it; then the physical address |
| AddressSpaces.UserBitsMean | kernel/mm/pmm.cpp:292-292 | a user address is above page zero and below the top |
| AddressSpaces.UserReach | kernel/mm/pmm.cpp:299-303 | what the rights of the path must be |
| UserFrames.TeardownCollects | kernel/mm/pmm.cpp:166-197 | the recursion frees exactly the tables and pages of the user half, each once |
| UserFrames.TeardownNames | kernel/mm/pmm.cpp:166-197 | and meets every swap entry of the user half |
| UserFrames.NamedIsThere | kernel/mm/pmm.cpp:166-197 | and releases no word that is not one |
| UserSpaces.CreateUserPgdir | kernel/exec/exec.cpp:25-35 | an address space whose upper half is the kernel's and whose lower half is empty; NoMem if and only if there is no frame |
| UserSpaces.UserSpace.AllocAndMapPage | kernel/mm/pmm.cpp:380-390 | one page mapped to a frame of its own and nothing else changed; it fails only for a mapped page or if the tables and pages needed, with the root, outnumber the frames; a failure leaves every swap entry as it was; the accounts of frames balance either way |
| UserSpaces.UserSpace.SwapOutPage | kernel/mm/swap.cpp:190-237 | the entry is in the leaf slot of the page, which no longer translates, its frame is free, every other page and entry is as before; false if and only if there is no such page |
| UserSpaces.UserSpace.SwapInPage | kernel/mm/swap.cpp:146-181 | the page is mapped to a free frame and its entry given up; it fails if and only if there is no frame or no entry, and then changes nothing |
| UserSpaces.UserSpace.FreeSubtree | kernel/mm/pmm.cpp:166-197 | the frames below a table go back in the order of the recursion, each with its last reference |
| UserSpaces.UserSpace.FreeUserPgdir | kernel/mm/pmm.cpp:405-420 | every frame the address space ever took is free again, each exactly once; exactly the swap entries in its tables are given up; no kernel table is freed |
| UserSpaces.FramesAdd | kernel/mm/pmm.cpp:380-390 | free frames, taken places in the user half and the root add up to the frames there were |
| Mmio.FindHole | kernel/mm/mmio.cpp:11-58 | the lowest hole that holds the window, and where its record goes in the sorted list |
| Mmio.MapDevicePage | kernel/mm/pmm.cpp:392-403 | the page is mapped, or no translation changed: for want of frames, or because it was in use |
| Mmio.WindowMeans | kernel/mm/mmio.cpp:12-21 | a window is accepted if and only if it is not empty, not for users and ends before the last page of the address space |
| Mmio.MmioAllocator.constructor | kernel/mm/mmio.cpp:11-58 | no windows; whatever the boot tables map in the device area is left as it is |
| Mmio.MmioAllocator.Map | kernel/mm/mmio.cpp:11-58 | Invalid if and only if the window is empty, user-accessible or does not fit; else the lowest hole is taken, it stops if and only if a page there is in use, and on success exactly these pages are mapped, to the device, not for users and not executable, writable and cached as was asked for, until the window is released; a failure changes no translation |
| Mmio.MmioAllocator.Unmap | kernel/mm/pmm.cpp:251-289 | exactly the pages of the window are unmapped and no empty table is left |
| Mmio.MmioAllocator.Release | kernel/mm/mmio.cpp:60-70 | the window is gone, every other address translates as before, and no empty table is left |
| PageAddresses.PageParts | arch/x86/include/asm/page.h:50-61 | a page number is the digits that index its address and the sixteen bits above them |
| DeviceBases.BaseAddresses | arch/x86/include/asm/memlayout.h:3-10 | where device memory starts, from the base of each kernel |
| DeviceBases.X86Faithful | arch/x86/include/asm/memlayout.h:3-8 | different device pages of x86-64 go through different slots |
| DeviceBases.ArmFaithful | arch/aarch64/include/asm/memlayout.h:3-7 | the same for AArch64 |
| DeviceBases.SvFaithful | arch/riscv64/include/asm/memlayout.h:25-28 | the same for Sv39 |
| DeviceBases.VisionFive2Occupied | arch/riscv64/include/asm/board/visionfive2.h:12 | the lowest hole of the first window lies on pages that the boot tables of that board map already |
| DeviceBases.QemuWindow | arch/riscv64/include/asm/board/qemu_virt.h:12 | on the QEMU machine a first window is free of the boot tables if and only if it has at most a gigabyte |
| DeviceBases.FirstWindowOnVisionFive2 | kernel/mm/mmio.cpp:11-58 | so on the VisionFive 2 no first window is ever mapped |
| FrameCosts.TakenSize | kernel/mm/pmm.cpp:82-95 | the user half has one frame for each place that is taken, of a table or of a page |
| FrameCosts.ChainTaken | kernel/mm/pmm.cpp:131-156 | a mapped page has a table at every level above it |
| FrameCosts.TooMany | kernel/mm/pmm.cpp:380-390 | with no frame left, or one and a table missing, the places on the way to the page and those taken outnumber the frames |
| ElfLoader.HeaderRead | include/base/elf.h:18-42 | a file header laid out as the ELF format says is read field by field |
| ElfLoader.HeaderAccepted | kernel/exec/elf_loader.cpp:24-33 | which headers pass, in terms of the format: magic, 64 bit, executable, version, machine, sizes, program headers in the file, entry in user space |
| ElfLoader.SegmentRead | include/base/elf.h:44-53 | so is a program header: type, flags, offset, address, file size and memory size |
| ElfLoader.SegmentMeans | kernel/exec/elf_loader.cpp:40-51 | a segment is in order if and only if it is not loaded, or its bytes lie in the file and fill it at most and every address of it is a user address above page zero and outside the stack |
| ElfLoader.EntryMeans | kernel/exec/elf_loader.cpp:52-54 | a segment holds the entry point if and only if it is loaded, executable and the entry is one of its addresses |
| ElfLoader.FlagBits | include/base/elf.h:7-9 | execute is bit 0 and write bit 1 of the flags |
| ElfLoader.Validate | kernel/exec/elf_loader.cpp:24-59 | no error if and only if header and every segment are in order, no segment meets the stack or leaves user space, and an executable one holds the entry point; else Invalid |
| ElfLoader.NextSegment | kernel/exec/elf_loader.cpp:69-116 | mapping and copying the next segment brings memory to what the first k + 1 segments say: union of rights, bytes of the last one that brings any, zero elsewhere |
| ElfLoader.StackApart | kernel/exec/elf_loader.cpp:49-51 | no page that an accepted segment touches is a stack page, page zero or beyond user space |
| UserImages.MergePage | kernel/exec/elf_loader.cpp:88-94 | a mapped page keeps its frame and gains exactly the rights asked for, as the page tables translate it; no other address changes |
| UserImages.UserImage.MapFresh | kernel/exec/elf_loader.cpp:96-100 | a free page is mapped to a zeroed frame of its own; it fails only if it was mapped or if the pages with the tables above them outnumber the frames |
| UserImages.UserImage.MapPage | kernel/exec/elf_loader.cpp:88-101 | a mapped page keeps bytes and rights and gains the new ones, a new one is zero with just these |
| UserImages.UserImage.PutBytes | kernel/exec/elf_loader.cpp:106-114 | the page is mapped, as the code asserts, and just these bytes of the frame behind it change |
| Exec.MapSegment | kernel/exec/elf_loader.cpp:85-101 | every page of the segment is mapped with at least its rights, others are as before |
| Exec.CopySegment | kernel/exec/elf_loader.cpp:103-115 | the file bytes are at the segment's address, every other byte and all rights are as before |
| Exec.Load | kernel/exec/elf_loader.cpp:61-119 | Invalid if and only if the image is not acceptable; NoMem if and only if the touched pages and the tables above them, with the root, outnumber the frames; else user memory is as the segments say |
| Exec.SetupStack | kernel/exec/exec.cpp:37-49 | after a load the stack pages are free, so it fails if and only if the frames do not suffice for image and stack; the stack is zero, writable and not executable |
| Exec.PreparedInMemory | kernel/exec/elf_loader.cpp:61-119 | the page tables show user code exactly this: each page of image and stack in a frame of its own, with its bytes and its rights, and nothing else |
| Exec.Build | kernel/exec/exec.cpp:53-62 | load and stack in one: the exact conditions of both errors, and what user code sees on success |
| Exec.LoadImage | kernel/exec/exec.cpp:53-62 | from the free frames to the finished image; if any step fails, exactly the frames that were free before are free again, each once |
| PageAddresses.UserPagesDiffer | arch/x86/include/asm/page.h:90-94 | on all three architectures the user pages go through the lower half of the root and no two look the same to the tables |
| PageAddresses.PagesNumbered | arch/riscv64/include/asm/page.h:73-101 | on all three, the path of a user page has its number, and no swap entry is taken for a mapping |
| SwapEntries.EntryRoundTrip | kernel/mm/swap.cpp:222-223 | an entry gives back slot and rights and passes the tests of `allocated_slot` |
| SwapEntries.NeverPresent | kernel/mm/swap.cpp:38-46 | a well-formed entry is neither present nor empty to x86-64, AArch64 and Sv39 |
| Swap.SlotsApart | kernel/mm/swap.cpp:247-261 | slots lie inside the device, apart from each other, with 32-bit block addresses |
| Swap.SlotsAll | kernel/mm/swap.cpp:247-261 | there is no room for another slot, unless all 24-bit numbers are used |
| Swap.BitmapLayout | kernel/mm/swap.cpp:29-36 | slot k of a byte is its bit k, and the bitmap has a byte for every eight slots or part of eight |
| Swap.SetOne | kernel/mm/swap.cpp:29-36 | setting a slot's bit changes that slot and no other |
| Swap.Begin | kernel/mm/swap.cpp:109-140 | a swap space if and only if there is a dedicated device of at least one page and memory for the bitmap; all slots are free |
| Swap.SwapSpace.ReserveSlot | kernel/mm/swap.cpp:47-61 | a free slot, now taken; Full if and only if every slot is taken |
| Swap.SwapSpace.ReleaseEntry | kernel/mm/swap.cpp:239-245 | the slot of a well-formed entry is free again; any other entry changes nothing |
| Swap.SwapSpace.OutBegin | kernel/mm/swap.cpp:206-220 | a page leaves if and only if the oldest is a user page with one owner and a slot is free; else queue and slots are as before |
| Swap.SwapSpace.OutWrite | kernel/mm/swap.cpp:224 | only the slot in flight changes on disk |
| Swap.SwapSpace.OutFinish | kernel/mm/swap.cpp:225-234 | commits if and only if the write succeeded and neither entry nor owner changed meanwhile; else slot and queue are as before |
| Swap.SwapSpace.OutOne | kernel/mm/swap.cpp:205-235 | a page goes out with its bytes and rights kept, or everything is as before |
| Swap.SwapSpace.Out | kernel/mm/swap.cpp:190-237 | pages that were out before keep their entries and their bytes; it stops early only at a page that cannot leave or a failed write |
| Swap.SwapSpace.InBegin | kernel/mm/swap.cpp:146-162 | the frame holds the saved bytes; each error has its cause and gives the frame back |
| Swap.SwapSpace.InFinish | kernel/mm/swap.cpp:163-180 | the page is mapped with the kept rights and the slot is free, or the entry changed and nothing happens |
| Swap.SwapSpace.MapPage | kernel/mm/swap_fifo.cpp:19-25 | the page is resident in the frame and the youngest of its queue; slots and entries still match if and only if the page was not out before |
| Swap.SwapSpace.ReleaseAll | kernel/mm/pmm.cpp:166-174 | the slots of all released entries are free and no other slot changes |
| Swap.SwapSpace.Teardown | kernel/mm/pmm.cpp:166-197 | the slots that pages of the address space named are free and no others change; the other address spaces keep their entries and bytes; its frames are out of the queues, whose order stays |
| Swap.SwapSpace.Discard | kernel/mm/swap.cpp:239-245 | an entry given up at teardown frees its slot and no other |
| Swap.SwapSpace.OutThenIn | kernel/mm/swap.cpp:146-237 | out and in again: same bytes, same rights, same free slots, no other page touched |
| SwapTables.Scan | kernel/mm/swap.cpp:73-95 | the recursive search below a table returns the page of the frame there, or 0 if there is none but page 0 |
| SwapTables.FindPage | kernel/mm/swap.cpp:183-188 | the page whose frame it is, if and only if it is mapped in the user half at another page than page 0 |
| SwapTables.PagedSwap.constructor | kernel/mm/swap.cpp:109-140 | a new address space agrees with the swap space on every page |
| SwapTables.PagedSwap.OutOne | kernel/mm/swap.cpp:205-235 | on the page tables: the searched page no longer translates, its slot holds the entry, every other address translates as before, and swap space and tables still agree on every page |
| SwapTables.PagedSwap.In | kernel/mm/swap.cpp:146-181 | on the page tables: it succeeds if and only if there is an entry, a frame and a working device; then the page translates again with the rights of the entry and the saved bytes |
| SwapTables.PagedSwap.OutThenIn | kernel/mm/swap.cpp:146-237 | user code finds the page with the rights and the bytes it had, and no other address changed |
| SwapTables.PagedSwap.MapPage | kernel/mm/pmm.cpp:380-390 | on the page tables: the page translates to a free frame with the rights asked for, is queued last, and no other address changes; a failure needs a mapped page or too few frames and changes no translation; swap space and tables agree afterwards if and only if no entry was overwritten |
| SwapTables.PagedSwap.Teardown | kernel/mm/pmm.cpp:405-420 | on the page tables: every frame is free, each once, no slot of this address space is occupied any more, and every other slot, entry and saved page is as before |
| Lists.Linked | kernel/lib/list.h:113-133 | inserting a node keeps the circular list, with the node where it was put |
| Lists.Unlinked | kernel/lib/list.h:113-133 | unlinking a node keeps the circular list without it, and the node links to itself |
| FirstFit.PageAllocator.InitMemmap | kernel/mm/pmm_firstfit.cpp:33-43 | the range is free; the free runs stay apart with gaps if and only if it touches none of them |
| FirstFit.PageAllocator.Alloc | kernel/mm/pmm_firstfit.cpp:45-74 | the first run that is long enough gives up its head, and exactly these pages are no longer free; none if and only if no run is long enough, and then nothing changes |
| FirstFit.PageAllocator.Release | kernel/mm/pmm_firstfit.cpp:76-112 | exactly these pages are free in addition, merged with the runs they touch, and the count adds up |
| FirstFit.TouchingRanges | kernel/mm/pmm_firstfit.cpp:33-43 | two boot ranges that touch stay two runs |
| Processes.StepKeeps | kernel/sched/process.cpp:29-143 | fork, exit, wait, switches and wake-ups keep: parents and child lists agree, zombies have no children, no waiter sleeps beside a zombie it waits for, every pid is a task or was reaped once |
| Processes.EveryRun | kernel/sched/process.cpp:29-143 | as long as init lives, all of that holds after every run, and no task has a zombie for a parent |
| Processes.InitMustLive | kernel/sched/process.cpp:66-98 | after a step, no run without an exit of init comes to an orphan, if and only if the step was not an exit of init |
| Processes.AdoptionEnds | kernel/sched/process.cpp:76-92 | the adoption loop ends if and only if the dying task is not init or has no children |
| Processes.ReapedIsDetached | kernel/sched/sched.h:212-219 | a reaped task is not current, has no children, and is in no child list and nobody's parent, as its destructor asserts |
| Processes.AdoptIs | kernel/sched/process.cpp:76-92 | init lists every child once and is their parent, and is awake if it waited and one was a zombie; nothing else changed |
| Processes.Search | kernel/sched/process.cpp:112-121 | finds the first zombie in list order that matches, and whether any child matches |
| Processes.EveryStep | kernel/sched/process.cpp:21-143 | what can happen next, task by task |
| Processes.TaskManager.Fork | kernel/sched/process.cpp:29-55 | a new pid, listed in the process table, runnable and a child of the current task |
| Processes.TaskManager.Exit | kernel/sched/process.cpp:66-98 | the loop over the children does what adoption is defined to do |
| Processes.TaskManager.WaitRound | kernel/sched/process.cpp:100-143 | a zombie is reaped with its own exit code and is in no list of the table any more; NotFound if and only if no child matches; else the task sleeps |
| TaskTable.Table.Add | kernel/sched/task_table.cpp:16-20 | the task is in the list and in the bucket of its pid |
| TaskTable.Table.Remove | kernel/sched/task_table.cpp:22-28 | the task is in neither, and no other is touched |
| TaskTable.Table.Find | kernel/sched/task_table.cpp:30-42 | the hash lists find what a search of the whole list would, for every positive pid |
| TaskTable.HashValues | kernel/sched/task_table.cpp:62-66 | the buckets of the first pids |
| Scheduling.Scheduler.PickNext | kernel/sched/sched_priority_rr.cpp:33-58 | the first task of best priority in circular order from the cursor on; idle if and only if nobody can run; the cursor goes behind the pick |
| Scheduling.Scheduler.TaskRemoved | kernel/sched/sched_priority_rr.cpp:27-31 | the task is off the list and the cursor is not at it |
| Scheduling.Scheduler.AddTask | kernel/sched/task_table.cpp:16-20 | a new runnable task is first in the list and nobody else's chances change |
| Scheduling.Scheduler.SwitchTo | kernel/sched/sched.cpp:30-41 | at most one task runs, before and after |
| Scheduling.Scheduler.Schedule | kernel/sched/sched.cpp:15-42 | the pick runs, and which tasks may run at which priority does not change |
| Scheduling.Fair | kernel/sched/sched_priority_rr.cpp:33-58 | while nothing changes, any k picks in a row choose each of the k best tasks exactly once |
| Scheduling.Scheduler.ScheduleMany | kernel/sched/sched.cpp:15-42 | and so do any k calls of `schedule` in a row, each of which switches |
| Mounts.StepKeeps | kernel/fs/vfs.cpp:46-213 | every atomic region of mount, umount, lookup, open and close keeps: a slot's user count is the number of its holders, a mount with users is not removed, every file system has one place |
| Mounts.EveryRun | kernel/fs/vfs.cpp:46-213 | that holds after every interleaving |
| Mounts.NobodyStuck | kernel/fs/vfs.cpp:46-213 | in every such state a thread in the middle of an operation can go on, and an open file can be closed |
| Mounts.CanBegin | kernel/fs/vfs.cpp:46-213 | an empty slot can be reserved, a mounted one used and one without users removed |
| Mounts.DestroyedUnused | kernel/fs/vfs.cpp:179-203 | a file system that is about to be destroyed has no user and no open file, and is destroyed once |
| Mounts.FailedMountReusable | kernel/fs/vfs.cpp:141-177 | after a mount that fails, another thread can mount at the same place |
| Mounts.Vfs.MountBegin | kernel/fs/vfs.cpp:141-177 | reserves the slot if and only if it is there, not in transition and empty and the type is known; else nothing changes |
| Mounts.Vfs.UmountBegin | kernel/fs/vfs.cpp:179-203 | removes the mount if and only if it is there, not in transition and nobody holds it; Busy if somebody does |
| Mounts.Vfs.AcquireMount | kernel/fs/vfs.cpp:82-88 | counts one more user if and only if something is mounted there |
| Mounts.Vfs.CloseFile | kernel/fs/vfs.cpp:120-126 | the file's reference is gone |
| VirtQueue.PowerBits | kernel/drivers/virtio/split_queue.cpp:8-23 | the bit test accepts exactly the powers of two |
| VirtQueue.PendingIs | kernel/drivers/virtio/split_queue.cpp:45-57 | the difference of the wrapped 16-bit indices is the true number of completions |
| VirtQueue.Allocate | kernel/drivers/virtio/split_queue.cpp:8-23 | Invalid if and only if the size is no power of two; else an empty queue, or NoMem |
| VirtQueue.SplitQueue.Submit | kernel/drivers/virtio/split_queue.cpp:33-43 | the buffer is last in the available ring and no entry the device has yet to read is overwritten |
| VirtQueue.SplitQueue.PopUsed | kernel/drivers/virtio/split_queue.cpp:45-57 | the oldest completion, of a buffer that was claimed and is the driver's again; NotFound if and only if there is none |
| VirtQueue.Prepare | kernel/drivers/virtio_kbd.cpp:116-127 | every buffer is claimed exactly once |
| VirtQueue.Interrupt | kernel/drivers/virtio_kbd.cpp:75-108 | all completions in order, each buffer handed back exactly once; it stops at the first of a wrong length |

## Left out

- FatVolume.FatInfo.ReadEntry: is stated for reads that do not drop an unwritten sector; `FatImage.DroppedSector` says what the others do.
- FatVolume.FatInfo.Rollback: is about the one-cluster chains that the driver rolls back; after a failure inside the roll-back the FAT that is left is stated, but not what later operations do with the unwritten cache; after a failed read into the cache nothing is stated about the FAT (the field `lost` marks both).
- FatDirectory.Locate: the match of a name against 8.3 and long-name entries is a parameter, and paths are sequences of such matches; splitting path strings is not modelled.
- FatDirectory.CreateFile: like the driver gives a file no cluster, and files do not grow.
- FatTree.EveryRun: has no step for an operation that failed with its entry possibly written or its chain partly freed; the contracts of the operations say what those leave.
- FatMount.FindPartition: a read beyond the end of the device fails, as the drivers make it.
- Processes.TaskManager.Fork: pids do not overflow; files, stacks and memory of a task are not modelled.
- Processes.StepKeeps: does not have an exit of init with children as a step, since that never ends.
- Scheduling.Scheduler.Schedule: time slices, ticks and statistics are not modelled.
- FirstFit.PageAllocator.InitMemmap: the ranges given at boot do not overlap; page flags are not modelled, and requests are for at least one page.
- Mmio.MmioAllocator.Map: works in page numbers; the record of a window is an entry of the list, which may fail to be had.
- UserSpaces.CreateUserPgdir: takes the root from the frames, where the kernel takes it from `kmalloc`.
- UserSpaces.UserSpace.AllocAndMapPage: every user page has one owner, as in this kernel, where address spaces are not shared.
- SwapTables.PagedSwap.MapPage: joins `alloc_and_map_page` and `map_swappable`, which in the kernel itself only `swap::in` calls; what a new page holds is not stated.
- SwapTables.PagedSwap.OutOne: couples one address space at a time with the swap space; the others are entries the swap space keeps apart.
- PageFormats.ArmLawful: the execute-never bits of AArch64 table descriptors are not modelled.
- VirtQueue.SplitQueue.Submit: the order of memory accesses between driver and device is not modelled, nor are descriptors, reset and quarantine.
- Mounts.Vfs.MountBegin: finding the slot of a path is a parameter; what file systems do inside is not modelled.
- Semaphores.StepKeeps: starts from a count that is not negative.
- Hardware: TLBs, barriers, context switches, interrupt controllers, the drivers behind the block device.
- Consoles, the shell, the network, `kmalloc`, loading from the boot loader, virtual memory areas and page faults, system calls.

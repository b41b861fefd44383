# Verification of the kernel's data structures

A Dafny model of seven parts of a small RISC-V kernel and of the program that runs on it: the hash
table, the sorting routine, the ext2 block maps with the directory records and the block cache, process
memory, the scheduler with semaphores and message queues, the automap's line drawing, and the path
normaliser. `dafny verify dfyconfig.toml` checks everything.

Each part has a specification on values (a map, a sequence, a tree, a state machine with one step per
call), the code itself in the form it has in the kernel (classes whose methods change fields, loops over
arrays), and lemmas about whole runs. Memory, the disk and the context switch are abstracted: a disk
is a sequence of sectors, physical memory a map from frame numbers to tables or bytes, and a context
switch a change of the current pid.

- Hash table: `HashProbe` (why the search ends), `HashSpec`, `HashTable`, `HashRuns`.
- Sorting: `QuickSort`.
- File system: `BlockTree`, `BlockMap`, `BlockFree`, `BlockRuns`; `DirSpec`, `Directory`,
  `DirFile`; `BlockCache`.
- Process memory: `FrameDist`, `PageTables`, `AddressSpace`, `TableList`, `PageOutcomes`,
  `ProcessMemory`, `ProcessImage`, `ProcessFork`.
- Processes: `QueueSpec`, `Queue`, `QueueRuns`; `Scheduler`, `SchedulerRuns`, `SchedulerLaws`; `Semaphores`,
  `SemaphoreRuns`, `SemaphoreTally`, `SemaphoreLaws`, `SemaphoreApi`, `WaitList`; `MsgQueues`, `MsgQueueRuns`,
  `MsgQueueOrder`, `MsgQueueMarks`, `Ring`, `MsgQueueApi`.
- Lines: `LineClip`, `LineClipLoss`, `LineClipKept`, `LineDraw`.
- Paths: `PathSpec`, `Strtok`, `Paths`.
- `CInt` holds the C operations on integers, `SetFacts` facts about sets, `Marks` a mark for the verifier.

## Model

| member | source | states |
|---|---|---|
| HashProbe.PerturbVanishes | src/lib/hash/hash.c:55-82 | the perturbation of a 64-bit hash is 0 after 13 shifts and stays 0 |
| HashProbe.ProbeReachesEverySlot | src/lib/hash/hash.c:55-82 | for every hash and every table size 2^k, each slot is met by the probe sequence: the search loop ends as soon as one slot is empty |
| HashSpec.GetAfterPut | src/lib/hash/hash.c:177-218 | get after set, for the same and for every other key, under any lawful comparison |
| HashSpec.GetAfterRemove | src/lib/hash/hash.c:177-242 | get after del, for the same and for every other key |
| HashTable.Table.Probe | src/lib/hash/hash.c:55-82 | the search ends, at the key's slot or, if the key is not there, at the first tombstone or empty slot of its path |
| HashTable.Table.SearchEndsIff | src/lib/hash/hash.c:55-82 | the search for a key ends if and only if some slot is empty or the key is there |
| HashTable.Table.Copy | src/lib/hash/hash.c:89-106 | re-inserting every active slot gives the same map, without tombstones |
| HashTable.Table.Update | src/lib/hash/hash.c:111-137 | growing and shrinking never change the contents, even of a full table; when it fails, which is told exactly, nothing changes; when it succeeds the load is below two thirds; exactly at two thirds full it doubles, exactly at a quarter active, with more than eight slots, it halves |
| HashTable.Table.Set | src/lib/hash/hash.c:191-218 | the contents are those of the map with the key put in, tombstones reused; counters and size; the table is left full if and only if a new key has taken its last empty slot and the resizing has failed |
| HashTable.Table.Del | src/lib/hash/hash.c:220-242 | the contents are those of the map without the key; counters and size; the table stays loaded below two thirds |
| HashTable.Table.GetValue | src/lib/hash/hash.c:177-189 | the value of the map, or the default |
| HashRuns.Replay | src/lib/hash/hash.c:166-242 | over every run of set, del, get and isset, with malloc failing as it likes, all answers and the final contents are those of the finite map, up to the set that leaves the table full, if there is one |
| HashRuns.FullTableExample | src/lib/hash/hash.c:191-218 | eight sets with malloc failing whenever the table wants to grow: the search for a ninth key never ends |
| HashRuns.DirectIsLawful | src/lib/hash/hash.c:244-252 | the direct hash and comparison satisfy what the table asks of them |
| QuickSort.Med3IsMedian | src/lib/stdlib/qsort.c:75-81 | the index returned is that of a median of the three |
| QuickSort.Partition | src/lib/stdlib/qsort.c:112-137 | the five zones: equal keys at both ends, smaller and greater ones in between; a permutation, and if nothing was swapped the range as it was |
| QuickSort.VecSwap | src/lib/stdlib/qsort.c:56-73 | two blocks of equal length have changed places |
| QuickSort.Qsort | src/lib/stdlib/qsort.c:83-161 | for every array and every total preorder: ends, and leaves the range sorted and a permutation, and the rest of the array alone |
| BlockTree.CountIs | src/kernel/fs/inode.c:986-1020 | i_blocks as a function of the number of data blocks: n, n + 1, or n + 2 + ceil((n - 524) / 512) |
| BlockTree.GrowthHitsMaximum | src/kernel/fs/inode.c:450-453 | growth lands exactly on MAX_BLOCKS_FILE, with 262155 data blocks; the equality test is never stepped over |
| BlockMap.AllocBit | src/kernel/fs/inode.c:189-212 | the first clear bit of a bitmap block, or -1 if all are set |
| BlockMap.NoSharing | src/kernel/fs/inode.c:442-589 | no block belongs to two inodes, none is the reserved block 0, and all are marked in use |
| BlockMap.FileSystem.Alloc | src/kernel/fs/inode.c:926-984 | the first free block, marked and zeroed; 0 exactly when the free count is a multiple of 65536 |
| BlockMap.FileSystem.AddDataBlock | src/kernel/fs/inode.c:442-589 | appends exactly one block, a free one that is zeroed, to the file's data; changes no other file, and no byte of any data block that some file has; succeeds exactly when the file is not of maximal size and the 16-bit count covers the data block and its index blocks |
| BlockMap.FileSystem.RelativeBlock | src/kernel/fs/inode.c:1022-1095 | for every number k: the block added by the k-th addition, in all three ranges; behind the end of the file 0, if the index block that k belongs to is there or the reserved block 0 is all zeros; in a file without index blocks entry k - 12 of block 0, for 12 <= k < 524 |
| BlockMap.FileSystem.ActualBlocks | src/kernel/fs/inode.c:986-1020 | the number of data blocks, read back from i_blocks |
| BlockFree.FreeData | src/kernel/fs/inode.c:338-440 | frees every data and index block of the file exactly once, and nothing else; the check of freed_blocks against i_blocks never fails |
| BlockRuns.Conservation | src/kernel/fs/inode.c:926-984 | always: free + in files + leaked = all blocks but the reserved one |
| BlockRuns.BitmapDetermined | src/kernel/fs/inode.c:189-212 | the bitmap, the owners and the free count are a function of the files and the leaked blocks |
| BlockRuns.SizeAfterAdditions | src/kernel/fs/inode.c:442-589 | after n additions to an empty file the data are the n new blocks in order, and i_blocks is what n calls for |
| BlockRuns.AdditionsKeep | src/kernel/fs/inode.c:442-589 | after any run of additions the data blocks that files had before hold what they held |
| BlockRuns.RoundTrip | src/kernel/fs/inode.c:338-589 | any number of additions to an empty inode and then free_inode_data: bitmap, free count and all files are back, with all their data, and as many blocks were freed as i_blocks said |
| BlockRuns.FilesStayShort | src/kernel/fs/inode.c:930-934 | in every reachable state all files and leaked blocks together have at most (n - 1) mod 65536 blocks, so MAX_BLOCKS_FILE is never reached |
| DirSpec.FindIsLookup | src/kernel/fs/inode.c:750-800 | the search through the records is lookup in the map from names to inodes and file types |
| DirSpec.MergeUndoesSplit | src/kernel/fs/inode.c:702-716 | splitting a record and merging the new half back gives the same records |
| Directory.RemoveUndoesAdd | src/kernel/fs/inode.c:622-924 | within a block, removing a name that was just added brings back the same records and the same used bytes |
| DirFile.LookupIs | src/kernel/fs/inode.c:750-800 | over all blocks, the first record found with the name is the only one: the search is lookup in the directory's map |
| DirFile.Dir.LookFor | src/kernel/fs/inode.c:750-800 | on the bytes of all blocks: the inode of the name, 0 if it is not there, 0xFFFFFFFF for the empty name |
| DirFile.Dir.Add | src/kernel/fs/inode.c:622-732 | on the bytes: into the first block with room, or into a new block from the volume; the map has one name more, with the given inode and file type, and all its other entries; it fails exactly if the inode or the name is empty, the name is there, or no block has room and no new one can be had; i_size grows whenever the name is new, also in that last case |
| DirFile.Dir.Remove | src/kernel/fs/inode.c:802-924 | on the bytes, for every record: the one before it swallows it; the first one of a block is marked as free, or the block is emptied or given back; when it fails and why; what i_size becomes |
| DirFile.RemovedIff | src/kernel/fs/inode.c:802-924 | the directory loses the entry of the name and nothing else if and only if the record is not the first one of its block with the length of a block without it |
| DirFile.SpillExample | src/kernel/fs/inode.c:870-876 | two records of 2032 and 16 bytes, the first with a name of 5: removing it takes the second name away |
| DirFile.RemoveUndoesAdd | src/kernel/fs/inode.c:622-924 | over all blocks, removing a name that has just gone into one of them brings back all records |
| DirFile.FirstEntryExample | src/kernel/fs/inode.c:622-732 | on a volume of 65537 blocks the first entry of a directory cannot be added, and i_size says 12 |
| BlockCache.Cache.ReadBlock | src/kernel/fs/disk_buffer.c:17-33 | reads the contents that users see; no fetch or eviction changes what any user sees of any block; a lock is counted for the block and for no other; the cache stays sound exactly if the block is not a stray one |
| BlockCache.Cache.WriteBlock | src/kernel/fs/disk_buffer.c:35-78 | changes the written prefix of one block and nothing else; what each return code means; the cache stays sound exactly if nothing is written or the block is not a stray one |
| BlockCache.DiskByte | src/kernel/fs/disk_buffer.c:180-195 | byte j of block b is byte j mod 512 of sector start + 4 b + j / 512 |
| BlockCache.Cache.Fetch | src/kernel/fs/disk_buffer.c:159-207 | a new block at the head of a well-formed list without duplicates, whatever had to be evicted; locked blocks stay; the size of the cache, which outgrows its limit only when the cache is full and everything is locked or the disk refuses a write |
| BlockCache.PassesIff | src/kernel/fs/disk_buffer.c:172-178 | the range test, with its 32-bit product, compares the block number modulo 2^21 |
| BlockCache.SizeBoundedIff | src/kernel/fs/disk_buffer.c:159-207 | over every run of fetches the cache keeps to 60 blocks if and only if none of them finds it full without being able to drop a block |
| BlockCache.Cache.Sync | src/kernel/fs/disk_buffer.c:209-250 | a successful sync leaves every block on disk as users see it, even if the disk may refuse any write |
| BlockCache.Cache.FreeCacheList | src/kernel/fs/disk_buffer.c:252-293 | locked blocks stay, what is dropped has been written back; on success only locked blocks are left, on failure an unlocked block differs from the disk |
| FrameDist.Frames.constructor | src/kernel/memory/frame_dist.c:26-44 | all frames are free, in ascending order, threaded through their first words |
| FrameDist.Frames.GetFrame | src/kernel/memory/frame_dist.c:50-59 | the first free frame, which is not free any more; 0 exactly when one is left |
| FrameDist.Frames.ReleaseFrame | src/kernel/memory/frame_dist.c:66-85 | the frame becomes the first free one; the list stays sound if and only if the frame is not the one just behind the end of the memory and was not free already |
| PageTables.LinkedFrame | src/kernel/memory/pages.c:121-128 | the frame that link_pte cuts into three fields is read back from the entry |
| PageTables.Split | src/kernel/process/process_memory.c:29-43 | how the hardware cuts up the addresses of the code, stack and heap pages |
| AddressSpace.Translates | src/kernel/process/process_memory.c:216-283 | the three-level walk finds every page of the process in its frame |
| AddressSpace.Permitted | src/kernel/process/process_memory.c:737-741 | the walk to a page of the process ends at an entry that lets it read and write, and execute exactly the code |
| AddressSpace.KernelMapped | src/kernel/process/process_memory.c:307 | outside the user space a process has the translations of the kernel's root table |
| AddressSpace.PageAddedPages | src/kernel/process/process_memory.c:702-745 | adding a page keeps every other translation |
| TableList.RoomFound | src/kernel/process/process_memory.c:216-283 | the search by kind and usage finds the table that the next page belongs to, or there is none and a new one is due |
| ProcessMemory.InitMemProc | src/kernel/process/process_memory.c:294-339 | the root tables of an empty process, apart from everything that was in memory, with the kernel's entries in the root but for that of the user space; NULL exactly when fewer than two frames can be had |
| ProcessMemory.Process.AddFrameToProcess | src/kernel/process/process_memory.c:131-283 | -1 if and only if no table of the kind has room, and a limit on tables is reached or no frame can be had; otherwise the table that was found, or a new empty one |
| PageOutcomes.FailureReturnsIff | src/kernel/process/process_memory.c:702-745 | after such a -1 add_and_allocate_frames returns -1 if and only if the last table is of the kind and no frame is left; otherwise an assertion fails or it goes through a null pointer |
| PageOutcomes.HeapIsFull | src/kernel/process/process_memory.c:131-174 | page 65537 of the heap, with frames left: the call does not return |
| PageOutcomes.StackTableIsFull | src/kernel/process/process_memory.c:702-745 | the 512th stack page fails an assertion if and only if the last table is not a stack table |
| PageOutcomes.NextRound | src/kernel/process/process_memory.c:702-745 | after k pages the next round ends well if and only if frames, limits and the last table allow k + 1 pages |
| ProcessMemory.Process.AddPage | src/kernel/process/process_memory.c:702-745 | one more page of the kind, in a zeroed frame that was free, and nothing else harmed; how the round ends, in all cases, and how many frames it takes |
| ProcessMemory.Process.AddAndAllocate | src/kernel/process/process_memory.c:702-745 | the same for any number of pages, in order; it ends well exactly if there is enough for all of them, and -1 for too many pages exactly if they outnumber the remaining frames |
| ProcessMemory.Process.Sbrk | src/kernel/process/process_memory.c:782-810 | for every increment: it ends well exactly if there is enough for the new pages; then it returns the old end of the heap and moves the end by the increment, every page below it being there, or returns -1 and leaves the end, exactly if that would be below the start |
| ProcessMemory.StaysCovered | src/kernel/process/process_memory.c:782-810 | over every run of sbrk calls the heap has pages up to its end |
| ProcessMemory.EndIsSum | src/kernel/process/process_memory.c:782-810 | over every run of sbrk calls the end of the heap has moved by the sum of the increments that were not refused, and the pages are those that they call for |
| ProcessMemory.GrantsApart | src/kernel/process/process_memory.c:782-810 | two growing calls with no shrinking one in between give out ranges that do not overlap |
| ProcessImage.Load | src/kernel/process/process_memory.c:347-373 | it ends well exactly if there are frames for everything and the stack leaves a table for the heap; then the code pages hold the program image, filled up with zeros, and stack and heap have the sizes asked for |
| ProcessImage.ReadsImage | src/kernel/process/process_memory.c:347-373 | a walk of 0x40000000 + i reads byte i of the image |
| ProcessImage.ReadsHeapAndStack | src/kernel/process/process_memory.c:29-43 | heap page k is at start_heap_add + 4096 k, stack page k is k + 1 pages below the top |
| ProcessImage.HeapMapped | src/kernel/process/process_memory.c:782-810 | after every run of sbrk calls of a loaded process, every address from the heap's start to its end is mapped |
| ProcessImage.OwnFrame | src/kernel/process/process_memory.c:702-745 | different pages never share a frame |
| ProcessFork.CopyTable | src/kernel/process/process_memory.c:596-650 | one table of the child: its source is found and has the same usage (the asserts hold), and its pages get the parent's bytes; -1 exactly if the frames do not suffice |
| ProcessFork.CopyProcessMemory | src/kernel/process/process_memory.c:563-671 | it ends well exactly if there is enough for both sets of frames; then the child has the parent's pages, with the same bytes, in frames that were free before, and the same heap; how many frames are gone, and how many of them the child does not have; however it ends, nothing that was in memory has changed; the child has the kernel's entries in its root table |
| ProcessFork.LostFrames | src/kernel/process/process_memory.c:569-571 | of the frames that the copy takes, exactly as many as there are pages belong neither to the child's tables nor to its pages |
| ProcessFork.ReadsTheSame | src/kernel/process/process_memory.c:596-650 | parent and child read the same byte at every code, stack and heap address of the parent |
| ProcessFork.ChildReadsBack | src/kernel/process/process_memory.c:628-649 | a byte that a process stores in one of its pages is read back by it |
| ProcessFork.ChildStoreUnseen | src/kernel/process/process_memory.c:563-671 | what the child stores in its pages changes nothing that the parent reads |
| Queue.Add | src/lib/include/queue.h:73-87 | on the pointers: the ring of the sorted sequence with the element in its slot |
| Queue.Out | src/lib/include/queue.h:129-145 | on the pointers: the last element comes off, with its links cleared |
| Queue.Del | src/lib/include/queue.h:155-163 | on the pointers: the element comes off, wherever it is |
| QueueRuns.NextIsOldestOfHighest | src/lib/include/queue.h:73-163 | after every run of additions and removals the next element out has the highest key, and among equals it was added first |
| Scheduler.Kernel.Schedule | src/kernel/process/scheduler.c:36-190 | the scheduler on the kernel's fields does what Scheduled says, and keeps the queues in order |
| Scheduler.Kernel.AwakeSleeping | src/kernel/process/scheduler.c:203-226 | the wake-up loop does what Awoken says; the assertion in get_next_wake_time holds |
| Scheduler.Kernel.WaitClock | src/kernel/sync/timer_api.c:22-29 | the caller goes to sleep in the order of the wake times, then the scheduler runs |
| SchedulerRuns.HighestRuns | src/kernel/process/scheduler.c:109-190 | after every call with a ready process, no ready process is more important than the running one |
| SchedulerRuns.NobodyLost | src/kernel/process/scheduler.c:36-190 | a call neither loses nor duplicates a process |
| SchedulerRuns.ExpiredWakeUp | src/kernel/process/scheduler.c:203-226 | unless a wake time is 0, exactly the expired sleepers wake up |
| SchedulerRuns.NobodyOversleepsIff | src/kernel/process/scheduler.c:203-226 | no expired sleeper stays asleep, if and only if the clock is 0 or no wake time is |
| SchedulerRuns.SleptZeroIff | src/kernel/sync/timer_api.c:22-29 | wait_clock leaves a wake time of 0 if and only if there was one, or it is wait_clock(0) at time 0 |
| SchedulerRuns.OversleepsIff | src/kernel/sync/timer_api.c:22-29 | over every run of wait_clock calls, some sleeper is past its time after a scheduler call if and only if there has been a wait_clock(0) at time 0 |
| SchedulerRuns.OversleepingExample | src/kernel/sync/timer_api.c:22-29 | wait_clock(0) and wait_clock(5) at time 0: at time 1000 both still sleep |
| SchedulerRuns.TurnComes | src/kernel/process/scheduler.c:109-190 | a ready process that none is more important than runs within ahead + 1 scheduler calls, unless a more important one arrives |
| SchedulerLaws.SleepsExactly | src/kernel/sync/timer_api.c:22-29 | a process that calls wait_clock(delay) at time t sleeps through every run of the others as long as the clock is at most t + delay, and is awake after the first call of the scheduler at a later time, if there has been no wait_clock(0) at time 0 |
| SchedulerLaws.TopRuns | src/kernel/process/scheduler.c:109-190 | after every call nobody who is ready is more important than the running process, and if nobody else was marked as running before, nobody else is |
| SchedulerLaws.PreemptedIff | src/kernel/process/scheduler.c:131-158 | a running process loses the processor if and only if somebody as important is ready |
| SchedulerLaws.KilledIsFreed | src/kernel/process/scheduler.c:160-175 | a killed process is put among the dead as it loses the processor, and freed by the next call |
| Semaphores.WaitsOnce | src/kernel/sync/semaphore_api.c:159-236 | no process waits twice, in one list or in two |
| SemaphoreRuns.DoKeeps | src/kernel/sync/semaphore_api.c:128-366 | every call keeps: as many wait as the count is below zero, the lists are by descending priority and by age among equals, waiters are blocked on that semaphore, and somebody runs |
| SemaphoreRuns.SignalWakesFirst | src/kernel/sync/semaphore_api.c:264-287 | signal wakes the waiter who is more important, or as important and older, than all the others - and nobody else |
| SemaphoreRuns.NobodyOvertakes | src/kernel/sync/semaphore_api.c:82-106 | over every run of calls, nobody is woken while somebody ahead of him in that order still waits |
| SemaphoreRuns.SignalledTimesServes | src/kernel/sync/semaphore_api.c:345-366 | n signals raise the count by n and wake the first min(n, blocked) in line |
| SemaphoreRuns.WaitReturnsWakersCode | src/kernel/sync/semaphore_api.c:159-236 | when a blocked wait returns, its code is that of the call that woke it (0, -3 or -4), whatever has happened since |
| SemaphoreRuns.WasResetOkIff | src/kernel/sync/semaphore_api.c:310-324 | sreset keeps the invariant if and only if its count modulo 65536 is at most 32767 |
| SemaphoreTally.CountIsBalance | src/kernel/sync/semaphore_api.c:159-366 | over every run of calls, for every semaphore: the count is the initial one plus the signals minus the waits and try_waits that were not refused, since it was created or reset; what is done to one semaphore leaves the others alone |
| SemaphoreTally.AtMostInitial | src/kernel/sync/semaphore_api.c:159-287 | over every run in which only processes past their wait signal, a semaphore created with count n never has more than n processes past it |
| SemaphoreTally.MutualExclusion | src/kernel/sync/semaphore_api.c:159-287 | with an initial count of 1 two processes are never past it at the same time |
| SemaphoreTally.WaitBlocksIff | src/kernel/sync/semaphore_api.c:159-236 | wait blocks the caller, and nobody else, if and only if the count is not positive |
| SemaphoreTally.TryWaitIff | src/kernel/sync/semaphore_api.c:326-343 | try_wait succeeds if and only if wait would not block, and then does the same to the semaphores |
| SemaphoreLaws.NobodyVanishes | src/kernel/sync/semaphore_api.c:82-366 | no call loses a process or makes one up: it stays ready, asleep, running or waiting |
| SemaphoreLaws.FreesAll | src/kernel/sync/semaphore_api.c:289-324 | sdelete and sreset make everybody ready who waits, with the codes -3 and -4 |
| SemaphoreLaws.DoKeepsTop | src/kernel/sync/semaphore_api.c:159-366 | if nobody ready is more important than the running process before a call, nobody is after it |
| SemaphoreApi.SemaphoreTable.Create | src/kernel/sync/semaphore_api.c:128-157 | a new identifier with the count, or -1 for a negative count or when 10000 semaphores exist |
| SemaphoreApi.SemaphoreTable.Wait | src/kernel/sync/semaphore_api.c:159-236 | up to its call of the scheduler, on the kernel's fields: the step of the state machine |
| SemaphoreApi.SemaphoreTable.SignalN | src/kernel/sync/semaphore_api.c:345-366 | likewise; the early return that would leave parent_block set is not taken |
| SemaphoreApi.SemaphoreTable.Delete | src/kernel/sync/semaphore_api.c:289-308 | likewise; all waiters are woken first |
| SemaphoreApi.SemaphoreTable.Count | src/kernel/sync/semaphore_api.c:117-126 | the 16 bits from which the count can be read back |
| WaitList.WaitList.Enter | src/kernel/sync/semaphore_api.c:159-236 | on the pointers: the singly linked list of the line with the newcomer in his place |
| WaitList.WaitList.TakeFirst | src/kernel/sync/semaphore_api.c:82-106 | on the pointers: the first waiter comes off |
| WaitList.WaitList.Remove | src/kernel/sync/semaphore_api.c:21-80 | on the pointers: the killed process, and nobody else, is taken out if and only if at most one process waits or it is the first or the last one; otherwise the first one's record is freed and stays in the list |
| WaitList.MiddleExample | src/kernel/sync/semaphore_api.c:21-80 | three processes wait and the second is killed: the record of the first is freed |
| MsgQueues.DoKeeps | src/kernel/sync/msgqueue.c:50-203 | every call keeps: blocked consumers face an empty buffer and no blocked producers, blocked producers a full buffer; nobody is in two places; somebody runs |
| MsgQueueRuns.NothingLost | src/kernel/sync/msgqueue.c:65-167 | over every run of calls: messages go out in the order they were taken in, each is taken in once or still held by its blocked sender, and pcount is sends minus receives |
| MsgQueueRuns.BlockedCallReturns | src/kernel/sync/msgqueue.c:65-143 | when a blocked call returns, it finds the message or the outcome of the call that woke it |
| MsgQueueOrder.NextWokenFirst | src/kernel/sync/msgqueue.c:65-143 | after every run of calls, the next process woken is the most important of those blocked, and among equals the one that blocked first |
| MsgQueueMarks.MarksOkIff | src/kernel/sync/msgqueue.c:65-143 | after a call exactly the processes that are blocked are marked as blocked, unless and only unless preceive has taken a message out of the hands of a producer that has not got the processor at once |
| MsgQueueMarks.AlwaysMarked | src/kernel/sync/msgqueue.c:65-143 | on a queue with room for a message the marks are right over every run of calls |
| MsgQueueMarks.DeliveredTwice | src/kernel/sync/msgqueue.c:103-111 | on a queue of size 0: preceive, chprio on the producer and preceive again deliver the same message twice |
| MsgQueueMarks.DoKeepsTop | src/kernel/sync/msgqueue.c:65-167 | if nobody ready is more important than the running process before a call, nobody is after it |
| Ring.MsgRing.Add | src/kernel/sync/msgqueue.c:256-263 | on the ring: the message joins the end of the sequence |
| Ring.MsgRing.Pop | src/kernel/sync/msgqueue.c:226-254 | on the ring: the oldest message comes off |
| MsgQueueApi.MsgQueue.Send | src/kernel/sync/msgqueue.c:65-94 | psend up to its return, on the queue's fields: the step of the state machine |
| MsgQueueApi.MsgQueue.Receive | src/kernel/sync/msgqueue.c:96-143 | preceive likewise |
| MsgQueueApi.MsgQueue.PCount | src/kernel/sync/msgqueue.c:145-155 | the calls of psend minus those of preceive |
| MsgQueueApi.MsgQueue.Reset | src/kernel/sync/msgqueue.c:157-203 | the queue is empty and everybody is awake |
| LineClip.RoundFacts | src/user/xinuldoom/am_map.c:915-968 | each round crosses one window side less, shortens the segment, stays in its rectangle, and moves the new end less than a pixel in each direction off the line |
| LineClip.ClipStaysOnLine | src/user/xinuldoom/am_map.c:889-968 | for all ends: at most four rounds; an accepted segment is in the window, and its ends are within four pixels in each direction of the line |
| LineClip.AxisAlignedExact | src/user/xinuldoom/am_map.c:889-968 | horizontal and vertical segments keep precisely their visible pixels |
| LineClip.FLine.Clip | src/user/xinuldoom/am_map.c:889-970 | the loop on the segment's fields is ClipFrom |
| LineClipLoss.RejectedIff | src/user/xinuldoom/am_map.c:889-968 | a segment of which something is in the window is rejected if and only if its first end is above or below it and the second cut of that end takes it beyond the other edge |
| LineClipLoss.EndInside | src/user/xinuldoom/am_map.c:889-968 | a segment with an end in the window is never rejected |
| LineClipLoss.LostOnlyAtEdges | src/user/xinuldoom/am_map.c:889-968 | whatever a rejected segment had in the window was within one unit of its left or right edge |
| LineClipLoss.AlwaysAcceptedIff | src/user/xinuldoom/am_map.c:889-968 | all segments exactly through a pixel are accepted if and only if the pixel is not in the first or last column |
| LineClipLoss.CornerLost | src/user/xinuldoom/am_map.c:889-968 | on 320 by 168 pixels the segment from (-7, 175) to (1, -25) passes through (0, 0) and is rejected |
| LineClipKept.InsideKept | src/user/xinuldoom/am_map.c:889-968 | an end in the window stays where it is |
| LineClipKept.EndsInOrder | src/user/xinuldoom/am_map.c:889-968 | from the old first end to the old second one come the new first end and then the new second one |
| LineClipKept.InnerKept | src/user/xinuldoom/am_map.c:889-968 | whatever a segment has in the window, a column from its left and right edges and a row from its upper one, is less than three pixels from the rectangle of the ends that are left |
| LineClipKept.AlwaysKeptIff | src/user/xinuldoom/am_map.c:889-968 | in a window at least six pixels wide: all segments exactly through a pixel are accepted and keep it within three pixels, if and only if the pixel is not at the left, right or upper edge |
| LineClipKept.ShortenedExample | src/user/xinuldoom/am_map.c:889-968 | on 320 by 168 pixels the segment from (-16750, 168) to (16850, -168) passes through (50, 0) and is cut down to the single point (0, 0) |
| LineDraw.WalkIsNearest | src/user/xinuldoom/am_map.c:1019-1048 | the error term, kept up by additions, picks the nearest row of every column |
| LineDraw.DotIffOnLine | src/user/xinuldoom/am_map.c:1004-1048 | the dots are exactly the pixels within half a pixel of the line, one in each of max(abs dx, abs dy) + 1 places |
| LineDraw.PlottedIffOnLine | src/user/xinuldoom/am_map.c:1004-1048 | a place of the frame buffer is one of those coloured if and only if its pixel is on the line |
| LineDraw.DrawFline | src/user/xinuldoom/am_map.c:977-1049 | colours those pixels of the frame buffer and no others, in all octants; nothing if an end is outside |
| LineDraw.DrawMline | src/user/xinuldoom/am_map.c:1056-1068 | clip and draw: an accepted segment is drawn in full, the guard of the drawing never stops it |
| PathSpec.TokensOfRender | src/kernel/process/helperfunc.c:289-342 | the components of a rendered name are the stack it came from |
| PathSpec.FinalIsFixed | src/kernel/fs/dir_api.c:67-105 | the resolved name is canonical, and resolves to itself from everywhere |
| PathSpec.ThereAndBack | src/kernel/fs/dir_api.c:11-65 | a component and ".." lead back |
| PathSpec.FinalReaches | src/kernel/fs/dir_api.c:67-105 | in every tree of directories the resolved name leads from the root to where the path leads, from the root if it is absolute and from the current directory if it is not |
| PathSpec.RelativeFromHere | src/kernel/fs/dir_api.c:76-79 | a relative path means the current directory's name, a slash, and the path |
| PathSpec.OneStep | src/kernel/fs/dir_api.c:33-65 | what the empty path, ".", ".." and a single name mean |
| Strtok.ExtractFiles | src/kernel/process/helperfunc.c:289-342 | for every path: the components, both tokenising passes agreeing; none if it is longer than 512 characters; it overruns its buffer if and only if it has exactly 512 |
| Paths.NavigateToParent | src/kernel/fs/dir_api.c:11-31 | the buffer holds the name without its last component; the root stays |
| Paths.ParentOfRender | src/kernel/fs/dir_api.c:11-31 | cutting a canonical name at its last slash is dropping the last component of its stack |
| Paths.ChildOfRender | src/kernel/fs/dir_api.c:33-65 | appending to a canonical name is pushing a component |
| Paths.GetFinalString | src/kernel/fs/dir_api.c:67-105 | the name of the stack of components left by "." and "..", unless extract_files overruns its buffer |
| Paths.WorkingDirectory.ChDir | src/kernel/fs/dir_api.c:107-131 | the current directory becomes that name or stays as it was, and is always canonical; which paths overrun the buffer |

## Findings

Where the code does not do what it is for, with the exact condition.

- Sleeping since time 0. `get_next_wake_time` uses 0 for "nobody sleeps", so a sleeper with wake time 0
  stays asleep for ever and keeps everybody else asleep (`src/kernel/process/scheduler.c:203-226`).
  Input: wait_clock(0) at time 0 (`SchedulerRuns.OversleepingExample`). Some sleeper is past its time
  exactly if that call has been made (`SchedulerRuns.OversleepsIff`).
- 16-bit count in sreset. The count is cut to 16 bits after the check of its sign
  (`src/kernel/sync/semaphore_api.c:310-324`). Input: sreset(sem, 32768), which leaves a count of -32768
  with nobody waiting. The invariant is kept exactly if the count modulo 65536 is at most 32767
  (`SemaphoreRuns.WasResetOkIff`).
- 16-bit count of free blocks. `bg_free_blocks_count` is a 16-bit field, and allocation fails when it is 0
  (`src/kernel/fs/inode.c:930-934`): exactly when the number of free blocks is a multiple of 65536
  (`BlockMap.FileSystem.Alloc`). On a volume of n blocks no more than (n - 1) mod 65536 of them can ever
  be used, however large n is (`BlockRuns.FilesStayShort`); with n = 65537, none.
- Releasing a frame. `release_frame` compares with `>` where `>=` is needed, and does not notice that a frame
  is free already (`src/kernel/memory/frame_dist.c:66-85`). Input: the frame at `_memory_end`. The free list
  stays sound exactly if the frame is neither that one nor a free one (`FrameDist.Frames.ReleaseFrame`).
- The last frame. `get_remaining_frames` counts the last frame of the list, which `get_frame` never hands
  out (`src/kernel/memory/frame_dist.c:19-59`): with n frames remaining n - 1 can be had
  (`FrameDist.Frames.GetRemaining`, `FrameDist.Frames.GetFrame`).
- Paths of 512 characters. `extract_files` refuses paths longer than its buffer with `>` where `>=` is
  needed (`src/kernel/process/helperfunc.c:290`): the copy of a path overruns the buffer exactly if the path
  has 512 characters (`Strtok.ExtractFiles`; for chdir `Paths.WorkingDirectory.ChDir`).
- Directory size. `add_inode_directory` adds to i_size before it has found room
  (`src/kernel/fs/inode.c:662`). It returns -1 with i_size grown exactly if the name is new, no block has room
  for it, and the directory has twelve blocks or the volume has no block for it, that is, the number of free
  blocks is a multiple of 65536 (`DirFile.Dir.Add`, `Fresh` and `NoPlace`). Input: the first entry on a
  volume of 65537 blocks (`DirFile.FirstEntryExample`).
- Removing the first record of a block. `remove_inode_dir` compares the record's length with the size of a block
  without the record, where it means the whole block (`src/kernel/fs/inode.c:870-876`). If they are the same it gives
  the block back or empties it, with all the other names in it; otherwise it takes out the name and nothing else
  (`DirFile.RemovedIff`). Input: `DirFile.SpillExample`. A block that is given back leaves i_size as it was
  (`DirFile.Dir.Remove`).
- Lookups without an index block. For a number from 12 on in a file of at most 12 blocks
  `get_inode_relative_block` takes the reserved block 0 for the index block
  (`src/kernel/fs/inode.c:1022-1095`). For 12 <= k < 524 the answer is wrong exactly if entry k - 12 of block 0
  is not 0 (`BlockMap.FileSystem.RelativeBlock`).
- Blocks out of range. `write_block` returns 0, as for success, when the block cannot be fetched
  (`src/kernel/fs/disk_buffer.c:46-51`): exactly when the data fit a block and the block number fails the range
  test (`BlockCache.Cache.WriteBlock`). The test lets through one block more than the partition has, and its
  32-bit product wraps (`src/kernel/fs/disk_buffer.c:172-178`): it compares the block number modulo 2^21
  (`BlockCache.PassesIff`). Input: block 2^21 on a partition of 4096 sectors (`BlockCache.StrayExample`). The
  cache stays sound exactly if no such block is fetched (`BlockCache.Cache.ReadBlock`).
- A cache beyond its limit. Whether the cache is full is tested with `==`
  (`src/kernel/fs/disk_buffer.c:159-164`). It grows beyond 60 blocks exactly if it is full and nothing can be
  dropped when a block is fetched (`BlockCache.SizeBoundedIff`, `BlockCache.Cache.Fetch`), and from then on no fetch
  drops anything (`BlockCache.SizeGrowsOn`).
- A full hash table. When malloc fails at every resizing, sets go on to fill the table, and with the last slot
  filled the search for a key that is not there never ends (`src/lib/hash/hash.c:55-82, 111-137`): exactly if no
  slot is empty (`HashTable.Table.SearchEndsIff`); when that happens: `HashTable.Table.Set`. Input:
  `HashRuns.FullTableExample`.
- Killing a waiting process. When the process is neither the first nor the last of several waiters,
  `remove_proc_queue` takes the first one's record, frees it and leaves it in the list
  (`src/kernel/sync/semaphore_api.c:53-69`). Input: the second of three waiters is killed
  (`WaitList.MiddleExample`). The right process is taken out exactly if at most one waits or it is the first or
  the last (`WaitList.WaitList.Remove`).
- Lost line segments. The clipper's cuts are rounded, so a visible segment can be rejected
  (`src/user/xinuldoom/am_map.c:915-968`). Input: (-7, 175) to (1, -25) in the automap's 320 by 168 pixels
  (`LineClipLoss.CornerLost`). When: `LineClipLoss.RejectedIff`. How much: only within one unit of the left
  or right edge (`LineClipLoss.LostOnlyAtEdges`, `LineClipLoss.AlwaysAcceptedIff`).
- Shortened line segments. A segment that is accepted can lose what is visible at an edge
  (`src/user/xinuldoom/am_map.c:915-968`). Input: (-16750, 168) to (16850, -168) in 320 by 168 pixels, of which fifty
  pixels of the first row are in sight and a single dot is drawn (`LineClipKept.ShortenedExample`). Which pixels are at
  risk: those at the left, right and upper edges, and no others (`LineClipKept.AlwaysKeptIff`, `LineClipKept.InnerKept`).
- A mark that is left behind. When `preceive` takes the message of a blocked producer on a queue of size 0, it does not
  set the producer's state (`src/kernel/sync/msgqueue.c:103-111`): it is ready and still marked BLOCKEDQUEUE, exactly if
  it does not get the processor at once (`MsgQueueMarks.MarksOkIff`). `chprio` then takes it off the ready processes and
  puts it back among the blocked producers (`src/kernel/process/process_api.c:101-104`), and the next preceive
  delivers its message a second time (`MsgQueueMarks.DeliveredTwice`).
- Failure of `add_frame_to_process`. `add_and_allocate_frames` tests its result with `< -1`
  (`src/kernel/process/process_memory.c:713`), so that the failure code -1 passes for success. It fails
  exactly as `ProcessMemory.Process.AddFrameToProcess` says; afterwards add_and_allocate_frames returns -1 exactly
  if the last table is of the kind and no frame is left, and otherwise runs into an assertion or a null pointer
  (`PageOutcomes.FailureReturnsIff`). Input: page 65537 of a heap (`PageOutcomes.HeapIsFull`). A call ends well
  exactly if there is `Enough` (`ProcessMemory.Process.AddAndAllocate`).
- The last entry of a stack table. The loop asserts that the last table of the list is of the right kind
  (`src/kernel/process/process_memory.c:717-720`). For the 512th page of a stack this fails exactly if another
  table has been made since, such as the heap's (`PageOutcomes.StackTableIsFull`).
- Frames lost in fork. `copy_process_memory` allocates frames for all pages of the child and then takes
  new ones for the copy (`src/kernel/process/process_memory.c:569-571, 628-649`). Whenever it ends well, exactly
  as many frames as the parent has pages are gone and belong to nobody (`ProcessFork.CopyProcessMemory`,
  `ProcessFork.LostFrames`, `ProcessFork.CopyCost`).

## Left out

- HashTable.Table.Copy: does not model that the loop counter of hash_copy is a 32-bit int; tables of more than 2^31 slots are not reachable on the machine.
- HashRuns.Replay: takes any lawful hash and comparison; the string hash and the NULL map argument are left out.
- QuickSort.Qsort: works on elements; the byte-wise swap loops and arrays of 2^31 bytes or more, whose sizes are cut to int, are not modelled.
- BlockMap.FileSystem.AddDataBlock: the disk does not fail. A failure after the data block was marked leaves that block leaked, as in the source; the leak is part of the state.
- DirFile.Dir.Add: directories of up to twelve blocks, as in the source's loops. The reuse of records marked EXT2_FT_FREE and names of more than 255 bytes are left out.
- DirFile.Dir.Remove: after the first record of a block has been removed the directory has records marked EXT2_FT_FREE, and the other calls are not modelled on it; nor is the return of the block to the volume, and the byte that remove_inode_dir writes behind its copy of the name (src/kernel/fs/inode.c:819).
- BlockCache.Cache.ReadBlock: returns a value. read_block_c returns a pointer into the cached block, through which inode.c writes before it calls save_fs_block on the same block.
- BlockCache.Cache.Fetch: reading from the disk does not fail; writes may. What users see after a stray block has been fetched is not modelled.
- FrameDist.Frames.ReleaseFrame: the test of the alignment has no counterpart, as frames go by number; what the allocator hands out once the list is broken is not modelled.
- ProcessMemory.Process.AddAndAllocate: code and stack tables together are at most 128, so that the two regions do not meet, which the source does not check. What a call that does not end well has done to the process is not said, only that nothing else in memory is harmed. Shared pages and the release of frames are left out.
- ProcessMemory.Process.Sbrk: the new end of the heap is an unbounded integer.
- ProcessFork.CopyProcessMemory: the shared pages of the parent are left out.
- Scheduler.Kernel.WaitClock: requires clock + delay < 2^63, which get_next_wake_time asserts.
- Scheduler.Kernel.Schedule: the start without an idle process, a failing setpid and changes of priority are left out (chprio appears in MsgQueueMarks only, for a process that blocked in psend and keeps its priority).
- SemaphoreApi.SemaphoreTable.Create: the overflow of the identifier counter and a failing malloc are left out.
- SemaphoreApi.SemaphoreTable.Reset: requires a count that fits (see Findings).
- SemaphoreApi.SemaphoreTable.Wait: the line is a sequence here and a linked list in WaitList; what the kill of a waiting process does to count and process table (src/kernel/sync/semaphore_api.c:240-262) is left out.
- MsgQueueApi.MsgQueue.Send: one queue at a time; the table of queues, their identifiers and the kill of a blocked process are left out.
- LineClip.FLine.Clip: from frame-buffer coordinates on, over unbounded integers; the trivial rejection in map coordinates and 32-bit overflow are left out.
- Strtok.ExtractFiles: malloc does not fail.
- Paths.WorkingDirectory.ChDir: which names lead to a directory is a parameter.
- Files opened, read, written and closed, pipes, devices, the inode bitmap, mkdir and rmdir, the system call layer and interrupts are not part of this model.
- Two runs of the scheduler at once cannot happen (one processor, interrupts off in the kernel) and are not modelled.

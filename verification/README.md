# LiteNix in Dafny

LiteNix is a small x86_64 kernel written in C. This project models the parts of it that carry the most
state — the ext2 block layer, the table of memory mappings, the scheduler, the TCP and UDP receive paths, the
ELF loader with the initial user stack, path canonicalisation and resolution, the physical page allocator,
the slab heap, signal frames — and the calendar arithmetic of its log daemon, and proves what each of them is
for: over every run, for every input.

Code that updates things in place is a class or a method with loops; each such method is proved against a
plain specification (a byte sequence, a partial map, a FIFO, a set of ranges), and the properties are lemmas
about that specification or invariants that every operation keeps. `dafny verify dfyconfig.toml` checks
the whole project.

| component | files | main results |
|---|---|---|
| ext2 | Ext2Disk, Ext2Fs, Ext2Bytes, Ext2 | the three-level index is a map; write then read is a plain file; over every run, failing calls included, no block has two owners, each file, holes included, is what its writes and cuts make of it, and each read returns what they left; the free counter's distance from the bitmap never changes |
| mappings | VmaMap, VmaTable | over every run munmap, mprotect and mmap refine a map from address to attributes; slot pre-checks suffice; merging is canonical; memory is short exactly when no slot or no unmapped range is left; exactly when the search for a free region is right |
| scheduler | SchedModel, Scheduler | run queue and sleep list refine sequences; pick-next is the cyclic best; over every run of calls a waiting task runs within a bounded number of boosts and switches |
| network | Ring, Tcp, Udp | whatever the network does, bytes read are a prefix of the sender's stream; over every run the UDP ring is a FIFO of whole datagrams, under any interleaving |
| loader | Elf, UserStack | every address of the loaded program holds the right byte, wrapping addresses included; exactly when the interpreter lies wholly above the executable; the initial stack reads back as what went in |
| paths | Path, Resolve, CanonWalk | the buffer algorithm is the fold over components; canonical paths are fixed points; path by path, exactly when a canonical path resolves like the original in every tree |
| page frames | PmmBits, Pmm | lowest run or none; a page outlives its holders exactly when the 16-bit count does not wrap; the counter keeps its distance from the bitmap |
| heap | HeapModel, Heap | free lists hold exactly the free chunks; live ranges never overlap; freeing a live pointer never panics, in the heap or in the page allocator, whatever the holders wrote |
| signals | SignalBits, Signals | any nesting of handlers restores registers, stack pointer and mask |
| shared | Common | bits counted across an update, 64-bit width, bytes, options |
| log daemon | Klogd | every day number gives a valid date, the next number the next day; the dates are 719468 days early |

Hardware and callers enter as parameters: the disk is a sequence of 1024-byte blocks, page frames and mapping
failures are arguments, a critical section is one atomic step.

Where the code does not do what its callers or its comments expect, the model follows the code, a lemma names
an input, and the exact condition is proved:

- `vma_find_free_region`: the end of a candidate is computed in 64 bits. The answer is right exactly when the
  first candidate plus the length does not wrap, or a mapping lies in the way of every candidate
  (`VmaTable.Process.FindFreeRegion`). With no mappings, a length of 2^64 - 4096 gets a wrong answer
  (`VmaTable.EmptyTableIsWrong`); with one across the top of the arena the same call is rightly refused
  (`VmaTable.StraddlingBlocks`). `mmap` passes such a length on.
- `elf_load_into_process`: the interpreter's base is the executable's end rounded up to 2 MiB, and its segments
  are put at base plus their own address, both in 64 bits. The interpreter lies wholly above the executable exactly
  when neither of the two wraps (`Elf.WhollyAbove`), and then no address belongs to both (`Elf.InterpreterApart`,
  `Elf.BothKept`). An executable file with an empty segment near the top of the address space gets its interpreter
  loaded over its own first page (`Elf.InterpreterOverlaps`); so does one whose interpreter file names an address
  near the top (`Elf.InterpreterWraps`).
- `setup_user_stack`: the check for room works on a 64-bit difference. What it lets through lies below the
  strings exactly when the pointers fit there (`UserStack.RoomCheck`). 64 arguments of 4083 up to 4095 bytes
  pass the check without fitting, the longest even without their pointers (`UserStack.RoomMissed`); `execve`
  copies up to 64 arguments of up to 4095 bytes each.
- `vfs_resolve_path_rec`: components are read 127 characters at a time. A path resolves to the same node once
  canonical, in every tree, exactly when the walk over the canonical pieces ends on the same stack of names and
  passes no other (`CanonWalk.CanonExactly`). It does whenever each ".." takes back a name that is one step down: at
  most 127 characters, or 128 ending in ".", or 256 ending in ".." (`CanonWalk.GentleFollows`). For any other name
  "/x/name/.." is a path where it does not (`CanonWalk.CanonMovesOthers`). Nodes may carry names of 127 characters.
- `ext2_truncate`: the rest of the last block is not zeroed. A file cut short and then grown within that block
  shows its old bytes again (`Ext2.StaleTail`).
- `civil_from_days`: the shift from 0000-03-01 to 1970-01-01 is missing. No day number is converted to its
  own date (`Klogd.CivilIsEarly`, at the first day `Klogd.FirstDay`); with the shift put back every one is
  (`Klogd.CivilInvertsShifted`). The table of expected values at `user/klogd.c:76-84` disagrees with the code
  for this reason.
- `ext2_file_write`: the size limit is compared with `offset + count` in 64 bits. The index's "file too large"
  branch is reached exactly when that sum wraps below the limit and a block is free, and the block is then
  lost (`Ext2.Volume.FileWrite`; a block written at 2^64 - 1024, `Ext2.Volume.WrappedWrite`). This is about the
  function: `lseek` refuses negative offsets (`kernel/sys/sys_file.c:653`) and `write` passes at most 4096 bytes
  (`kernel/sys/sys_file.c:588`), so their sums do not wrap.
- `pmm_ref_page`: the count is 16 bits wide. A page stays in use for all its holders exactly when the number
  of holders stays below 65536 (`PmmBits.KeptExactlyWithoutWrap`, at that number `PmmBits.TooManyHolders`). This
  is about the function: each further holder is another address space that shares the page.
- `kmalloc`: the header is added to the size in 64 bits, twice for an aligned request. A bin large enough for
  the sum holds the request exactly when the sum does not wrap (`Heap.BinHoldsRequest`,
  `Heap.AlignedTotalHolds`; at the largest sizes `Heap.WrappedRequest`, `Heap.WrappedAligned`). In the smallest
  bin, which only wrapped sums reach, the header already covers the next chunk (`Heap.ShortChunk`). This is
  about the function: on the send and receive paths of sockets the length has passed `uaccess_ok`.

## Model

| member | source | states |
|---|---|---|
| Ext2Disk.PtrAfterSet | kernel/fs/ext2.c:298-303 | writing one little-endian pointer of an index block changes that pointer and no other |
| Ext2Disk.FrameSlots | kernel/fs/ext2.c:234-267 | a file's whole index depends only on its own index blocks |
| Ext2Disk.SetSingle | kernel/fs/ext2.c:298-303 | one entry of the singly indirect block changes one data pointer of the file |
| Ext2Disk.SetDouble | kernel/fs/ext2.c:339-344 | one entry of a second-level block changes one data pointer of the file |
| Ext2Disk.SetOuter | kernel/fs/ext2.c:329-337 | hanging a zeroed second-level block changes no data pointer |
| Common.ClearUpdated | kernel/fs/ext2.c:125-190 | counting clear bits across one bitmap update |
| Ext2Fs.BalanceAllocated | kernel/fs/ext2.c:167-190 | allocating keeps the counter's distance from the number of clear bits |
| Ext2Fs.BalanceFreed | kernel/fs/ext2.c:125-144 | freeing keeps that distance, also for a bit already clear |
| Ext2Fs.StoreVals | kernel/fs/ext2.c:350-431 | writing a block that is nobody's index moves no pointer of any file |
| Ext2Fs.StoreOthers | kernel/fs/ext2.c:269-348 | writing an index block of one file moves no pointer of the others |
| Ext2Fs.AllocatedKeeps | kernel/fs/ext2.c:167-190 | a fresh block is unreachable and may be linked; all files keep their pointers |
| Ext2Fs.GrowRoot | kernel/fs/ext2.c:284-324 | a fresh index root keeps ownership exclusive and every data pointer as it was |
| Ext2Fs.GrowOuter | kernel/fs/ext2.c:329-337 | the same for a fresh second-level block |
| Ext2Fs.LinkDataVals | kernel/fs/ext2.c:269-348 | after set(i, b), get(i) = b and every other pointer of every file is unchanged |
| Ext2Fs.LinkDataKeeps | kernel/fs/ext2.c:269-348 | linking keeps "reachable implies marked and singly owned" and the cached table equal to the inode |
| Ext2Fs.LinkFinish | kernel/fs/ext2.c:269-348 | the same across the lazily allocated index blocks |
| Ext2Fs.FreedLoose | kernel/fs/ext2.c:442-448 | between freeing a data block and clearing its pointer only that block is unmarked |
| Ext2Fs.FreedAllKeeps | kernel/fs/ext2.c:712-717 | freeing a list of blocks clears at most their bits and keeps the counter's distance |
| Ext2Fs.FreedAllBits | kernel/fs/ext2.c:459-476 | freeing a list of blocks clears exactly the listed bits |
| Ext2Fs.GaveOne | kernel/fs/ext2.c:125-144 | freeing what one slot holds clears exactly that block's bit |
| Ext2Fs.GaveThen | kernel/fs/ext2.c:433-493 | what two cuts give back together is what their slots held before |
| Ext2Fs.GaveDouble | kernel/fs/ext2.c:459-476 | freeing the double index clears exactly the bits of its blocks |
| Ext2Fs.CutKeeps | kernel/fs/ext2.c:433-493 | cutting off slots and freeing only blocks they held keeps the invariant |
| Ext2Fs.DropSib | kernel/fs/ext2.c:450-458 | dropping the single index removes exactly the pointers under it |
| Ext2Fs.DropDib | kernel/fs/ext2.c:459-476 | dropping the double index removes exactly the pointers under it |
| Ext2Fs.Removed | kernel/fs/ext2.c:661-726 | a removed file leaves every other file's pointers alone |
| Ext2Fs.Created | kernel/fs/ext2.c:561-597 | a new file has no blocks and disturbs no other |
| Ext2Fs.ScannedCaches | kernel/fs/ext2.c:879-939 | the nodes the scan makes hold the block tables of their inodes |
| Ext2Bytes.LinkedPeeks | kernel/fs/ext2.c:387-392 | linking a zeroed block backs that block with zeros and changes no other byte of any file |
| Ext2Bytes.StoreData | kernel/fs/ext2.c:405-410 | rewriting a data block changes the bytes of that block of that file alone |
| Ext2Bytes.WroteStep | kernel/fs/ext2.c:384-413 | one round of the write loop is a write of its piece at its position |
| Ext2Bytes.WroteMore | kernel/fs/ext2.c:384-413 | consecutive pieces compose |
| Ext2Bytes.WroteContent | kernel/fs/ext2.c:376-431 | on a file without holes a write within the file is overwriting a plain byte sequence, and leaves no hole |
| Ext2Bytes.UnlinkedData | kernel/fs/ext2.c:442-448 | freeing a data block and clearing its pointer makes exactly that block a hole |
| Ext2Bytes.CutContent | kernel/fs/ext2.c:433-493 | a file cut to n bytes keeps exactly its first n bytes |
| Ext2Bytes.HoledThrice | kernel/fs/ext2.c:433-493 | data blocks and dropped indexes together: exactly the blocks past the new size become holes |
| Ext2Bytes.ReadIs | kernel/fs/ext2.c:350-374 | bytes up to the count, the end or the first hole are the read of a sparse file |
| Ext2Bytes.PlainWrite | kernel/fs/ext2.c:376-431 | on a sparse file without holes a write is overwriting a byte sequence |
| Ext2Bytes.PlainCut | kernel/fs/ext2.c:433-493 | and a cut keeps the first bytes |
| Ext2Bytes.PlainRead | kernel/fs/ext2.c:350-374 | and a read returns a slice |
| Ext2Bytes.OtherFiles | kernel/fs/ext2.c:350-735 | an operation on one file leaves all others as they were, holes and sizes included |
| Ext2.Volume.AllocBlock | kernel/fs/ext2.c:167-190 | the lowest free block, zeroed and marked; 0 exactly when none is left |
| Ext2.Volume.FreeBlock | kernel/fs/ext2.c:125-144 | clears one bit and counts it, nothing else |
| Ext2.Volume.EnsureIndex | kernel/fs/ext2.c:281-337 | the index blocks on the way to a pointer exist afterwards, or the disk is full and no data pointer moved |
| Ext2.Volume.SetBlockNum | kernel/fs/ext2.c:269-348 | the index behaves as a map; too large exactly from block 65804 on; a full disk leaves all data pointers |
| Ext2.Volume.MapBlock | kernel/fs/ext2.c:387-404 | backs one block of the file or changes no byte of any file; when the limit is passed the block is lost |
| Ext2.Volume.FileRead | kernel/fs/ext2.c:350-374 | on a file without holes, exactly the bytes asked for that exist; elsewhere it stops at the first hole |
| Ext2.Volume.WriteLoop | kernel/fs/ext2.c:384-413 | everything written or a prefix, by status; other files untouched |
| Ext2.Volume.FileWrite | kernel/fs/ext2.c:376-431 | old[..offset] + data + old[offset+len..] on success; a prefix on ENOSPC; EFBIG exactly past the limit or on a wrapped sum; invariant and counter distance on every path |
| Ext2.Volume.PutData | kernel/fs/ext2.c:376-431 | the same for any file and offset, holes included: what is written where, the size, and each error exactly |
| Ext2.Volume.WrappedWrite | kernel/fs/ext2.c:381-394 | a block written at offset 2^64 - 1024 fails as too large and costs a block |
| Ext2.Volume.WriteThenRead | kernel/fs/ext2.c:350-431 | any read after a successful write returns the bytes of the plain file, never stale ones |
| Ext2.Volume.TrimData | kernel/fs/ext2.c:442-448 | exactly the given blocks of the file become holes, and exactly their bits are cleared |
| Ext2.Volume.TrimSingle | kernel/fs/ext2.c:450-458 | the single index goes only when no block above the direct ones is kept; its bit alone is cleared |
| Ext2.Volume.TrimDouble | kernel/fs/ext2.c:459-476 | the double index goes with all its second-level blocks, only when nothing above the single ones is kept; exactly their bits are cleared |
| Ext2.Volume.Truncate | kernel/fs/ext2.c:433-493 | shrinking keeps the first n bytes, makes holes of exactly the blocks past them and clears exactly their bits and those of the index blocks that go; growing moves nothing; other files untouched |
| Ext2.Volume.Unlink | kernel/fs/ext2.c:661-735 | the file is gone and no other changes; the last link gives back exactly the direct blocks and the inode, an earlier one lowers the count; counter distance kept |
| Ext2.Volume.Create | kernel/fs/ext2.c:192-232 | the lowest free inode above 10 within the group, with an empty file; 0 exactly when none is free, and then nothing changes |
| Ext2.Volume.constructor | kernel/fs/ext2.c:879-939 | mounting an image whose files own their blocks singly establishes the invariant for the nodes the scan makes |
| Ext2.Volume.Run | kernel/fs/ext2.c:125-735 | over every run of creates, writes, reads, truncations and unlinks, sparse and failing ones included: no block with two owners, reachable implies marked, cached tables equal the inodes, constant counter distance; and all files are what the operations, by status, make of sparse files, each read returning what they left |
| Ext2.PlainWriteStep | kernel/fs/ext2.c:376-431 | a step of a run on a file without holes, inside it or at its end, is that of a byte sequence, by status |
| Ext2.PlainCutTo | kernel/fs/ext2.c:433-493 | a cut of such a file keeps its first n bytes |
| Ext2.StaleTail | kernel/fs/ext2.c:433-493 | cut and grown within one block, a file shows its old bytes |
| VmaMap.SlotChanged | kernel/sys/sys_mem.c:450-697 | replacing one slot by a mapping that fits changes the map exactly there |
| VmaMap.MergeStepKeeps | kernel/sys/sys_mem.c:190-225 | joining a mergeable pair keeps every address's attributes and file offset |
| VmaMap.SameStart | kernel/sys/sys_mem.c:190-225 | two merged tables of one map start their mappings at the same addresses |
| VmaMap.SameEnd | kernel/sys/sys_mem.c:190-225 | and end them at the same addresses |
| VmaMap.MergedCanonical | kernel/sys/sys_mem.c:190-225 | merged tables have equal maps if and only if they hold the same set of intervals |
| VmaTable.SplitMeans | kernel/sys/sys_mem.c:511-526 | splitting a slot around a range removes exactly that range |
| VmaTable.CutMeans | kernel/sys/sys_mem.c:501-537 | one round of the munmap loop changes no address outside the range |
| VmaTable.CutCounts | kernel/sys/sys_mem.c:501-537 | it takes a slot for a mapping across the range and gives one back for a mapping inside |
| VmaTable.CutMerged | kernel/sys/sys_mem.c:500-539 | after cutting out a range nothing new can be joined |
| VmaTable.CutSnug | kernel/sys/sys_mem.c:500-539 | and every empty slot still lies inside a mapped stretch |
| VmaTable.ProtSnug | kernel/sys/sys_mem.c:605-693 | re-protecting makes an empty slot only inside a mapping |
| VmaTable.MergeStepSnug | kernel/sys/sys_mem.c:190-225 | joining keeps empty slots inside mapped stretches |
| VmaTable.RoomMeans | kernel/sys/sys_mem.c:248-257 | a range meets no slot if and only if none of its addresses is mapped |
| VmaTable.ProtectTail | kernel/sys/sys_mem.c:644-666 | the split at the lower end re-protects exactly the upper part |
| VmaTable.ProtectHead | kernel/sys/sys_mem.c:667-692 | the split at the upper end re-protects exactly the lower part |
| VmaTable.ProtectMiddle | kernel/sys/sys_mem.c:613-643 | the three-way split re-protects exactly the middle |
| VmaTable.SearchJumps | kernel/sys/sys_mem.c:227-271 | jumping over a mapping skips no aligned free start |
| VmaTable.SearchWraps | kernel/sys/sys_mem.c:227-271 | restarting at the bottom keeps what was ruled out |
| VmaTable.SearchFails | kernel/sys/sys_mem.c:227-271 | giving up means no aligned range of the length is free |
| VmaTable.Process.MergeAdjacent | kernel/sys/sys_mem.c:190-225 | terminates with no pair left to join and the map unchanged; does nothing when there is none |
| VmaTable.Process.SplitSlot | kernel/sys/sys_mem.c:511-526 | removes the range; the upper part keeps attributes and file offset in a free slot |
| VmaTable.Process.CutSlot | kernel/sys/sys_mem.c:501-537 | one slot gives up the range, the rest of the map stays |
| VmaTable.Process.CutAll | kernel/sys/sys_mem.c:500-537 | all slots give up the range, also those made on the way; exactly how many slots are in use then |
| VmaTable.Process.Munmap | kernel/sys/sys_mem.c:450-541 | exactly the pages of the range are removed; each error condition exactly; on error the table is unchanged; the slots in use afterwards |
| VmaTable.Process.ProtectSlot | kernel/sys/sys_mem.c:605-693 | one slot is re-protected with the free slots counted for it |
| VmaTable.Process.ProtectAll | kernel/sys/sys_mem.c:604-693 | revisiting pieces made on the way needs no further slots |
| VmaTable.Process.Mprotect | kernel/sys/sys_mem.c:547-697 | exactly the mapped pages of the range change protection; the slot count suffices; ENOMEM exactly when it does not |
| VmaTable.Process.FirstHit | kernel/sys/sys_mem.c:248-257 | the first slot in slot order that meets the candidate; all before it miss |
| VmaTable.SearchHits | kernel/sys/sys_mem.c:248-265 | a candidate that meets no mapping is room, when the first end did not wrap |
| VmaTable.MeetsOnce | kernel/sys/sys_mem.c:248-257 | a candidate whose end has wrapped meets at most one mapping, and none after jumping over it |
| VmaTable.AstrayHits | kernel/sys/sys_mem.c:248-265 | an answer given after a wrapped first end is not room |
| VmaTable.BlockedMeans | kernel/sys/sys_mem.c:227-271 | a mapping in the way of every candidate leaves no room, so 0 is right |
| VmaTable.EmptyTableIsWrong | kernel/sys/sys_mem.c:227-271 | without mappings a length of 2^64 - 4096 meets the failing condition |
| VmaTable.StraddlingBlocks | kernel/sys/sys_mem.c:227-271 | a mapping across the top of the arena blocks that length |
| VmaTable.Process.Search | kernel/sys/sys_mem.c:236-270 | slot-order scanning with one wrap-around ends, and for every table its answer is right if and only if the first sum does not wrap or a mapping blocks every candidate |
| VmaTable.Process.FindFreeRegion | kernel/sys/sys_mem.c:227-271 | aligned, inside the arena, meeting no mapping, 0 only if no such range exists: if and only if the first sum does not wrap or a mapping blocks every candidate |
| VmaTable.Process.Insert | kernel/sys/sys_mem.c:417-443 | the new mapping appears, all else stays, ENOMEM exactly without a free slot |
| VmaTable.Process.Mmap | kernel/sys/sys_mem.c:275-444 | each argument error in the order of the checks; else ENOMEM exactly without a slot or an unmapped range, for a fixed mapping exactly when no slot is left once its range is cleared; the returned range carries the requested attributes, everything outside it is unchanged; a failure changes nothing, except that a fixed mapping whose range could be cleared has lost it |
| VmaTable.Process.Do | kernel/sys/sys_mem.c:275-697 | one call is one step of a partial map: refused exactly for wrong arguments, short of memory exactly by slots and unmapped ranges |
| VmaTable.Process.Run | kernel/sys/sys_mem.c:162-697 | over every run of calls, the shared hint moved by others in between, the table is a partial map from addresses to attributes, and fails exactly as stated |
| SchedModel.PickUnique | kernel/sched/scheduler.c:242-283 | the pick is determined by priorities and cyclic order |
| SchedModel.PickComesCloser | kernel/sched/scheduler.c:242-326 | a waiting task of top priority comes strictly closer with every dispatch that is not its own |
| SchedModel.DispatchIsStep | kernel/sched/scheduler.c:285-326 | every dispatch is a step of the waiting-task relation |
| SchedModel.PriorityFalls | kernel/sched/scheduler.c:178-194 | each qualifying boost takes one from the priority of a waiting task, down to the minimum |
| SchedModel.TurnsLeft | kernel/sched/scheduler.c:242-326 | at minimum priority each switch uses up cyclic distance |
| SchedModel.BoundedStarvation | kernel/sched/scheduler.c:178-326 | after (priority - minimum) qualifying boosts a ready task has the minimum priority and runs within its cyclic distance in dispatches |
| SchedModel.LongerRun | kernel/sched/scheduler.c:178-326 | one more step while the task waits extends its run |
| Scheduler.Scheduler.AddTask | kernel/sched/scheduler.c:65-90 | appends at the tail, once |
| Scheduler.Scheduler.RemoveTask | kernel/sched/scheduler.c:92-120 | unlinks the task unless it is running, order kept |
| Scheduler.InsertSorted | kernel/sched/scheduler.c:122-138 | inserting behind all that wake no later keeps the list sorted |
| Scheduler.Scheduler.AddSleeper | kernel/sched/scheduler.c:122-138 | the linked list is the old one with the task inserted in wake-up order |
| Scheduler.Scheduler.RemoveSleeper | kernel/sched/scheduler.c:140-158 | the task leaves the list if it is on it, order kept |
| Scheduler.Scheduler.CheckSleepers | kernel/sched/scheduler.c:160-176 | wakes exactly the sleepers that are due |
| Scheduler.Scheduler.BoostStarved | kernel/sched/scheduler.c:178-194 | every queued task is boosted exactly if it is ready and starved |
| Scheduler.Scheduler.PickNext | kernel/sched/scheduler.c:242-283 | the walk around the list returns the unique pick; without a candidate the idle task if it can run, else nothing |
| Scheduler.Scheduler.Schedule | kernel/sched/scheduler.c:285-326 | the queue after a switch is the dispatch step of the abstract queue; without a candidate the running task goes on or the idle task takes over and waiting tasks stay as they were; priorities stay in range |
| Scheduler.Scheduler.SwitchIdle | kernel/sched/scheduler.c:285-326 | the idle task takes over and only the task it replaces changes |
| Scheduler.Scheduler.ChargeTick | kernel/sched/scheduler.c:198-222 | a used-up slice ends any boost and asks for a switch |
| Scheduler.Scheduler.Tick | kernel/sched/scheduler.c:196-233 | a waiting task is left alone, or boosted when a scan is due; the running task's ticks, slice and request for a switch; priorities stay in range |
| Scheduler.Scheduler.ChargeAndWake | kernel/sched/scheduler.c:196-225 | charging the running task and waking sleepers touches no waiting task |
| Scheduler.Scheduler.FallAsleep | kernel/sched/task.c:415-439 | a running task joins the sleep list with its wake-up time and is asleep |
| Scheduler.Scheduler.WakeAt | kernel/sched/wait_queue.c:117-145 | a sleeper is made ready and leaves the sleep list; ready tasks are untouched |
| Scheduler.Scheduler.SetPriority | kernel/sched/task.c:385-401 | priority clamped to its range, slice cut to the new maximum |
| Scheduler.Scheduler.DoDispatch | kernel/sched/scheduler.c:285-326 | a switch is a step of the waiting-task relation, and the task waits on unless it was chosen |
| Scheduler.Scheduler.DoTimer | kernel/sched/scheduler.c:196-233 | a timer tick boosts the waiting task exactly when a scan is due |
| Scheduler.Scheduler.Do | kernel/sched/scheduler.c:65-326 | every call is a step of the waiting-task relation and keeps the scheduler well-formed |
| Scheduler.Scheduler.Run | kernel/sched/scheduler.c:65-326 | over every run of switches, ticks, sleeps, blocks, exits, wake-ups and priority changes a waiting task has run once its starved scans and the queue's length in switches are in |
| Ring.FreeSpaceMeans | kernel/net/udp.c:33-43 | the free-space test counts the bytes not held, so full and empty stay distinct |
| Ring.PutWindow | kernel/net/tcp.c:254-257 | a byte at the write position is appended, across wrap-around |
| Ring.SkipWindow | kernel/net/socket.c:299-301 | advancing the read position drops bytes from the front |
| Ring.Buffer.Put | kernel/net/tcp.c:254-257 | appends one byte and overwrites none unread |
| Ring.Buffer.Get | kernel/net/socket.c:267-270 | takes the oldest byte |
| Ring.Buffer.Take | kernel/net/socket.c:267-270 | takes as many bytes as asked for and held, in order |
| Tcp.SameNumberSamePlace | kernel/net/tcp.c:242 | in a stream shorter than 2^32 a sequence number names one place |
| Tcp.InOrderIsNext | kernel/net/tcp.c:242-258 | the segment with the expected number carries the next bytes of the stream |
| Tcp.Socket.Connect | kernel/net/socket.c:604-621 | an active opener starts with nothing received |
| Tcp.Socket.Accept | kernel/net/tcp.c:137-160 | a child socket expects the number after the SYN |
| Tcp.Socket.Append | kernel/net/tcp.c:240-271 | in-order data that fits goes to the ring, anything else changes nothing |
| Tcp.Socket.Handshake | kernel/net/tcp.c:204-233 | state and expected number after SYN and ACK |
| Tcp.Socket.Data | kernel/net/tcp.c:235-280 | data, then FIN: the number received keeps in step with the stream |
| Tcp.Socket.Closing | kernel/net/tcp.c:281-316 | closing states take no data |
| Tcp.Socket.Receive | kernel/net/tcp.c:180-317 | each segment appends nothing or its payload at the right place; unread bytes stay |
| Tcp.Socket.ReadUpTo | kernel/net/socket.c:251-270 | a read hands over the oldest bytes once |
| Tcp.Socket.Run | kernel/net/tcp.c:180-317 | over any segments cut from one stream, reordered, repeated or lost, and any reads, the bytes read are a prefix of the stream |
| Udp.FlattenAppend | kernel/net/udp.c:43-63 | appending a record appends a datagram to the queue |
| Udp.SublistConcat | kernel/net/udp.c:30-68 | what was kept out of consecutive arrivals is an ordered selection of them |
| Udp.RecordArrivals | kernel/net/socket.c:803-829 | the arrivals during the stretches of one receive and before its end, put together |
| Udp.Socket.Arrive | kernel/net/udp.c:30-68 | the whole record or nothing, by the free-space test |
| Udp.Socket.NextBytes | kernel/net/socket.c:803-829 | bytes of the current record come in order while others arrive |
| Udp.Socket.Recv | kernel/net/socket.c:803-829 | one record per receive, its source, its payload cut to the buffer, arrivals at any point kept behind it |
| Udp.Socket.Do | kernel/net/socket.c:793-829 | one arrival or receive is one step of a queue of datagrams |
| Udp.Socket.Run | kernel/net/udp.c:30-68 | over every run of arrivals and receives the ring is a FIFO of whole datagrams: in order, once each, dropped only whole |
| Elf.ImageMeans | kernel/core/elf_loader.c:255-299 | with segments apart, a covered address holds its own segment's file byte and any other address zero |
| Elf.AddressSpace.LoadPage | kernel/core/elf_loader.c:271-298 | one page gets its flags and exactly the file bytes that fall into it |
| Elf.AddressSpace.LoadSegment | kernel/core/elf_loader.c:255-299 | the whole segment is loaded and no other address changes, pages shared or not |
| Elf.AddressSpace.LoadAll | kernel/core/elf_loader.c:255-299 | all segments in order: bytes, page flags, frames used and the highest page |
| Elf.AddressSpace.LoadProgram | kernel/core/elf_loader.c:255-384 | executable and interpreter together |
| Elf.TopIsHighest | kernel/core/elf_loader.c:263-269 | no segment of the executable reaches past the recorded end |
| Elf.InterpAbove | kernel/core/elf_loader.c:337-340 | the base is a page, and at or above the executable's end if and only if rounding up does not wrap |
| Elf.WhollyAbove | kernel/core/elf_loader.c:337-355 | every segment of the interpreter lies at or above the base and the base at or above the executable if and only if neither rounding nor adding wraps |
| Elf.InterpreterApart | kernel/core/elf_loader.c:337-384 | no page belongs to both executable and interpreter, when neither the base nor a segment of the interpreter wraps |
| Elf.ProgramMeans | kernel/core/elf_loader.c:255-384 | whatever the base: an interpreter's byte where it covers, else the executable's, zero where neither does |
| Elf.BothKept | kernel/core/elf_loader.c:255-384 | with neither wrap every byte of the executable survives the interpreter |
| Elf.InterpreterOverlaps | kernel/core/elf_loader.c:263-340 | an executable with an empty segment near 2^64 shares a page with its interpreter |
| Elf.InterpreterWraps | kernel/core/elf_loader.c:337-355 | an interpreter address near 2^64 wraps onto the executable |
| UserStack.ValLe | kernel/core/elf_loader.c:170-193 | eight little-endian bytes read back as the word |
| UserStack.TextReads | kernel/core/elf_loader.c:122-153 | a placed string reads back up to its terminator |
| UserStack.VectorReads | kernel/core/elf_loader.c:173-177 | a null-terminated pointer vector reads back as its strings |
| UserStack.AuxReads | kernel/core/elf_loader.c:179-193 | the auxiliary vector reads back as its pairs, in order |
| UserStack.PutTexts | kernel/core/elf_loader.c:134-153 | strings placed from last to first, none overwriting another |
| UserStack.PutWords | kernel/core/elf_loader.c:170-193 | the words at their places and no other byte changed |
| UserStack.StackReads | kernel/core/elf_loader.c:106-209 | argc, argv, envp and the auxiliary vector all read back from the stack pointer |
| UserStack.RoomCheck | kernel/core/elf_loader.c:155-168 | exactly when the room check is enough, also for strings that overrun the buffer by themselves |
| UserStack.RoomMissed | kernel/core/elf_loader.c:155-168 | 64 arguments of 4083 up to 4095 bytes pass the check and do not fit |
| UserStack.PlaceStrings | kernel/core/elf_loader.c:117-153 | random bytes, path, environment and arguments side by side below the top |
| UserStack.BuildStack | kernel/core/elf_loader.c:106-193 | 16-byte aligned, pointer area below all strings, everything readable |
| UserStack.MapStack | kernel/core/elf_loader.c:195-204 | user memory holds the image; all other addresses unchanged; fails exactly without 64 frames |
| UserStack.SetupUserStack | kernel/core/elf_loader.c:106-209 | a program reads its first 64 arguments and environment strings and the auxiliary vector from rsp |
| Path.CompsOfRender | kernel/fs/vfs.c:871-914 | a canonical path splits into exactly the names it was made of |
| Path.CanonIdempotent | kernel/fs/vfs.c:871-914 | canonicalising twice is canonicalising once |
| Path.Pop | kernel/fs/vfs.c:892-904 | dropping the last name of the buffer, down to "/" |
| Path.Push | kernel/fs/vfs.c:906-912 | appending a name to the buffer, with a slash where one is needed |
| Path.Canonicalize | kernel/fs/vfs.c:871-914 | the buffer holds the rendered fold of the components, at most one character longer than the source, then NUL |
| Resolve.WalksAgree | kernel/fs/vfs.c:916-1039 | the walk over characters is the walk over the 127-character pieces of the components |
| Resolve.ResolvePath | kernel/fs/vfs.c:916-1039 | the loop computes the walk: node, ENOENT or ENOTDIR |
| CanonWalk.WalkMeans | kernel/fs/vfs.c:916-1039 | a walk finds a node exactly when every stack of names it passes is a directory and the last leads to the node |
| CanonWalk.LookupInjective | kernel/fs/vfs.c:953-962 | different stacks of names lead to different nodes |
| CanonWalk.PutKind | kernel/fs/vfs.c:953-962 | a node added under a new name is found there and every other name leads where it did |
| CanonWalk.SmallestKinds | kernel/fs/vfs.c:916-1039 | the tree made for a walk holds exactly what the walk passes |
| CanonWalk.FollowsNeeded | kernel/fs/vfs.c:916-1039 | a walk that does not follow another fails or ends elsewhere in the tree made for the other |
| CanonWalk.CanonResolvesSame | kernel/fs/vfs.c:871-1039 | an absolute path that resolves resolves to the same node once canonical, when the canonical walk follows its own |
| CanonWalk.CanonExactly | kernel/fs/vfs.c:871-1039 | in every tree, if and only if it does |
| CanonWalk.SingleFold | kernel/fs/vfs.c:935-942 | a name in one piece, or with only dots left over, leads one step down |
| CanonWalk.GentleFollows | kernel/fs/vfs.c:871-1039 | it does when every ".." takes back a name that is one step down |
| CanonWalk.DepthIsOne | kernel/fs/vfs.c:935-942 | a name leads one step down exactly when it is short or ends in the dots left over |
| CanonWalk.CanonMovesOthers | kernel/fs/vfs.c:871-1039 | down into any other name and up again the canonical walk does not follow |
| PmmBits.MaskBits | kernel/mm/pmm.c:62-75 | setting or clearing one bit of a byte changes that bit alone |
| PmmBits.BitsUpdated | kernel/mm/pmm.c:62-75 | the same for the whole bitmap, by page index |
| PmmBits.ClearTaken | kernel/mm/pmm.c:421-427 | taking a free run lowers the number of clear bits by its length |
| PmmBits.CountsHolders | kernel/mm/pmm.c:372-468 | the count is the number of holders modulo 65536 |
| PmmBits.KeptExactlyWithoutWrap | kernel/mm/pmm.c:372-468 | a page is in use until 1 + references frees, and free then, if and only if the count never wraps |
| PmmBits.TooManyHolders | kernel/mm/pmm.c:372-468 | with 65535 references one free takes the page from 65535 holders |
| Pmm.Allocator.AllocPage | kernel/mm/pmm.c:246-264 | the lowest free page; 0 exactly when there is none |
| Pmm.Allocator.FindRun | kernel/mm/pmm.c:407-420 | one scan finds the lowest run of the length, or shows there is none |
| Pmm.Allocator.AllocContiguous | kernel/mm/pmm.c:398-432 | the lowest free run, marked with count 1; 0 exactly when there is none |
| Pmm.Allocator.RefPage | kernel/mm/pmm.c:461-468 | one more holder of a managed page, modulo 65536 |
| Pmm.Allocator.FreePage | kernel/mm/pmm.c:372-396 | panics exactly for pages unmanaged or not in use; else one holder less, free at none |
| Pmm.Allocator.FreeContiguous | kernel/mm/pmm.c:434-459 | all pages are checked before any changes: a panic leaves everything as it was |
| Pmm.Allocator.RunPage | kernel/mm/pmm.c:372-468 | references and frees drive a page through its own state machine, other pages untouched |
| Pmm.Allocator.Reserve | kernel/mm/pmm.c:98-119 | reserved pages are in use and unmanaged |
| Pmm.Allocator.Release | kernel/mm/pmm.c:178-197 | usable ranges become free, overlapping or not |
| Pmm.Allocator.Keep | kernel/mm/pmm.c:354-366 | a trampoline page leaves the clear bits but not the counter |
| Pmm.Allocator.constructor | kernel/mm/pmm.c:199-238 | free pages are exactly the usable ones not set aside; the counter is ahead by the trampoline pages |
| Pmm.Allocator.Run | kernel/mm/pmm.c:246-468 | over every run the counter keeps its distance from the number of clear bits |
| HeapModel.QuietAround | kernel/mm/heap.c:169-328 | a write inside one block spoils no header or link of another |
| HeapModel.Changed | kernel/mm/heap.c:94-396 | one write in one block, with its slab's list right, keeps the whole heap invariant |
| HeapModel.ChunkAdded | kernel/mm/heap.c:111-118 | threading a chunk keeps the free list exact |
| HeapModel.ChunkTaken | kernel/mm/heap.c:145-183 | popping a chunk and writing its header makes it live |
| HeapModel.ChunkGiven | kernel/mm/heap.c:289-292 | pushing a freed chunk keeps the list acyclic and exact |
| HeapModel.DirectAdded | kernel/mm/heap.c:200-224 | pages mapped at the top of the heap are apart from every block |
| HeapModel.DirectRemoved | kernel/mm/heap.c:301-323 | unmapping a direct block leaves every other block's pages |
| HeapModel.RangesApart | kernel/mm/heap.c:169-396 | live pointers differ and the bytes behind them do not overlap |
| Heap.MapRunBacked | kernel/mm/heap.c:200-209 | mapping fresh frames keeps one frame of its own behind every page |
| Heap.Shrunk | kernel/mm/heap.c:243-328 | a free drops one range and no other |
| Heap.BinHoldsRequest | kernel/mm/heap.c:85-92 | a bin for the wrapped sum holds the request exactly when the sum did not wrap |
| Heap.AlignedTotalHolds | kernel/mm/heap.c:373-380 | the bin for an aligned request covers size, alignment and both headers exactly when their sum does not wrap |
| Heap.WrappedRequest | kernel/mm/heap.c:85-92 | the largest size gets a 32-byte chunk |
| Heap.WrappedAligned | kernel/mm/heap.c:378 | an aligned request near 2^64 gets a 16-byte chunk |
| Heap.ShortChunk | kernel/mm/heap.c:145-183 | in a 16-byte chunk the header runs over what the next chunk holds |
| Heap.Heap.BinForSize | kernel/mm/heap.c:85-92 | the smallest bin that is large enough |
| Heap.Heap.AddChunk | kernel/mm/heap.c:111-118 | one more chunk, above all others, at the head of the free list |
| Heap.Heap.SlabCreate | kernel/mm/heap.c:94-125 | a page cut into as many chunks as fit, all free |
| Heap.Heap.SlabAlloc | kernel/mm/heap.c:127-149 | a chunk of the bin, fresh to everyone |
| Heap.Heap.MapPages | kernel/mm/heap.c:200-215 | all pages mapped to the given frames, or none, the top where it was and all frames given back |
| Heap.Heap.DirectAlloc | kernel/mm/heap.c:196-233 | enough pages of its own for a large request |
| Heap.Heap.Kmalloc | kernel/mm/heap.c:169-234 | a range apart from all live ones and counted; 0 only without memory |
| Heap.Heap.FindSlab | kernel/mm/heap.c:280-298 | the slab of the bin whose page holds the chunk |
| Heap.Heap.FreeChunkAt | kernel/mm/heap.c:274-300 | the chunk goes back to its own slab, no panic |
| Heap.Heap.FreePagesAt | kernel/mm/heap.c:301-323 | every page counted in the header translates, is unmapped and its frame, held until then, given back once: no panic in the heap or the page allocator |
| Heap.Heap.Kfree | kernel/mm/heap.c:243-328 | freeing a live pointer, aligned or not, drops exactly its range and never panics |
| Heap.Heap.KmallocAligned | kernel/mm/heap.c:373-396 | aligned, inside its raw block, apart from all live ranges |
| Heap.Heap.Write | kernel/mm/heap.c:169-396 | whatever a holder writes into its own bytes leaves the heap whole |
| Heap.Heap.Run | kernel/mm/heap.c:94-396 | over every run: live ranges apart, allocations minus frees is the live count, every page with a frame of its own, no panic |
| SignalBits.BitOr | kernel/sched/task.c:1047 | the union of masks, bit by bit |
| SignalBits.BitWithout | kernel/sched/task.c:1048 | the difference of masks, bit by bit |
| Signals.FrameBelow | kernel/sched/task.c:998-1006 | a frame that fits ends below the interrupted stack pointer, 16-byte aligned |
| Signals.FrameRoundTrip | kernel/sys/sys_process.c:236-253 | what delivery saves is what return restores |
| Signals.Task.Enter | kernel/sched/task.c:1008-1054 | the frame holds the interrupted context; handler registers; new mask without signals 9 and 19 |
| Signals.Task.Deliver | kernel/sched/task.c:965-1059 | acts on the lowest active signal not dropped; the outcome is determined by its action and the stack |
| Signals.Task.SigReturn | kernel/sys/sys_process.c:222-258 | restores the context found 16 bytes above the stack pointer, modulo 2^64; fails exactly when that context cannot be read, and then changes nothing |
| Signals.Task.Interrupt | kernel/sched/task.c:965-1059 | with handlers nested to any depth, an interruption ends with the registers, stack pointer and mask it began with |
| Signals.Task.RunActs | kernel/sched/task.c:965-1059 | a handler that keeps below its frame leaves everything from the frame up |
| Klogd.YearOfEraIsRight | user/klogd.c:38-42 | the year formula finds the year whose days contain the day of the era |
| Klogd.PartsAreDates | user/klogd.c:43-46 | the month formula gives valid dates, the next day of the year the next date |
| Klogd.CivilIsCalendar | user/klogd.c:36-50 | every day number, negative ones included, gives a valid date, and the next number the next calendar day |
| Klogd.CivilIsEarly | user/klogd.c:36-50 | the date is 719468 days before the one the day number stands for |
| Klogd.FirstDay | user/klogd.c:36-50 | day 0 becomes 1 March of year 0 |
| Klogd.CivilInvertsShifted | user/klogd.c:36-50 | with the shift put back the conversion inverts the day count |
| Klogd.ToIntFits | user/klogd.c:47-49 | exactly the years that survive the cast to int |
| Klogd.CivilFromDays | user/klogd.c:36-50 | the three int results are the date, exactly when the year fits |
| Klogd.SplitSeconds | user/klogd.c:59-65 | day, hour, minute and second make up the epoch second, negative ones included |
| Klogd.Timestamp | user/klogd.c:52-70 | the printed time of day is right, the printed date 719468 days early, its year narrowed to int |

## Left out

- ext2 directories: entry bytes, names and `ext2_readdir`; unlink starts from the inode the entry names.
- ext2 mount: the image is taken to be consistent (`Ext2Fs.Clean`); directory bytes are scanned elsewhere, the found inode numbers are given.
- ext2 layout: group descriptor and inode table bytes are records; the block bitmap is a row of bits.
- ext2 hard links: one node per inode; unlink of an inode with further links only lowers its count.
- ext2 I/O errors: the disk always answers; a node kept open after unlink is not written through.
- Ext2.Volume.Unlink: its last link frees the direct blocks only, as the code does, so blocks under index roots stay marked.
- Mappings: the page tables behind them, file reference counts across splits, `mremap`, `brk` and `madvise`.
- VmaTable.Process.Mmap: on a table that still has pairs to join, a fixed mapping may find a slot although the count says none is left.
- VmaTable.Process.Mprotect: a length above 2^64 - 4096 rounds to 0, succeeds and changes no page.
- VmaTable.Process.Run: requests placed by the kernel are at most 2^64 - MMAP_TOP long, since a longer one may get the wrong answer named above.
- Scheduler.Scheduler.AddSleeper: the task is not on the list already, which holds for every running task over every run; the code would link it a second time.
- Scheduler.Scheduler.Run: while the task waits no task joins or leaves the queue and its own priority is not set by a call; a task that has stopped makes no further calls until it is dispatched, and the idle task does not sleep.
- Scheduler: context switch, per-CPU data, `sched_exit_group`; ticks do not wrap.
- Network: sending, retransmission, timers, checksums, port lookup; a FIN is not claimed to follow the data.
- ELF headers: parsing and magic checks.
- ELF file ends: the code does not check that the bytes it copies lie in the file; what lies behind the file's last byte is any memory, and a fault there is not modelled.
- UserStack.BuildStack: assumes the strings and pointers fit, since the code writes before it checks and what lies below its buffer is not modelled; the same for PlaceStrings and SetupUserStack. RoomCheck says when the check is enough.
- Resolution: symbolic links and the numeric directories under /proc.
- Page frames: finding the memory map's end and the bitmap's place; ranges come rounded to pages; `pmm_alloc_page_below` and the trampoline hand-out; calls before initialisation.
- Heap frames: the page allocator hands out frames the heap does not hold, as Pmm.Allocator.AllocPage and AllocContiguous do; a run skips requests that name others.
- Heap addresses: the heap's top does not wrap around 2^64; poisoning and `krealloc`.
- Heap.Heap.Kmalloc: requests whose size plus header wraps 64 bits are excluded, as their holder would write past the chunk; BinHoldsRequest, WrappedRequest and ShortChunk show what they get.
- Heap.Heap.SlabAlloc: the 16-byte bin is excluded for the same reason, also in AddChunk and SlabCreate.
- Heap.Heap.Run: skips requests whose sums wrap, for the same reason; so do KmallocAligned and DirectAlloc.
- Heap.Heap.FreePagesAt: unmaps the page count kept in 16 bits, so a block of 65536 pages or more leaves some mapped, as in the code.
- Heap.Heap.SlabCreate: the slab enters its bin's list and counts its chunks as they are made, where the code does both at the end.
- Signals: delivery from interrupts without a syscall frame, process groups, waking sleepers; user memory is in 8-byte words.
- Klogd output: text formatting and the reading loop.
- Locks, blocking and wake-ups: a critical section is one step.

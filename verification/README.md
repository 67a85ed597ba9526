# Nupkux, modelled in Dafny

Nupkux is a small Unix-like kernel for 32-bit PCs. This project models the parts of it in which many short
functions share state, and proves what they keep up together. Values describe what each operation does to the
state; classes do the same in place, with the loops and pointers of the original, and are proved to agree with
the values. Statements about runs are lemmas over sequences of operations on values.

| part | modules |
|---|---|
| frames and address spaces | FrameMap, AddressSpace, CloneSpace, SpaceRuns, PageEffects, Paging, BootMap |
| tasks and the scheduler | Tasks, TaskEffects, Scheduler |
| device lock | DeviceLock, LockProgress, LockHandOver, RequestQueue |
| kernel heap | HeapTags, HeapMalloc, HeapAligned, HeapFree, HeapAllocator |
| initial ram disk, writer and reader | InitrdLayout, InitrdWriter, InitrdReader, InitrdRoundTrip |
| console | ConsoleGrid, ConsoleMeaning, ConsoleCommands, ConsoleRing, Console, Decimal |
| files, vnodes, mounts | OpenFiles, VnodeState, VnodeCache, PathWalk, PathLaws, Namei, Vfs |
| program start | ExecStack |
| formatted numbers | Numbers, NumbersReadBack, Sprintf, NumberShape |
| used by several | Limits, Options, Chains, Bytes, Names |

The main results:

* A frame is marked in the bitmap exactly when one entry of one live page table holds it, in every run; a cloned
  address space means the same as its source, and tearing it down restores the bitmap bit for bit.
* The mapping loops at boot end although their own bound moves, and leave an identity map.
* The task table stays a tree below task 0 in every run, and every ready task runs after fewer than 64 switches, a
  parent whose child exits and the child of a fork among them; a status waits for waitpid, whatever happens before.
* The device lock excludes, serves in order and loses no wake-up in every interleaving; in every run in which
  the timer leaves a dispatched task one step, an unlock passes it to the next in line within 320 switches, and
  everybody in the queue gets it.
* heap_malloc and heap_free keep a tiled heap and an exact index, conserve bytes, and undo each other. What they do
  not always keep is stated with the exact condition under which they do, and with a heap where they do not:
  heap_free's footers (only without a right merge), its order (only if the left hole it grows stays in place), and
  page-aligned requests (only if the gap has room for two tags, and so has the rest, if there is one).
* An initrd image reads back as the tree it was written from, along any path and in any portions.
* The circular line memory of a terminal shows what a plain scrolling grid shows, for any bytes; what each sequence
  and character does to that grid is said cell by cell.
* A FILE counts its descriptors in all tasks; vnodes are never freed under a holder; mounts never form a cycle,
  and a path resolved over counted, cached vnodes means what it means on bare inode numbers, which the laws of
  PathLaws determine: paths compose, and one name is one lookup.
* A program finds its arguments and environment unchanged; a formatted number reads back in its base, and any
  format gives its texts and arguments in order.

Where the code and what is written about it differ, the model follows the code. The console's H command takes
the column first, the reverse of section 8.3.21 of ECMA-48. Selecting a background colour adds its bits to the
old ones. resolve_mount passes its step count on unchanged, so it never runs out of steps. A task whose root directory is
the root of a mounted file system leaves it through ".." (PathLaws.ParentClimbs). The first frame
handed out is frame 0, which later reads as "not mapped": BootMap.PageZeroMovesWhenMappedAgain and
AddressSpace.AllocMapsOnceFrameZeroIsTaken say what follows from that.

`dafny verify dfyconfig.toml` checks the whole project.

## Model

| member | source | states |
|---|---|---|
| FrameMap.FirstFree | src/mm/paging.c:52-62 | The frame found is free and every frame below it is taken; 0xFFFFFFFF comes back only when all are taken |
| FrameMap.FirstFrame | src/mm/paging.c:52-62 | The scan by words, then by bits, finds the lowest free frame |
| FrameMap.SetBit | src/mm/paging.c:71-79 | Setting or clearing bit f % 32 of word f / 32 changes what is known of frame f and of no other frame |
| FrameMap.SameBits | src/mm/paging.c:29 | Two bitmaps that agree on every frame are equal word for word |
| FrameMap.TakeFrame | src/mm/paging.c:66-71 | Marking a free frame leaves exactly one free frame less |
| AddressSpace.NoFrameIsShared | src/mm/paging.c:64-72 | No two pages of one or of two address spaces are in the same frame, except a page of the kernel's tables seen through two directories |
| AddressSpace.MarkedExactlyWhenMapped | src/mm/paging.c:64-80 | A frame from 1 on is marked in the bitmap exactly when some directory maps some page to it |
| AddressSpace.AllocMapsOnceFrameZeroIsTaken | src/mm/paging.c:64-72 | alloc_frame maps an unmapped page exactly when frame 0 was taken before: frame 0 itself reads as unmapped |
| AddressSpace.MakeTableKeeps | src/mm/paging.c:82-90 | A new page table leaves ownership exact and tables linked from the right directories |
| AddressSpace.AllocFrameKeeps | src/mm/paging.c:64-72 | Once frame 0 is taken, mapping keeps every frame owned by exactly the entries that hold it |
| AddressSpace.FreeFrameKeeps | src/mm/paging.c:74-80 | Unmapping keeps ownership exact |
| SpaceRuns.RunsKeepFramesOwned | src/mm/paging.c:92-167 | In every run of make_page, free_page, clone_directory and free_directory with a free frame at hand, ownership stays exact and exclusive, kernel tables counted once |
| SpaceRuns.ApplyKeeps | src/mm/paging.c:92-167 | The same for one operation |
| SpaceRuns.MakePageKeeps | src/mm/paging.c:92-100 | The same for make_page, with or without a frame |
| SpaceRuns.FreePageKeeps | src/mm/paging.c:102-110 | free_page keeps ownership exact and tables linked, whether or not there is a table; what it unmaps is PageEffects.FreePageUnmaps |
| SpaceRuns.FreeDirectoryKeeps | src/mm/paging.c:146-167 | The same for the teardown of any directory but the kernel's |
| SpaceRuns.FreeEntriesClears | src/mm/paging.c:146-154 | free_table clears the bits of exactly the frames its entries hold |
| CloneSpace.CloneEntriesCopy | src/mm/paging.c:118-122 | The loop over 1024 entries copies the entries below i as described under CloneTableCopies, and leaves the rest of memory alone |
| CloneSpace.CloneTableCopies | src/mm/paging.c:112-124 | Entry by entry the copy is mapped where the source is, with equal flags, in a frame that was free and now holds the same words; as many frames go as entries are mapped |
| CloneSpace.CloneSlotsCopy | src/mm/paging.c:133-142 | The loop over directory slots shares the kernel's tables and copies all others |
| SpaceRuns.CloneDirectoryCopies | src/mm/paging.c:126-144 | The clone as a whole: shared slots are the same tables, private slots are copies, nothing else changes |
| SpaceRuns.CloneMeansTheSame | src/mm/paging.c:126-144 | Page by page source and clone are mapped alike, with equal flags and equal contents; a private page of the clone is in a frame that was free before |
| SpaceRuns.CloneThenFree | src/mm/paging.c:126-167 | Tearing the clone down again restores the bitmap bit for bit, and all tables and directories |
| PageEffects.FreePageUnmaps | src/mm/paging.c:74-110 | free_page leaves the page without a frame in the directory and in all that share its table, frees exactly that frame, and changes no other page of any directory |
| PageEffects.MakePageMaps | src/mm/paging.c:64-100 | make_page makes the table when there is none, maps an unmapped page to the lowest free frame with the flags given, leaves a mapped one alone, and changes no other page of any directory |
| PageEffects.MakeThenFree | src/mm/paging.c:64-110 | Mapping an unmapped page and unmapping it again restores the bitmap bit for bit, and every other page is as it was |
| PageEffects.MakeTableAdds | src/mm/paging.c:82-90 | A new table is empty and on a page, and its word for the processor is its address plus the flags given; every other slot is as it was |
| PageEffects.FreeDirectoryFrees | src/mm/paging.c:146-167 | Tearing a directory down frees exactly the frames that its own pages are in, and no page of another directory changes |
| PageEffects.RunsTellTheHardware | src/mm/paging.c:82-167 | In every run, with flags below 4096, each directory's word for a table is that table's address with flags in the low twelve bits |
| Paging.Machine.constructor | src/mm/paging.c:200-205 | The machine before the first mapping: empty bitmap, empty kernel directory, kmalloc_pos behind both |
| Paging.Machine.AllocFrame | src/mm/paging.c:64-72 | In place, the state that AddressSpace.AllocFrame gives |
| Paging.Machine.FreeFrame | src/mm/paging.c:74-80 | In place, the state that AddressSpace.FreeFrame gives |
| Paging.Machine.KmallocPa | src/mm/mm.c:40-43 | The next aligned address, and the position moves behind the request |
| Paging.Machine.MakeTable | src/mm/paging.c:82-90 | In place, the state that AddressSpace.MakeTable gives |
| Paging.Machine.MakePage | src/mm/paging.c:92-100 | In place, the state that AddressSpace.MakePage gives, and the entry of the page |
| Paging.Machine.FreePage | src/mm/paging.c:102-110 | In place, the state that AddressSpace.FreePage gives, of which PageEffects.FreePageUnmaps says what it unmaps and frees; nothing happens without a table |
| Paging.Machine.CloneTable | src/mm/paging.c:112-124 | In place, the state that CloneSpace.CloneTable gives |
| Paging.Machine.CloneDirectory | src/mm/paging.c:126-144 | In place, the state that SpaceRuns.CloneDirectory gives |
| Paging.Machine.FreeTable | src/mm/paging.c:146-156 | In place, the state that SpaceRuns.FreeTable gives |
| Paging.Machine.FreeDirectory | src/mm/paging.c:158-167 | In place, the state that SpaceRuns.FreeDirectory gives |
| BootMap.MapNext | src/mm/paging.c:92-100 | When exactly the pages below n are mapped to themselves, and no page table is there that they do not take, mapping page n maps it to frame n, whether or not a table has to be made, and makes no other table |
| BootMap.MapStep | src/mm/paging.c:36-37 | One round of a mapping loop extends the identity map, or leaves it when the page is the last one mapped |
| BootMap.RoomIsLeft | src/mm/paging.c:208 | However far the loops are, kmalloc_pos has moved by two frames at most for each page table that the pages mapped so far take, so that the room left still holds those to come |
| BootMap.PageZeroMovesWhenMappedAgain | src/mm/paging.c:68-71 | Why the loops must not start on page 0 twice: page 0 is in frame 0, and a second mapping moves it |
| BootMap.MapMemory | src/mm/paging.c:206-207 | A loop with a fixed end maps every page up to it to itself, the end included |
| BootMap.MapToMovingEnd | src/mm/paging.c:208 | The loop whose end moves with every page table ends, and has then mapped every page up to the final end to itself, on any machine with room above kmalloc_pos for the tables of the pages it has |
| BootMap.MapPreHeap | src/mm/paging.c:200-208 | The three loops together give an identity map up to kmalloc_pos plus one page; memory must hold two frames above kmalloc_pos and two more for each 4 MB of it |
| BootMap.IdentityReaches | src/mm/paging.c:200-208 | So every page up to the final bound is present in the frame of its own number, and all page tables made lie below it |
| Tasks.SetupIsSafe | src/kernel/task.c:58-84 | The table setup_tasking leaves is safe |
| Tasks.ApplyKeeps | src/kernel/task.c:86-158 | A switch, block, signal, exit, reap or fork keeps the table safe, and leaves the task it switches to running |
| Tasks.RunsKeepTheTableSafe | src/kernel/task.c:58-158 | In every run in which tasks 0 and 1 do not exit: slot i has pid i or none, only the current task is running, no parent is a zombie or reaped, and parent links fall towards task 0 |
| Tasks.ExitKeeps | src/kernel/exit.c:73-95 | exit keeps the table safe: the caller is a zombie, no child's parent, and another task runs; whom it tells is TaskEffects.ExitTellsTheParent |
| Tasks.ForkKeeps | src/kernel/task.c:117-158 | fork keeps the table safe, the child's parent live and nearer to task 0 |
| Tasks.ReapKeeps | src/kernel/exit.c:97-110 | Reaping a zombie keeps the table safe: no live task loses its parent |
| Tasks.EveryTaskDescendsFromZero | src/kernel/exit.c:77-79 | Following parents from any live task arrives at task 0 |
| Tasks.ZombiesNeverRunAgain | src/kernel/sched.c:24-39 | A zombie stays one and is never current until its slot is used again |
| Tasks.SwitchComesCloser | src/kernel/sched.c:24-39 | A switch brings the scheduler strictly closer to any task that waits, or is blocked with a signal pending |
| Tasks.ReadyComesCloser | src/kernel/sched.c:24-39 | The same whatever system call happens: such a task stays ready, and comes strictly closer at every switch |
| Tasks.WaitingIsBounded | src/kernel/sched.c:24-39 | It runs after fewer switches than its distance from the current task, at most 63 |
| TaskEffects.KillReachesTargets | src/kernel/exit.c:28-71 | kill makes its signal pending for exactly those live tasks it is meant for, by pid or group, that share a uid with the caller, or all of them for root and for SIGCONT, and changes nothing else |
| TaskEffects.KillSaysWhetherItReached | src/kernel/exit.c:38-71 | The error code says whether there was a target, and whether the caller might signal one |
| TaskEffects.ExitTellsTheParent | src/kernel/exit.c:90 | After exit SIGCHLD is pending for the parent if and only if it was before or the exiting task is root's or shares a uid with it, for all of the group when the parent is task 0, and no other signal changes |
| TaskEffects.ExitWakesTheParent | src/kernel/exit.c:90-93 | A parent asleep, whom the exiting task may signal, is current or ready afterwards |
| TaskEffects.SleepingParentRuns | src/kernel/exit.c:90-93 | It runs within 64 switches, whatever the others do |
| TaskEffects.ExitBuries | src/kernel/exit.c:77-89 | After exit the caller is a zombie with its status, and its children, and no others, have task 1 for their parent |
| TaskEffects.ExitThenWait | src/kernel/exit.c:89-110 | Whatever happens between an exit and the first waitpid for it, waitpid may return, reads the status the task left, and frees its slot and nothing else |
| TaskEffects.ForkMakesAChild | src/kernel/task.c:119-136 | The first free slot gets a child of the caller with its uids and group, waiting and without signals; every other slot is as it was; a full table does not change |
| TaskEffects.ChildRuns | src/kernel/task.c:117-140 | A child runs within 64 switches |
| TaskEffects.PauseSleeps | src/kernel/sched.c:41-46 | A task that pauses without a signal gives up its turn and does not run again before one is pending for it |
| Scheduler.TaskTable.constructor | src/kernel/task.c:58-84 | The table setup_tasking leaves |
| Scheduler.TaskTable.Schedule | src/kernel/sched.c:24-39 | Blocked tasks with a signal are woken; the next waiting task behind the current one is chosen, task 0 when there is none |
| Scheduler.TaskTable.SwitchTask | src/kernel/task.c:86-103 | In place, the state Tasks.SwitchTask gives |
| Scheduler.TaskTable.Pause | src/kernel/sched.c:41-46 | The current task blocks, then the switch |
| Scheduler.TaskTable.SendSignal | src/kernel/exit.c:28-36 | The signal becomes pending exactly when the sender has the right, or sends SIGCONT |
| Scheduler.TaskTable.Kill | src/kernel/exit.c:38-71 | One task, one group or all tasks are signalled; the error code says whether any was found and allowed |
| Scheduler.TaskTable.Exit | src/kernel/exit.c:73-95 | In place, the state Tasks.Exit gives: orphans to task 1, zombie, SIGCHLD to those TaskEffects.ExitTellsTheParent names, switch |
| Scheduler.TaskTable.WaitPid | src/kernel/exit.c:97-110 | The zombie's slot becomes free and its exit code is returned |
| Scheduler.TaskTable.Fork | src/kernel/task.c:117-140 | The first free slot becomes a waiting copy of the caller without signals; -1 when the table is full |
| DeviceLock.RunsKeepTheLock | src/drivers/drivers.c:54-83 | The lock's invariant, of which the rows below say what it means, holds in every interleaving of steps with other system calls and with timer switches anywhere outside cli/sti; what a step passes on is LockHandOver.HandOver |
| DeviceLock.ActKeeps | src/drivers/drivers.c:54-83 | The same invariant for one step of any task, one timer switch or one other call |
| DeviceLock.MutualExclusion | src/drivers/drivers.c:54-70 | At most one task is past device_lock, and it is the head of the queue |
| DeviceLock.FirstComeFirstServed | src/drivers/drivers.c:60-69 | The order in which tasks got past device_lock is a prefix of the order in which they were enqueued |
| DeviceLock.NoWakeUpIsLost | src/drivers/drivers.c:69-82 | When the head is blocked without a signal, another task stands between its pop and its kill |
| DeviceLock.LockIsCorrect | src/drivers/drivers.c:54-83 | In every state a system with an unused device can come to: one task at most is past device_lock and heads the queue, tasks got there in the order of their requests, and a sleeping head has a signal pending or one on its way |
| DeviceLock.FreshDeviceIsSound | src/drivers/drivers.c:54-58 | An unused device in a safe system satisfies the invariant |
| DeviceLock.KillReachesHead | src/drivers/drivers.c:82 | The SIGCONT of device_unlock becomes pending for the head, even when that is task 0, for which kill means a whole group |
| LockProgress.ActFalls | src/drivers/drivers.c:69-82 | While the head waits, no step raises the distance to its turn, and every switch lowers it, if the timer leaves each dispatched task one step |
| LockProgress.SwitchesAreCounted | src/drivers/drivers.c:69-82 | In every run that is fair in that sense, the number of switches the head sees while waiting is at most that distance |
| LockProgress.HeadGetsTheDevice | src/drivers/drivers.c:69-82 | In every fair run the head of the queue gets the device within 320 switches |
| LockProgress.UnfairRunsStarve | src/kernel/time.c:43 | Any number of timer ticks in a row is a run, after which nobody is further than before: the fairness is needed |
| LockProgress.SomeActionIsFair | src/drivers/drivers.c:69-82 | A fair action is possible in every state the lock can be in, so that runs do not get stuck |
| LockHandOver.AskingQueues | src/drivers/drivers.c:58-67 | A task that asks for the device stands at the end of the queue |
| LockHandOver.HandOver | src/drivers/drivers.c:72-82 | In every run, with the holder's next step it does not hold the device any more and those behind it head the queue; with the step that follows, whatever happened between, it has left and SIGCONT is pending for whoever heads the queue then |
| LockHandOver.NextInLineIsNext | src/drivers/drivers.c:69-82 | From then on the next in line is the next to get the device, in every fair run within 320 switches |
| LockHandOver.EverybodyIsServed | src/drivers/drivers.c:54-83 | A task at place i of the queue has the device within (i + 1) * (320 + k) switches of a fair run in which every holder takes its step within k switches |
| LockHandOver.LockRunsAreTaskRuns | src/drivers/drivers.c:69-82 | A run of the lock is a run of the scheduler, with a pause, a switch and a kill where the lock code has them |
| RequestQueue.Queue.Append | src/drivers/drivers.c:59-67 | The linked list of requests grows by the caller at its end |
| RequestQueue.Queue.Pop | src/drivers/drivers.c:76-81 | Its head is unlinked and freed, if the caller is the head |
| HeapTags.TilesAreDisjoint | src/mm/mm.c:63-94 | In a tiled heap no byte lies in two blocks or holes |
| HeapTags.FindHole | src/mm/mm.c:157-174 | All entries before the one found are too small, and the one found is large enough |
| HeapTags.AddEntryKeepsOrder | src/mm/mm.c:121-139 | Inserting in front of the first entry that is not smaller keeps the index ordered by size |
| HeapTags.AddEntrySet | src/mm/mm.c:121-139 | The index gains exactly the new entry |
| HeapTags.DelEntrySet | src/mm/mm.c:141-147 | The index loses exactly the entry deleted |
| HeapTags.FindEntry | src/mm/mm.c:149-155 | The first place where the entry stands |
| HeapMalloc.MallocKeepsTheHeap | src/mm/mm.c:215-254 | From any well-formed heap an unaligned heap_malloc that finds a hole leaves headers tiling the heap, every footer pointing to its header, and the index equal to the set of holes in order of size |
| HeapMalloc.MallocGivesFreshBytes | src/mm/mm.c:215-254 | The payload holds the requested size, and fewer than 16 bytes more, between the tags of its block, and shares no byte with any other block or hole, all of which keep their headers |
| HeapMalloc.MallocWritesInsideTheHole | src/mm/mm.c:235-252 | No tag outside the hole taken is written |
| HeapMalloc.MallocTakesTheSmallestHole | src/mm/mm.c:157-174 | No hole that is large enough is smaller than the one taken |
| HeapMalloc.HoleIsFoundWhenThereIsOne | src/mm/mm.c:157-184 | The search fails exactly when no hole is large enough |
| HeapMalloc.MallocTakesBytes | src/mm/mm.c:215-254 | The bytes in holes fall by exactly the size of the new block |
| HeapAligned.FindAligned | src/mm/mm.c:157-174 | The first hole with enough bytes behind the gap in front of its first page |
| HeapAligned.AlignedKeepsTilesAndIndex | src/mm/mm.c:215-254 | A page-aligned heap_malloc whose gap and rest can hold two tags each leaves headers tiling the heap, every footer pointing to its header, and the index the exact set of holes |
| HeapAligned.AlignedKeepsTheHeapExactly | src/mm/mm.c:223-233 | It leaves a heap that can be tiled, footed and indexed by any blocks and holes at all if and only if the gap has 16 bytes and the rest has none or 16 |
| HeapAligned.AlignedCanBreakTheIndex | src/mm/mm.c:223-233 | A hole that is on a page already has no gap: the block handed out from it stays listed as a hole |
| HeapAligned.AlignedGivesAPage | src/mm/mm.c:223-254 | The payload is on a page and holds the size requested between its tags, in front of it stays a hole, and every other block and hole keeps its header, its footer and its bytes |
| HeapAligned.AlignedOrder | src/mm/mm.c:223-233 | The index stays ordered if and only if the entry in front of the hole taken is no larger than the gap that is left of it |
| HeapAligned.AlignedCanLoseTheOrder | src/mm/mm.c:223-233 | A well-formed heap in which a gap of 184 bytes stays listed behind 1000 |
| HeapAligned.AlignedTakesBytes | src/mm/mm.c:215-254 | The bytes in holes fall by exactly the size of the block: the gap is not lost |
| HeapFree.MallocKeepsHolesApart | src/mm/mm.c:215-254 | heap_malloc puts no two holes side by side |
| HeapFree.FreeKeepsTilesAndIndex | src/mm/mm.c:256-294 | In all four merge cases headers tile the heap again, and the index is the exact set of holes |
| HeapFree.FreeLeavesNoAdjacentHoles | src/mm/mm.c:256-294 | heap_free leaves no two holes side by side when none were before |
| HeapFree.FreeTouches | src/mm/mm.c:264-282 | heap_free changes two headers at most, and one footer in the freed block after a left merge |
| HeapFree.FreeLeavesOthersAlone | src/mm/mm.c:256-294 | Every block and hole that does not take part in the merge keeps its header, its footer and its place in the heap |
| HeapFree.FreeReturnsBytes | src/mm/mm.c:256-294 | The bytes in holes grow by exactly the size of the block |
| HeapFree.FootersHoldExactlyWithoutRightMerge | src/mm/mm.c:277-282 | All footers point to their headers afterwards if and only if the right neighbour was not a hole |
| HeapFree.NextFreeIsLost | src/mm/mm.c:268-275 | After a right merge, freeing the block behind the merged hole adds it to the header that was merged away: it becomes a hole that the index does not have |
| HeapFree.FreeKeepsOrder | src/mm/mm.c:293 | Without a left merge the index stays ordered by size |
| HeapFree.OrderAfterLeftMerge | src/mm/mm.c:270-275 | After a left merge the index is ordered if and only if, in the heap before, the left hole grown by the block and by a right hole is no larger than the entry behind its own |
| HeapFree.OrderHoldsExactlyWhenInPlace | src/mm/mm.c:256-294 | heap_free keeps an ordered index ordered if and only if there is no left merge or the grown hole, by that test on the heap before, is not out of place |
| HeapFree.OrderCanBeLost | src/mm/mm.c:270-275 | A well-formed heap in which freeing one block leaves 64 bytes listed in front of 48 |
| HeapFree.MallocThenFree | src/mm/mm.c:215-294 | Freeing what was just allocated restores all blocks, all holes and the set of entries |
| HeapFree.MallocThenFreeLosesAFooter | src/mm/mm.c:215-294 | After allocating and freeing all footers hold if and only if the hole was used up, that is if it was less than 32 bytes larger than the request |
| HeapAllocator.Allocator.constructor | src/mm/mm.c:63-94 | A new heap is one hole, well-formed, whose bytes are all free |
| HeapAllocator.Allocator.FindSmallestHole | src/mm/mm.c:157-174 | The loop returns the entry HeapTags.FindHole describes, or HeapAligned.FindAligned for a page, -1 when there is none |
| HeapAllocator.Allocator.FindEntryAt | src/mm/mm.c:149-155 | The loop returns the place of an entry, -1 when there is none |
| HeapAllocator.Allocator.RemoveEntry | src/mm/mm.c:141-147 | Shifting down by one removes exactly that entry |
| HeapAllocator.Allocator.InsertEntry | src/mm/mm.c:121-139 | Shifting up by one inserts the entry at its place in the order |
| HeapAllocator.Allocator.HeapMalloc | src/mm/mm.c:176-254 | In memory and index, what HeapMalloc.Malloc gives, or HeapAligned.MallocAligned for a page; 0 for a request of 0 bytes, whatever holes there are |
| HeapAllocator.Allocator.HeapFree | src/mm/mm.c:256-294 | In memory and index, what HeapFree.Free gives; a null pointer or broken tags are ignored |
| InitrdWriter.Writer.ExpandInitrd | tools/mkinitrd/main.c:97-106 | The buffer grows by unknown bytes and keeps what it holds |
| InitrdWriter.Writer.SaveFile | tools/mkinitrd/main.c:133-153 | A subtree is written with consecutive inodes and contents, and nothing outside them is disturbed |
| InitrdWriter.Writer.SaveDir | tools/mkinitrd/main.c:155-199 | The same for a directory, whose entries are patched as its children return |
| InitrdWriter.CountOfInodes | tools/mkinitrd/main.c:69-95 | Recursively, the inodes below a directory; otherwise its children |
| InitrdWriter.MakeInitrd | tools/mkinitrd/main.c:201-226 | The image has the magic number, as many inodes as were counted, stands for the tree, and ends where its last contents end |
| InitrdLayout.InodeRoundTrip | src/include/fs/initrdfs.h:41-50 | The seven fields of an inode read back from its 28 bytes, whatever the padding |
| InitrdLayout.ReprFrame | tools/mkinitrd/main.c:178-197 | What an image says about a subtree depends on that subtree's inodes and contents alone |
| InitrdReader.Lookup | src/fs/initrdfs/inode.c:57-68 | The loop from the last entry down returns the inode of the last entry whose name matches |
| InitrdReader.OpenFile.InitrdRead | src/fs/initrdfs/inode.c:24-34 | The two tests clip the request so that exactly the slice of the inode's contents comes back, nothing when the position is behind the end |
| InitrdReader.OpenFile.SysRead | src/fs/read_write.c:32-42 | A read gives the slice of the file's contents from the offset on, clipped at its end: no more than was asked for, less only at the end of the file; the offset advances by what was read |
| InitrdReader.OpenFile.ReadAll | src/fs/read_write.c:32-42 | Reads of any sizes together give the file from the offset on, up to its end |
| InitrdReader.PartsJoin | src/fs/initrdfs/inode.c:24-34 | Two reads in a row give what one read of both sizes gives |
| InitrdRoundTrip.ReprAt | src/fs/initrdfs/super.c:37-51 | Every node of the tree stands in the image at its own inode, below its parent's |
| InitrdRoundTrip.LookupFindsEntry | src/fs/initrdfs/inode.c:57-68 | Looking up a child's name, "." or ".." gives the inode of the child, the directory or its parent |
| InitrdRoundTrip.LookupFindsNothing | src/fs/initrdfs/inode.c:57-68 | Any other name is not found |
| InitrdRoundTrip.WalkReadsBack | src/fs/initrdfs/inode.c:57-68 | Every path, with "." and "..", leads to the same node in the image as in the tree, or nowhere in both |
| InitrdRoundTrip.FileReadsBack | src/fs/initrdfs/inode.c:24-34 | A file found along a path has its owner, mode and size, and its contents in the image are its bytes |
| InitrdRoundTrip.DirectoryListsBack | src/fs/initrdfs/inode.c:41-55 | readdir lists the two links, then the children in order with number, type and name, then reports the end |
| InitrdRoundTrip.ExtentsTile | tools/mkinitrd/main.c:97-121 | Inode k is stored in slot k, and its contents end where the next inode's begin |
| InitrdRoundTrip.WriteThenRead | tools/mkinitrd/main.c:155-226 | Writing a tree, walking to a file and reading it in any portions returns exactly that file's bytes |
| Names.NameiMatch | src/fs/namei.c:39-52 | Names match exactly when they are equal up to the first slash |
| ConsoleGrid.RunStays | src/drivers/tty/tty.c:222-291 | Whatever is written, the cursor and the saved cursor stay on the screen, rows keep their width, and rows that scrolled off are never lost from the past |
| ConsoleMeaning.RunAppend | src/drivers/tty/tty.c:229-288 | Two writes are one write of both byte streams |
| ConsoleMeaning.SequenceIsOneCommand | src/drivers/tty/tty.c:230-243 | A whole escape sequence is its command on the screen, and the automaton is idle again; what the commands do is said in ConsoleCommands |
| ConsoleMeaning.TextStands | src/drivers/tty/tty.c:272-274 | Text that fits on the line stands at the cursor in the current colours, and nothing else changes |
| ConsoleCommands.EraseBlanks | src/drivers/tty/tty.c:162-186 | J and K blank, in the current colours, exactly the cells from the cursor on, up to the cursor, or all, of the screen or of the cursor's line, and change nothing else |
| ConsoleCommands.EraseToTheEndOfTheLine | src/drivers/tty/tty.c:162-167 | The three bytes ESC [ K blank the cursor's line from the cursor on, and no other cell |
| ConsoleCommands.CursorMoves | src/drivers/tty/tty.c:115-145 | A to G move the cursor by lines or columns, to the start of a line or to a column, as far as the screen goes, and nothing else |
| ConsoleCommands.CursorGoes | src/drivers/tty/tty.c:146-161 | H and f with two parameters go to the column and the line given, counted from 1, as far as the screen goes |
| ConsoleCommands.CursorGoesToTheTop | src/drivers/tty/tty.c:146-161 | With one parameter, to that column of the first line |
| ConsoleCommands.CursorComesBack | src/drivers/tty/tty.c:204-209 | u brings the cursor back to where s was sent, whatever was written between, unless the place was saved anew |
| ConsoleCommands.RenditionColours | src/drivers/tty/tty.c:81-105 | One rendition sets the foreground, or adds its bits to the background, to the VGA colour with the same red, green and blue, bright for the high ranges; 0 resets; anything else does nothing |
| ConsoleCommands.RenditionsInOrder | src/drivers/tty/tty.c:191-198 | A list of renditions is one after the other |
| ConsoleCommands.CursorIsShown | src/drivers/tty/tty.c:210-215 | ?25h and ?25l show and hide the cursor, and nothing else |
| ConsoleCommands.EchoIsSet | src/drivers/tty/tty.c:216-218 | e turns the echo on, or off for 0 |
| ConsoleCommands.OtherCommandsDoNothing | src/drivers/tty/tty.c:187-203 | Any other final byte is taken in without effect |
| ConsoleCommands.BrokenSequencesDoNothing | src/drivers/tty/tty.c:230-242 | A byte that is no bracket behind ESC, or out of place in a sequence, ends it without effect |
| ConsoleCommands.LinesGoDown | src/drivers/tty/tty.c:255-286 | Line feed goes to the start of the next line, vertical tab and form feed straight down, and on the last line everything scrolls instead |
| ConsoleCommands.ReturnsGoBack | src/drivers/tty/tty.c:245-265 | Carriage return goes to the start of the line; NUL does nothing |
| ConsoleCommands.TabsStop | src/drivers/tty/tty.c:251-254 | A tab goes to the next column that is a multiple of 8, or to the last one |
| ConsoleCommands.BackspaceBlanks | src/drivers/tty/tty.c:247-250 | Backspace goes one column back and blanks that cell only |
| ConsoleCommands.TextAdvances | src/drivers/tty/tty.c:272-286 | Any other byte stands at the cursor in the current colours; behind the last column the next line begins, or the screen scrolls |
| ConsoleRing.FillShows | src/drivers/tty/tty.c:30 | Overwriting part of a line of the memory is overwriting that part of the row it stands for, and of no other row, on the screen or in the past |
| ConsoleRing.ScrollShows | src/drivers/tty/tty.c:280-286 | Moving the top of the circle and clearing one line is scrolling the grid: the last memlines - height rows survive in order |
| ConsoleRing.ViewBack | src/drivers/tty/tty.c:70-79 | A view moved back by k lines shows the k newest rows of the past above the screen's rows |
| Console.Tty.constructor | src/drivers/tty/tty.c:326-345 | A cleared terminal with the cursor in the corner |
| Console.Tty.Pos | src/drivers/tty/tty.c:30 | Every place on the screen has an index inside the memory |
| Console.Tty.Fill | src/drivers/tty/tty.c:168-183 | memsetw on part of a line changes that part of its row |
| Console.Tty.EraseIn | src/drivers/tty/tty.c:162-186 | J and K with 0, 1 or 2 clear in the memory what they clear in the grid, which ConsoleCommands.EraseBlanks gives cell by cell |
| Console.Tty.SelectGraphicRenditions | src/drivers/tty/tty.c:191-198 | The loop over semicolons applies every rendition in order |
| Console.Tty.MoveCursor | src/drivers/tty/tty.c:114-161 | Cursor commands clip at the edges; H and f take the column first |
| Console.Tty.InterpretEscape | src/drivers/tty/tty.c:107-220 | One command does to the memory what it does to the grid |
| Console.Tty.EscapeByte | src/drivers/tty/tty.c:230-243 | The escape buffer stays within 128 bytes and holds the parameters collected so far |
| Console.Tty.PlainByte | src/drivers/tty/tty.c:244-275 | Control characters and text do to the memory what they do to the grid |
| Console.Tty.Settle | src/drivers/tty/tty.c:276-286 | The end of a line and of the screen, with the circle's wrap, is the grid's wrap and scroll |
| Console.Tty.DoTtyWrite | src/drivers/tty/tty.c:222-291 | After any bytes, escapes included, the circular memory shows exactly what the plain grid shows, and the view is on the screen |
| Console.Tty.PrintTty | src/drivers/tty/tty.c:70-79 | One copy or two give the lines of the view in order; on the screen's own view, exactly the grid |
| Decimal.AtoiOf | src/drivers/tty/tty.c:46-56 | The loop reads the digits of a string as a number and skips everything else |
| Decimal.AtoiInt | usr/libc/stdlib.c:22-32 | The loop in the C library gives the same number wrapped to an int, although it wraps at every step |
| OpenFiles.RunsCountDescriptors | src/fs/open.c:56-101 | In every run of open, close, dup, dup2, fork and exit each FILE's count is the number of descriptors of all tasks that point to it, and it is released exactly when there is none |
| OpenFiles.OpenMeansAlive | src/fs/open.c:88-99 | No descriptor points to a FILE that was released |
| OpenFiles.CloseKeeps | src/fs/open.c:88-101 | close clears one descriptor and keeps the counts; a released FILE has no descriptor left |
| OpenFiles.OpenKeeps | src/fs/open.c:56-86 | open keeps the counts |
| OpenFiles.ShareKeeps | src/fs/fcntl.c:36-43 | dup into a free descriptor keeps the counts |
| OpenFiles.Dup2Keeps | src/fs/fcntl.c:25-34 | dup2 of two different descriptors keeps the counts, and the second points where the first does |
| OpenFiles.InheritKeeps | src/kernel/task.c:137-140 | fork keeps the counts, and the child's descriptors are its parent's |
| OpenFiles.CloseAllKeeps | src/kernel/exit.c:80-82 | exit keeps the counts, and leaves the task no descriptor |
| VnodeState.RunsKeepVnodesSafe | src/fs/vfs/vnode.c:23-92 | In every run of iget, iput, further references and mounts: one vnode for an inode at most, cached exactly while its count is positive, counts at least the number of holders, mount and cover inverse and rising |
| VnodeState.RunsCountExactly | src/fs/vfs/vnode.c:23-92 | In every run of iget, iput, further references and mounts each count is exactly the number of references taken and not given back, and a vnode is freed exactly when that is zero |
| VnodeState.GetKeeps | src/fs/vfs/vnode.c:69-82 | iget returns the inode's vnode with one more reference |
| VnodeState.PutKeeps | src/fs/vfs/vnode.c:84-92 | iput gives one reference back, and a vnode somebody else holds stays |
| VnodeState.JoinKeeps | src/fs/mount.c:93-96 | Mounting on a free vnode keeps mount and cover inverse, and every chain rising |
| Chains.UnlinkChain | src/fs/vfs/vnode.c:36-48 | Unlinking behind the predecessor, or at the head, takes exactly that vnode out of the list |
| VnodeCache.Cache.Search | src/fs/vfs/vnode.c:72-79 | The walk through a superblock's list finds the inode's vnode exactly when it is cached |
| VnodeCache.Cache.CreateEmptyInode | src/fs/vfs/vnode.c:23-34 | A new vnode with one reference heads its superblock's list |
| VnodeCache.Cache.IGet | src/fs/vfs/vnode.c:69-82 | With lists and counts in place, what VnodeState.Get gives |
| VnodeCache.Cache.IPut | src/fs/vfs/vnode.c:84-92 | With lists and counts in place, what VnodeState.Put gives, for a caller that has a reference |
| VnodeCache.Cache.FreeInode | src/fs/vfs/vnode.c:36-48 | The vnode leaves its list and memory; every other list stays |
| VnodeCache.Cache.Mount | src/fs/mount.c:94-95 | Both vnodes learn of each other, and are pinned |
| PathWalk.Top | src/fs/namei.c:65-80 | What is mounted on a place lies in the same or in a later file system |
| PathWalk.ChainsAreShort | src/fs/namei.c:65-80 | No chain of mounts is longer than the number of file systems, so resolve_mount ends without its step count |
| PathWalk.TopIsFree | src/fs/namei.c:65-80 | Nothing is mounted where resolve_mount stops |
| PathWalk.PathIsFree | src/fs/namei.c:153-173 | No path ever names a vnode that something is mounted on |
| PathWalk.PathErrors | src/fs/namei.c:106-124 | A path fails only with ENOENT, ENOTDIR, EACCES or EGENERIC: never for want of mount steps |
| PathLaws.PathsCompose | src/fs/namei.c:129-173 | A path with a slash and another path behind it means what the second means from the directory the first leads to, or fails as the first does |
| PathLaws.AbsoluteFromRoot | src/fs/namei.c:162-166 | An absolute path means the rest of it from the task's root, whatever the working directory |
| PathLaws.NameIsLookedUp | src/fs/namei.c:106-126 | One name is looked up in what is mounted on the working directory, if that is a directory that may be entered, and seen through what is mounted on the entry; the errors are told apart |
| PathLaws.ThisStays | src/fs/namei.c:88-90 | A dot leads to the working directory itself, seen through its mounts |
| PathLaws.ParentClimbs | src/fs/namei.c:91-103 | Two dots leave mounted file systems through their mountpoints, however many, then stay at the task's root, or are looked up |
| PathLaws.ParentOfRootIsRoot | src/fs/namei.c:97-102 | At the task's root two dots stay there, unless it is the root of a mounted file system |
| PathLaws.ParentCrossesMount | src/fs/namei.c:92-96 | In the root of a mounted file system two dots are looked up in the directory it is mounted on |
| PathLaws.SlashAtTheEnd | src/fs/namei.c:169-172 | A slash at the end of a path makes no difference |
| PathLaws.SlashesAreOne | src/fs/namei.c:140-146 | Two slashes in a row are one, at the front of a path or inside |
| PathLaws.TopFollowsMounts | src/fs/namei.c:65-80 | resolve_mount goes from mount to mount and stops where there is none |
| Namei.ResolveMount | src/fs/namei.c:65-80 | The reference moves up the chain of mounts to its top; EMLINK only for a caller who allows no steps |
| Namei.LookupEntry | src/fs/namei.c:122-126 | A lookup gives back the directory's reference and brings the entry's |
| Namei.IsRoot | src/fs/namei.c:97-102 | The comparison with the task's root leaves all references as they were |
| Namei.GetDentry | src/fs/namei.c:82-127 | One component leads where PathWalk.Entry says, with one reference for the caller, or fails with its error and none |
| Namei.IGetDir | src/fs/namei.c:129-151 | The loop over slashes leads where PathWalk.DirOf says; references taken on the way may leak, none is lost |
| Namei.NameI | src/fs/namei.c:153-173 | A path leads where PathWalk.PathOf says on bare inode numbers, whose laws are those of PathLaws, with one reference for the caller, on a vnode without a mount |
| Vfs.CloseOk | src/fs/open.c:94-99 | Closing gives back the reference of a released FILE's vnode, and no other |
| Vfs.OpenOk | src/fs/open.c:68-85 | The new FILE is covered by the reference namei gave |
| Vfs.System.constructor | src/fs/vfs/vfs.c:110-128 | The root vnode has three references: its superblock's and task 0's two |
| Vfs.System.HeldIsAlive | src/fs/vfs/vnode.c:84-92 | Every vnode a FILE, a directory of a task or a mount holds is cached, with a count of at least its holders |
| Vfs.System.SysOpen | src/fs/open.c:56-86 | EMFILE if and only if every descriptor is used; otherwise namei's error, or the first free descriptor gets a new FILE for the vnode the path means, with its mode and offset; a failure changes no descriptor |
| Vfs.System.SysClose | src/fs/open.c:88-101 | A used descriptor is cleared; anything else is EBADF and changes nothing |
| Vfs.System.SysDup2 | src/fs/fcntl.c:25-34 | The second descriptor is closed and shares the first one's FILE, for two different descriptors |
| Vfs.System.SysDup | src/fs/fcntl.c:36-43 | EMFILE if and only if every descriptor is used; otherwise EBADF if and only if the given one is not; else the first free descriptor shares its FILE |
| Vfs.System.Fork | src/kernel/task.c:127-142 | The child shares all FILEs and both directories, each counted once more |
| Vfs.System.Exit | src/kernel/exit.c:80-82 | All descriptors are closed, from the last one down |
| Vfs.System.SysChdir | src/fs/open.c:25-38 | The working directory becomes the directory the path means; anything else leaves it |
| Vfs.System.SysMount | src/fs/mount.c:54-97 | namei's error for the target, else for the device; else the new file system's root is mounted on the vnode the path means, on which nothing was mounted; a failure changes no mount |
| ExecStack.UserStack.WriteVector | src/fs/exec.c:32-54 | Strings, pointers and the null pointer stand below the top, and nothing above it changes; a missing vector writes nothing |
| ExecStack.UserStack.MakeNewStack | src/fs/exec.c:65-79 | What the program's start code finds at the returned address is argc, every argument and every environment string unchanged, or no environment when there was none |
| ExecStack.VectorReadsBack | usr/crt0.S:25-30 | Following the pointers up to the null pointer gives every string in order |
| ExecStack.VectorFrame | src/fs/exec.c:68-71 | What is written below a vector leaves it readable |
| Numbers.DigitsReadBack | src/lib/vsprintf.c:60-64 | The digits stand for the number, in any base from 2 to 36 |
| Numbers.DigitsFit | src/lib/vsprintf.c:41 | A 32-bit number has at most 32 digits, so that the buffer of 36 is never left |
| Numbers.LengthOfNumber | src/lib/vsprintf.c:55-89 | As many characters are written as the larger of the width and sign, prefix and digits with precision |
| Numbers.Convert | src/lib/vsprintf.c:60-64 | The buffer holds the digits backwards, within its bounds |
| Numbers.Number | src/lib/vsprintf.c:38-90 | The loops write exactly the formatted number behind what was there; nothing for a base outside 2 to 36 |
| NumbersReadBack.NumberReadsBack | src/lib/vsprintf.c:38-90 | For every 32-bit value, base, width, precision and flag set, a reader of that base finds the value again, the least integer included |
| NumberShape.DigitsAreTheNumeral | src/lib/vsprintf.c:60-64 | The digits are the number's only numeral without zeros in front, with small or capital letters as the flag says |
| NumberShape.NumbersHaveTheirShape | src/lib/vsprintf.c:38-90 | Sign, prefix, zeros and digits stand in that order, with the sign and prefix the flags ask for and zeros up to the precision; what is missing to the width is spaces on the left, zeros in front of the digits, or spaces on the right, as the flags say |
| NumbersReadBack.AtoiReadsBack | usr/libc/stdlib.c:22-32 | atoi of a decimal number, however padded and signed, is its magnitude if and only if that is below 2 to the 31; otherwise it is short of it by 2 to the 32 |
| NumbersReadBack.AtoiOfTheLeastInt | usr/libc/stdlib.c:22-32 | The least int, printed as signed, comes back as itself |
| Sprintf.ReadDirective | src/lib/vsprintf.c:113-167 | The loops over flags, width, precision and qualifier parse a directive |
| Sprintf.PutChar | src/lib/vsprintf.c:170-177 | The loops write the character padded to the width |
| Sprintf.PutString | src/lib/vsprintf.c:179-195 | The loops write the string clipped to the precision and padded to the width, on the side the flag says |
| Sprintf.LengthOfString | src/lib/vsprintf.c:179-195 | A string takes as many characters as the larger of the width and its clipped length |
| Sprintf.Vsprintf | src/lib/vsprintf.c:107-243 | Text is copied and directives write their arguments in order: integers, characters, strings clipped and padded, and the star that takes an argument and then stands for itself |
| Sprintf.DirectiveReadsBack | src/lib/vsprintf.c:113-167 | Every directive is parsed back from its text: flags, width, precision and conversion |
| Sprintf.PiecesInOrder | src/lib/vsprintf.c:107-243 | A format made of any number of texts and directives gives the texts and the arguments as shown, in order, each argument used once |
| NumberShape.IntegersReadBack | src/lib/vsprintf.c:197-226 | o, x, X, p, u, d and i write a text that reads back as the argument in base 8, 16 or 10, as signed for d and i |
| NumberShape.IntegersHaveTheirShape | src/lib/vsprintf.c:197-226 | They lay it out by their flags, width and precision, x in small letters, and p without a width in eight digits |
| NumberShape.StringsStandAside | src/lib/vsprintf.c:179-195 | s writes its string up to the precision, at the left end for a minus sign and at the right end otherwise, and spaces up to the width |
| NumberShape.CharactersStandAside | src/lib/vsprintf.c:170-177 | c writes the low byte of its argument, likewise |
| NumberShape.OthersAreCopied | src/lib/vsprintf.c:232-239 | A percent sign in front of any other character is copied with it; two of them are one; one at the end of the format stays |
| NumberShape.StarsAreCopied | src/lib/vsprintf.c:139-158 | A star for width or precision takes an argument and is then copied, percent sign and all |
| Sprintf.SprintfThenAtoi | src/lib/vsprintf.c:219-226 | What a decimal directive writes, atoi reads as the magnitude of the argument, with one exception: the least int is read as itself |

## Left out

- Hardware and assembly: port I/O, disks, serial lines, descriptor tables, register and stack switching. clone_page (src/boot/process.S) is "copy one frame".
- Out of frames: first_frame then gives 0xFFFFFFFF, which alloc_frame uses unchecked. Operations that take a frame require a free one.
- Frame 0: ownership is stated for frames from 1 on, and for runs that start once frame 0 is taken.
- Page tables and directories are allocated at addresses that were not used before, and their physical address is the same, as it is while the kernel boots. After boot the kernel takes them from its heap, which may have to grow; that growth is not part of the clone.
- BootMap.MapPreHeap: a machine without that room, where the loops run out of frames, is excluded.
- The fourth mapping loop of setup_paging (src/mm/paging.c:209-211), whose pages get frames of other numbers.
- SpaceRuns.RunsKeepFramesOwned: operations are whole calls, as they are between cli and sti.
- Scheduler.TaskTable.Schedule: starts at slot 63; the original also reads one slot past the table (src/kernel/sched.c:28).
- Scheduler.TaskTable.Kill: pid 64, which passes the test for pids but reads past the table (src/kernel/exit.c:65), is excluded.
- Scheduler.TaskTable.WaitPid: the loop that waits for a zombie is a precondition; a bad status pointer, which the original checks with an access_ok that always agrees, is not modelled.
- Scheduler.TaskTable.Exit: task 0's exit, which halts the machine, is excluded, and so is task 1's, to whom orphans go. Files, directory and kernel stack are dealt with in Vfs and SpaceRuns.
- Scheduler.TaskTable.Fork: registers, the kernel stack (which the original assigns to the parent, src/kernel/task.c:143) and the clone of the address space are elsewhere or left out.
- LockProgress.HeadGetsTheDevice: runs in which the timer fires again before a task that was just dispatched has taken a step do not count; LockProgress.UnfairRunsStarve says that without this there is no bound.
- DeviceLock.ActKeeps: device_unlock reads the queue head twice after sti (src/drivers/drivers.c:82); test and read are one step here. Tasks do not exit while they are queued, do not ask for the device twice, and do not fork inside. One device is modelled. The early return of ramdisk_request, which keeps the lock, is excluded.
- HeapMalloc.MallocKeepsTheHeap: one call from a well-formed heap. Growth of the heap (with its recursion) and heap_realloc are left out; some of their paths break the tags.
- HeapAligned.AlignedKeepsTilesAndIndex: holes in which a page starts inside the header, which give a negative gap, and blocks that would reach behind their hole are excluded (HeapAligned.Placed); the heap lies above the first page.
- HeapFree.FreeKeepsTilesAndIndex: the merged hole must end below the heap's end; contraction of the heap is left out.
- HeapFree.MallocThenFree: footers are not part of it: after a right merge the footer still points to the hole that was merged.
- HeapAllocator.Allocator.HeapFree: the number of entries stays below the size of the index, which the original does not check. Tags are kept apart from the bytes of payloads, and headers from footers; the tiling proves that they never overlap. Sizes fit the 31 bits of the size field.
- InitrdWriter.MakeInitrd: the tree does not change while it is read, all files and directories can be opened, names are distinct, without slashes and below 64 bytes, and the image is below 4 GB.
- InitrdReader.OpenFile.SysRead: offset plus size stays below 4 GB; the permission test, which the precedence of `!` makes empty unless no mode is set (src/fs/read_write.c:37), is left out. The vnode of an inode is represented by the inode.
- InitrdRoundTrip.WalkReadsBack: permission bits and mounts are left to PathWalk.
- Console.Tty.DoTtyWrite: parameters are unbounded; one above 2147483647 overflows in the original. Widths up to 120 and heights up to 127 are covered, as the cursor is two signed bytes; output to the hardware cursor, keyboard input and the tty's inode are left out.
- Console.Tty.PrintTty: any view line is allowed; the keyboard driver that moves it is left out.
- Vfs.System.SysDup2: equal descriptors, for which the original empties the descriptor and then follows the null pointer in it, are excluded.
- Vfs.System.SysMount: the new root's inode number and whether there is a device stand for the file system type; a read_super that fails is excluded (src/fs/mount.c:84-85), as is the check for the superuser. Unmounting is left out.
- VnodeState.RunsKeepVnodesSafe: counts are unbounded; the original keeps them in a byte. namei leaks the references to directories on its way, so counts are at least, not exactly, the number of holders.
- Namei.NameI: permissions, directories and lookups of the file systems are parameters; a task without a root directory, which no task forked from task 0 is, and whose null root getdentry follows on ".." (src/fs/namei.c:97), is excluded; error codes are names.
- Vfs.System.Exit: the references to the task's directories, which the original never gives back, stay with the free slot until it is used again. close_on_exec flags and the close operation of devices are left out.
- ExecStack.UserStack.MakeNewStack: the vectors fit and do not lie in the stack themselves; a missing argv, which the original dereferences, is excluded.
- Sprintf.Vsprintf: the conversion n is left out: the result is then None, as it is when an argument is missing or of the wrong kind. Widths and precisions are unbounded.
- Decimal.AtoiInt: a signed overflow, which C leaves open, wraps as it does on the machine.
- ext2, devfs, the ELF loader, time, the built-in shell and the user programs: not part of this model.

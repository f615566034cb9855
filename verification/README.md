# Verified models of BUENOS and of the pointer heap

BUENOS is a small teaching kernel; the repository adds a heap kept as a tree of nodes. This
project models the parts whose correctness is not visible in any single function and proves
what they are for, for every input, every interleaving and every run:

- **Threads.** One `next` field per thread-table row serves the ready list and the hash chains of
  the sleep queue. `Machine` is a small state machine without links (`State`, `Step`, `Inv`); each
  spinlock-protected section of the kernel is one atomic step of it, on any CPU. `Kernel.ThreadTable`
  is the linked structure with the source's loops and pointer writes, and every method is proved
  to do to it what the step does to the machine. `Semaphores` and `Processes` put the semaphore
  table and the spawn/finish/join protocol on top, with their own invariants over whole runs;
  `Families` says of every run who may join whom, who waits how long, and what a join returns.
- **The pointer heap.** `HeapOrder` holds the insertion on values and the array algorithm it is
  compared with; `PointerHeap` does the pointer surgery on `Node` objects.
- **Memory.** `Bitmap` (word-skipping search and plain scan), `PagePool`, `PageTable`, `Fork` (the
  copy loop), and `Malloc` (userland first-fit allocator with splitting and coalescing, on a memory
  of words in which the allocator's own words and the programs' payloads lie side by side).
- **The Trivial Filesystem.** `TfsFormat` states what a sound volume is and what changes keep it
  sound, `Tfs` is the kernel driver, `TfsTool` the host tool, `TfsIds` follows file ids over time,
  and `TfsRuns` shows that every sequence of calls of both, with ids kept open in between, follows
  a plain function on a map from names to bytes.

`Sequences` and `Shifts` hold facts about sequences and right shifts that the others share.

Where the code and its documentation differ the code is followed: the pointer heap descends while
the new value is less than the current one (heap/sequential-heap.c:85), which on ties differs from
the pseudo-code in latex/heap-insert.tex. In `tfs_remove` the bound is tested before the array
element is read (buenos/fs/tfs.c:474-475 has them the other way round; the value read is not used
when the bound fails).

Three promises turn out to hold only under a condition, and the condition is proved exact:

- In a run in which every `process_join` has returned, all of them returned the value of the
  incarnation they were called for if and only if every call found a process in the slot and nobody
  else joining it (`Processes.JoinsMatchExactlyIfCareful`). The parent test at
  buenos/proc/process.c:448 does not secure this: threads that run no process, vacant slots and
  orphans all carry the id -1. `Processes.StrayJoinFromBoot` is a run from boot whose join returns a
  process that did not exist when it was called.
- The file layer keeps the id that an open gave (buenos/fs/vfs.c:563-573), and `vfs_remove` does not
  look whether the file is open (buenos/fs/vfs.c:871-902). An id stays that of its file through every
  operation except the removal of that file (`TfsRuns.Perform`). After a removal the id can be that
  of the next file made, so that a write through it changes that file (`TfsIds.StaleWrite`). For the
  id of an existing file, every write through it is right for a given name if and only if the id is
  that of this name, which opening it again shows, or both files are empty (`TfsIds.RightExactlyIf`).
  `TfsRuns.Run` covers every run in which no file is removed while it is open.
- The signed size comparison of `malloc` is right for every block exactly if the rounded request is
  at most 2^31 + 8 bytes (`Malloc.SplitTestExact`); where it is wrong, what is handed out starts at or
  behind the end of the block (`Malloc.WrongSplitEscapes`).

The two writers of the disk format also differ: a host file stored by the tool takes one data
block more than it needs if its size is a multiple of 512 below the maximum (`TfsTool.BlocksTaken`),
so the tool needs more space than the driver would; the exact success conditions of both are proved.

## Model

| member | source | states |
|---|---|---|
| Machine.InitInv | buenos/kernel/thread.c:70-109 | the state at boot, idle thread alone, satisfies the invariant |
| Machine.StepKeepsInv | buenos/kernel/scheduler.c:83-213 | every step on any CPU (create, run, schedule, sleep, wake, wake all, finish) keeps: ready list = the READY threads once each, sleepers = the threads with a non-zero resource once each, a SLEEPING thread always queued, every RUNNING or DYING thread current on exactly one CPU |
| Machine.EveryRunKeepsInv | buenos/kernel/scheduler.c:83-213 | the same in every state of every run, whatever the interleaving |
| Machine.BoundedWaiting | buenos/kernel/scheduler.c:91-213 | a thread with k threads ahead of it on the ready list is dispatched by exactly the (k+1)-th following scheduling step, whatever arrivals, wakes, sleeps and exits come between |
| Machine.SleepAppends | buenos/kernel/sleepq.c:99-136 | going to sleep appends the thread to the queue of its resource and leaves the queue of every other resource alone |
| Machine.WakeRemovesOldest | buenos/kernel/sleepq.c:148-197 | a wake removes the oldest waiter of its resource and leaves every other queue alone; without a waiter it changes nothing |
| Machine.WakeAllQueues | buenos/kernel/sleepq.c:206-263 | waking all empties the queue of the resource and no other |
| Machine.WakeAllReady | buenos/kernel/sleepq.c:217-259 | the waiters that had left their CPU join the ready list, oldest first, behind those already there |
| Machine.WakeAllRows | buenos/kernel/sleepq.c:217-259 | row by row: exactly the waiters lose their resource, exactly the SLEEPING ones become READY |
| Machine.ThreadLifeCycle | buenos/kernel/scheduler.c:186-213 | the state of every row after every step, from its state before: FREE to NONREADY at its creation, to READY when run, RUNNING exactly when dispatched, SLEEPING or READY when it leaves its CPU, DYING at its own finish, FREE when it leaves its CPU after that, and nothing else |
| Machine.FreeRows | buenos/kernel/scheduler.c:198-199 | a row becomes FREE only by leaving its CPU after its finish, and stops being FREE only by its creation |
| Machine.FinishedIsFreed | buenos/kernel/thread.c:315-337 | over runs: after a thread's finish, whatever steps are taken until its CPU schedules, that schedule makes its row FREE and it can be created again |
| Machine.CreatedRuns | buenos/kernel/thread.c:123-206 | a created thread can be run and then stands last on the ready list |
| Kernel.ThreadTable.ListsAreExact | buenos/kernel/sleepq.c:99-263 | in every valid table, which every method keeps: following the links from head to tail gives exactly the READY threads, from bucket h exactly the sleepers that hash to h, once each; no thread is on two lists; every RUNNING thread is on exactly one CPU |
| Kernel.ThreadTable.constructor | buenos/kernel/thread.c:70-109 | the table at boot is valid and stands for the machine's initial state |
| Kernel.ThreadTable.AddToReadyList | buenos/kernel/scheduler.c:83-102 | appends to the linked ready list; states, resources and chains are unchanged |
| Kernel.ThreadTable.RemoveFirstReady | buenos/kernel/scheduler.c:114-139 | takes the head off the linked list, or gives the idle thread exactly if the list is empty; its assertions cannot fail |
| Kernel.ThreadTable.AddReady | buenos/kernel/scheduler.c:151-165 | is the Run step |
| Kernel.ThreadTable.Schedule | buenos/kernel/scheduler.c:186-213 | is the Schedule step, whose effect Machine.ThreadLifeCycle, FinishedIsFreed and BoundedWaiting pin: the row of a finished thread becomes FREE, a queued one sleeps, any other is requeued last, and the head of the list takes the CPU |
| Kernel.ThreadTable.Finish | buenos/kernel/thread.c:315-337 | is the Finish step |
| Kernel.ThreadTable.FindFree | buenos/kernel/thread.c:133-151 | the cyclic search gives the first FREE row from the cursor on, and fails exactly if none is FREE |
| Kernel.ThreadTable.Create | buenos/kernel/thread.c:123-206 | is the Create step, fails exactly if no row is FREE and then changes nothing; the cursor moves behind the row |
| Kernel.ThreadTable.SleepqAdd | buenos/kernel/sleepq.c:99-136 | the walk to the end of the chain and the link written there are the Sleep step |
| Kernel.ThreadTable.SleepqWake | buenos/kernel/sleepq.c:148-197 | the walk, the unlinking and the requeueing are the Wake step: the row found is the oldest waiter although chains mix resources |
| Kernel.ThreadTable.SleepqWakeAll | buenos/kernel/sleepq.c:206-263 | one pass over the chain that unlinks as it goes is the WakeAll step |
| Semaphores.SemInitInv | buenos/kernel/semaphore.c:62-69 | the table at boot satisfies the semaphore invariant |
| Semaphores.SemStepKeepsInv | buenos/kernel/semaphore.c:82-185 | every step keeps, for every live semaphore: number of queued threads = max(0, -value), and value = initial + V calls - P calls |
| Semaphores.EverySemRunKeepsInv | buenos/kernel/semaphore.c:142-185 | the same in every state of every run |
| Semaphores.PassedExactly | buenos/kernel/semaphore.c:142-185 | P calls that got through are exactly initial value plus V calls less what is still available, so never more than initial plus V calls |
| Semaphores.ValueOverRun | buenos/kernel/semaphore.c:142-185 | over every run that does not destroy the row, its value changes by the V steps less the P steps on it, counted over the run |
| Semaphores.AdmitsExactly | buenos/kernel/semaphore.c:82-185 | in every run that begins with the creation of a semaphore with value v and does not destroy it, the P calls that got through are exactly v plus the V calls less what is available, never more than v plus the V calls, and exactly that while anybody waits; calls are counted over the steps and v is the argument |
| Semaphores.LiveRows | buenos/kernel/semaphore.c:82-128 | a row comes into use only by a creation of it and goes out of use only by a destruction of it |
| Semaphores.DestroyedIsFree | buenos/kernel/semaphore.c:125-128 | a destroyed row can be created again |
| Semaphores.UpReleasesOldest | buenos/kernel/semaphore.c:171-185 | V on a semaphore in deficit finds a waiter and releases exactly the oldest; it ends up ready, or still on its CPU with nothing to sleep on |
| Semaphores.LeavingAfterWakeup | buenos/kernel/scheduler.c:198-206 | a thread that leaves its CPU goes to sleep, and stays queued, exactly if it has not been released since it queued itself; otherwise it is ready or runs on |
| Machine.StaysAwake | buenos/kernel/scheduler.c:186-213 | a RUNNING thread with nothing to sleep on stays so in every continuation until it acts itself |
| Semaphores.NoLostWakeup | buenos/kernel/sleepq.c:159-193 | no lost wakeup over runs: a thread released between queueing itself and leaving its CPU stays RUNNING with nothing to sleep on whatever the other CPUs do, and when it leaves it is ready |
| Semaphores.ProjectedRunValid | buenos/kernel/semaphore.c:142-185 | every run with semaphores is, for the threads, a run of the thread machine with the same scheduling steps |
| Semaphores.WaiterIsDispatched | buenos/kernel/semaphore.c:171-185 | a waiter with k ahead of it is released by the (k+1)-th V and, if it slept, dispatched once as many scheduling steps as the ready list is then long have been taken |
| Semaphores.ReleasedInOrder | buenos/kernel/semaphore.c:171-185 | a thread with k waiters ahead is released by exactly the (k+1)-th following V on that semaphore |
| Semaphores.SemaphoreTable.Create | buenos/kernel/semaphore.c:82-116 | takes the first unreserved row from the cursor on, cyclically, gives it exactly the value asked for, and moves the cursor behind it; fails exactly if all are reserved and then changes nothing |
| Semaphores.SemaphoreTable.Destroy | buenos/kernel/semaphore.c:125-128 | frees the row of a semaphore nobody waits for |
| Semaphores.SemaphoreTable.P | buenos/kernel/semaphore.c:142-158 | the locked section is the Down step on table, sleep queue and counters |
| Semaphores.SemaphoreTable.V | buenos/kernel/semaphore.c:171-185 | the locked section is the Up step |
| Processes.BootIsAFamily | buenos/proc/process.c:203-209 | the process table at boot satisfies all invariants below |
| Processes.ProcStepKeepsInv | buenos/proc/process.c:192-472 | every step keeps: nobody sleeps on a zombie, a zombie holds the value its incarnation finished with, an active slot has one runner, no incarnation is reaped twice |
| Processes.SlotLifeCycle | buenos/proc/process.c:192-231 | a slot only moves FREE to RUNNING to ZOMBIE to FREE, an allocation starts a new incarnation, and only a returning join frees a zombie |
| Processes.JoinProtocol | buenos/proc/process.c:398-472 | in every state of every run from boot nobody sleeps on a zombie, every returned value is the one its incarnation passed to process_finish, and no incarnation was reaped twice |
| Processes.JoinsMatchExactlyIfCareful | buenos/proc/process.c:441-472 | in every run from boot in which every join has returned: all returned the incarnation they were called for if and only if every call found a process in the slot and nobody joining it |
| Processes.SpawnersAreCareful | buenos/proc/process.c:447-451 | if threads without a process join only slots they allocated and have not joined since, every call is such a careful one, processes' own calls included |
| Processes.JoinReturnsAskedIncarnation | buenos/proc/process.c:441-472 | under that rule every join of every run returns the incarnation it was called for |
| Processes.VacantJoinNeverMatches | buenos/proc/process.c:447-451 | a join called on a vacant slot can only return a later incarnation |
| Processes.StrayJoinFromBoot | buenos/proc/process.c:237-472 | on every machine with three CPUs, three threads and a slot a run from boot, with the process spawned and run by a new thread as in process_spawn, leaves no join pending and its join returned a process that did not exist at the call |
| Processes.ProcessTable.AllocId | buenos/proc/process.c:213-231 | takes the first vacant slot, reports a full table exactly if there is none |
| Processes.ProcessTable.CreateThread | buenos/kernel/thread.c:123-180 | is the Create step for the process table too: the row taken runs no process; fails exactly if no row is FREE |
| Processes.ProcessTable.WriteParent | buenos/proc/process.c:249-250 | is the SetParent step: the slot's parent is the spawner's own process |
| Processes.ProcessTable.TakeProcessId | buenos/proc/process.c:86-88 | is the Start step: the current thread takes the process id |
| Processes.ProcessTable.FinishProcess | buenos/proc/process.c:398-436 | is the Exit step: value and state written, children orphaned, all joiners woken |
| Processes.ProcessTable.JoinAllowed | buenos/proc/process.c:447-451 | the legality test, as the JoinCall step has it |
| Processes.ProcessTable.JoinTurn | buenos/proc/process.c:456-467 | one turn of the wait loop is the JoinTry step: queue up, or reap the zombie and return the value its incarnation finished with |
| Families.SpawnRecordsParent | buenos/proc/process.c:237-261 | after the parent write the slot holds a process whose parent is the spawner's process, and no other spawner is at that slot |
| Families.SpawningStep | buenos/proc/process.c:237-250 | between taking its slot and writing the parent a spawner keeps slot and process whatever the others do |
| Families.ParentMayJoin | buenos/proc/process.c:447-451 | over runs: from the parent write until the slot is freed by a join or the parent finishes, a join on the slot is legal for a thread at work if and only if that thread runs the parent |
| Families.ExitOrphansChildren | buenos/proc/process.c:426-430 | at a finish exactly the children of that process lose their parent, and no process may join those any more |
| Families.NewThreadCanStart | buenos/proc/process.c:252-258 | over runs: a created thread, whatever its row was used for before, runs no process until it takes one, and once it runs it can start any spawned process that is not started |
| Families.StartedCanFinish | buenos/proc/process.c:398-412 | over runs: the thread that starts a process stays its only runner until it finishes it; the slot stays active, the finish is possible whenever it is at work, and leaves a zombie with that value |
| Families.JoinQueues | buenos/proc/process.c:456-458 | a join that finds no zombie queues its thread last on that slot |
| Families.WaitsUntilExit | buenos/proc/process.c:456-462 | over runs: a thread queued on a slot stays queued there until the process of that slot finishes |
| Families.ExitReleases | buenos/proc/process.c:419-421 | the finish releases every thread that waits for the process: none stays queued, each is ready or runs on |
| Families.ReturnsWhatWasPassed | buenos/proc/process.c:398-472 | in every run from boot, for every join that returned there is a step of the run at which the incarnation it reaped called process_finish with exactly that value |
| HeapOrder.TopDownIsArrayInsert | heap/sequential-heap.c:57-100 | walking down and shifting the rest of the path gives the same level order as appending and sifting up while the new value is not less than its parent |
| HeapOrder.InsertKeepsOrder | heap/sequential-heap.c:57-100 | insertion keeps heap order |
| HeapOrder.EveryInsertSequence | heap/sequential-heap.c:120-130 | any sequence of insertions gives an ordered heap of as many slots as insertions holding exactly the multiset of inserted values |
| HeapOrder.RootIsMaximal | heap/sequential-heap.c:152-177 | the root is not less than any value |
| HeapOrder.AboveDepth | heap/sequential-heap.c:78-82 | going up floor(log2 n) times from slot n leads to the root: the bits below the top bit spell the path |
| PointerHeap.Heap.constructor | heap/sequential-heap.c:104-110 | an empty heap is valid |
| PointerHeap.Heap.WalkDown | heap/sequential-heap.c:78-90 | the first loop stops at the slot the value algorithm stops at, with the mask at the next unused bit of the path |
| PointerHeap.MergeOnPath | heap/sequential-heap.c:57-76 | the second loop pushes the displaced nodes down the rest of the path; together with the first it uses the bits below the top bit once each, so the mask is never zero when tested |
| PointerHeap.Heap.InsertOnPath | heap/sequential-heap.c:78-100 | the relinked nodes are again a complete tree, in the level order of the value algorithm, no node lost or shared |
| PointerHeap.Heap.Insert | heap/sequential-heap.c:120-130 | order, completeness and node count are kept, the level order is that of the array insertion, the nodes are the old ones and one fresh one; without memory only the error is reported |
| PointerHeap.BuildHeap | heap/sequential-heap.c:120-130 | inserting values one after another into a new heap gives a valid heap whose level order is that of the same array insertions and whose values are exactly those inserted |
| PointerHeap.Heap.Cardinality | heap/sequential-heap.c:141-150 | the recursion counts the slots of the subtree |
| PointerHeap.Heap.SubheapIsValid | heap/sequential-heap.c:152-177 | true exactly if no node of the subtree exceeds its parent |
| PointerHeap.Heap.IsValid | heap/sequential-heap.c:179-192 | every heap built by insertions is accepted and its counted nodes are n_nodes |
| PointerHeap.Heap.Show | heap/sequential-heap.c:194-224 | the walk visits slots 1 to n in order, each node once, with children of the k-th at 2k and 2k+1, and reads only queue cells it has written |
| Bitmap.Get | buenos/lib/bitmap.c:89-100 | reads the bit at that position |
| Bitmap.Set | buenos/lib/bitmap.c:112-129 | changes exactly one bit |
| Bitmap.Init | buenos/lib/bitmap.c:70-78 | all bits of the bitmap are clear |
| Bitmap.FindNSet | buenos/lib/bitmap.c:142-173 | skipping full words finds and sets exactly the first clear bit below the length, or fails exactly if there is none |
| Bitmap.ScanAll | buenos/util/tfstool.c:670-685 | the plain scan has the same result and effect |
| Bitmap.CountClearUpdate | buenos/vm/pagepool.c:109-160 | setting or clearing a bit changes the number of clear bits by what it should |
| Bitmap.CountClearZero | buenos/vm/pagepool.c:116-126 | no clear bit is left exactly if the search fails |
| PagePool.Pool.constructor | buenos/vm/pagepool.c:74-101 | the static pages are marked, the counter is the number of the others |
| PagePool.Pool.GetPhysPage | buenos/vm/pagepool.c:109-131 | hands out the lowest page that is neither static nor handed out, 0 exactly if the counter is 0; the counter stays the number of clear bits and the assertion cannot fail |
| PagePool.Pool.FreePhysPage | buenos/vm/pagepool.c:139-160 | gives back exactly that page |
| PageTable.LookupUpdate | buenos/vm/vm.c:148-186 | rewriting one half of an entry changes the mapping of one page and no other |
| PageTable.Table.constructor | buenos/vm/vm.c:79-99 | a new table maps nothing, whatever the memory held |
| PageTable.Table.Map | buenos/vm/vm.c:132-202 | maps exactly one page more; panics exactly if the page is mapped already or a new entry is needed and the table is full, and then nothing has changed; pairs stay distinct |
| PageTable.Table.SetDirty | buenos/vm/vm.c:229-260 | changes the write bit of exactly one page; panics exactly if the page is not mapped |
| PageTable.Table.OnMiss | buenos/vm/tlb.c:66-97 | the scan loads an entry exactly if the map defines the faulting page, and it is the entry that maps it |
| Fork.CopyAddressSpace | buenos/proc/process.c:299-331 | the child maps copies of exactly the parent's pages in frames taken since; memory in other frames is unchanged; it takes one frame a page and stops early, where the kernel panics, exactly if the pool has fewer |
| Fork.ChildIsACopy | buenos/proc/process.c:299-331 | same pages, same write bits, same contents, frames pairwise distinct and none of the parent's |
| Malloc.Rounded | buenos/tests/lib.c:747-752 | at least the request and two words, whole words, less than a word more |
| Malloc.SplitTestExact | buenos/tests/lib.c:759-760 | the signed test decides rightly for every block if and only if the request is at most 2^31 + 8 |
| Malloc.WrongSplitEscapes | buenos/tests/lib.c:759-767 | wherever the signed test lets too small a block be split, the header of what is handed out is written at or behind the block's end |
| Malloc.HugeRequest | buenos/tests/lib.c:759-767 | so it is with a request of 2^31 + 12 bytes and a free block of 12 bytes |
| Malloc.Heap.FirstFit | buenos/tests/lib.c:756-777 | finds the first free block big enough and its predecessor on the list, or that there is none |
| Malloc.CutIsTight | buenos/tests/lib.c:759-772 | what is cut from a free block has at least the requested bytes and less than 12 more, and the free bytes fall by exactly that payload and its header |
| Malloc.Heap.Malloc | buenos/tests/lib.c:738-789 | NULL exactly for size 0 or if nothing fits and the kernel refuses; otherwise a new payload of at least the rounded request and less than 12 bytes more. If a block fits, the first that does is used: one with at least 12 bytes to spare keeps the rest as a free block at its own address and what is handed out is its upper end, any other is handed out whole, and the free bytes fall by exactly payload and header; if none fits the payload starts behind the old heap end. All other blocks, payloads and their words are untouched and the heap is valid again |
| Malloc.Heap.Free | buenos/tests/lib.c:792-832 | takes exactly that payload out, all others and their words untouched, list sorted and coalesced again; NULL is a no-op |
| Malloc.TilesTotal | buenos/tests/lib.c:780-788 | the blocks of a valid heap add up to the distance from first base to heap end |
| Malloc.TilesOrder | buenos/tests/lib.c:802-808 | blocks in list order lie at increasing addresses, and touch exactly if they are neighbours |
| Malloc.PayloadsDisjoint | buenos/tests/lib.c:738-789 | different live payloads share no byte |
| Malloc.PayloadWriteKeepsHeap | buenos/tests/lib.c:738-832 | a program writing inside its payload disturbs neither the heap nor another payload |
| Malloc.NothingLive | buenos/tests/lib.c:792-832 | once everything is freed the list is one block that covers the heap |
| Malloc.MergeOk | buenos/tests/lib.c:814-827 | merging two touching free blocks keeps tiling, headers, list and payloads |
| Malloc.InsertOk | buenos/tests/lib.c:807-812 | linking a block in keeps the list in address order and takes out exactly one payload |
| TfsFormat.AddFile | buenos/fs/tfs.c:336-396 | a file on free blocks in a free entry: the volume stays sound and has exactly this file more |
| TfsFormat.DropFile | buenos/fs/tfs.c:472-497 | taking a file out and giving its blocks back: sound, exactly this file less |
| TfsFormat.ChangeFile | buenos/fs/tfs.c:690-767 | changing data blocks of one file: sound, metadata, ownership and every other file unchanged |
| TfsFormat.UnownedWrites | buenos/util/tfstool.c:265-271 | writing to free blocks changes no file |
| TfsFormat.Conservation | buenos/fs/tfs.c:782-808 | on every sound volume clear bits, owned blocks and the three system blocks add up to the disk |
| TfsFormat.BlockSplice | buenos/fs/tfs.c:705-722 | changing part of one block replaces exactly the matching bytes of the file |
| Tfs.Open | buenos/fs/tfs.c:208-238 | the inode block of the named file, not found exactly if there is none |
| Tfs.ScanDirectory | buenos/fs/tfs.c:301-312 | says if the name is there, and gives the last free entry |
| Tfs.Mount | buenos/fs/tfs.c:131-138 | accepts a disk exactly if its header carries the magic number, and then gives the name in the header |
| Tfs.LeastBlocks | buenos/fs/tfs.c:277-286 | the number of blocks computed is the least that holds the size: k blocks hold it if and only if k is at least that number, which is 0 only for size 0 |
| Tfs.Create | buenos/fs/tfs.c:272-404 | succeeds exactly if the size is at most 65024 bytes, the name is new, an entry is free, and so are one block and the least number of blocks that hold the size; then the file is there with that many zero bytes, its inode on the first free block, all its blocks free before, every other file keeps bytes and inode, no block but its own, the allocation block and the directory changes, and free space is lower by exactly that many blocks; otherwise the disk is unchanged |
| Tfs.Remove | buenos/fs/tfs.c:416-506 | succeeds exactly if the file exists; then exactly this file is gone, exactly its blocks are free again, every other file keeps bytes and inode, and no block but the allocation block and the directory changes; otherwise the disk is unchanged |
| Tfs.Read | buenos/fs/tfs.c:524-624 | on an id out of range an error; on one whose block reads as an inode, of an existing or a removed file, error exactly for an offset outside the size, otherwise min(bufsize, size - offset) bytes, exactly that slice, the rest of the buffer unchanged |
| Tfs.Write | buenos/fs/tfs.c:641-771 | same error cases, disk then unchanged; otherwise exactly bytes [offset, offset + n) of the inode's blocks are replaced, n = min(datasize, size - offset); no other byte of those blocks and no other block changes |
| Tfs.WriteThroughOwnId | buenos/fs/tfs.c:641-771 | through the id of an existing file that is a write to this file: its bytes are replaced as they should be, and no other file and no metadata changes |
| Tfs.VacancyMeansRoom | buenos/fs/tfs.h:97 | a directory entry is free exactly if there are fewer than 25 files |
| TfsIds.SurvivesAdd | buenos/fs/tfs.c:272-404 | an id stays that of its file when another file is made |
| TfsIds.SurvivesRemove | buenos/fs/tfs.c:416-506 | an id stays that of its file exactly if another file is removed |
| TfsIds.SameIdAgain | buenos/fs/tfs.c:332-341 | a file made right after another one was made and removed gets the same id |
| TfsIds.StaleWrite | buenos/fs/vfs.c:871-902 | on every volume with room: make and open a file, remove it, make another one; the write through the first id changes the second file |
| TfsIds.StaleWriteOnNewVolume | buenos/fs/vfs.c:871-902 | that run on a new volume leaves the byte written to "a" in "b" |
| TfsIds.StaleAfterRemove | buenos/fs/tfs.c:472-497 | right after a removal the old id still reads as an inode, and the blocks it names are free |
| TfsIds.LostWrite | buenos/fs/tfs.c:641-771 | a write through an id whose blocks are free changes no file |
| TfsIds.RightExactlyIf | buenos/fs/tfs.c:641-771 | for the id of an existing file: every write through it is right for a name if and only if the id is that of this name or both files are empty |
| Tfs.GetFree | buenos/fs/tfs.c:782-808 | 512 times the blocks neither system nor owned |
| TfsTool.CreateVolume | buenos/util/tfstool.c:164-220 | refuses sizes below 3; otherwise a disk of that size that passes the driver's mount test and carries the name given, and whose first 4096 blocks, all that an allocation block can describe, are a sound volume without files and with all other blocks free |
| TfsTool.ScanFirst | buenos/util/tfstool.c:251-259 | says if the name is there, and gives the first free entry |
| TfsTool.BlocksTaken | buenos/util/tfstool.c:283-297 | the least number of blocks that hold the source, and one more exactly if its size is a multiple of 512 below the maximum |
| TfsTool.CopyIn | buenos/util/tfstool.c:282-297 | the loop stores the source block by block until its end or the maximum, or stops exactly when blocks run out; the bound on turns never ends it; it writes to free blocks only |
| TfsTool.WriteFile | buenos/util/tfstool.c:224-336 | succeeds exactly if the source is at most 65024 bytes, the name is new, an entry is free and there are blocks for inode and data, the extra block counted; then exactly this file is added with exactly the source's bytes, every other file keeps bytes and inode, and no block but its own, the allocation block and the directory changes; otherwise no file and no used block changes |
| TfsTool.ReadFile | buenos/util/tfstool.c:340-399 | gives exactly the bytes of the named file, also with an extra empty block at its end |
| TfsTool.DeleteFile | buenos/util/tfstool.c:441-500 | as the driver's remove |
| TfsRuns.Perform | buenos/fs/tfs.c:272-771 | each driver or tool operation does to names, bytes, block counts and free space what the plain function does, succeeds exactly when it says, and keeps every id but those of a file it removes |
| TfsRuns.Do | buenos/fs/vfs.c:516-902 | each call of a session, reads and writes through ids kept since an open included, does and answers what the session's function says |
| TfsRuns.Run | buenos/fs/tfs.c:272-771 | every sequence of calls on a sound volume in which no file is removed while it is open: the volume stays sound and of the same size, files, free space and every reply are those of the function, and free blocks, blocks of files and system blocks add up to the disk |
| TfsRuns.RunFresh | buenos/util/tfstool.c:164-220 | the same from a new volume, starting with no files and size - 3 free blocks |
| TfsRuns.RemoveUndoes | buenos/fs/tfs.c:416-506 | removing a file just created or stored gives back files and free space exactly as before |
| TfsRuns.HandleLifeCycle | buenos/fs/vfs.c:516-643 | a handle is open on a file exactly from the open that gave it to its close |
| TfsRuns.ReadsCurrentBytes | buenos/fs/vfs.c:725-760 | over every safe run in which it is not closed, a handle answers a read with the bytes its file has at that time |
| TfsRuns.ReadAfterWrite | buenos/fs/tfs.c:524-771 | a read after a write delivers the written bytes where they overlap and the old bytes elsewhere |
| TfsRuns.StoreAndFetch | buenos/util/tfstool.c:273-392 | a file stored by the tool reads back byte for byte through the tool and through the driver's open and read, for every size that fits |

## Left out

- heap/concurrent-heap.c: the same code as the sequential file, its locking is not written.
- Node values: a node's value is fixed at its creation; `node_free` and `heap_clear` are not modelled.
- Assembly, boot code, interrupt masks and spinlocks: a section under a lock is one atomic step.
- Drivers, the network, formatted printing, system call dispatch, ELF loading; of `process_start` only the process id it takes is modelled.
- buenos/fs/vfs.c: the driver is called with what the file layer passes on: sizes and counts that are not negative and names of 1 to 15 characters. Of the file layer itself only the table of ids is modelled, with handles that are not reused and without its size limit and seek positions.
- TFS crash consistency and failing block transfers: every block transfer succeeds.
- Tfs.Read: does not model a block that no longer holds an inode being read as one, which happens once the inode block of a removed file has become a data block of another, or one of the blocks it names an inode block: block contents are typed, not bytes.
- Tfs.Write: the same as for Tfs.Read.
- TfsRuns.Run: calls on disks of more than 4096 blocks, which the driver cuts off there and the tool does not.
- Malloc.Heap.Malloc: does not model what happens to the heap after a request above 2^31 + 8 bytes, because the source then writes behind the block (Malloc.WrongSplitEscapes).
- Byte order and packed fields: integers, bitmap words and directory, inode and data blocks are modelled as such, not as bytes.
- Destroying a semaphore somebody waits for: the source notes the race itself.
- Semaphores.SemaphoreTable.P: the context switch after the locked section is the separate Schedule step.
- Executable name and open files of a process slot, process_memlimit, page-table address-space and cache bits.
- Finding the parent thread by process id in fork: the parent's page table is given.
- Frames of finished processes: the source frees only the page-table page, so no conservation of frames across process lifetimes is claimed.
- What the miss handler does after reporting an error in buenos/vm/tlb.c.
- realloc and calloc.
- Interleavings inside one sleepq_wake_all: the thread table's lock is released between two wakeups (buenos/kernel/sleepq.c:247-257), so another CPU's scheduler can run inside what is here one step of process_finish.
- In the process model a thread without a process may start any spawned slot; in the source it is the thread that process_spawn made for it.
- tfstool_list, unmounting, and the semaphore and memory that mounting takes.
- Volume names are those left after the tool has cut them to 15 characters (buenos/util/tfstool.c:109-110).

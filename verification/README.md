# Verified models of userfs, thread_pool, libcoro with its merge sort, and heap_help

Dafny models of five hand-written C components of this repository, and proofs about them. Each component
whose code updates linked structures in place is modelled twice and the two are tied together:

* as heap objects with the fields of the C structures, whose methods follow the C functions statement by
  statement (`FileChain`, `UserFs`, `PoolHeap`, `LibCoro`, `SortJob`, `Solution`, `Tracker`);
* as a value and a step function (`Chunks`, `FlatFs`, `PoolModel`, `CoroModel`, `SortProgram`, `TimedRun`,
  `TrackerModel`).

Every heap class has a ghost field `view`. Each operation is proved to change `view` exactly as the step function
says and to leave the pointers, flags and counters showing it; a `Replay` method extends this to any run. The
properties of single calls and of whole runs (`FlatCalls`, `FlatRuns`, `FlatPromises`, `PoolCalls`, `PoolRuns`,
`PoolClients`, `PoolDetach`, `PoolDrops` and the lemmas of the machines) are proved about the step functions, so they
hold of the linked structures.

| file | what it models |
|---|---|
| Chunks.dfy | the cursor loops of write, read and resize over a file's pieces, against flat byte strings |
| FileChain.dfy | a file as a doubly linked chain of 512-byte blocks |
| FlatFs.dfy, FlatRuns.dfy | the flat file system: name to bytes, descriptor to cursor; its properties over runs |
| FlatPromises.dfy | the promises of userfs.h the code does not keep: when it does, and runs that break them |
| FlatCalls.dfy | what every call does, told by what its callers see; what follows for the calls after it |
| UserFs.dfy | the name list, the growable descriptor table and the six operations |
| PoolModel.dfy, PoolInvariant.dfy | the thread pool as a machine of critical sections, and its invariant |
| PoolRuns.dfy, PoolClients.dfy | draining, wakeups, counters; joins, deletes, the end of the pool |
| PoolDetach.dfy, PoolDrops.dfy | when a detached task is freed, and when never; which steps lose work |
| PoolCalls.dfy | what push, join and delete answer; over runs, by the calls made |
| PoolJoiners.dfy | any number of joiners of one push |
| PoolHeap.dfy | the pool's doubly linked list, the tasks' push lists, every critical section |
| CoroModel.dfy, LibCoro.dfy | the coroutine scheduler as a machine, and over its doubly linked list |
| MergeSort.dfy | `get_sorted_numbers` and `merge_sorted_arrays` |
| SuspendedSort.dfy | the same recursion left at every yield with its calls open, and continued from there |
| SortProgram.dfy | the sorting coroutines under any interleaving |
| WorkTime.dfy, TimedRun.dfy | the timestamps, and the readings of the clock along any interleaving |
| SortJob.dfy, Solution.dfy | what a coroutine does between two switches, and the whole program |
| TrackerModel.dfy, Tracker.dfy | the allocation tracker |
| Wrappers.dfy | the option type |

## Where the code and its documentation disagree

The models follow the code. For each promise there is the exact condition under which the code keeps it, and a run from
the initial state that breaks it.

* `ufs_resize` is documented to grow and shrink a file to any size (userfs.h:144-155). It does so only for a positive
  multiple of 512, for a size below the current one, and for 0 on a file without blocks; otherwise line 397 underflows
  or line 431 walks freed blocks. Condition: `ResizeDefined`, `FileChain.File.Resize` and `ResizeBreaks`; runs:
  `ResizeFaults`.
* After a shrink, descriptors behind the new end "should proceed from the new file end" (userfs.h:150-151). The code
  never moves them. Condition, by the calls made since: `ShrunkResumes`; run: `ResumesElsewhere`.
* A write is refused when `bytes_left` is too small, and `bytes_left` is charged for overwritten bytes as well.
  Condition: `RefusalExact`; run: `RefusedThoughItFits`.
* `ufs_open` returns 0 for the lowest descriptor, although userfs.h:82 promises a value above 0. Condition:
  `OpenPositive`; run: `OpenReturnsZero`.
* A file opened with UFS_READ_ONLY can "only" be read (userfs.h:43), but any of the other flags still allows writing.
  Condition: `ReadOnlyMayWrite`; run: `ReadOnlyIsWritten`. The same goes for UFS_WRITE_ONLY and reading
  (userfs.h:46-49): `WriteOnlyMayRead`, `WriteOnlyIsRead`.
* A timed join that times out is documented to do nothing (thread_pool.h:143). It leaves `is_joined` set, so a later
  `thread_task_delete` frees a push that never ran. Condition: `DeleteDropsWork`; run: `TimedOutJoinUnlocksDelete`.
* A detached task is documented to be deleted when it finishes (thread_pool.h:165-168). When it was pushed before and
  that push was not joined, it is not deleted, then or ever. Condition: `FinishFrees` and `DetachFrees`; run:
  `DetachedTwice`, after which the pool can never be deleted (`NeverFreed`).
* When a join gave up on an earlier push of it, and all others are joined, a detached task is deleted although that push
  is still pending or running. Condition: `DetachDropsWork` and `FinishDropsWork`; run: `PushIsLost`. A detach after a
  timed-out join of the only push is harmless: `DetachedAfterTimeOut`.
* thread_task_join is documented to wait until the task is finished (thread_pool.h:118). Of several threads that wait
  for one push, line 322 wakes one, and the others wait for ever: `OneIsServed`, with the exact condition in
  `AllAreServed`.

## What callers must respect

* `ufs_write` of nothing to a file without blocks reads through a null pointer (line 215), and resize has the two
  faults above. These are replies of the model, not preconditions; a run ends there.
* Pool clients: one joiner of a task at a time; a task is not touched after detach, nor detached during a join; nothing
  is pushed once the pool is being deleted (`PoolModel.Disciplined`). The properties of whole runs are about any such
  run up to the first step that drops work (`PoolModel.Drops`). No step does for clients that delete a task only when
  every join of it has returned and none gave up on an unfinished push, and detach it only when none gave up on an
  earlier one (`PoolDrops.Careful`, `CarefulRuns`).
* The sort starts from at least one file and one coroutine, and from non-empty arrays: `get_sorted_numbers` does not
  terminate on length 0.

## Model

| member | source | states |
|---|---|---|
| Chunks.WriteRefines | homework03/userfs.c:185-217 | the write loop over the blocks replaces the bytes from min(offset, length) on and extends the file as needed; the blocks stay full up to the first non-full one and empty after it; their number is what the length needs, never fewer than before |
| Chunks.ShapedIsTight | homework03/userfs.c:43-50 | two readings of the shape of a chain agree: by pairs of blocks, and from the head on |
| Chunks.ReadRefines | homework03/userfs.c:245-271 | the read loop returns content[offset..min(offset+size, length)] |
| Chunks.ReadPastEnd | homework03/userfs.c:261-263 | a cursor behind the end reads nothing |
| Chunks.ResizeDefined | homework03/userfs.c:392-414 | the sizing loop ends iff the size is a multiple of 512 or below the current length |
| Chunks.ResizeRefines | homework03/userfs.c:389-440 | where it ends, resize leaves content[..min(size, length)] in exactly ceil(size/512) blocks of the same shape |
| Chunks.WrapNeverEnds | homework03/userfs.c:394-398 | once new_size has underflowed in size_t arithmetic, no number of iterations brings it to zero |
| FileChain.Block.Fill | homework03/userfs.c:206-209 | one memcpy into a block patches exactly the bytes it holds |
| FileChain.Block.Shrink | homework03/userfs.c:405-409 | the block keeps its first bytes, in new memory |
| FileChain.File.constructor | homework03/userfs.c:126-135 | a new file has no blocks and its whole budget |
| FileChain.File.Attach | homework03/userfs.c:528-537 | the new block becomes the end of the doubly linked chain |
| FileChain.File.CreateBlock | homework03/userfs.c:516-540 | an empty block is appended; links, tail and contents stay consistent |
| FileChain.File.WriteLoop | homework03/userfs.c:185-212 | the loop over real blocks computes the piecewise write, whatever the cursor |
| FileChain.File.Write | homework03/userfs.c:185-221 | the chain holds the piecewise write and is valid; the tail walk reads a null head iff nothing is written to a file without blocks |
| FileChain.File.Read | homework03/userfs.c:245-271 | the bytes read go to the front of the buffer, the rest of the buffer and the chain are untouched |
| FileChain.File.ResizeLoopBlocks | homework03/userfs.c:392-414 | the loop over real blocks shrinks, keeps or creates blocks as the sizing recursion says, and detects the underflow |
| FileChain.File.CutBefore | homework03/userfs.c:416-420 | the chain ends before the given block, tail included |
| FileChain.File.FreeRun | homework03/userfs.c:422-428 | every block from the cursor on is freed exactly once |
| FileChain.File.Trim | homework03/userfs.c:416-428 | dropping the rest of the chain is sound unless the head itself is dropped, which leaves a dangling head |
| FileChain.File.Count | homework03/userfs.c:430-437 | the counting loop finds the length of the content |
| FileChain.File.Resize | homework03/userfs.c:389-440 | ends normally, by underflow, or in freed blocks, each iff the stated condition; where normal, chain, content and bytes_left are as specified |
| FileChain.File.FreeMemory | homework03/userfs.c:560-573 | all blocks are freed and the file is empty |
| FlatFs.FullTable | homework03/userfs.c:499-509 | pigeonhole: the descriptor count equals the capacity iff the scan finds no free slot |
| FlatFs.SlotExists | homework03/userfs.c:480-513 | after growth there is always a free slot; growth keeps every slot and every count |
| FlatFs.Step | homework03/userfs.c:118-441 | every operation keeps the invariant (reference counts, slot count, distinct listed names, lifetimes, length + bytes_left within the maximum), and a failing one changes nothing |
| FlatFs.Run | homework03/userfs.c:118-441 | any run keeps the invariant |
| FlatFs.OpenInv | homework03/userfs.c:118-158 | opening keeps the invariant, also when it creates the file and grows the table |
| FlatFs.WriteInv | homework03/userfs.c:160-224 | writing keeps the invariant; no file outgrows the maximum |
| FlatFs.ReadInv | homework03/userfs.c:226-275 | reading keeps the invariant |
| FlatFs.CloseInv | homework03/userfs.c:277-299 | closing keeps refs equal to the number of descriptors, and frees the file iff it is unlisted and this was the last |
| FlatFs.DeleteInv | homework03/userfs.c:301-332 | unlinking keeps names distinct and in creation order, and frees the file iff nobody has it open |
| FlatFs.ResizeInv | homework03/userfs.c:366-441 | resizing keeps the invariant |
| FlatFs.NoDangling | homework03/userfs.c:285-294 | a valid descriptor always refers to a live file |
| FlatRuns.StepIsolates | homework03/userfs.h:128-135 | an operation changes the bytes of a live file only through descriptors of that file |
| FlatRuns.RunIsolates | homework03/userfs.h:128-135 | over any run, a file not written or resized through its own descriptors keeps its bytes: deleting it and creating a namesake changes nothing |
| FlatRuns.StepKeepsDescriptors | homework03/userfs.c:490-497 | an open descriptor changes only by operations that name it, table growth included |
| FlatRuns.RunKeepsDescriptor | homework03/userfs.c:490-497 | over any run, an open descriptor changes only by calls that name it, table growth included |
| FlatRuns.OpenTakesLowest | homework03/userfs.c:118-158 | an open takes the lowest free slot; it fails iff the name is not listed and UFS_CREATE is not given |
| FlatRuns.RecreateIsFresh | homework03/userfs.h:131-134 | after an unlink, the same name creates another, empty file |
| FlatRuns.WriteTwice | homework03/userfs.c:185-221 | two writes in a row do what one write of both buffers does |
| FlatRuns.WriteSplit | homework03/userfs.c:185-221 | a buffer written in any non-empty pieces leaves the state one write of it leaves: content, blocks, offset and budget |
| FlatRuns.ReadTwice | homework03/userfs.c:245-274 | two reads in a row do what one read does |
| FlatRuns.ReadSplit | homework03/userfs.c:245-274 | reads of any sizes return together what one read of their sum returns, and leave the same state |
| FlatRuns.ReadBack | homework03/userfs.c:205-207 | what was written is read back through another descriptor that stands where the write landed |
| FlatRuns.StepCharges | homework03/userfs.c:220 | an accepted write charges the budget by its size and nothing else does |
| FlatRuns.RunCharges | homework03/userfs.c:220 | until it is resized, a file is charged for every byte written to it over any run |
| FlatRuns.TooLongIsRefused | homework03/userfs.c:179-183 | a write that would make the file too long is always refused |
| FlatRuns.RefusalExact | homework03/userfs.c:179-183 | only such writes are refused, iff the descriptor stands where the charged bytes end |
| FlatRuns.AppendsPastEnd | homework03/userfs.c:197 | a descriptor at or past the end appends, over any run of its own writes |
| FlatPromises.StepGrows | homework03/userfs.c:185-221 | a call that is not a resize of the file makes it longer only by an accepted write that ends past its end, and never shorter |
| FlatPromises.RunGrows | homework03/userfs.c:185-221 | over a run without a resize of the file, it is at most size long iff every accepted write to it ended at or before size |
| FlatPromises.ShrunkResumes | homework03/userfs.h:150-151 | after a shrink and any run of other calls, a descriptor behind the new end proceeds from it iff no accepted write to the file ended past it |
| FlatPromises.ResumesElsewhere | homework03/userfs.h:150-151 | a run from the empty file system after which it writes at its old cursor |
| FlatPromises.ResizeBreaks | homework03/userfs.h:144-155 | resize underflows iff the size is neither a multiple of 512 nor below the length, and walks freed blocks iff a file with blocks is sized to 0 |
| FlatPromises.ResizeFaults | homework03/userfs.h:144-155 | a run for each of the two faults |
| FlatPromises.NullHeadFault | homework03/userfs.c:214-216 | a run that reads through a null head |
| FlatPromises.RefusedThoughItFits | homework03/userfs.c:179-183 | a run after which a write that leaves the length of the file as it is is refused |
| FlatPromises.OpenPositive | homework03/userfs.h:82 | an open that succeeds returns a value above 0 iff slot 0 is occupied |
| FlatPromises.OpenReturnsZero | homework03/userfs.h:82 | the first open returns 0 |
| FlatPromises.ReadOnlyMayWrite | homework03/userfs.h:41-44 | a file opened with UFS_READ_ONLY cannot be written through that descriptor iff no other flag is given |
| FlatPromises.ReadOnlyIsWritten | homework03/userfs.h:41-44 | a run that writes through a descriptor opened with UFS_CREATE and UFS_READ_ONLY |
| FlatPromises.WriteOnlyMayRead | homework03/userfs.h:45-49 | a file opened with UFS_WRITE_ONLY cannot be read through that descriptor iff no other flag is given |
| FlatPromises.WriteOnlyIsRead | homework03/userfs.h:45-49 | a run that reads through a descriptor opened with UFS_CREATE and UFS_WRITE_ONLY |
| FlatCalls.Permissions | homework03/userfs.h:33-58 | what each flag allows, by its bits: UFS_CREATE and no flags at all allow both reading and writing |
| FlatCalls.Opened | homework03/userfs.c:118-158 | an accepted open makes one descriptor valid that was not, at offset 0 with the permissions of its flags, on the file listed under the name, which is a new empty one exactly if there was none; nothing else changes |
| FlatCalls.Wrote | homework03/userfs.c:160-224 | each refusal with its condition; otherwise every byte of the file before, inside and behind the place where the data lands, the new offset and the new budget; nothing else changes |
| FlatCalls.ReadGives | homework03/userfs.c:226-275 | each refusal with its condition; otherwise the bytes at the cursor, as many as asked for unless the file ends, and only the offset changes |
| FlatCalls.Closed | homework03/userfs.c:277-299 | the descriptor becomes invalid, the count and the references of its file fall by one, and the file dies iff it is unlisted and no other descriptor refers to it; an invalid descriptor is refused |
| FlatCalls.Deleted | homework03/userfs.c:301-332 | the name is no longer listed, every other name is, and the file dies iff no descriptor refers to it; a name that is not listed is refused |
| FlatCalls.Resized | homework03/userfs.c:366-441 | each refusal with its condition; otherwise the content is cut or kept, the blocks are ceil(size/512) and bytes_left is what is left of the maximum; no descriptor moves |
| FlatCalls.NoFileUntilOpened | homework03/userfs.c:286-298 | over any run: a descriptor that is not open, such as one just closed, answers every write, read, close and resize with NO_FILE until an open returns its number |
| FlatCalls.NoNameUntilCreated | homework03/userfs.c:118-158 | over any run: a name that is not listed, such as one just deleted, answers every delete and every open without UFS_CREATE with NO_FILE until an open with UFS_CREATE names it |
| FlatCalls.NothingLeaks | homework03/userfs.c:285-298 | over any run: once every name is deleted and every descriptor closed, no file holds a block |
| FlatCalls.TableBounded | homework03/userfs.c:480-497 | over any run the table is no longer than ten slots, or twice the most descriptors ever open at once |
| UserFs.FileSystem.constructor | homework03/userfs.c:64-83 | no files, no descriptors |
| UserFs.FileSystem.SearchFile | homework03/userfs.c:449-459 | the walk over the name list finds the listed file of that name, or none |
| UserFs.FileSystem.AppendFile | homework03/userfs.c:461-478 | the new file becomes the last of the doubly linked name list |
| UserFs.FileSystem.Unlink | homework03/userfs.c:310-323 | the file leaves the name list, wherever it stands, and the list stays linked |
| UserFs.FileSystem.GetFd | homework03/userfs.c:480-513 | the lowest free slot of the table, allocated or doubled when needed |
| UserFs.FileSystem.Double | homework03/userfs.c:490-497 | doubling keeps every descriptor; the returned number is the first new slot |
| UserFs.FileSystem.Scan | homework03/userfs.c:499-509 | the scan finds the first free slot |
| UserFs.FileSystem.IsValidFd | homework03/userfs.c:542-557 | accepts exactly the numbers of occupied slots |
| UserFs.FileSystem.Open | homework03/userfs.c:118-158 | does to the view what the flat open does, for any name and any flag word |
| UserFs.FileSystem.Write | homework03/userfs.c:160-224 | does to the view what the flat write does, or reports the null head |
| UserFs.FileSystem.Read | homework03/userfs.c:226-275 | does to the view what the flat read does, and changes only the bytes of the buffer it returns |
| UserFs.FileSystem.Close | homework03/userfs.c:277-299 | does to the view what the flat close does |
| UserFs.FileSystem.Delete | homework03/userfs.c:301-332 | does to the view what the flat delete does |
| UserFs.FileSystem.Resize | homework03/userfs.c:366-441 | does to the view what the flat resize does, or reports its fault |
| UserFs.Replay | homework03/userfs.c:118-441 | for any calls in any order, the linked structures give the replies and reach the state of the flat file system |
| PoolInvariant.NewPoolInv | homework04/thread_pool.c:101-124 | a pool is created iff the maximum is between 1 and 20, and it satisfies the invariant |
| PoolInvariant.StepInv | homework04/thread_pool.c:132-499 | every step a client may cause, and that drops no work, keeps the invariant: list order, links between running entries and workers, counters, histories, joins and sleepers |
| PoolInvariant.DeleteKeepsInv | homework04/thread_pool.c:378-449 | a delete, detach or finish that ends with delete_task and drops no work frees only finished pushes, and keeps the invariant |
| PoolInvariant.GetTaskIsHead | homework04/thread_pool.c:467-477 | get_task returns the head of the list or NULL |
| PoolInvariant.TakeOrder | homework04/thread_pool.c:288-310 | the taken entry was the head and goes behind all entries started before it |
| PoolInvariant.PushInv | homework04/thread_pool.c:161-197 | a push keeps the invariant |
| PoolInvariant.TakeInv | homework04/thread_pool.c:276-311 | taking an entry keeps the invariant |
| PoolInvariant.FinishInv | homework04/thread_pool.c:314-323 | finishing an entry keeps the invariant, also when it deletes a detached task, unless that drops work |
| PoolInvariant.RemoveInv | homework04/thread_pool.c:378-449 | deleting a task whose pushes have finished keeps the invariant |
| PoolInvariant.JoinInv | homework04/thread_pool.c:244-267 | joining keeps the invariant |
| PoolInvariant.DetachInv | homework04/thread_pool.c:481-499 | detaching keeps the invariant, timed-out joins before it included, unless it drops work |
| PoolRuns.ReachableInv | homework04/thread_pool.c:132-499 | every state a disciplined run reaches satisfies the invariant |
| PoolRuns.ListShape | homework04/thread_pool.c:178-191 | in every reachable state the list is the pending entries, newest push first, followed by the started ones in start order |
| PoolRuns.TakesNewest | homework04/thread_pool.c:280-310 | in every reachable state a worker takes the head, and it is the newest pending push: tasks start in LIFO order |
| PoolRuns.CountersExact | homework04/thread_pool.c:44-54 | active_threads_cnt is the number of running workers and of running entries, threads_cnt that of live workers and within the maximum, tasks_cnt the length of the list and of all push lists |
| PoolRuns.RunningBijection | homework04/thread_pool.c:285-317 | running entries and running workers are in bijection |
| PoolRuns.RunsExactlyOnce | homework04/thread_pool.c:288-316 | a push has been started exactly once, or is still pending in the list; it leaves the list only after it finished |
| PoolRuns.NoLostWakeup | homework04/thread_pool.c:172-193 | while a push is pending, no worker waits on work_cond and there is a live worker; no joiner sleeps on a finished push |
| PoolRuns.WorkerStepUsesUp | homework04/thread_pool.c:274-324 | every worker step lowers 3 pending + 2 running + ready |
| PoolRuns.DrainIsFinite | homework04/thread_pool.c:274-324 | with no client steps, a run of worker steps is no longer than that measure |
| PoolRuns.WorkerHasStep | homework04/thread_pool.c:274-324 | while a push is pending or running, some worker can move |
| PoolRuns.Drains | homework04/thread_pool.c:274-324 | however the workers are scheduled, when none can move every push ever made has finished and no joiner is left blocked |
| PoolClients.EntryOrigin | homework04/thread_pool.c:161-449 | a step adds at most one pending entry, and changes phases only by taking or finishing |
| PoolClients.ResultsExact | homework04/thread_pool.c:312-316 | every result returned by a function is recorded once and never replaced |
| PoolClients.JoinReturnsLatest | homework04/thread_pool.c:244-267 | a join that returns at once returns the result of the latest push of its task, in any run; one that returns from waiting returns the recorded result of the push it waited for |
| PoolClients.BlockedJoinReturnsItsPush | homework04/thread_pool.c:256-266 | a join that blocks waits for the push that is the latest at its call: over any run until it leaves, it may return iff that push has finished, and returns its result |
| PoolClients.JoinerIsServed | homework04/thread_pool.c:256-263 | the entry of a blocked joiner stays listed over any run until it returns, and it may return iff the push has finished |
| PoolClients.ReturnsAfterWorkers | homework04/thread_pool.c:144-149 | pool delete has returned only when every worker has exited |
| PoolClients.PoolDeleteReturns | homework04/thread_pool.c:132-159 | it is refused iff there are tasks; otherwise at most 2 threads_cnt steps are possible, and when none is left it has returned and all workers have exited |
| PoolDetach.DetachOrigin | homework04/thread_pool.c:481-499 | after any step, an entry is detached iff it was before, or the step detached its task when it was the latest push |
| PoolDetach.ReachableOneDetached | homework04/thread_pool.c:481-499 | in every reachable state at most one push of a task is detached |
| PoolDetach.FreedExactly | homework04/thread_pool.c:389-399 | a task with a detached and finished push is freed iff all its other pushes are joined |
| PoolDetach.FinishFrees | homework04/thread_pool.h:165-168 | the finishing of a detached push frees its task iff every other push of it has been joined |
| PoolDetach.DetachFrees | homework04/thread_pool.h:165-168 | detaching a task whose latest push has finished frees it on the same condition |
| PoolDetach.StuckStep | homework04/thread_pool.c:132-499 | a finished detached push that is still listed stays as it is in every disciplined step |
| PoolDetach.NeverFreed | homework04/thread_pool.c:132-499 | so it is listed after any run, and the pool cannot be deleted any more |
| PoolDetach.DetachedTwice | homework04/thread_pool.h:165-168 | a run in which a detached task finishes and is never freed |
| PoolDrops.DeleteLoses | homework04/thread_pool.c:378-449 | a step that ends with delete_task drops work iff the flag test passes and some push of the task is unfinished or waited for |
| PoolDrops.DeleteDropsWork | homework04/thread_pool.c:388-399 | thread_task_delete drops unfinished work or a joiner iff its flag test passes although a join gave up or still waits |
| PoolDrops.DetachDropsWork | homework04/thread_pool.c:492-496 | thread_task_detach drops work iff the latest push has finished, all earlier ones are joined, and a join gave up on one of them that has not finished |
| PoolDrops.FinishDropsWork | homework04/thread_pool.c:314-321 | finishing a push drops work iff it is detached, all other pushes of its task are joined, and a join gave up on one of them that has not finished |
| PoolDrops.SafeStep | homework04/thread_pool.h:165-168 | a careful client keeps it so that no join gave up on another push of a detached task |
| PoolDrops.CarefulRuns | homework04/thread_pool.h:148-168 | a client that deletes a task only when all its joins are over and detaches it only when no join gave up on an earlier push loses nothing, in any interleaving |
| PoolDrops.CarefulDrains | homework04/thread_pool.c:274-324 | in the pool of such a client, when no worker can move, every push ever made has run to its end |
| PoolDrops.TimedOutJoinUnlocksDelete | homework04/thread_pool.h:143 | a run in which a timed-out join lets delete drop a push that never ran |
| PoolDrops.JoinOrigin | homework04/thread_pool.c:256 | an entry is joined after a step iff it was before, or the step is a join of its task, with a timeout that is not already over, of which it is the latest push |
| PoolDrops.DetachedAfterTimeOut | homework04/thread_pool.h:165-168 | a run in which a task is detached after a timed-out join, runs, and is freed |
| PoolDrops.PushIsLost | homework04/thread_pool.h:165-168 | a run in which the task is pushed again after the timed-out join and then detached, and its first push is freed without ever running |
| PoolJoiners.OneIsServed | homework04/thread_pool.c:256-263 | of the threads that wait for a push without a timeout when it finishes, exactly the one that line 322 signals can ever return |
| PoolJoiners.AllAreServed | homework04/thread_pool.h:118 | whoever is signalled, everybody who waits without a timeout is served iff nobody waits beside such a joiner |
| PoolCalls.PushAnswers | homework04/thread_pool.c:161-197 | a push is accepted iff there are fewer than TPOOL_MAX_TASKS tasks; the new entry is pending and stands before all others, which stay as they are, and no worker is left waiting |
| PoolCalls.PushStaffs | homework04/thread_pool.c:172-176 | an accepted push adds exactly one worker iff every live one is running an entry and there are fewer than the maximum |
| PoolCalls.JoinAnswers | homework04/thread_pool.c:244-261 | a join answers the result of the latest push, blocks, or is refused, each with its condition; unless it is refused that push is joined afterwards, and nothing else changes |
| PoolCalls.JoinEnds | homework04/thread_pool.c:263-266 | a blocked join that returns or times out frees its place and leaves the push joined |
| PoolCalls.DeleteAnswers | homework04/thread_pool.c:378-449 | a delete succeeds iff every push of the task is joined, or detached and finished; then the task, its pushes and their number go, and nothing else |
| PoolCalls.DetachAnswers | homework04/thread_pool.c:481-499 | a detach of a task that was never pushed is refused; otherwise the latest push is marked, and the task goes at once iff that push has finished and every push is joined, or detached and finished |
| PoolCalls.FinishAnswers | homework04/thread_pool.c:312-323 | the push is finished with its result, its worker is free again and a joiner is woken; the task goes iff the push is detached and every other one is joined, or detached and finished |
| PoolCalls.PoolDeleteAnswers | homework04/thread_pool.c:132-147 | refused while there are tasks; otherwise every waiting worker is woken, and the call returns at once iff no worker is alive |
| PoolCalls.MarksExact | homework04/thread_pool.c:244-261 | over any run from a new pool: a listed push is joined iff it was the latest push of its task at some join that did not find its time already over; and likewise detached |
| PoolCalls.DeletedWhenJoined | homework04/thread_pool.c:388-399 | over any run from a new pool, by the calls made: thread_task_delete of a pushed task succeeds iff each of its pushes was the latest at such a join, or was detached and has finished |
| PoolCalls.StaysJoined | homework04/thread_pool.c:256 | a joined push stays joined over any run while it is listed |
| PoolCalls.WholeLife | homework04/thread_pool.c:132-449 | push, take, finish, join, delete of the only task, and the end of the pool: every answer of that run |
| PoolHeap.ThreadPool.constructor | homework04/thread_pool.c:101-124 | an empty pool that shows the initial state |
| PoolHeap.ThreadPool.GetTask | homework04/thread_pool.c:467-477 | the walk returns the first node neither running nor finished |
| PoolHeap.ThreadPool.MoveLast | homework04/thread_pool.c:289-310 | the node moves from the head to the tail and the list stays linked; the branch for a node in the middle is unreachable |
| PoolHeap.ThreadPool.TakeTask | homework04/thread_pool.c:288-310 | marking and moving the node shows the list after the step |
| PoolHeap.ThreadPool.Leave | homework04/thread_pool.c:326-329 | a leaving worker corrects both counters and signals the deleter |
| PoolHeap.ThreadPool.Enter | homework04/thread_pool.c:276-311 | a worker that gets the mutex takes the head, waits, or leaves, exactly as the machine says |
| PoolHeap.ThreadPool.Unlink | homework04/thread_pool.c:408-430 | the node leaves the list, wherever it stands; head, tail and neighbours stay consistent |
| PoolHeap.ThreadPool.Freeable | homework04/thread_pool.c:389-399 | the first loop of delete_task accepts iff every push of the task is joined, or detached and finished |
| PoolHeap.ThreadPool.FreeNodes | homework04/thread_pool.c:401-435 | the second loop removes exactly the nodes of the task, and counts them |
| PoolHeap.ThreadPool.DeleteTask | homework04/thread_pool.c:378-449 | all pushes of the task go, or none |
| PoolHeap.ThreadPool.TaskDelete | homework04/thread_pool.c:451-465 | does to the view what the machine does, also where that drops work |
| PoolHeap.ThreadPool.Finish | homework04/thread_pool.c:312-323 | does to the view what the machine does, also where that drops work: result, flags, counters, delete of a detached task, signal |
| PoolHeap.ThreadPool.Join | homework04/thread_pool.c:244-261 | does to the view what the machine does, for both kinds of join |
| PoolHeap.ThreadPool.JoinReturn | homework04/thread_pool.c:263-266 | returns the result of the push that was waited for |
| PoolHeap.ThreadPool.JoinTimeOut | homework04/thread_pool.c:362-366 | gives up, leaving is_joined set, whether or not the signal is on its way |
| PoolHeap.ThreadPool.Detach | homework04/thread_pool.c:481-499 | does to the view what the machine does, for any task and whatever joins there were |
| PoolHeap.ThreadPool.MakeTask | homework04/thread_pool.c:76-99 | a fresh node, and a cell for it in front of the push list of the task |
| PoolHeap.ThreadPool.LinkFirst | homework04/thread_pool.c:183-191 | the node becomes the head of the list, and its tail if it was empty |
| PoolHeap.ThreadPool.CreateThread | homework04/thread_pool.c:172-176 | a thread is created iff all are busy and there is room |
| PoolHeap.ThreadPool.Push | homework04/thread_pool.c:161-197 | does to the view what the machine does |
| PoolHeap.ThreadPool.PoolDelete | homework04/thread_pool.c:132-147 | does to the view what the machine does, up to the first wait |
| PoolHeap.ThreadPool.PoolDeleteWake | homework04/thread_pool.c:144-147 | the wait for threads_cnt to become 0 |
| PoolHeap.ThreadPool.NewTask | homework04/thread_pool.c:199-210 | a task with no pushes |
| PoolHeap.Replay | homework04/thread_pool.c:132-499 | for any legal interleaving of critical sections, the linked lists go through the states of the machine and every call returns what it says |
| CoroModel.StepInv | homework01/libcoro.c:52-184 | every segment keeps the invariant: list in creation order, control, returns, fairness |
| CoroModel.ExactFairness | homework01/libcoro.c:101-145 | for unfinished i before j, switch_count(i) - switch_count(j) is the number of finished coroutines that stood between them, less the rounds i was created after j, plus one in the middle of a round between them |
| CoroModel.FairFromTheStart | homework01/libcoro.c:101-145 | the same after any run from before the first round, without the term for creation |
| CoroModel.SwitchesAreSafe | homework01/libcoro.c:112-183 | every switch goes to the scheduler or an unfinished listed coroutine; at most one listed coroutine is finished; the branch without a place to return is unreachable |
| CoroModel.CountsSwitches | homework01/libcoro.c:101-110 | over any run, the switch_count of a coroutine grows by the yields it was left at, that of the scheduler by the switches away from it, and by nothing else |
| CoroModel.WaitReturnsEachOnce | homework01/libcoro.c:130-145 | coro_sched_wait returns finished coroutines, none twice, and NULL only when it has returned all |
| CoroModel.RunOut | homework01/libcoro.c:130-145 | when every body is a finite script of yields and creations, repeated waits reach NULL, all coroutines created on the way included, and each has yielded exactly as often as its script says |
| CoroModel.TurnFits | homework01/libcoro.c:101-183 | every segment uses up one unit of the scripts of the unfinished coroutines, and loses none of their yields and children |
| CoroModel.FiniteBodiesReturn | homework01/libcoro.c:130-145 | so every coroutine, those created on the way included, is finished and returned exactly once |
| LibCoro.Scheduler.constructor | homework01/libcoro.c:123-128 | no coroutines; the scheduler runs |
| LibCoro.Scheduler.ListAdd | homework01/libcoro.c:52-61 | the coroutine becomes the head of the doubly linked list |
| LibCoro.Scheduler.ListDelete | homework01/libcoro.c:63-74 | the coroutine leaves the list, wherever it stands |
| LibCoro.Scheduler.YieldTo | homework01/libcoro.c:101-110 | the context that ran is counted once and the other one runs |
| LibCoro.Scheduler.SchedLoop | homework01/libcoro.c:133-141 | the loop collects the first finished coroutine, or starts a round at the head |
| LibCoro.Scheduler.New | homework01/libcoro.c:186-258 | does to the view what the machine does |
| LibCoro.Scheduler.Wait | homework01/libcoro.c:130-141 | does to the view what the machine does, and returns the coroutine it says |
| LibCoro.Scheduler.Resume | homework01/libcoro.c:141-145 | does to the view what the machine does when the scheduler runs again |
| LibCoro.Scheduler.Yield | homework01/libcoro.c:112-121 | switches to the next coroutine of the list, or to the scheduler |
| LibCoro.Scheduler.Finish | homework01/libcoro.c:175-183 | marks the coroutine and returns to the scheduler; the other branch is unreachable |
| LibCoro.Replay | homework01/libcoro.c:52-184 | for coroutines that do anything they may do, list, flags and counts go through the states of the machine |
| MergeSort.SortIsStable | homework01/solution.c:192-222 | the positions of the output are those of the input, each once, ordered by number and then by position: the sort is stable |
| MergeSort.SortedIsValues | homework01/solution.c:192-222 | sorting the numbers is sorting their positions |
| MergeSort.MergeAscending | homework01/solution.c:236-267 | the merge keeps that order when the left part stands before the right part |
| MergeSort.SortsIntoOrder | homework01/solution.c:192-222 | the result is sorted and a permutation of the input |
| MergeSort.OrderIsUnique | homework01/solution.c:192-222 | two sorted permutations of the same numbers are equal |
| MergeSort.YieldBounds | homework01/solution.c:227 | n - 1 <= Y(n) <= 4n/3 - 1 for n >= 2, where Y(n) is the number of yields of a sort of n |
| MergeSort.YieldBoundsTight | homework01/solution.c:227 | both bounds are reached, by 2^(e+1) and by 3 * 2^e |
| MergeSort.CopyBound | homework01/solution.c:245-263 | the merges of a sort of n copy at most n ceil(log2 n) numbers |
| MergeSort.CopyBoundTight | homework01/solution.c:245-263 | a sort of 2^(e+1) numbers copies e 2^(e+1) |
| MergeSort.MergeSortedArrays | homework01/solution.c:236-267 | the merge loops compute Merge for any two arrays; for numbers that stand at given positions, the positions of the output are those of MergeIx |
| MergeSort.GetSortedNumbers | homework01/solution.c:192-234 | the recursion on arrays returns Sorted, its numbers come from the positions SortIx, so it is stable; it yields Y(len) times and copies Copies(len) numbers in merges |
| SuspendedSort.Opens | homework01/solution.c:214-219 | a call that waits for the sort of its left half is worth what sorting its numbers is, in positions and in yields |
| SuspendedSort.Descend | homework01/solution.c:197-218 | calls are opened down to the first yield; the arrays hold the numbers at their positions, and the outermost call is going to return the positions it did before |
| SuspendedSort.AfterLeft | homework01/solution.c:218 | when the left half is sorted, the call for the right half runs to its first yield |
| SuspendedSort.AfterRight | homework01/solution.c:219 | when both halves are sorted, the merge gives the numbers and the positions of the call |
| SuspendedSort.Continue | homework01/solution.c:197-234 | from one yield to the next: exactly one yield less is to come, and the positions the outermost call is going to return stay the same |
| SortProgram.StepInv | homework01/solution.c:55-87 | every segment of any coroutine keeps the invariant |
| SortProgram.StepCounts | homework01/solution.c:224-230 | a segment ends in a yield, which is counted, or in the return, and changes nobody else |
| SortProgram.StepWorks | homework01/solution.c:55-87 | every segment uses up exactly one unit of the remaining work |
| SortProgram.RunLength | homework01/solution.c:55-87 | so no interleaving is longer than the work there is |
| SortProgram.SwitchesAtEnd | homework01/solution.c:227 | each coroutine has yielded once for every call of the sort on the files it claimed; together, the sum over all claimed files |
| SortProgram.EndToEnd | homework01/solution.c:62-76 | for every positive number of coroutines and every interleaving: when all have returned, each file was claimed by one coroutine, dest[f] is its sorted content, and the yields sum to Y over all files |
| SortProgram.ClaimsStay | homework01/solution.c:63-66 | a claim is never taken back |
| SortJob.Job.constructor | homework01/solution.c:92-109 | no file claimed, no coroutine started, the first reading taken |
| SortJob.Job.StartTurn | homework01/solution.c:291-297 | the coroutine that gets control takes the next reading as its timestamp |
| SortJob.Job.EndTurn | homework01/solution.c:269-288 | before it gives control back it, and nobody else, is charged from its timestamp to the next reading |
| SortJob.Job.StartSort | homework01/solution.c:70 | the sort of a whole file stands at its first yield, going to return the file in the stable order after the remaining yields |
| SortJob.Job.Proceed | homework01/solution.c:192-234 | a suspended sort goes on to its next yield, or returns the sorted file, in the stable order, iff no yield is left |
| SortJob.Job.ClaimNext | homework01/solution.c:62-70 | the next file is claimed and its sort runs to its first yield, or the coroutine ends |
| SortJob.Job.RunCode | homework01/solution.c:59-86 | from where it stands to its next yield or its return, a coroutine does what the machine says, on arrays |
| SortJob.Job.RunSegment | homework01/solution.c:55-87 | a turn with its two clock readings: program and accounted times change as the machines say |
| Solution.SchedWait | homework01/libcoro.c:130-145 | coro_sched_wait with all the segments it runs always returns, and returns NULL only when the list is empty |
| Solution.WaitAll | homework01/solution.c:113-116 | the loop over coro_sched_wait ends, with an empty list |
| Solution.RunCoroutines | homework01/solution.c:107-116 | the loop in main ends with every coroutine returned |
| Solution.Concatenate | homework01/solution.c:120-131 | all_numbers is the concatenation of the sorted files |
| Solution.SortAgain | homework01/solution.c:135 | sorting the sorted files gives what sorting all the numbers gives |
| Solution.SortAll | homework01/solution.c:135 | the last sort runs in the context of the scheduler, which yields to itself |
| Solution.SortFiles | homework01/solution.c:89-145 | on the linked scheduler, for every number of coroutines: the result is the sorted numbers of all files, every coroutine has finished and been returned, their switch counts sum to Y over the files, each has had exactly one turn more than it switched and is charged exactly for its own turns, together no more than the time of the program |
| WorkTime.TimeDiff | homework01/solution.c:299-313 | the difference is exact and normalised |
| WorkTime.Context.UpdateCoroWorkTime | homework01/solution.c:269-288 | the accumulated time stays normalised and grows by exactly the interval |
| TimedRun.StepInv | homework01/solution.c:224-230 | for any interleaving of turns: the running coroutine has its own timestamp, the intervals so far follow one another, every coroutine is charged the sum of its own, and has as many of them as it has yielded and returned |
| TimedRun.LogIsRun | homework01/solution.c:224-230 | by the run alone: the k-th interval belongs to the coroutine that was resumed k-th, and lasts from reading 2k + 1 to reading 2k + 2 |
| TimedRun.TurnsAtEnd | homework01/solution.c:224-230 | when all coroutines have returned, each has been resumed once more often than it has yielded |
| TimedRun.OwnTimestamp | homework01/solution.c:224-230 | every update finds the timestamp of its own segment, whoever ran before |
| TimedRun.Disjoint | homework01/solution.c:224-230 | with a clock that does not go back, the intervals in which coroutines run do not overlap |
| TimedRun.Within | homework01/solution.c:224-230 | intervals that follow one another are together no longer than the time they span |
| TimedRun.ExactTimes | homework01/solution.c:59-78 | for any interleaving, by the run alone: each coroutine is charged exactly the readings 2k + 2 less 2k + 1 of the turns k in which it was resumed, normalised, and the sum over all never exceeds the elapsed time |
| TrackerModel.StepInv | utils/heap_help/heap_help.c:153-235 | every critical section keeps the invariant |
| TrackerModel.Conserved | utils/heap_help/heap_help.c:168-235 | under any interleaving: records drawn are the live, pooled and in-flight ones, none in two places; each address is live as often as it was recorded and not freed |
| TrackerModel.RefusedExactly | utils/heap_help/heap_help.c:213-234 | a free is refused iff the address was freed as often as it was recorded |
| TrackerModel.Tallies | utils/heap_help/heap_help.c:168-235 | a run adds to the recorded and the freed addresses exactly what its steps record and free |
| TrackerModel.ReallocInterleaved | utils/heap_help/heap_help.c:555-558 | a realloc that moves a block, with any steps of other threads between its critical sections, takes the old address out of the live ones and puts the new one in, beside what the others do |
| TrackerModel.ReallocRecords | utils/heap_help/heap_help.c:555-558 | the same of whole records: the newest one of the old address goes, the others make and free theirs, and the new one comes to the head with its address, size and trace |
| TrackerModel.FreeDrops | utils/heap_help/heap_help.c:203-235 | a free takes out the newest record of the address, which goes to the pool, or changes nothing |
| TrackerModel.PublishThenFree | utils/heap_help/heap_help.c:195-235 | a record that is published and freed again leaves the list as it was |
| TrackerModel.LiveTallies | utils/heap_help/heap_help.c:168-235 | over any run, the live records are those of before with the records made and without those freed |
| TrackerModel.DrawnIsHighWater | utils/heap_help/heap_help.c:168-185 | over any run from the start, records are drawn only when none is pooled: their number is the most ever in use at once |
| TrackerModel.LeaksAre | utils/heap_help/heap_help.c:391-407 | what the loop counts are the live records with a trace that is not internal, each once, in list order |
| TrackerModel.AllReported | utils/heap_help/heap_help.c:391-407 | with no internal traces every address recorded and not freed is reported |
| Tracker.Tracker.constructor | utils/heap_help/heap_help.c:74-81 | nothing drawn |
| Tracker.Tracker.Draw | utils/heap_help/heap_help.c:168-185 | a record from the pool, or the next of a batch, that no one else has |
| Tracker.Tracker.Fill | utils/heap_help/heap_help.c:187-193 | filling a record outside the lock disturbs nothing |
| Tracker.Tracker.Publish | utils/heap_help/heap_help.c:195-200 | the record becomes the head of the live list and is counted |
| Tracker.Tracker.Free | utils/heap_help/heap_help.c:203-235 | the newest live record of the address moves to the pool; alloc_count equals the length of the list and never gets negative |
| Tracker.Tracker.Realloc | utils/heap_help/heap_help.c:545-563 | the tracking of realloc in each of its cases: the newest record of the old address goes, and the head of the list has the new address, the size and the trace it was given; it aborts iff the address to be dropped was freed as often as it was recorded |
| Tracker.Tracker.Report | utils/heap_help/heap_help.c:367-424 | the assertion in the loop never fails; the count is the number of live records with a trace that is not internal, the total is the sum of their sizes, and without internal traces the count is the recorded addresses less the freed ones |
| Tracker.Tracker.Count | utils/heap_help/heap_help.c:379-408 | the loop computes both numbers and caps the printed reports at ten |
| Tracker.OneBlock | utils/heap_help/heap_help.c:367-424 | a program that records one block reports it with its size, and nothing once it is freed |
| Tracker.Replay | utils/heap_help/heap_help.c:153-235 | for any interleaving of critical sections, the linked lists go through the states of the machine |

## Left out

* `ufs_destroy`: teardown only. `ufs_errno`: the error code is part of each reply instead of a global.
* Failure of `malloc` and `mmap`, and the contents of memory before it is written. The descriptor array is taken as
  null-filled when allocated or grown, and the first block's `prev` as null, as the code intends.
* `free` is a ghost flag on blocks, files and pool nodes; the cells of a task's push list, the descriptor objects and
  the arrays of the sort are simply dropped. Line 322 of thread_pool.c signals a condition that line 320 may have freed;
  in the model that signal has no effect, because nobody waits on a detached push.
* Integers are unbounded, except where `size_t` wraps in resize. File offsets and counters cannot reach the limits of
  `ssize_t`, `int` and `int64_t` in a run of feasible length.
* Flags are 32-bit vectors; the `NEED_*` macros are all taken as defined.
* Mutexes and spinlocks are atomic steps, condition variables are the threads that wait on them. Spurious wakeups, and
  the length of timeouts, are not modelled: a timed join may time out at any moment between blocking and returning.
  Lines 312-323 of thread_pool.c, from the return of the function on, are one step.
* One pool per task; the `pool` field of a node is the pool itself.
- PoolModel.Disciplined: one joiner of a push at a time, and no detach during a join. What becomes of several joiners of
  one push is proved apart from the pool, in PoolJoiners.dfy.
* thread_pool.c promises nothing about maximal parallelism, order among tasks other than LIFO, or starvation under
  endless pushes, and nothing is claimed about them. The accessors `thread_task_is_finished`, `thread_task_is_running`
  and `thread_pool_thread_count` only read a flag or a counter.
* Signal stacks and the saved contexts of `coro_new` and `coro_body`: a context switch is the step that ends a segment.
  `coro_status` and the return value of a coroutine are not modelled, nor is `coro_delete`.
* Reading, writing and printing files, and argument parsing. `read_numbers_from_file` returns a length one greater than
  the number of values read; the model starts from given arrays.
* `my_context_new` is taken to initialise `prev_timestamp` and to allocate enough for `coro_work_time`.
* Calls that heap_help.c does not track: nested ones, those after the report, and those served before start.
* The dlsym, backtrace and symbol plumbing of heap_help.c, its bootstrap allocator, the wrappers of getline and
  getaddrinfo, and the text of its report. Which traces are internal is a parameter of `Tracker.Tracker.Report`.
- Tracker.Tracker.Realloc: is the critical sections without another thread between them; `ReallocInterleaved` and
  `ReallocRecords` are about them with any steps of others in between. When the address does not change, the recorded
  size is not updated, as in the code.

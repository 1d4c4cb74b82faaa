# Proofs about a 2.4 kernel

This project models the parts of the Linux 2.4.17 kernel in which shared structures are edited in
place under a lock, and proves what the rest of the system relies on. Loops and updates of the
source are methods of classes here; each is proved against a function or relation on values, and
the properties over whole runs are lemmas about those. A critical section is one step, and a sleep
is the boundary between two.

| files | what they model |
|---|---|
| `LockSpans`, `UnlockSpans`, `LockList`, `LockFile`, `LockManager`, `LockUnlock` | POSIX byte-range locks: the apply phase of `posix_lock_file`, exclusion, deadlock detection, wake-ups |
| `SemOps`, `SemRuns`, `SemCalls`, `SemArray`, `SemLate` | System V semaphores: atomic operation lists, the pending queue, undo, removal |
| `MsgBody`, `MsgSelect`, `MsgQueue`, `MsgSystem` | System V message queues: segments, selection, direct hand-off, removal, counters |
| `IpcIds` | the identifier table of System V IPC |
| `Preorder`, `Mounts` | the stackless tree walk; copying and unmounting trees of mounts |
| `Dcache` | dentry reference counts, the unused list, pruning and shrinking |
| `Pids`, `PidHistory` | the process number allocator |
| `Pipe`, `PipeRuns` | the pipe ring buffer and its stream |
| `ExecArgs` | argument strings from the caller to the tables of the new program |
| `CompT` | the comp_t encoding of accounting records |
| `Lists` | facts about lists shared by the others |

`dafny verify dfyconfig.toml` checks everything.

## Findings

Where the code falls short of what one would expect of it, the model keeps the code and the lemmas
say exactly when it does.

- `posix_lock_file` computes `fl_end + 1` on a signed 64-bit offset. A lock request that ends at
  OFFSET_MAX and meets a lock of the same owner and type is put before it and not merged with it.
  Canonical form is kept if and only if this does not happen (`LockManager.RunCanonicalIffNoWrap`).
  Worse, the owner's locks behind that one stay as they are: an old read lock under a new write
  lock, or an old write lock after a downgrade, exactly when one of another type is among them
  (`LockFile.RangeTakenIff`, `LockFile.StaleExample`). The first lock of the list that has a byte
  still has the requested type. On such a list a later unlock can succeed and leave bytes of its
  range locked, exactly those that `UnlockSpans.UnlockedBytes` names (`LockUnlock.RunUnlocks`,
  `LockUnlock.UnlockMisses`); an unlock of the whole file always clears it. Exclusion between
  owners, acyclicity and live blockers do not depend on any of this and hold on all runs.
- A semop can be done and yet return EIDRM: `update_queue` served its sleeper, the set was removed,
  and the slot was empty when the sleeper ran (`SemCalls.DoneYetFailedIff`,
  `SemLate.LateExample`).
- `copy_tree` attaches at the head of child lists, so every child list of the copy is the mirror
  image of the original's.
- `get_pid` tests thread group numbers in its scan but does not remember them, so its fast path can
  hand one out (`Pids.AllocatedIsNew`, `Pids.GroupNumberGivenAway`).
- `do_fork` gets the child's number long before it puts the child on the task list, and nothing that
  `get_pid` looks at shows the number in between. If the numbering restarts meanwhile, two tasks can
  end up with one number (`Pids.TwoTasksOneNumber`), exactly if a scan came by while the first of
  them was not listed yet (`PidHistory.SharedIff`).
- `convert_mode` negates LONG_MIN to itself, so msgrcv() with that type matches nothing
  (`MsgSelect.ConvertedIffFits`). The comment above it says that a negative type asks for types
  below its magnitude; the code includes the magnitude, and the model follows the code.

## Model

| member | source | states |
|---|---|---|
| `LockSpans.WalkCanonical` | kernel_2_4_17/linux/fs/locks.c:910-1024 | A canonical list of one owner's spans (sorted, disjoint, never adjacent with equal type) stays canonical under every lock or unlock request whose end offset does not wrap. |
| `LockSpans.WrapBreaksCanonical` | kernel_2_4_17/linux/fs/locks.c:924-945 | If the request ends at OFFSET_MAX, is not an unlock and meets a span of its own type that reaches up to its start, `fl_end + 1` wraps and the result is not canonical: with `WalkCanonical`, canonical form survives if and only if nothing wraps. |
| `LockSpans.WalkTypeAt` | kernel_2_4_17/linux/fs/locks.c:910-1024 | Every request, wrapping or not, changes the owner's byte-to-type map exactly on its own bytes, to its own type or to none, where the first span that has a byte gives its type. |
| `LockSpans.RangeIsCleanIff` | kernel_2_4_17/linux/fs/locks.c:924-945 | After a request a span of another type meets the requested bytes if and only if the request ends at OFFSET_MAX, is not an unlock, and a span of another type comes after one of its own type that reaches up to its start. |
| `LockSpans.CanonicalUnique` | kernel_2_4_17/linux/fs/locks.c:848-850 | A canonical list is determined by its byte map: two canonical lists with the same bytes are equal. |
| `LockList.ProcessRun` | kernel_2_4_17/linux/fs/locks.c:919-998 | The in-place loop over the owner's run keeps, for any list, identity, coverage and wake-up facts and, on a canonical run, computes the reference walk; where it stops is one of the two ways the code can leave it. |
| `LockList.FinishRun` | kernel_2_4_17/linux/fs/locks.c:1000-1024 | The split, the insertion and the two cuts after the loop give exactly the finished run, with one entry allocated in advance for the insertion and one for the split. |
| `LockList.ApplyLock` | kernel_2_4_17/linux/fs/locks.c:910-1024 | On every well-formed list, canonical or not, the apply phase rewrites only the owner's first run, needs no more than the two locks allocated in advance, and its result is `RunApplied`: the reference walk on canonical runs, `UnlockSpans.Unlocked` for an unlock of any run, no byte out of nowhere, and the sleepers woken are exactly those on locks that lost bytes, their type or their place. |
| `UnlockSpans.UnlockedBytes` | kernel_2_4_17/linux/fs/locks.c:945-1024 | For every list of spans, in any order and overlapping or not, and every unlock: a byte is still locked, with its type, if and only if a span had it and it lies outside the request, or in a span behind the one at which the loop ended, or in one that reaches in from below while a later one does too. |
| `UnlockSpans.UnlockedIsWalk` | kernel_2_4_17/linux/fs/locks.c:945-1024 | On canonical lists an unlock is the reference walk. |
| `UnlockSpans.UnlockAllClears` | kernel_2_4_17/linux/fs/locks.c:945-998 | An unlock of bytes 0 to OFFSET_MAX leaves, on any list, only spans that end before the first byte. |
| `LockFile.OthersUntouched` | kernel_2_4_17/linux/fs/locks.c:910-1024 | No other owner's locks change. |
| `LockFile.OwnerWalks` | kernel_2_4_17/linux/fs/locks.c:910-1024 | On a canonical list the owner's spans become the reference walk of what they were. |
| `LockFile.StaysContiguous` | kernel_2_4_17/linux/fs/locks.c:871-879 | Every owner's locks stay together in the list. |
| `LockFile.CanonicalIffNoWrap` | kernel_2_4_17/linux/fs/locks.c:910-1024 | The whole file's list is canonical after a call on a canonical list if and only if the request does not wrap. |
| `LockFile.BytesChangeExactly` | kernel_2_4_17/linux/fs/locks.c:910-1024 | Every owner's byte map after any call on a canonical list: the requested type on the requested bytes of the caller, unchanged everywhere else and for everyone else. |
| `LockFile.RangeTakenIff` | kernel_2_4_17/linux/fs/locks.c:924-945 | Over the whole file: the caller keeps a lock of another type in the range it asked for exactly under the condition of `LockSpans.RangeIsCleanIff`. |
| `LockFile.StaleExample` | kernel_2_4_17/linux/fs/locks.c:924-945 | Concrete requests that do this: a read lock stays under a new write lock, and a write lock under a new read lock. |
| `LockFile.WrapExample` | kernel_2_4_17/linux/fs/locks.c:924-945 | A concrete request that wraps and leaves two overlapping write locks of one owner. |
| `LockFile.ByteOrigin` | kernel_2_4_17/linux/fs/locks.c:910-1024 | Every byte of the new list was requested by this call, or was held before by the same owner with the same type, on all lists. |
| `LockFile.StaysExclusive` | kernel_2_4_17/linux/fs/locks.c:541-575 | A request granted without conflict keeps two owners from holding a byte in conflicting ways, canonical or not. |
| `LockFile.StaysWellFormed` | kernel_2_4_17/linux/fs/locks.c:871-879 | Entries stay distinct and valid, and new ones are the two allocated in advance. |
| `LockFile.WokenIff` | kernel_2_4_17/linux/fs/locks.c:438-458 | Over the whole file: a lock's sleepers are woken if and only if no lock of the same identity, owner and type with at least its bytes is left. |
| `LockFile.ConflictIff` | kernel_2_4_17/linux/fs/locks.c:541-575 | The conflict test answers yes exactly if the owners differ, not both locks are for reading, and they share a byte; for an entry that was cut past its own start, exactly if the request has both its ends. |
| `LockFile.NoConflictIff` | kernel_2_4_17/linux/fs/locks.c:541-575 | On an exclusive list the scan finds nothing in the way if and only if the request can be added with exclusion kept (and spans no such entry of another owner); an unlock always can. |
| `LockManager.CanonicalIsForward` | kernel_2_4_17/linux/fs/locks.c:541-575 | As long as nothing wrapped there are no such entries, so the condition is exclusion alone. |
| `LockManager.BlockKeepsRanked` | kernel_2_4_17/linux/fs/locks.c:882-901 | Sleeping behind a task that does not reach the sleeper closes no cycle. |
| `LockManager.BlockWouldCycle` | kernel_2_4_17/linux/fs/locks.c:663-689 | Sleeping behind a task that does reach the sleeper would close one: the detector refuses nothing needlessly. |
| `LockManager.StepKeepsInv` | kernel_2_4_17/linux/fs/locks.c:397-458 | Granting, sleeping, interruption and close each keep: exclusion, an acyclic waits-for graph, one wait per task, and a live conflicting blocker for every sleeper. |
| `LockManager.RunKeepsInv` | kernel_2_4_17/linux/fs/locks.c:882-1024 | In every state of every run two overlapping locks of different owners are both read locks, the waits-for graph is acyclic, and every sleeper waits for a live lock that still conflicts with it. |
| `LockManager.StepKeepsCanonical` | kernel_2_4_17/linux/fs/locks.c:910-1024 | A step keeps all files canonical exactly when it is not a wrapping grant. |
| `LockManager.RunCanonicalIffNoWrap` | kernel_2_4_17/linux/fs/locks.c:910-1024 | All states of a run are canonical if and only if no grant in the run wraps. |
| `LockUnlock.UnlockChangesExactly` | kernel_2_4_17/linux/fs/locks.c:945-1024 | Over the whole file: the bytes an owner still has after an unlock, exactly, on every list that keeps owners together. |
| `LockUnlock.WholeFileUnlocked` | kernel_2_4_17/linux/fs/locks.c:945-1024 | An unlock of the whole file leaves the owner no byte. |
| `LockUnlock.RunKeepsTogether` | kernel_2_4_17/linux/fs/locks.c:871-879 | In every state of every run each owner's locks are together in every file. |
| `LockUnlock.RunUnlocks` | kernel_2_4_17/linux/fs/locks.c:945-1024 | Both facts about unlocks for every unlock in every run, whatever wrapped before. |
| `LockUnlock.UnlockMisses` | kernel_2_4_17/linux/fs/locks.c:924-966 | A run from the start in which a request wraps and then an unlock of bytes 0 to 55 succeeds and leaves bytes 10 to 55 locked. |
| `LockManager.LockTable.TestLock` | kernel_2_4_17/linux/fs/locks.c:632-647 | Reports none exactly if the list with the request added is still exclusive, in the sense of `LockFile.NoConflictIff`, and otherwise the first lock that spoils this. |
| `LockManager.LockTable.PosixLocksDeadlock` | kernel_2_4_17/linux/fs/locks.c:663-689 | Terminates, and answers yes exactly when the blocker's owner already waits, through any chain, for the caller. |
| `LockManager.LockTable.SetLock` | kernel_2_4_17/linux/fs/locks.c:882-1024 | One attempt of `posix_lock_file`: granted exactly if the list with the request added is still exclusive, every unlock granted; otherwise EAGAIN, EDEADLK or sleep exactly in their cases; each a step that keeps the invariant. |
| `LockManager.LockTable.InTheWay` | kernel_2_4_17/linux/fs/locks.c:882-889 | The first loop finds the first lock that the request cannot join, or none exactly if it can join the list. |
| `LockManager.LockTable.Grant` | kernel_2_4_17/linux/fs/locks.c:910-1024 | The apply phase and its wake-ups are one step of the run model; exactly the sleepers on the locks that lost something leave the blocked list. |
| `LockManager.LockTable.WakeUpBlocks` | kernel_2_4_17/linux/fs/locks.c:438-458 | Takes exactly the sleepers on the given locks off the blocked list. |
| `LockManager.LockTable.DeleteBlock` | kernel_2_4_17/linux/fs/locks.c:397-404 | Takes one task's entry off the blocked list. |
| `LockManager.LockTable.Interrupt` | kernel_2_4_17/linux/fs/locks.c:596-621 | A signal ends a sleep and keeps the invariant. |
| `LockManager.LockTable.RemovePosix` | kernel_2_4_17/linux/fs/locks.c:1666-1695 | Close drops exactly the locks of an owner, wakes exactly their sleepers and keeps the invariant. |
| `LockManager.CloseOwner` | kernel_2_4_17/linux/fs/locks.c:1684-1693 | The removal loop keeps exactly the other owners' locks and reports exactly the removed ones. |
| `SemOps.TryIs` | kernel_2_4_17/linux/ipc/sem.c:243-312 | The verdict on a list is 0 exactly if every wait for zero finds zero and all values and adjustments on the way are in their ranges; else it is that on the first obstacle: 1 or EAGAIN for a wait on a nonzero value or, with the adjustment in range, a value below zero; ERANGE for an adjustment out of range or a value above SEMVMX. |
| `SemOps.TryClear` | kernel_2_4_17/linux/ipc/sem.c:243-312 | The same with every condition written out on values and adjustments. |
| `SemOps.PrefixSums` | kernel_2_4_17/linux/ipc/sem.c:251-290 | Values and adjustments after a prefix are the old ones with the sums of the operations on them. |
| `SemOps.PrefixOk` | kernel_2_4_17/linux/ipc/sem.c:251-290 | While operations are possible no value is negative and no adjustment leaves its range. |
| `SemOps.ApplyConserves` | kernel_2_4_17/linux/ipc/sem.c:251-311 | Value plus all live adjustments moves by exactly the operations without SEM_UNDO. |
| `SemOps.ExitConserves` | kernel_2_4_17/linux/ipc/sem.c:1029-1049 | A process exit leaves that total alone, except for exactly what it cuts off at zero. |
| `SemOps.ExitGivesBack` | kernel_2_4_17/linux/ipc/sem.c:1029-1049 | After an exit the process has no undo structure, each value is the old one with its adjustment cut off at zero, and nobody else's structure changed. |
| `SemOps.SetValResets` | kernel_2_4_17/linux/ipc/sem.c:635-650 | SETVAL resets one total and leaves the others. |
| `SemOps.SetAllResets` | kernel_2_4_17/linux/ipc/sem.c:590-597 | SETALL resets every total. |
| `SemRuns.NextKeepsInv` | kernel_2_4_17/linux/ipc/sem.c:839-976 | Every event (call, queue pass, wake-up, signal, removal, exit, SETVAL, SETALL) keeps the books equal to the log and every call in one place. |
| `SemCalls.NextKeepsTied` | kernel_2_4_17/linux/ipc/sem.c:839-976 | Every event keeps each sleeper and each log entry tied to the process and the operation list that the caller of its number passed. |
| `SemRuns.RunKeepsInv` | kernel_2_4_17/linux/ipc/sem.c:839-976 | Books equal to the log and every call in one place, for every reachable state. |
| `SemCalls.RunKeepsTied` | kernel_2_4_17/linux/ipc/sem.c:839-976 | In every state of every run, every sleeper and log entry carries what its caller asked for. |
| `SemCalls.CameFrom` | kernel_2_4_17/linux/ipc/sem.c:839-852 | Every call number in use was given to one semop of the run. |
| `SemCalls.ExactlyOnce` | kernel_2_4_17/linux/ipc/sem.c:906-976 | Over every interleaving, for every semop of the run that has returned: on 0 the log has one entry of that call, with the process and the operation list it passed; on an error it has none, except when the call was too late, and then the code is EIDRM and the one entry is again as passed. |
| `SemCalls.DoneYetFailedIff` | kernel_2_4_17/linux/ipc/sem.c:927-967 | A call returned an error although its list was done if and only if at some step the set was gone and its sleeper, already served with status 0, woke to an empty slot. |
| `SemCalls.NoneFailedWhileAlive` | kernel_2_4_17/linux/ipc/sem.c:927-967 | As long as the set exists no call that returned an error was done. |
| `SemLate.LateExample` | kernel_2_4_17/linux/ipc/sem.c:927-967 | A concrete run from a new set in which that happens. |
| `SemRuns.BooksAreTheLog` | kernel_2_4_17/linux/ipc/sem.c:243-343 | In every reachable state values and adjustments are those of replaying the log; no value is negative and no adjustment out of range. |
| `SemRuns.NobodyQueuedOnRemoved` | kernel_2_4_17/linux/ipc/sem.c:392-419 | Once a set is removed nobody is queued on it or told to retry on it. |
| `SemRuns.PassServes` | kernel_2_4_17/linux/ipc/sem.c:317-343 | A queue pass does nothing if everyone has to sleep on or was told to retry; else the first sleeper that need not sleep on is told to retry if its list can be done and takes, which ends the pass, and otherwise is the first to be released, with its list done or with its error. |
| `SemRuns.TotalIsLedger` | kernel_2_4_17/linux/ipc/sem.c:251-311 | Value plus outstanding adjustments is, for every log, what a ledger of permanent operations, resets and cut-offs says. |
| `SemRuns.ConservedOverRuns` | kernel_2_4_17/linux/ipc/sem.c:251-311 | The same for every state of every run. |
| `SemArray.SemSet.Forward` | kernel_2_4_17/linux/ipc/sem.c:251-300 | The forward loop stops at the first impossible operation with the verdict of the reference function and exactly the prefix applied. |
| `SemArray.SemSet.Rollback` | kernel_2_4_17/linux/ipc/sem.c:300-311 | The backward loop restores values and adjustments exactly. |
| `SemArray.SemSet.TryAtomicSemop` | kernel_2_4_17/linux/ipc/sem.c:243-312 | All operations or none; a dry run changes nothing; the result is 0, 1, EAGAIN or ERANGE exactly as the values and adjustments at the first obstacle say. |
| `SemArray.SemSet.UpdatePending` | kernel_2_4_17/linux/ipc/sem.c:317-343 | The queue pass refines `UpdateQueue`. |
| `SemArray.SemSet.SysSemop` | kernel_2_4_17/linux/ipc/sem.c:839-976 | A call up to its return or first sleep refines the run model's step; EINVAL, E2BIG, EIDRM and EFBIG exactly in their cases, else the verdict on the list; a list that must wait is queued at the tail if it can change a value and at the head if not. |
| `SemArray.SemSet.AttemptOrSleep` | kernel_2_4_17/linux/ipc/sem.c:890-926 | Attempt with undo structure, else queueing: altering sleepers at the tail, waiting ones at the head; the result is the code returned, or none. |
| `SemArray.SemSet.FinishCall` | kernel_2_4_17/linux/ipc/sem.c:967-976 | The end of a call: the queue pass runs exactly if the list could change a value, and the code handed out is the attempt's. |
| `SemArray.SemSet.SleeperRuns` | kernel_2_4_17/linux/ipc/sem.c:927-967 | A queued sleeper that was told to retry returns the verdict or sleeps on; any other returns its status; both as in the run model. |
| `SemArray.SemSet.ReleasedSleeperRuns` | kernel_2_4_17/linux/ipc/sem.c:927-967 | A released sleeper returns its status, or EIDRM for an empty slot, as in the run model. |
| `SemArray.SemSet.CtlSetVal` | kernel_2_4_17/linux/ipc/sem.c:635-650 | SETVAL: EINVAL and ERANGE exactly in their cases, else the run model's step. |
| `SemArray.SemSet.CtlSetAll` | kernel_2_4_17/linux/ipc/sem.c:562-600 | SETALL with its range checks refines the run model's step. |
| `SemArray.SemSet.FreeArray` | kernel_2_4_17/linux/ipc/sem.c:392-419 | Removal releases every queued sleeper with EIDRM. |
| `SemArray.SemSet.ExitAdjust` | kernel_2_4_17/linux/ipc/sem.c:1029-1049 | A process exit refines the run model's step. |
| `SemArray.Adjust` | kernel_2_4_17/linux/ipc/sem.c:1036-1047 | Its loop adds every adjustment to its value, cut off at zero. |
| `SemArray.ScanOps` | kernel_2_4_17/linux/ipc/sem.c:870-880 | The validation loop finds the range, undo, decrease and alter flags of the whole list. |
| `SemArray.ClearColumn` | kernel_2_4_17/linux/ipc/sem.c:643-647 | The SETVAL loop clears one adjustment in every undo structure. |
| `Preorder.PreIsSubtree` | kernel_2_4_17/linux/fs/namespace.c:126-140 | The preorder of a node lists exactly its subtree. |
| `Preorder.PreOnce` | kernel_2_4_17/linux/fs/namespace.c:126-140 | Each node of it once. |
| `Preorder.WalkNext` | kernel_2_4_17/linux/fs/namespace.c:126-140 | From the last visited node the walk goes to the next of the preorder, and ends exactly when all were visited. |
| `Mounts.Namespace.NextMnt` | kernel_2_4_17/linux/fs/namespace.c:126-140 | Returns the next mount of the preorder of the root's tree, or none exactly when nothing is left; terminates. |
| `Mounts.Namespace.CloneMnt` | kernel_2_4_17/linux/fs/namespace.c:142-158 | A new mount that is its own parent with nothing on it. |
| `Mounts.Namespace.AttachMnt` | kernel_2_4_17/linux/fs/namespace.c:117-124 | A tree of mounts goes first on the child list of a mount outside it; links stay a forest and `d_mounted` counts the mounts on each dentry. |
| `Mounts.Namespace.DetachMnt` | kernel_2_4_17/linux/fs/namespace.c:106-115 | The inverse: the mount is its own parent again with its root as mountpoint, its old parent loses it and nothing else changes; d_mounted goes down. |
| `Mounts.Namespace.CloneUnder` | kernel_2_4_17/linux/fs/namespace.c:445-453 | One node of the copy: cloned and attached first under the copy of its parent, all else unchanged. |
| `Mounts.Namespace.CopyNext` | kernel_2_4_17/linux/fs/namespace.c:439-454 | One round of the copying loop: from a copy of the walk so far to a copy of one node more, after climbing to the copy of the next parent. |
| `Mounts.Namespace.CopyTree` | kernel_2_4_17/linux/fs/namespace.c:427-455 | For every tree: the result is in bijection with it and preserves parent, mountpoint and root, with child lists mirrored; every old mount is as it was. |
| `Mounts.Namespace.CollectKill` | kernel_2_4_17/linux/fs/namespace.c:266-275 | The list of mounts to take off is the reversed preorder. |
| `Mounts.Namespace.UmountTree` | kernel_2_4_17/linux/fs/namespace.c:266-290 | Takes exactly the mounts of the tree off, one per turn in reversed preorder; at its turn each mount has nothing on it any more. |
| `Mounts.DescendantsFirst` | kernel_2_4_17/linux/fs/namespace.c:266-290 | In that order every mount comes after all mounts below it. |
| `Mounts.CopyThenUmount` | kernel_2_4_17/linux/fs/namespace.c:451-461 | Copying a tree and taking the copy off again leaves every old mount, and the set of mounts on every dentry, as it was. |
| `Dcache.KilledBooks` | kernel_2_4_17/linux/fs/dcache.c:148-158 | Freeing a dentry whose count is 0 leaves exactly its parent owing one reference, and links, counts and unused list right. |
| `Dcache.Cache.DropCount` | kernel_2_4_17/linux/fs/dcache.c:124-129 | One reference less; a dentry that loses its last one is on no list, so the first BUG of `dput` is unreachable. |
| `Dcache.Cache.Kill` | kernel_2_4_17/linux/fs/dcache.c:148-158 | Frees a dentry without references or children, and no other. |
| `Dcache.Cache.Retire` | kernel_2_4_17/linux/fs/dcache.c:139-142 | A dentry without references goes to the head of the unused list, counted. |
| `Dcache.Cache.Settle` | kernel_2_4_17/linux/fs/dcache.c:131-158 | A dentry without references stays, at the head of the unused list, exactly if it is hashed and its file system does not object; else it goes and its parent is next. |
| `Dcache.Cache.GiveUp` | kernel_2_4_17/linux/fs/dcache.c:123-159 | One turn of the cascade: with another reference left nothing else changes; a hashed dentry that its file system does not object to goes to the head of the unused list; any other goes, and its parent is next. |
| `Dcache.Cache.Release` | kernel_2_4_17/linux/fs/dcache.c:123-159 | The cascade terminates. A dentry goes if and only if it is the given one or an ancestor, and everything on the way up to it has one reference and is unhashed or not wanted by its file system; the first on the way that stays is at the head of the unused list exactly if it had one reference, and the list is as it was otherwise. |
| `Dcache.GoesIff` | kernel_2_4_17/linux/fs/dcache.c:123-159 | The chain that goes, told by the tree and the counts alone. |
| `Dcache.JoinsIff` | kernel_2_4_17/linux/fs/dcache.c:123-159 | The dentry that ends the chain and the unused list, told in the same way. |
| `Dcache.Cache.Dput` | kernel_2_4_17/linux/fs/dcache.c:118-160 | The same for a user's reference; counts stay handles plus children, held dentries stay, and `nr_unused` is the length of the unused list. |
| `Dcache.Cache.PruneOne` | kernel_2_4_17/linux/fs/dcache.c:294-306 | Frees an unused dentry and gives up its reference on its parent, keeping the books. |
| `Dcache.Cache.Requeue` | kernel_2_4_17/linux/fs/dcache.c:334-338 | A marked dentry at the tail loses its mark and goes to the head; fewer marks are left. |
| `Dcache.Cache.TakeLast` | kernel_2_4_17/linux/fs/dcache.c:327-340 | An unmarked dentry leaves the tail, with count 0. |
| `Dcache.Cache.PruneNext` | kernel_2_4_17/linux/fs/dcache.c:323-350 | One round: either a dentry fewer or a mark fewer, with the progress over the list it found kept up. |
| `Dcache.Cache.PruneDcache` | kernel_2_4_17/linux/fs/dcache.c:321-352 | Terminates despite re-queueing; its BUG is unreachable; with enough unmarked dentries on the list it frees exactly the last `count` of them, keeping the marked ones and those before, otherwise every unmarked one; it stops early only with an empty list. |
| `Dcache.Cache.MoveToTail` | kernel_2_4_17/linux/fs/dcache.c:490-494 | An unused dentry moves to the tail; the list has the same dentries. |
| `Dcache.Cache.SelectParent` | kernel_2_4_17/linux/fs/dcache.c:477-517 | Visits every proper descendant once, returns the number with count 0, and moves exactly those to the tail of the unused list in walk order, the rest keeping theirs. |
| `Dcache.Cache.ShrinkDcacheParent` | kernel_2_4_17/linux/fs/dcache.c:531-537 | Terminates for every parent. Either the parent is still there and below it exactly the pinned dentries are left, or it is gone, and then nobody held it or anything below it. |
| `Dcache.PinnedStay` | kernel_2_4_17/linux/fs/dcache.c:531-537 | When nothing idle is left below a dentry, a dentry below it stayed if and only if a user held it or something below it. |
| `Dcache.Cache.HaveSubmounts` | kernel_2_4_17/linux/fs/dcache.c:432-468 | True exactly when the dentry or a descendant is a mount point. |
| `Dcache.Cache.DAlloc` | kernel_2_4_17/linux/fs/dcache.c:587-684 | A new dentry held by its creator, first among its parent's children, which it holds a reference on. |
| `Dcache.Cache.DgetLocked` | kernel_2_4_17/linux/fs/dcache.c:218-226 | A reference more; a dentry that was unused leaves the unused list. |
| `Dcache.Cache.SetHashed` | kernel_2_4_17/linux/fs/dcache.c:834-841 | Hashing or unhashing a held dentry keeps the books, unused dentries being hashed. |
| `Preorder.WalkingVisit` | kernel_2_4_17/linux/fs/dcache.c:483-505 | The descend and ascend walk visits the next node of the preorder and none twice. |
| `Preorder.WalkingUp` | kernel_2_4_17/linux/fs/dcache.c:506-515 | Ascending from the end of a child list loses no node. |
| `Pids.Scan` | kernel_2_4_17/linux/kernel/fork.c:98-122 | For every task list that leaves a number unused on the way, the restarting scan terminates, by cyclic distance, with the first number from the start on that no task uses, and with the least pid, group or session above it. |
| `Pids.LowerSafe` | kernel_2_4_17/linux/kernel/fork.c:114-119 | next_safe becomes the least pid, group or session above last_pid of the tasks seen so far. |
| `Pids.AnswerIffUnused` | kernel_2_4_17/linux/kernel/fork.c:98-122 | The scan has an answer if and only if some number from its start on, or of 300..32767, is unused. |
| `Pids.FirstUnusedOnce` | kernel_2_4_17/linux/kernel/fork.c:98-122 | The scan has at most one answer. |
| `Pids.AllocatedIsNew` | kernel_2_4_17/linux/kernel/fork.c:84-126 | A number allocated from a right cache is no listed task's pid, group or session, on the fast path too, and the cache stays right; it is a live thread group's number exactly if the fast path comes by one. |
| `Pids.StepKeepsIff` | kernel_2_4_17/linux/kernel/fork.c:84-126 | Getting a number, a failed fork, exit, setpgid and setsid keep the cache right and listed numbers distinct; putting a child on the list does so if and only if none of its numbers is ahead of the count and no listed task has its pid. |
| `Pids.RunKeepsIff` | kernel_2_4_17/linux/kernel/fork.c:571-720 | All states of a run from boot are right if and only if every child of the run meets that condition when it is listed. |
| `Pids.TimelyLands` | kernel_2_4_17/linux/kernel/fork.c:612-718 | A child meets it if the numbering has not restarted since it got its number and its group still has members; its session does anyway, since its parent is inside do_fork. |
| `Pids.StepKeepsInv` | kernel_2_4_17/linux/kernel/fork.c:571-720 | Every step that lists children only in time keeps this, and keeps the numbers of unlisted children of the current lap behind the count and unshared. |
| `Pids.RunKeepsInv` | kernel_2_4_17/linux/kernel/fork.c:571-720 | In every state of every run from boot in which children are listed in time, no pid, group or session lies strictly between last_pid and next_safe, and no two tasks but idle ones share a number. |
| `Pids.TwoTasksOneNumber` | kernel_2_4_17/linux/kernel/fork.c:612-718 | A run from boot in which two listed tasks have one number: the fork of one task sleeps between the number and the list, while another task forks until the numbering restarts and comes by that number. |
| `PidHistory.SharedIff` | kernel_2_4_17/linux/kernel/fork.c:84-126 | In every state of every run from boot, two listed tasks share a number if and only if it was given to both, and at the last scan up to the second time the first was not on the list yet. |
| `PidHistory.DistinctIff` | kernel_2_4_17/linux/kernel/fork.c:84-126 | So two listed tasks, not being idle ones, have one number if and only if some number was given out twice in this way to tasks that are listed now. |
| `PidHistory.AheadIsOverlooked` | kernel_2_4_17/linux/kernel/fork.c:98-122 | A number that somebody has and that lies between last_pid and next_safe belongs to a child that was not on the list at the last scan. |
| `Pids.GroupNumberGivenAway` | kernel_2_4_17/linux/kernel/fork.c:103-119 | A run from boot, of one fork after another, in which fork hands out the number of a thread group that still has members. |
| `Pids.ProcessTable.GetPid` | kernel_2_4_17/linux/kernel/fork.c:84-126 | The next number if it is in range and below next_safe; otherwise the first from there on, starting over at 300, that is no task's pid, group, thread group or session, with next_safe not above any pid, group or session above it; from a right cache, no task's pid, group or session on either path. |
| `Pids.AllocatedMeans` | kernel_2_4_17/linux/kernel/fork.c:84-126 | The specification of the allocator told by the numbers of the tasks. |
| `Pids.ProcessTable.ForkBegin` | kernel_2_4_17/linux/kernel/fork.c:571-612 | Refuses CLONE_PID to all but pid 0; otherwise the child gets a number no listed task bars, with the parent's group and session, its parent has an open fork, and a right state stays right. |
| `Pids.ProcessTable.ForkEnd` | kernel_2_4_17/linux/kernel/fork.c:697-718 | Lists the child; a right state stays right if and only if the child's numbers allow it, and does when it is in time. |
| `MsgBody.LoadMsg` | kernel_2_4_17/linux/ipc/msg.c:160-209 | The pieces hold the text in order, for every length; all are full but the last. |
| `MsgBody.StoreMsg` | kernel_2_4_17/linux/ipc/msg.c:212-237 | From pieces that are full but the last, copies out exactly the first bytes of the text and never runs past the last segment: with `LoadMsg`, what is received is what was sent. |
| `MsgSelect.ConvertedIffFits` | kernel_2_4_17/linux/ipc/msg.c:711-728 | The converted mode matches exactly the messages that msgrcv() promises if and only if `msgtyp` is not LONG_MIN, whose negation wraps. |
| `MsgSelect.FindMessage` | kernel_2_4_17/linux/ipc/msg.c:756-773 | Finds the first matching message, or for a bounded search the earliest one of the least type; none exactly when nothing matches. |
| `MsgSelect.SelectedOnce` | kernel_2_4_17/linux/ipc/msg.c:756-773 | That message is unique. |
| `MsgQueue.SendKeepsInv` | kernel_2_4_17/linux/ipc/msg.c:602-626 | Hand-off or queueing keeps the invariant of the queue. |
| `MsgQueue.SearchKeepsInv` | kernel_2_4_17/linux/ipc/msg.c:756-810 | So does a search that takes a message, fails or goes to sleep. |
| `MsgQueue.WakeKeepsInv` | kernel_2_4_17/linux/ipc/msg.c:812-849 | So does a receiver that wakes with its message, with an error, by a signal or for nothing. |
| `MsgQueue.PurgeKeepsInv` | kernel_2_4_17/linux/ipc/msg.c:268-303 | So does removal of the queue. |
| `MsgQueue.WaitingIsAlive` | kernel_2_4_17/linux/ipc/msg.c:832-840 | A receiver that wakes with nothing sleeps on a queue that is still there: the BUG is unreachable. |
| `MsgQueue.RunKeepsInv` | kernel_2_4_17/linux/ipc/msg.c:602-849 | The invariant holds in every state of every run. |
| `MsgQueue.OnePlace` | kernel_2_4_17/linux/ipc/msg.c:602-849 | In every state of every run each accepted message is on the queue, or in one receiver's slot, or delivered once, or freed together with the queue, and in one of these places only. |
| `MsgQueue.RunIsSound` | kernel_2_4_17/linux/ipc/msg.c:602-849 | In every such state no queued message is one a listed receiver asks for, a handed message is one its receiver asked for and has room for, and q_cbytes and q_qnum are the sums over the queued messages, which are in the order they were accepted. |
| `MsgQueue.SendGoesTo` | kernel_2_4_17/linux/ipc/msg.c:602-626 | A sent message goes to the first listed receiver that asks for its type and has room for it or takes MSG_NOERROR, and else to the end of the queue; those before it that ask learn it is too big and leave the list; nobody else is touched. |
| `MsgQueue.SearchHands` | kernel_2_4_17/linux/ipc/msg.c:756-795 | What a search hands out is the earliest queued message that matches, of the least type for a bounded search, as its type and the first msgsz bytes of its text. |
| `MsgQueue.SearchMisses` | kernel_2_4_17/linux/ipc/msg.c:756-810 | Without one: ENOMSG or a sleep at the end of the list exactly if no queued message matches; E2BIG changes nothing. |
| `MsgQueue.WakeHands` | kernel_2_4_17/linux/ipc/msg.c:812-849 | The same bytes for a receiver that wakes with a message. |
| `MsgQueue.SentIsReceived` | kernel_2_4_17/linux/ipc/msg.c:628-849 | Over every run, whoever is given the message of an earlier send is given its type and the first bytes of its text, as many as asked for or there are, and less than all only with MSG_NOERROR. |
| `MsgSystem.PipelinedSend` | kernel_2_4_17/linux/ipc/msg.c:602-626 | The first listed receiver that asks for the message and has room gets it; those before it that ask learn it is too big; the others stay listed, in order. |
| `MsgSystem.Deliver` | kernel_2_4_17/linux/ipc/msg.c:691-698 | A message no receiver takes is queued at the end and counted; the result says whether one took it. |
| `MsgSystem.SearchQueue` | kernel_2_4_17/linux/ipc/msg.c:756-810 | The reply, the queue and the message taken, if any, of a search, for every request, with the text copied out of its pieces. |
| `MsgSystem.MsgIds.Search` | kernel_2_4_17/linux/ipc/msg.c:756-810 | The same in the table of queues; when a message is taken, msg_bytes and msg_hdrs lose its size and one, and stay the sums over all queued messages. |
| `MsgSystem.ExpungeAll` | kernel_2_4_17/linux/ipc/msg.c:268-281 | Every listed receiver, and no other, learns that the queue is gone. |
| `MsgSystem.MsgIds.NewQueue` | kernel_2_4_17/linux/ipc/msg.c:119-146 | An empty queue with the default byte limit. |
| `MsgSystem.MsgIds.MsgSnd` | kernel_2_4_17/linux/ipc/msg.c:628-709 | Sent, EINVAL, EIDRM and no room exactly in their cases, by the byte and message limits, no room being EAGAIN with IPC_NOWAIT and a sleep without; a sent message, loaded into its pieces, is one step of the run model; msg_bytes and msg_hdrs gain its size and one exactly if no receiver took it, and stay the sums over all queued messages. |
| `MsgSystem.MsgIds.MsgRcv` | kernel_2_4_17/linux/ipc/msg.c:730-810 | A search is one step of the run model. A reply with a message has the type and the first msgsz bytes of the text of an accepted message that was not delivered before, the earliest that matches; ENOMSG, a sleep at the end of the list and E2BIG exactly in their cases; the totals stay the sums over all queued messages. |
| `MsgSystem.MsgIds.WakeReceiver` | kernel_2_4_17/linux/ipc/msg.c:812-849 | So is going on after a sleep: a message, E2BIG, EIDRM, EINTR or another search exactly by the slot and the signal, with the same bytes of the text; the totals are lowered exactly if it takes a message from the queue. |
| `MsgSystem.MsgIds.FreeQueue` | kernel_2_4_17/linux/ipc/msg.c:283-303 | So is removal, with the totals reduced by exactly the queue's messages. |
| `MsgSystem.TotalsChange` | kernel_2_4_17/linux/ipc/msg.c:693-697 | The sums over all queued messages move by what the messages of one queue move by. |
| `Pipe.Ring.CopyIn` | kernel_2_4_17/linux/fs/pipe.c:172-190 | A run of bytes up to the physical end of the buffer is appended to its contents. |
| `Pipe.Ring.CopyOut` | kernel_2_4_17/linux/fs/pipe.c:86-103 | A run of bytes is taken from the front of the contents. |
| `Pipe.Ring.Drain` | kernel_2_4_17/linux/fs/pipe.c:84-109 | Reads exactly the oldest bytes, as many as asked for or there are, across the wrap; what came out and what is inside stay what went in. |
| `Pipe.Ring.Fill` | kernel_2_4_17/linux/fs/pipe.c:172-196 | Writes as much as there is space for, across the wrap. |
| `Pipe.Ring.ReadSection` | kernel_2_4_17/linux/fs/pipe.c:61-132 | End of file, EAGAIN, waiting and return exactly in their cases; a reader that waits again finds the pipe empty, so the BUG is unreachable. |
| `Pipe.Ring.WriteSection` | kernel_2_4_17/linux/fs/pipe.c:153-226 | A write of up to PIPE_BUF bytes adds all its bytes exactly if there is room for all and else none; a larger one adds as much as there is room for; SIGPIPE, EAGAIN, waiting and return exactly in their cases. |
| `PipeRuns.StepKeepsInv` | kernel_2_4_17/linux/fs/pipe.c:61-226 | Every step of writers and readers keeps each call's bytes in order. |
| `PipeRuns.RunKeepsInv` | kernel_2_4_17/linux/fs/pipe.c:61-226 | Over every interleaving each write call's bytes are in the stream once, in order, as far as the call has come. |
| `PipeRuns.RoomIsUsed` | kernel_2_4_17/linux/fs/pipe.c:153-196 | In every run, when a writer runs, a small write with room is whole in the stream after its step and one without leaves everything as it is; a large one puts in as much as there is room for. |
| `PipeRuns.SmallWritesAreWhole` | kernel_2_4_17/linux/fs/pipe.c:160-196 | A write of up to PIPE_BUF bytes is in the stream not at all or in one piece. |
| `PipeRuns.WriterStep` | kernel_2_4_17/linux/fs/pipe.c:153-226 | The ring buffer's write section takes the run model's step, with the amount told by the room in the stream, and none without a reader. |
| `PipeRuns.ReaderStep` | kernel_2_4_17/linux/fs/pipe.c:61-132 | Its read section delivers the next bytes of the stream. |
| `ExecArgs.PutPiece` | kernel_2_4_17/linux/fs/exec.c:200-234 | One piece of a string changes exactly its bytes; a new page is otherwise zero, whatever the allocator left in it. |
| `ExecArgs.Binprm.CopyString` | kernel_2_4_17/linux/fs/exec.c:186-236 | A string with its end mark goes right below the others across any page boundaries, or nothing changes and it does not fit. |
| `ExecArgs.Binprm.CopyStrings` | kernel_2_4_17/linux/fs/exec.c:183-238 | Packs all strings in order, exactly if they fit. |
| `ExecArgs.Binprm.DoExecve` | kernel_2_4_17/linux/fs/exec.c:867-904 | Arguments, environment and file name lie in this order, exactly if the counts and the bytes fit. |
| `ExecArgs.Binprm.RemoveArgZero` | kernel_2_4_17/linux/fs/exec.c:735-757 | Moves p past exactly the first string at any page offset; nothing for no arguments. |
| `ExecArgs.SkipString` | kernel_2_4_17/linux/fs/binfmt_aout.c:228-234 | The inner loop ends right behind a string's end mark. |
| `ExecArgs.FillTable` | kernel_2_4_17/linux/fs/binfmt_aout.c:226-245 | A table gets the address of every string and a null, and no other word changes. |
| `ExecArgs.CreateAoutTables` | kernel_2_4_17/linux/fs/binfmt_aout.c:192-246 | The stack holds the count, both table addresses and both tables, all below the strings; arg_end is env_start is the end of the arguments. |
| `ExecArgs.PointerReads` | kernel_2_4_17/linux/fs/binfmt_aout.c:226-245 | Reading at a table's address gives that string. |
| `ExecArgs.Execute` | kernel_2_4_17/linux/fs/exec.c:867-904 | End to end, for every argv and envp: exactly when they fit, following the argument table through the pages that were packed gives argv and following the environment table gives envp, in order. |
| `IpcIds.IdRoundTrip` | kernel_2_4_17/linux/ipc/util.h:87-97 | Built ids fit an int and decode to slot and sequence number. |
| `IpcIds.Ids.constructor` | kernel_2_4_17/linux/ipc/util.c:52-80 | An empty table of the limited size. |
| `IpcIds.Ids.FindKey` | kernel_2_4_17/linux/ipc/util.c:90-103 | Finds the first live entry with the key and misses none, looking only up to max_id. |
| `IpcIds.Ids.GrowAry` | kernel_2_4_17/linux/ipc/util.c:105-131 | The larger array holds the old entries and free slots; the limit returned is right with and without memory. |
| `IpcIds.Ids.Install` | kernel_2_4_17/linux/ipc/util.c:156-171 | A new object in a free slot: the counts, the greatest slot, the sequence counter with its wrap and the id given out. |
| `IpcIds.Ids.AddId` | kernel_2_4_17/linux/ipc/util.c:146-172 | The first free slot below the limit gets the next sequence number; in_use counts live slots and max_id is the greatest of them. |
| `IpcIds.Ids.RmId` | kernel_2_4_17/linux/ipc/util.c:184-205 | Frees the slot and finds max_id anew. |
| `IpcIds.Ids.LookUp` | kernel_2_4_17/linux/ipc/util.h:68-97 | An id yields an object exactly if its slot is live with its sequence number. |
| `IpcIds.Ids.IdsDiffer` | kernel_2_4_17/linux/ipc/util.c:163-166 | Objects created fewer than seq_max + 1 creations apart never share an id. |
| `IpcIds.Ids.StandsIff` | kernel_2_4_17/linux/ipc/util.c:163-166 | An id given out stands for an object exactly if its slot holds one created a multiple of seq_max + 1 creations from it. |
| `CompT.EncodeCompT` | kernel_2_4_17/linux/kernel/acct.c:236-261 | The shifting loop yields the nearest fraction for the least exponent, with the carry of the rounding. |
| `CompT.CodeFits` | kernel_2_4_17/linux/kernel/acct.c:236-261 | For every 32-bit value the code has 16 bits, is exact up to 8191, and has a fraction of at least 1024 with a nonzero exponent. |
| `CompT.CodeIsClose` | kernel_2_4_17/linux/kernel/acct.c:236-261 | The code stands for a value within one part in 2048. |
| `CompT.CodeIsMonotone` | kernel_2_4_17/linux/kernel/acct.c:236-261 | Larger values have no smaller codes. |

## Left out

- Copies between user and kernel memory never fault, allocations do not fail except where a parameter says so, and permission checks, timestamps and process accounting are not modelled.
- SMP effects inside a critical section: each is one step.
- Locks: flock locks, leases, mandatory locking and the conversion of user structures; a fork or clone sharing a files structure.
- Semaphores: sempid; the revalidation after `alloc_undo` drops the lock is part of the same step; nothing is claimed about `update_queue` waking every sleeper that could proceed, since it makes a single pass, and SEMVMX is not enforced on exit by the source.
- Mounts: usage counts of mounts and the per-superblock list, the hash table, and the path that undoes a partial copy when memory runs out.
- Dentries: names, hash chains, inodes and the file systems' own operations; whether `d_delete` objects is a parameter. Renaming a dentry, `d_genocide` and pruning one superblock are not modelled.
- Dcache.Cache.ShrinkDcacheParent: ends when the parent itself was freed under it, where the source goes on with it.
- Process numbers: the rest of do_fork and the permission checks of setpgid and setsid.
- Pids.ProcessTable.GetPid: off its fast path, asks that some number the scan comes by be unused, without which the source does not return; `Pids.AnswerIffUnused` says that this is exact.
- Messages: the list of sleeping senders and their wake-up; a sender that finds no room tries again as a new attempt. IPC_SET is modelled by its change of the byte limit, since receivers may wake at any time.
- Pipes: opening and releasing, polling, and partial copies at a faulting user address.
- ExecArgs.CreateAoutTables: the i386 layout only, with the strings where setup_arg_pages puts them.
- IpcIds: permissions and the locking of entries.
- Drivers, boot code, file system back ends, memory management and networking.

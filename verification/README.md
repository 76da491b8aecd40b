# A verified model of the persistence client library

The persistence client library stores key-value data and files for applications in a car: shared or local, per user and
seat, with default data behind them, with backups for files, and with a main-loop thread for D-Bus traffic. This project
models its five load-bearing parts in Dafny and proves what they promise.

| part | files |
|---|---|
| The top-down red-black tree behind all handle and notification tables, on mutable nodes | `RbShape`, `RbRotate`, `RbInsertSteps`, `RbInsert`, `RbEraseSteps`, `RbErase`, `RbContents`, `RbHeight`, `RbDelete`, `RbTree` |
| Handle numbers, the key-handle table, the file-descriptor table, the notification table | `HandleRuns`, `HandleMisuse`, `HandleCount`, `KeyHandles`, `FileHandles`, `Notifications` |
| Checksums, backup on first write, recovery on the next open, with a crash possible at every step | `CrcTable`, `Crc32`, `Disks`, `BackupProtocol`, `BackupFiles`, `SessionRuns`, `FileSession` |
| Handing commands to the main loop through a pipe, a flag and a condition variable | `MainLoop`, `MainLoopRuns`, `MainLoopCalls` |
| Database keys and layered reads through the cache of database handles | `DbCache`, `DbLookup`, `DbAccess`, `DbKeys`, `DbIsolation` |

How the tree is proved: at every moment of a descent the heap is a context (the way from the false root to a hole) plus
a tree in the hole. The loops of insert and erase are the source's own, with their trailing pointers; what one turn does
is a function on contexts and trees, and lemmas about those functions carry colours, order, contents and termination.
The other stateful parts follow one pattern: a class with the source's fields whose methods refine functions on values,
and lemmas about all runs of those functions.

## What was found

The code and its own documentation or evident intent part in these places. Each is stated exactly in a lemma.

- The checksum loop skips table index 255. Leading zero bytes are therefore invisible, and files of zeros of any length
  have the same checksum (`Crc32.TurnIsRefExactly`, `Crc32.ZeroFilesCollide`, `BackupProtocol.ZerosAreNotSafe`). How far
  any buffer's result is off is `Crc32.CrcDiffers`.
- A good backup with a matching checksum is deleted when the original file itself is missing
  (`BackupProtocol.MissingOriginalLosesBackup`).
- A crash between creating the empty backup and opening the checksum file, and a crash between the two removals at
  close, lose the original (`BackupProtocol.EmptyBackupWindow`, `BackupProtocol.CloseWindow`). A file that is empty at
  open is never protected (`SessionRuns.EmptyUnprotected`).
- The tree's counter grows on duplicates and shrinks on misses, and erase always answers 1
  (`RbTree.RbTree.Insert`, `RbTree.RbTree.Erase`).
- Two calls can make a handle name the wrong resource, and it is stated exactly when they do: releasing a path handle
  before any path handle was ever created, which puts any number on the free list, also one in use
  (`HandleMisuse.ReleaseExactly`); and a full shutdown that the application survives, after which numbers start again
  while the tables stay (`HandleMisuse.ShutdownExactly`). All other calls are harmless (`HandleMisuse.SafeExactly`).
- Open returns -4 when all handles are in use, and enters that number into the table. Closing it makes the next open
  return -4 with handles free (`HandleCount.MaxHandleExactly`, `HandleCount.ClosedErrorCodeComesBack`). Closing two of
  them beside all 510 real handles fills the free list to its end: with no handle in use, every open then returns -4
  until a shutdown or deinitialisation (`HandleCount.StuckReached`, `HandleCount.StuckStays`).
- On a missing record some setters do not commute: the first chooses the permission
  (`FileHandles.SettersCommuteExactly`).
- A resource that is opened for writing only has no backup: the library cannot read it and saves two empty files, which
  recovery ignores (`SessionRuns.WriteOnlyUnprotected`). Opening one beside a lone checksum loses it even if it is intact
  (`BackupProtocol.WriteOnlyVote`). Only if the open itself creates or restores the file is the descriptor readable, and
  the backup a real one (`FileSession.ReadableExactly`).
- A descriptor number on which the default-data user left a record is never backed up (`FileSession.OpenedReady`).
- A command sent without waiting leaves the flag up, and the next waiting call returns before its command is dispatched
  (`MainLoopRuns.EarlyExactly`, `MainLoopRuns.NmBreaksNextCall`).
- The handle cache has one row for a shared ldbid and the local ldbid after it. Where the resource table gives storage
  classes that fit the ldbids, that is shared group 0x7F and local number 0x80; where it does not, any group and its
  successor (`DbCache.CacheCollision`, `DbCache.AgreeingCollision`). Such a pair does harm exactly when both are used
  between two closes (`DbCache.HomeExactly`, `DbLookup.HomeRunExactly`, `DbLookup.CollisionLeaks`).
- Keys of different seats collide when a resource id spells out "seat/", and keys of shared groups do not mention the
  group, so their change notifications share an entry (`DbKeys.KeyExactly`). With fewer than five slashes in a key the
  stripper's pointer ends one past the key's buffer (`DbKeys.GetRawString`).

## Model

| member | source | states |
|---|---|---|
| `RbRotate.Single` | src/rbtree.c:104-119 | a single rotation turns the heap of one tree into the heap of the rotated tree, old root red and new root black |
| `RbRotate.Double` | src/rbtree.c:132-137 | the same for the double rotation |
| `RbRotate.SingleKeeps` | src/rbtree.c:104-119 | a rotation moves no record in the walk, and uses exactly the nodes there were |
| `RbInsertSteps.RotationFindsChain` | src/rbtree.c:288-297 | whenever insert's rotation branch runs, t, g, p and q are a genuine chain of ancestors and the uncle is black; helpers an earlier rotation left stale are never used before they are right again |
| `RbInsertSteps.DoubleLeadsBack` | src/rbtree.c:288-315 | although a double rotation lifts q, the search path leads in two steps back to the child it would have gone to |
| `RbInsertSteps.FixKeepsRB` | src/rbtree.c:288-297 | the rotation cures the red q below the red p: black counts, no red-red edge, at most the next turn's red root |
| `RbInsertSteps.TurnKeeps` | src/rbtree.c:270-315 | one turn of insert's loop keeps all colour and order facts and makes the termination measure smaller |
| `RbInsert.AttachSorts` | src/rbtree.c:272-279 | a record placed where the search ended leaves the walk sorted and adds exactly that record |
| `RbInsert.ChainMoves` | src/rbtree.c:306-314 | moving the helpers down gives the chain the next phase needs |
| `RbInsert.InsertBelow` | src/rbtree.c:258-318 | the loop ends with the false root carrying a red-black tree with the new record added, or the same walk if the key was there |
| `RbEraseSteps.PushKeepsRB` | src/rbtree.c:425-460 | every branch of the push keeps black counts and forbids red-red edges; afterwards q, or its child towards the key, is red, except at a black root without a red child |
| `RbEraseSteps.PushKeepsWalk` | src/rbtree.c:425-460 | no branch of the push moves a record |
| `RbEraseSteps.FoundMoves` | src/rbtree.c:413-424 | f is the node of the wanted key as soon as the descent has passed it, across all rotations |
| `RbErase.PushDown` | src/rbtree.c:425-460 | the push on the heap ends in exactly the context and tree of the push on values, on the same nodes |
| `RbErase.Removed` | src/rbtree.c:463-470 | unlinking q and giving its record to f removes exactly the record of the key, on the same black counts |
| `RbErase.EraseBelow` | src/rbtree.c:400-473 | the loop ends with the false root carrying a red-black tree whose walk lacks exactly the key's record, or is unchanged if there was none |
| `RbTree.RbTree.Find` | src/rbtree.c:209-228 | returns a record exactly if its key is there; 2 to the number of turns is at most (n+1) squared |
| `RbHeight.DepthBound` | src/rbtree.c:242-482 | every valid tree of n nodes is at most 2*log2(n+1) deep |
| `RbHeight.BlackHeight` | src/rbtree.c:242-482 | a tree of black height h has at least 2^h - 1 nodes and is at most 2h deep, one more under a red root |
| `RbTree.RbTree.Insert` | src/rbtree.c:242-331 | valid tree to valid tree; contents gain the record if its key was absent, an existing record stays; the counter overstates the contents by one more after a duplicate |
| `RbTree.RbTree.Erase` | src/rbtree.c:391-482 | valid tree to valid tree for every key; contents lose exactly the key; always 1; the counter drifts by one on a miss in a tree that is not empty |
| `RbTree.RbTree.Size` | src/rbtree.c:491-494 | the number of records plus the accumulated drift |
| `RbTree.InsertedMap` | src/rbtree.c:242-331 | a walk with the record inserted stands for the map with the key added, or the same map |
| `RbTree.ErasedMap` | src/rbtree.c:391-482 | a walk without the record stands for the map without the key |
| `RbTree.RbTree.Delete` | src/rbtree.c:343-371 | every record is released exactly once, largest key first |
| `RbDelete.Release` | src/rbtree.c:350-368 | terminates on every tree, rotating left links away; frees each node once, in the order of the walk, and its trace of all node accesses has none of a node freed before |
| `RbDelete.LiftKeeps` | src/rbtree.c:359-365 | the rotation of the release loop keeps the walk and the nodes |
| `HandleRuns.Fidelity` | src/persistence_client_library_key.c:51-178 | in every run of safe calls, shutdowns and deinitialisation included, a handle >= 1 that an open returned names that open's ldbid, user, seat and resource id until it is closed or the library deinitialised |
| `HandleRuns.RunExclusive` | src/persistence_client_library_handle.c:229-398 | along such a run no positive number is ever in two of: free list, key table, path table, still to be issued; once the free list is stuck it plays no part |
| `HandleRuns.PathFidelity` | src/persistence_client_library_file.c:851-1074 | likewise a path handle >= 1 stays with the path it was created for until it is released |
| `HandleRuns.CreateAnswers` | src/persistence_client_library_file.c:851-1010 | a path creation answers the number taken and records its path under it; -1 is recorded nowhere; a number from 512 up is refused and put back, and the call changes nothing |
| `HandleRuns.CloseAnswers` | src/persistence_client_library_key.c:120-178 | in such a run closing a handle of a named resource answers 1 once, whatever was called since the open, and EPERS_MAXHANDLE the second time |
| `HandleRuns.CloseRefuses` | src/persistence_client_library_key.c:120-178 | when a close is refused: the handle is unknown, or was opened with an empty resource id, which has a code of its own; nothing changes then |
| `HandleRuns.ReleaseAnswers` | src/persistence_client_library_file.c:1014-1074 | a release answers 1 exactly for a known path handle, and for any number before the first path handle; no key handle and no other path is touched |
| `HandleMisuse.SafeExactly` | src/persistence_client_library_handle.c:229-286 | the safe calls are exactly those that keep fidelity: after any other there is a run of safe calls in which an open returns a handle of another resource |
| `HandleMisuse.ReleaseExactly` | src/persistence_client_library_file.c:1014-1074 | when releasing a path handle leads to such a run |
| `HandleMisuse.ReleaseWithoutTreeBreaks` | src/persistence_client_library_file.c:1014-1074 | the shortest such run |
| `HandleMisuse.ShutdownExactly` | src/persistence_client_library_handle.c:270-286 | a shutdown leads to no such run if and only if no handle from 1 to 510 is open |
| `HandleCount.TakeConserved` | src/persistence_client_library_handle.c:229-254 | EPERS_MAXHANDLE exactly when all 510 handles are live; otherwise a number from 1 to 510 that is not live |
| `HandleCount.RunConserved` | src/persistence_client_library_handle.c:229-267 | along every run that only gives back real handles, live and free numbers partition 1..gHandleIdx-1 without duplicates |
| `HandleCount.StartConserved` | src/persistence_client_library_handle.c:47-51 | the allocator starts in such a state, so the runs from program start are covered |
| `HandleCount.Lifo` | src/persistence_client_library_handle.c:229-267 | the number closed last is issued next |
| `HandleCount.MaxHandleExactly` | src/persistence_client_library_handle.c:229-254 | when the allocator answers EPERS_MAXHANDLE in any safe run from program start: the number last given back and not issued again is that code, or none is left to issue again and all 510 are live; once the free list is stuck at 512 entries, exactly if all numbers have been issued |
| `HandleCount.StuckReached` | src/persistence_client_library_handle.c:229-267 | a safe run from program start after which the free list is stuck, with no key or path handle open: 511 opens, one path creation, all closed again |
| `HandleCount.StuckStays` | src/persistence_client_library_handle.c:229-267 | from there on, whatever is called short of a shutdown or deinitialisation, every open and every path creation fails |
| `HandleCount.RunCovered` | src/persistence_client_library_handle.c:229-267 | in every such run each number issued is live or free, unless the free list is stuck |
| `HandleCount.ClosedErrorCodeComesBack` | src/persistence_client_library_key.c:51-178 | the run from program start, 511 opens and two closes, after which open fails with 509 handles live |
| `KeyHandles.KeyHandles.KeyHandleOpen` | src/persistence_client_library_key.c:51-116 | the table and allocator after an open are those of the run model; every refused open leaves both alone, with EPERS_BADPOL for an unknown storage and EPERS_NOT_INITIALIZED for everything else |
| `KeyHandles.KeyHandles.KeyHandleClose` | src/persistence_client_library_key.c:120-178 | likewise for close, with its three answers |
| `KeyHandles.KeyHandles.CloseAllHandles` | src/persistence_client_library_handle.c:270-286 | allocator reset, table as it was |
| `KeyHandles.KeyHandles.SetKeyHandleData` | src/persistence_client_library_handle.c:289-324 | a record already there is not overwritten |
| `KeyHandles.KeyHandles.GetKeyHandleData` | src/persistence_client_library_handle.c:327-358 | answers the record of the handle, or none |
| `FileHandles.FileHandles.SetFileHandleData` | src/persistence_client_library_handle.c:424-497 | the table changes at this handle only; an existing record keeps backup, cache and user fields |
| `FileHandles.FileHandles.SetFileBackupStatus` | src/persistence_client_library_handle.c:585-636 | the table changes at this handle only, in the backup status only |
| `FileHandles.FileHandles.SetFileCacheStatus` | src/persistence_client_library_handle.c:664-718 | the same for the cache status |
| `FileHandles.FileHandles.SetFileUserId` | src/persistence_client_library_handle.c:746-802 | the same for the user id |
| `FileHandles.FileHandles.RemoveFileHandleData` | src/persistence_client_library_handle.c:401-422 | the record is gone; 1 also if there was none |
| `FileHandles.FileHandles.GetFilePermission` | src/persistence_client_library_handle.c:500-528 | the recorded permission; -1 for an unknown handle, but LastEntry before the first setter |
| `FileHandles.SettersCommute` | src/persistence_client_library_handle.c:424-802 | setters of different handles, and of different fields of an existing record, commute |
| `FileHandles.SettersCommuteExactly` | src/persistence_client_library_handle.c:424-802 | when the order of any two setters does not matter, on every table: other handles, on one record fields set alike or different fields, on a missing record the data setter with any other, and cache and backup setter if the new record's memory held empty paths |
| `FileHandles.FirstSetterChooses` | src/persistence_client_library_handle.c:664-802 | an example: cache and user setter on a missing record leave the first one's permission |
| `FileHandles.OpenRecord` | src/persistence_client_library_file.c:389-401 | the setters an open runs leave permission, paths and backup status of this open, whatever a reused descriptor had |
| `FileHandles.FieldsLocal` | src/persistence_client_library_handle.c:424-802 | after any number of setters a field differs only if its own setter was among them |
| `FileHandles.FieldsLatest` | src/persistence_client_library_handle.c:424-802 | after any setters each of the seven fields holds what the last call of its own setter gave it |
| `FileHandles.NewRecord` | src/persistence_client_library_handle.c:424-802 | a setter on a missing record does what it would do to a blank one: status 0, no cache, user 0, and a permission of its own |
| `FileHandles.SettersLocal` | src/persistence_client_library_handle.c:424-802 | any number of setters on one handle leaves all other records alone |
| `Notifications.Registry.NotifyOnChange` | src/persistence_client_library_db_access.c:696-787 | registering and unregistering over the tree refine a set of hashes and one callback, which a new registration sets and which goes exactly when the set becomes empty: the tree's counter is right here |
| `Notifications.Registry.RegNotifyOnChange` | src/persistence_client_library_key.c:839-901 | lookup errors and local or non-key resources are refused and change nothing; all else registers or unregisters |
| `Notifications.AnswerExactly` | src/persistence_client_library_key.c:839-901 | which answer means what |
| `Notifications.Registry.KeyRegister` | src/persistence_client_library_key.c:806-835 | besides, a second callback is refused and changes nothing |
| `Notifications.Registry.KeyUnregister` | src/persistence_client_library_key.c:782-802 | unregistering is not refused for its callback |
| `Notifications.RunConsistent` | src/persistence_client_library_db_access.c:696-787 | in every run the callback is there exactly while something is registered |
| `Notifications.StepKeepsCallback` | src/persistence_client_library_db_access.c:696-787 | the callback is that of the first registration and stays until everything is unregistered |
| `Notifications.RunRegisters` | src/persistence_client_library_db_access.c:696-787 | after any run a hash is registered if and only if the last call about it asked for it, apart from registrations refused for their callback |
| `Crc32.PclCrc32` | src/crc32.c:110-131 | the loop computes the fold of the guarded table step over the buffer; a null buffer gives 0 |
| `CrcTable.TableIsBitwise` | src/crc32.c:63-108 | each table entry is eight steps of the bit-at-a-time division by edb88320 |
| `Crc32.UpdateIsRef` | src/crc32.c:116-126 | below index 255 one turn is the bit-at-a-time step of section 8 of RFC 1952 |
| `Crc32.CrcIsRef` | src/crc32.c:110-131 | for every buffer whose run meets index 255 only where it does no harm, or not at all, the result is that CRC-32 |
| `Crc32.NoHitHarmless` | src/crc32.c:116-126 | a run that never reaches index 255 is one of these |
| `Crc32.TurnIsRefExactly` | src/crc32.c:116-126 | a turn agrees with the definition if and only if it avoids index 255 or the register has one particular value |
| `Crc32.OneHitExactly` | src/crc32.c:110-131 | a buffer with one turn at index 255 that may do harm still has the defined CRC-32 if and only if the register holds that value there |
| `Crc32.CrcDiffers` | src/crc32.c:110-131 | for every buffer and start value: the result and the defined CRC-32 differ by the sum of the look-ups the guard left out, each carried to the end of the buffer by itself; they agree if and only if that sum is 0 |
| `Crc32.OneByteDiffers` | src/crc32.c:110-131 | two such buffers that differ in exactly one byte have different results |
| `Crc32.Chaining` | src/crc32.c:110-131 | continuing with the result of one buffer on the next equals one run over both, index 255 included |
| `Crc32.LeadingZeros` | src/crc32.c:110-131 | any number of leading zero bytes leaves the result as it is |
| `Crc32.ZeroFilesCollide` | src/crc32.c:110-131 | all buffers of zeros have checksum 0, against the definition |
| `BackupProtocol.Vote` | src/persistence_client_library_backup_filelist.c:308-484 | for every combination of the three files and either kind of open: nothing happens exactly without helper files or with an empty checksum beside a backup; else recovery succeeds if and only if the original is there and two files that exist stand for the same checksum, the original for the empty text if it cannot be read; an original that could be read or was replaced stands for that checksum afterwards; otherwise all three files are gone |
| `Disks.CsumExactly` | src/persistence_client_library_backup_filelist.c:576-617 | the checksum text of a file that is not empty is the one text of lower-case hexadecimal digits without leading zeros that reads, from left to right, as its checksum |
| `Disks.CsumSame` | src/persistence_client_library_backup_filelist.c:324-360 | so comparing texts is comparing checksums, with the empty file apart |
| `BackupProtocol.RecoverAsEffect` | src/persistence_client_library_backup_filelist.c:308-484 | what recovery leaves by its result, for either kind of open: the same disk, or the backup in place of the original exactly if the helper files agree, or nothing at all |
| `BackupProtocol.CrashedWipe` | src/persistence_client_library_backup_filelist.c:473-481 | the four disks a cut-short removal can leave; once the original is gone the next open, of either kind, removes the rest |
| `BackupProtocol.VerifyIdempotent` | src/persistence_client_library_backup_filelist.c:308-484 | a successful recovery is unchanged by running it again |
| `BackupProtocol.MissingOriginalLosesBackup` | src/persistence_client_library_backup_filelist.c:488-500 | a matching backup and checksum are deleted when the original is missing |
| `BackupProtocol.CrashSafety` | src/persistence_client_library_backup_filelist.c:504-572 | a crash anywhere from the truncation of the checksum to just before close, then any number of crashed recoveries and a completed one, gives back the content at the first write |
| `BackupProtocol.CrashSafetyExactly` | src/persistence_client_library_backup_filelist.c:504-572 | for the backup phase this holds if and only if no strict prefix and no different old backup has the checksum of the content |
| `BackupProtocol.CrashedRecovery` | src/persistence_client_library_backup_filelist.c:488-500 | a recovery that is itself cut short leaves a state recovery still repairs |
| `BackupProtocol.ZerosAreNotSafe` | src/crc32.c:116-126 | the prefix condition fails for every file of two or more zeros |
| `BackupProtocol.TornChecksumLoses` | src/persistence_client_library_backup_filelist.c:531-545 | a half-written checksum loses the content, so its write must be atomic |
| `BackupProtocol.EmptyBackupWindow` | src/persistence_client_library_backup_filelist.c:513-530 | the crash right after the empty backup appears loses the content if and only if there was no checksum file and the content is not empty |
| `BackupProtocol.CloseWindow` | src/persistence_client_library_file.c:110-120 | the crash between the removals at close keeps the written content if and only if the old checksum happens to fit it; before them the old content comes back, after them the new one stays |
| `BackupProtocol.EmptyOriginalUnprotected` | src/persistence_client_library_backup_filelist.c:324-345 | beside a backup, the checksum of an empty file makes recovery do nothing |
| `BackupProtocol.WriteOnlyVote` | src/persistence_client_library_backup_filelist.c:308-484 | answer and disk of an open for writing only, for every combination of the files: it goes by the helper files alone |
| `BackupFiles.Store.VerifyConsistency` | src/persistence_client_library_backup_filelist.c:308-484 | for every kind of open the call makes exactly the disk calls of the protocol and ends on its disk; 0 exactly if there is nothing to vote on, with no change; a descriptor with the original kept, or replaced by an agreeing backup; -1 with all three files gone |
| `BackupFiles.Store.CreateBackup` | src/persistence_client_library_backup_filelist.c:504-572 | checksum file and whole content are written in the protocol's order, or an empty backup if the descriptor cannot be read; original and position are as before |
| `BackupFiles.Store.CalcCsum` | src/persistence_client_library_backup_filelist.c:576-617 | the text spells the checksum of the whole file in hexadecimal, from any position, which is restored; empty text if the file is empty or cannot be read |
| `BackupFiles.Store.RecoverFromBackup` | src/persistence_client_library_backup_filelist.c:488-500 | truncates and rewrites the original, or does nothing if it is missing |
| `BackupFiles.Store.DoFileCopy` | src/persistence_client_library_backup_filelist.c:218-232 | the whole source goes to the destination's position, which then is 0; nothing from a source that cannot be read |
| `SessionRuns.Transparent` | src/persistence_client_library_file.c:762-848 | after any seeks and writes, content and position are those of a plain file without backup, and from the first write on the backup holds the whole content from before it, or nothing if the file is open for writing only |
| `SessionRuns.SessionCrashSafety` | src/persistence_client_library_file.c:762-848 | a session on a readable file that stops anywhere, followed by crashed recoveries and a completed one, gives back the content at open, outside the empty-backup window |
| `SessionRuns.WriteOnlyUnprotected` | src/persistence_client_library_file.c:762-848 | once the first write to a file open for writing only has taken its backup, whatever a crash leaves of this write and later ones stays, through any recovery |
| `SessionRuns.EmptyUnprotected` | src/persistence_client_library_file.c:762-848 | a session on a file that is empty at open: wherever it stops, no later open changes anything on the disk, so what the crash left stays |
| `SessionRuns.EffectsRun` | src/persistence_client_library_file.c:762-848 | the list of disk calls of a session leads to the session's disk |
| `SessionRuns.ClosedSession` | src/persistence_client_library_file.c:90-173 | a session that is closed leaves the plain file and nothing to recover |
| `FileSession.FileApi.WriteData` | src/persistence_client_library_file.c:762-848 | refused for unknown and read-only descriptors without any effect; otherwise one step of the session run, and the table notes that the backup is taken |
| `FileSession.FileApi.OpenRegular` | src/persistence_client_library_file.c:277-455 | lost resources are refused; others end on the disk and descriptor table that `FileSession.OpenedDisk` and `FileSession.OpenedTable` spell out; a protected file is handed over settled, at position 0, and its first write is armed if and only if the descriptor number has no leftover record of the default-data user |
| `FileSession.OpenedDisk` | src/persistence_client_library_file.c:315-412 | after an open the helper files are as before; an original that was there is kept, or replaced by a backup with matching checksum; a missing one holds exactly the default data, or nothing if there is none or the descriptor is too large; -1 exactly if recovery gave the resource up |
| `FileSession.OpenedTable` | src/persistence_client_library_file.c:315-412 | one record of the table changes: permission, paths, cache and backup status as this open gives them, status 1 for a blacklisted file, the rest as a reused descriptor had it |
| `FileSession.OpenedReady` | src/persistence_client_library_file.c:315-412 | that state follows from disk and table alone, for every request to write and every table, leftover records included; a blacklisted file is never armed |
| `FileSession.ReadableExactly` | src/persistence_client_library_file.c:315-365 | when the descriptor handed over can be read: the open was not for writing only, or it created or restored the file |
| `FileSession.FileApi.Close` | src/persistence_client_library_file.c:90-173 | backup and checksum are removed in this order unless the file is read-only or of unknown permission; the record goes |
| `MainLoop.BaseRun` | src/persistence_client_library_dbus_service.c:722-824 | in every interleaving the mutexes exclude, and commands are dispatched once each in write order |
| `MainLoopCalls.CallReturnsDispatched` | src/persistence_client_library_dbus_service.c:794-810 | in every interleaving of blocking calls, a call that is about to return finds the command it was made with dispatched, and all others written so far |
| `MainLoopCalls.WrittenIsSent` | src/persistence_client_library_dbus_service.c:794-824 | in every interleaving the pipe sees, in this order, the arguments of the calls as each comes to its pipe write, and nothing else |
| `MainLoopCalls.CommandsConserved` | src/persistence_client_library_dbus_service.c:794-824 | every command is written exactly as often as calls were made with it, less those that have not come to their pipe write |
| `MainLoopRuns.InvRun` | src/persistence_client_library_dbus_service.c:736-810 | the hand-off invariant of all such runs: flag and pipe belong to the one open call |
| `MainLoopRuns.LiveRun` | src/persistence_client_library_dbus_service.c:736-824 | in every interleaving, unwaited commands included: a waiting caller's command is still to be dispatched or the flag is up, and who sleeps with the flag up is about to be signalled |
| `MainLoopRuns.SomeoneMoves` | src/persistence_client_library_dbus_service.c:736-824 | while a call is open some step other than a new command or a spurious wake-up is possible |
| `MainLoopRuns.CallsReturn` | src/persistence_client_library_dbus_service.c:736-824 | no wake-up is lost, with unwaited commands and spurious wake-ups too: once no new commands come there are at most so many steps, three more for each spurious wake-up, and it is over exactly when all calls have returned and the pipe is drained |
| `MainLoopRuns.SleepsAgain` | src/persistence_client_library_dbus_service.c:800-804 | a wake-up for no reason ends in the very state before it |
| `MainLoopRuns.EarlyExactly` | src/persistence_client_library_dbus_service.c:794-824 | with unwaited commands in the mix, a call can return before its dispatch if and only if at its pipe write the flag is up or another command is between pipe and flag |
| `MainLoopRuns.NmBreaksNextCall` | src/persistence_client_library_dbus_service.c:814-824 | one unwaited command is enough |
| `DbLookup.GetIsLayered` | src/persistence_client_library_db_access.c:132-261 | a read through the handle cache changes no database and, for any resource and storage class, finds the first of policy database, configurable default, factory default, as long as its own calls lead to its own databases |
| `DbLookup.RunChanges` | src/persistence_client_library_db_access.c:204-261 | after any run whose calls lead to their own databases, every database holds under every key what was last stored there |
| `DbLookup.SizeAgrees` | src/persistence_client_library_db_access.c:477-501 | the two ways through the layers, for values and for sizes, agree in every state |
| `DbLookup.ReadAfterRun` | src/persistence_client_library_db_access.c:237-261 | a read and a size call at the end of any such run: the value last stored in the database of the policy, else in the configurable default, else in the factory default, all three in the directory of the ldbid; the codes if there is none or no such database |
| `DbLookup.SetAnswers` | src/persistence_client_library_db_access.c:347-399 | a write ends in the database of its policy, or for the default-data user in the configurable default under the resource id; it answers the size of the value, or EPERS_NOTIFY_SIG for shared data whose signal failed although the value is stored |
| `DbLookup.DeleteAnswers` | src/persistence_client_library_db_access.c:583-623 | a delete answers 0 exactly if the database of the policy had the key, and EPERS_NOKEY otherwise, whatever the defaults hold |
| `DbCache.CacheCollision` | src/persistence_client_library_db_access.c:54-63 | all pairs of contexts with one row in the cache and different directories: one shared and one local, the local ldbid the next unsigned number after the shared one, and that one below 0x80 or the local one 0 |
| `DbCache.AgreeingCollision` | src/persistence_client_library_prct_access.c:178-250 | if the storage classes agree with the ldbids, shared 0x7F and local 0x80 are left |
| `DbCache.HomeExactly` | src/persistence_client_library_db_access.c:54-129 | for every run of handle requests and close-all calls from an empty cache, any ldbid and storage class: each request leads to its own database or to none if and only if no request finds its cell opened, since the last close, by one from another directory |
| `DbCache.PlaceExactly` | src/persistence_client_library_prct_access.c:296-360 | which directory belongs to an ldbid: local data from 0x80 on, public data at 0, one group each in between |
| `DbLookup.HomeRunExactly` | src/persistence_client_library_db_access.c:54-623 | the same for runs of reads, size calls, writes, deletes and closes: they stay in their own databases if and only if the requests they make are so compatible |
| `DbLookup.ApartRun` | src/persistence_client_library_db_access.c:54-623 | runs in which no two resources share a row from different directories are |
| `DbLookup.CollisionLeaks` | src/persistence_client_library_db_access.c:54-129 | a run in which local data lands in a shared group |
| `DbAccess.DbStore.DatabaseGet` | src/persistence_client_library_db_access.c:54-129 | opens at most once per cell and returns a handle that leads to the database of the cell's first use |
| `DbAccess.DbStore.GetDefaults` | src/persistence_client_library_db_access.c:132-200 | the loop over the default layers refines the lookup, for the data job and for the size job |
| `DbAccess.DbStore.GetData` | src/persistence_client_library_db_access.c:237-261 | the call refines the layered read |
| `DbAccess.DbStore.GetDataSize` | src/persistence_client_library_db_access.c:477-501 | the size call's own way through plugin and defaults ends at the length of the value the read would find, or its error |
| `DbAccess.DbStore.SetData` | src/persistence_client_library_db_access.c:347-399 | stores under the key in the policy's database, or under the resource id in the configurable default for the default user; a failed signal is reported although the data is stored |
| `DbAccess.DbStore.DeleteData` | src/persistence_client_library_db_access.c:583-623 | removes the key from the policy's database; EPERS_NOKEY if it was not there |
| `DbAccess.DbStore.CloseAllDatabases` | src/persistence_client_library_db_access.c:204-233 | empties the cache, leaves the plugin with no open handle, changes no data |
| `DbKeys.KeyExactly` | src/persistence_client_library_prct_access.c:252-293 | which names share a key: equal ones, and one without a seat whose resource id spells out the other's seat |
| `DbKeys.KeyForms` | src/persistence_client_library_prct_access.c:252-293 | the forms of a key: node, user, user and seat, each of the latter also behind the ldbid, with user and seat in decimal and the ldbid in hexadecimal |
| `DbKeys.KeysInjective` | src/persistence_client_library_prct_access.c:252-293 | keys are injective in user, seat and resource, and across ldbids from 0x80 on, for resource ids that do not start with "seat/" |
| `DbKeys.PlainNeverExtended` | src/persistence_client_library_prct_access.c:252-293 | keys of ldbid 0xFF never meet keys of the other local numbers in their common database |
| `DbKeys.PrintReads` | src/persistence_client_library_prct_access.c:258-290 | printed numbers read back, in decimal and hexadecimal, and hold no slash |
| `DbKeys.PrintExactly` | src/persistence_client_library_prct_access.c:258-290 | the printed text is the only one in digits of the base, lower case, without leading zeros |
| `DbKeys.GetRawString` | src/persistence_client_library_file.c:67-86 | the pointer ends at the fifth slash, or one past the buffer |
| `DbKeys.FromSlashExactly` | src/persistence_client_library_file.c:67-86 | what the stripper leaves starts at the slash with four others before it, and is nothing if there are fewer than five |
| `DbKeys.RawExactly` | src/persistence_client_library_file.c:67-86 | the stripped key is "/" and the resource id if and only if the data is shared or of ldbid 0xFF and belongs to a seat |
| `DbIsolation.Isolation` | src/persistence_client_library_db_access.c:237-623 | whatever others read, write and delete, a resource reads as before, for every ldbid and storage class, as long as the requests to the cache lead home |
| `DbIsolation.ReadsOwnWrite` | src/persistence_client_library_db_access.c:237-399 | a value written is read back after any foreign calls and closes, on the same condition |
| `DbIsolation.ApartUndisturbed` | src/persistence_client_library_db_access.c:54-129 | that condition holds, from an empty cache, whenever no two of the resources involved share a row from different directories |
| `DbIsolation.AgreeingApart` | src/persistence_client_library_db_access.c:54-63 | resources whose storage classes agree with their ldbids do so if and only if both 0x7F and 0x80 are among them |

## Left out

- Assumptions about other software: full reads and copies outside crashes, disk calls durable in their order, a checksum
  file written in one piece and shorter than its 64-byte buffer, no errno cases beyond a missing file, no permissions,
  no directory creation. The build with a file cache is not modelled.
- Two descriptors open on one resource at once: each takes and removes the same backup. A session here has the resource
  to itself.
- Pipe writes that fail: the caller then waits for a flag that no dispatch of its own will raise. Writes succeed here.
- The quit command and the end of the main loop: sent only without waiting.
- The flag's reset outside its mutex is one atomic step here; as C11 sees it, it is a data race with the main loop.
- Database plugin: a table per path; the two default databases are one pair per group, whichever mount they are opened
  from. Values fit the caller's buffer, closing succeeds, and a path either always opens or never.
- Enumerators of `persistence_common_object` are not part of this model: storage local is 0 and shared 1, the two
  policies and two default layers are the columns of the handle cache.
- Custom storage, the resource configuration table and its cache, database paths as text.
- Truncation of keys and paths to their buffers: they fit.
- Allocation failure, the frees of records the tree still owns (src/persistence_client_library_db_access.c:750,
  src/persistence_client_library_handle.c:797), and record duplication beyond a copy of the value.
- Path handles: only in the run model, as a table from handle to path; their own backup status and the default data
  copied on creation are left out, as they repeat those of files.
- `Crc32.CrcIsRef`: one direction, as the errors of several harmful turns can cancel out; the exact condition is that of
  `Crc32.CrcDiffers`.
- `HandleRuns.Fidelity`: a partial shutdown, which resets nothing, and the closing of files during a full one are not
  steps of the runs; deinitialisation followed by a new start is one step.
- `BackupProtocol.CrashSafety`: starts at the truncation of the checksum file and ends before close; the two windows
  outside are characterised by their own lemmas.
- `FileSession.FileApi.OpenRegular`: resources that are missing from the configuration, and the default-data user, whose
  files have no backup.
- `Notifications.Registry.NotifyOnChange`: the hash of the key is a parameter; two keys of one hash share an entry.
- Init counter, cancel counter, access lock, application check, list of open descriptors, blacklist and plugin
  configuration parsers, logging, D-Bus messages, watches and timeouts: they would add only easy members.

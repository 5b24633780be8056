# Models of four small systems programs

The repository holds four laboratory programs. This project models the logic of each and proves what it is for.

**lab4, osfs.** An in-memory file system: first-fit bitmaps with free counters, one extent table per file in which appended blocks are run-length merged, read and write loops that go through that table, and one root directory block of name entries. The state is the value `State.Fs`; `State.Inv` is the invariant of every reachable state. The operations appear twice: as functions on that value (`ExtentTable`, `Blocks`, `FileOps`, `ReadWrite`, `Directory`, `Creation`), whose meaning the lemmas state, and as methods of the class `OsfsMemory.Osfs`, which keep bitmaps, counters, inodes and blocks in arrays and update them in place with the loops of the source; each method is proved to compute its function. `Runs` builds runs of calls from the mounted state, and `ByteStore` reads a file as a byte sequence. `Machine` says what osfs does without bitmaps, inode table, extent tables and blocks: a deterministic machine over a map from names to files, each a size and the bytes of its blocks, those past the end included. `Abstraction` maps memory to the machine, and `Refinement` shows that every run of osfs, whatever its calls and however they end, is the run of the machine, with the same replies. `Contents` reads off it what the user of one file sees, whatever happens to the others. `Examples` has short runs from a mount with every number written out.

**lab1, the mailbox.** One sender, one receiver, a one-message slot in shared memory, three semaphores and an exit message in the data stream: a transition system with one step per semaphore operation or access to a shared field, under every schedule.

**lab3, locks and parallel loops.** An `xchg` spin lock around a counter for any number of threads, and a matrix product computed sequentially, with the inner dimension split between two threads under a lock, and with the rows split without one. Every load and store of shared data is a step of its own.

**lab2, the shell's parser.** `strtok` and the linked list of commands, against a renderer.

## How the model reads the code

- Words are 32 bits and little-endian; every `uint32_t` sum, difference and cast of the file system goes through `Bytes.Wrap`. A directory entry takes 260 bytes: a name of 255, a byte of padding, a word.
- Block size, inode count and block count are parameters, since lab4/osfs.h:14 leaves `BLOCK_SIZE` to the kernel headers and 20 and 20 are just its current counts. `Runs.MountSizes` bounds them: at least a table header per block, inode numbers fit in `int`, and the number of blocks and the next one fit in words.
- `State.Addressable`: the data area is smaller than 2^32 bytes. Some results need it so that a position inside a file fits in `i_size`. All results about blocks speak for the code only under it: a block is an element of the data area, while the code computes its address as a 32-bit product, `i_block * BLOCK_SIZE` or `phys_block * BLOCK_SIZE`, which wraps in a larger area and makes blocks alias.
- Zero-length writes, positions past the end of the file, and positions whose block number does not fit in 32 bits are all modelled. Where one of them breaks a promise, the exact condition is proved and `Limits` has calls that break it.
- Files are regular and in the root directory; osfs has no other kind that can be created through the VFS. Names have no NUL bytes. Copies from and to the user succeed. Operations run one at a time.
- Mailbox lines are the C strings that `fgets` has left in a buffer of 1024 bytes after the newline is cut off: shorter than 1024 and without NUL, since the code compares them with `strcmp`. Lines of the shell's parser are C strings too.

## What turned out to be false, and when it is true

- *A successful write is a `pwrite`.* It is one exactly when the block number of the position fits in 32 bits and no old bytes lie between the end of the file and the position (`ByteStore.WriteRefines`). A write to the file that stopped part-way leaves such bytes (`Limits.StaleBytesReturn`), and as long as there was none, gaps read as zeros, whatever was done to other files (`Contents.MountedContents`); the 32-bit cast makes a far write land at the start of the file (`Limits.FarWriteWrapsAround`).
- *Reading a file never fails.* Exactly when its blocks cover its size (`ByteStore.ReadableIffSized`), which every write of at least one byte keeps and a write of none keeps exactly under the condition of `ByteStore.EmptyWriteKeepsSizedIff`; `Limits.EmptyWriteBreaksReads` breaks it.
- *The free-inode check of `osfs_new_inode` finds that no inode is left.* It never does: the counter also counts inode 0, which is never handed out, so the error comes from the scan (`Creation.NewInodeMeaning`).
- *A refused creation leaves no trace.* Bitmaps, counters, directory and all files are restored; the record in the free inode slot is not (`Limits.RefusalLeavesRecord`), and neither is the block the root got on the first creation (`Limits.RefusalTakesRootBlock`; that takes other counts than the 20 inodes and 20 blocks of lab4/osfs.h:15-16, with which, in blocks of 1024 bytes, every first creation that passes the length check succeeds, by `Limits.FirstFile`). `Limits.RefusalLeavesNoTraceIff` has the exact condition.
- *The receiver destroys the semaphores only after the sender's last `sem_post`.* Exactly when no line before the `EOF` line equals the exit message (`Mailbox.TeardownSafeIff`).
- *The threaded matrix programs print the product that the sequential one prints.* Exactly when the memory they add to was zero (`Matrix.AllFormsAgreeIff`). They take it from `malloc` and never clear it (lab3/2/2_2.c:90-93, lab3/3/3_1/3_1.c:81-84).
- *The parser stores the arguments of any line.* It writes past the end of an `args` array exactly when some command has more than ten arguments (`ShellParser.SplitLine`), and every command of more than ten words does it (`ShellParser.OverlongCommand`). With exactly ten no slot is left for the terminating NULL.
- The comments at lab4/file.c:303-306 and 353-355 describe the single-block path; no regular file takes it.

## Model

| member | source | states |
|---|---|---|
| `Bytes.WrapIsModulo` | lab4/osfs.h:59-61 | a `uint32_t` is the value modulo 4294967296 |
| `Bytes.LittleEndian` | lab4/osfs.h:94-102 | the first byte of a stored word is its lowest |
| `Arith.PositionSplits` | lab4/file.c:194-195 | a position is its block times the block size plus its place in the block |
| `ExtentTable.MaxExtents` | lab4/osfs.h:90-92 | exactly as many pairs of words as fit behind the 8-byte header |
| `ExtentTable.TableLayout` | lab4/osfs.h:88-102 | a valid table has 0x4F534558 at byte 0, the count at 4, and start and length of extent i at 8 + 8 i and 12 + 8 i |
| `State.MaxEntries` | lab4/osfs.h:18-18 | exactly as many entries of 260 bytes as fit into a block |
| `ExtentTable.EmptyTableIsEmpty` | lab4/file.c:22-29 | a reset table has a valid header and no extents |
| `ExtentTable.TotalBlocks` | lab4/file.c:31-47 | for any block content: 0 without a valid header, else the length of the list the table stands for, modulo 2^32 |
| `ExtentTable.LookupBlock` | lab4/file.c:49-81 | for any block content: looking up `l` is indexing that list at `l`; `ENOENT` exactly when `l` is past its end or the magic is missing, `EIO` for an impossible count |
| `ExtentTable.AppendedTableMeaning` | lab4/file.c:105-116 | the bytes stored by an append are those of the extents with the last one grown or a new one added |
| `ExtentTable.FlattenAppended` | lab4/file.c:105-116 | an append adds the block at the end of the list, whether it merges or not |
| `ExtentTable.TableAppend` | lab4/file.c:105-116 | on the bytes: appending the block at the allocation mark keeps the table canonical, extends the list, and leaves room for the next block |
| `ExtentTable.CanonicalIsEncoding` | lab4/file.c:83-123 | a canonical table is the run-length encoding of its list: no two extents could be merged, and the list determines the table |
| `FileSteps.StepKeepsInv` | lab4/file.c:83-152 | any change confined to one file and newly allocated blocks keeps the invariant of the whole file system |
| `FileSteps.OtherFiles` | lab4/file.c:83-152 | such a change leaves the record, table, block list and every byte of any other file alone |
| `Blocks.AllocMeaning` | lab4/inode.c:111-131 | first fit hands out the block at the allocation mark and fails exactly when the counter is 0; freeing it restores the state exactly |
| `Blocks.AppendStep` | lab4/file.c:83-123 | appending succeeds exactly when a block is free and the table can take it; otherwise nothing at all changes, although a block was taken and given back |
| `Blocks.AppendKeepsBytes` | lab4/file.c:101-122 | an appended block is zero, so an append changes no byte of the file |
| `Blocks.FormatStep` | lab4/file.c:125-152 | for a live file setting up the table allocates nothing, cannot fail and changes no byte or block list |
| `Blocks.StoreBytes` | lab4/file.c:266-278 | storing a chunk through the table changes exactly the bytes of the range |
| `Blocks.EnsureTableAllocates` | lab4/file.c:135-149 | a record without a block gets the block at the allocation mark as an empty table, or `ENOSPC` exactly when none is free |
| `FileOps.ChunkMeaning` | lab4/file.c:244-278 | one pass: `EINVAL` exactly past the end of the blocks, `ENOSPC` exactly when a block is needed and cannot be had, else the chunk and at most one block more |
| `FileOps.LoopMeaning` | lab4/file.c:243-279 | the whole loop in closed form: it succeeds exactly when the blocks it needs can be had, and otherwise stops at the first block that cannot |
| `ReadWrite.LoopAtHome` | lab4/file.c:244-251 | with the block number cast to 32 bits the loop does what it would do at the position with the reduced block number |
| `ReadWrite.WriteRefused` | lab4/file.c:249-251 | a write starting more than one block past the blocks returns `EINVAL` and leaves bytes, block lists, records, bitmap and counter alone |
| `ReadWrite.WriteNothing` | lab4/file.c:281-292 | a write of no bytes stores and allocates nothing but moves the end of the file |
| `ReadWrite.WriteMeaning` | lab4/file.c:221-293 | every other write: return value, position, size, blocks taken, and which bytes were stored, on success and on failure |
| `ReadWrite.ReadLoopMeaning` | lab4/file.c:193-215 | the read loop finds every block exactly when the last one exists, and has copied the bytes of the range |
| `ReadWrite.ReadMeaning` | lab4/file.c:154-219 | a read returns the part of the contents asked for, fails exactly when blocks do not cover it, changes no byte, and never asks for the single-block path |
| `ByteStore.WriteSucceedsIff` | lab4/file.c:221-293 | a write of at least one byte succeeds, and then completely, exactly under a condition on the state before it |
| `ByteStore.WriteRefines` | lab4/file.c:221-293 | the exact condition under which a successful write is a `pwrite` on the contents, zeros in the gap included |
| `ByteStore.FailedWrite` | lab4/file.c:249-264 | a failing write leaves position, size, every byte outside the range, and with `EINVAL` also bitmap and counters; inside the range it has stored a first part. The range is the one asked for when the block number fits in 32 bits, else the one at the reduced position |
| `ByteStore.ReadBack` | lab4/file.c:154-293 | the bytes just written are the bytes read, across any blocks and extents and whatever the file held before |
| `ByteStore.ReadRefines` | lab4/file.c:187-218 | on a covered file a read yields exactly min(len, size - pos) bytes of the contents, none past the end |
| `ByteStore.ReadableIffSized` | lab4/file.c:187-200 | every read succeeds exactly when the blocks cover the size |
| `ByteStore.WriteKeepsSized` | lab4/file.c:281-284 | writes of at least one byte keep the size covered, successful or not |
| `ByteStore.EmptyWriteKeepsSizedIff` | lab4/file.c:281-284 | the exact positions at which a write of no bytes keeps the size covered |
| `ByteStore.WriteKeepsClean` | lab4/file.c:221-293 | where no old bytes lie past the end, every successful write in range is a `pwrite` and leaves none |
| `ByteStore.Isolation` | lab4/file.c:221-293 | no write or read call on one file, successful or not, changes another file's record, table or bytes, the directory or the inode bitmap |
| `ByteStore.WriteMeetsContract` | lab4/file.c:221-293 | every write keeps the invariant and the caller's contract: that only a first part of the range the buffer goes to changed, what was returned, and when it is a `pwrite` |
| `Directory.EntryLayout` | lab4/osfs.h:49-52 | entry i has its name and a NUL at byte 260 i and its inode number at 260 i + 256; all other bytes stay |
| `Directory.PutEntryMeaning` | lab4/dir.c:245-248 | the entry written reads back with its name and inode, earlier entries are as before |
| `Directory.NamesMeaning` | lab4/dir.c:40-54 | scanning the entries is looking a name up in the map they stand for |
| `Directory.NamesAreInodes` | lab4/dir.c:235-251 | the map is a bijection onto the inodes 2 to n + 1 |
| `Creation.LookupMeaning` | lab4/dir.c:18-57 | lookup agrees with the directory map for every name and never meets a bad inode number |
| `Creation.DirectoryIsBijection` | lab4/dir.c:212-254 | the directory names exactly the live files, each once: no duplicate, leak or dangling entry |
| `Creation.RootBlockMeaning` | lab4/dir.c:291-297 | giving the root its block never fails, gives it block 0, and leaves directory and files as they were |
| `Creation.FreeInodeMeaning` | lab4/inode.c:33-46 | the scan hands out the inode after the last one, and the counter is never 0 |
| `Creation.NewInodeMeaning` | lab4/dir.c:136-209 | it succeeds exactly when an inode and a block are left; after the check the block allocation cannot fail, and the counter lowered twice and raised once is exact |
| `Creation.NewInodeOutcome` | lab4/dir.c:130-204 | for every file type: special files are refused, else the whole resulting state, the counter lowered twice |
| `Creation.BadInodeNumber` | lab4/inode.c:19-20 | an entry with inode number 0 or past the table is an `EFAULT` |
| `Creation.CreatedMeaning` | lab4/dir.c:299-380 | a successful creation adds one binding, to a fresh inode whose file is empty, leaves every other file as it was, and keeps the invariant |
| `Creation.AddDirEntryMeaning` | lab4/dir.c:212-254 | full directory, existing name and success are told apart by the map, in that order |
| `Creation.RollbackMeaning` | lab4/dir.c:352-362 | the rollback restores both bitmaps and both counters; only the record in the free slot differs |
| `Creation.RefusedMeaning` | lab4/dir.c:352-362 | the state after the rollback satisfies the invariant and has the same directory and files |
| `Creation.CreateMeaning` | lab4/dir.c:272-381 | all outcomes of a creation, each with its condition on name, space and map |
| `Runs.MountedMeaning` | lab4/super.c:51-126 | every field of the mounted state with its number, the invariant, and an empty directory |
| `Runs.CallKeepsInv` | lab4/dir.c:272-381 | every call, whatever it replies, keeps the invariant |
| `Abstraction.ViewIsContents` | lab4/file.c:187-218 | the contents of a file are those of the machine's file |
| `Abstraction.ExtentsAfter` | lab4/file.c:83-123 | a step that takes any number of blocks costs at most one extent, none when the file's last block was the last one handed out |
| `Abstraction.CanExtendIff` | lab4/file.c:105-116 | whether an extent table has room is decided by the number of its extents, 8 bytes each behind the header, and by when the file last grew |
| `Abstraction.WriteAbs` | lab4/file.c:221-293 | in every case (empty, refused, far, out of space, complete) a write does to size, stored bytes and free blocks what the machine's write does, with its reply |
| `Abstraction.ReadAbs` | lab4/file.c:154-219 | a read answers as the machine's read and changes nothing it knows of |
| `Abstraction.CreateAbs` | lab4/dir.c:272-381 | a creation, whatever its outcome, is the machine's creation |
| `Refinement.CallRefines` | lab4/file.c:154-293 | one call, on any state and with any outcome, is one step of the machine with the same reply |
| `Refinement.RunRefines` | lab4/file.c:154-293 | a whole run ends where the machine's run ends, and gives its replies |
| `Refinement.MountedRunRefines` | lab4/super.c:51-126 | from a fresh mount, of the machine without files |
| `Contents.GentleWrite` | lab4/file.c:221-293 | on a file with no bytes past its end, a write that does not stop part-way is a `pwrite`, is refused exactly when it starts past the blocks of the contents, or finds no block for its first byte |
| `Contents.CallEvolves` | lab4/file.c:154-293 | one call of any kind on any name, except a write to this name that is empty, far or stops part-way, seen through this name: its contents change only by its own successful writes, and its calls are answered from them |
| `Contents.MountedContents` | lab4/file.c:154-293 | for every run from a fresh mount and every name whose own writes are not empty, not far and do not stop part-way, the contents are the fold of its own successful writes, gaps zero, and all its replies follow from them; nothing is asked of other names |
| `Contents.ReadsNeverFail` | lab4/file.c:154-219 | after any run without an empty write to the name, failed and far writes included, a read of it answers exactly the bytes asked for |
| `Reachable.CountersAreExact` | lab4/inode.c:33-46 | both counters count the clear bits, and the set bits are prefixes |
| `Reachable.BlocksArePartitioned` | lab4/inode.c:111-131 | the set bits are the disjoint union of what the root and the files own, and free and held blocks add up to the device |
| `Reachable.FileLayout` | lab4/file.c:109-152 | a file's blocks ascend, `i_block` is never 0, `i_blocks` is exact, and a table is either untouched zeros or the encoding of its list |
| `Reachable.EveryReachableState` | lab4/super.c:58-76 | all of it, and zeroed free blocks, after any calls on a fresh mount |
| `Examples.CreationReply` | lab4/dir.c:287-361 | the reply to a creation from the length of the name (255), the counts, and 260 bytes an entry |
| `Examples.NameLength` | lab4/dir.c:287-289 | on a fresh mount a name of 254 bytes is accepted and one of 255 refused with `ENAMETOOLONG` |
| `Examples.FourCreations` | lab4/dir.c:226-231 | blocks of 1024 bytes take three entries: inodes 2, 3 and 4, then `ENOSPC` |
| `Examples.InTurn` | lab4/file.c:105-116 | two files written in turn: the second extent of a 1024-byte table is entered, and the bytes around the block boundary read back |
| `Examples.Gap` | lab4/file.c:281-284 | a byte written at position 3 of a new file leaves three zeros and the byte; such a run is gentle |
| `Limits.EmptyWriteBreaksReads` | lab4/file.c:281-284 | an empty write at 5000 makes reading at 4999 an I/O error |
| `Limits.StaleBytesReturn` | lab4/file.c:253-257 | after a write that ran out of space, a byte of it shows up in a gap |
| `Limits.FarWriteWrapsAround` | lab4/file.c:244-245 | a byte written at 2^42 is stored at 0 |
| `Limits.RefusalLeavesNoTraceIff` | lab4/dir.c:287-362 | exactly when a refused creation leaves the whole memory as it was |
| `Limits.RefusalTakesRootBlock` | lab4/dir.c:291-301 | a refused first creation keeps the root's block |
| `Limits.RefusalLeavesRecord` | lab4/dir.c:334-362 | creating a file twice leaves a record in the next free inode slot |
| `OsfsMemory.Osfs.constructor` | lab4/super.c:51-126 | the memory is the mounted state |
| `OsfsMemory.Osfs.AllocDataBlock` | lab4/inode.c:111-125 | the scan computes the first-fit function whose meaning is `Blocks.AllocMeaning` |
| `OsfsMemory.Osfs.FreeDataBlock` | lab4/inode.c:127-131 | clears one bit, raises the counter, changes nothing else |
| `OsfsMemory.Osfs.GetFreeInode` | lab4/inode.c:33-46 | the scan from inode 1 computes the function of `Creation.FreeInodeMeaning` |
| `OsfsMemory.Osfs.ResetTable` | lab4/file.c:22-29 | clearing the block and storing two words leaves the empty table |
| `OsfsMemory.Osfs.EnterBlock` | lab4/file.c:105-116 | the word stores leave the table of `ExtentTable.AppendedTableMeaning`, or nothing is changed when it is full |
| `OsfsMemory.Osfs.ExtentAppendBlock` | lab4/file.c:83-123 | allocate, enter, give back on failure: the function of `Blocks.AppendStep` |
| `OsfsMemory.Osfs.EnsureTable` | lab4/file.c:125-152 | with its allocation branch, the function of `Blocks.FormatStep` |
| `OsfsMemory.Osfs.CopyOut` | lab4/file.c:193-215 | the loop computes the function of `ReadWrite.ReadLoopMeaning` |
| `OsfsMemory.Osfs.ExtentDoRead` | lab4/file.c:154-219 | the function of `ReadWrite.ReadMeaning` |
| `OsfsMemory.Osfs.AppendAndLookup` | lab4/file.c:253-263 | the lookup after an append always finds the block just appended |
| `OsfsMemory.Osfs.CopyIn` | lab4/file.c:266-278 | stores one chunk through the table, and keeps the block list |
| `OsfsMemory.Osfs.WriteOnce` | lab4/file.c:244-278 | one pass; `total_blocks` stays the number of blocks of the file |
| `OsfsMemory.Osfs.CopyAllIn` | lab4/file.c:241-279 | the loop computes the function of `FileOps.LoopMeaning`, and ends |
| `OsfsMemory.Osfs.ExtentDoWrite` | lab4/file.c:221-293 | the function of `ReadWrite.WriteMeaning` |
| `OsfsMemory.Osfs.NewInode` | lab4/dir.c:122-210 | for any mode, the function of `Creation.NewInodeMeaning` |
| `OsfsMemory.Osfs.ScanEntries` | lab4/dir.c:40-54 | the first entry with the name, or their number |
| `OsfsMemory.Osfs.AddDirEntry` | lab4/dir.c:212-254 | the function of `Creation.AddDirEntryMeaning` |
| `OsfsMemory.Osfs.Rollback` | lab4/dir.c:352-359 | the function of `Creation.RollbackMeaning` |
| `OsfsMemory.Osfs.NewEntry` | lab4/dir.c:299-362 | takes, fills in, enters or rolls back |
| `OsfsMemory.Osfs.CreateFile` | lab4/dir.c:272-381 | the function of `Creation.CreateMeaning` |
| `OsfsMemory.Osfs.LookupFile` | lab4/dir.c:18-57 | the function of `Creation.LookupMeaning`, bounds check of lab4/inode.c:19 included |
| `OsfsMemory.Osfs.Read` | lab4/file.c:308-341 | keeps the invariant and the contents; on a covered file answers the stored bytes; never reaches the single-block path |
| `OsfsMemory.Osfs.Write` | lab4/file.c:357-420 | keeps the invariant and the write contract; never reaches the single-block path |
| `OsfsMemory.Osfs.Create` | lab4/dir.c:272-381 | keeps the invariant, and does to the machine what its creation does, whatever the outcome |
| `OsfsMemory.Osfs.Lookup` | lab4/dir.c:18-57 | answers as the directory map |
| `Mailbox.OutgoingMeaning` | lab1/sender.c:268-302 | the loop sends the lines before the first "EOF" line, or all, then "__IPC_EXIT__", and nothing after |
| `Mailbox.BodyMeaning` | lab1/sender.c:268-281 | the lines read before it stops are those before the first "EOF" line |
| `Mailbox.LineMeaning` | lab1/sender.h:45-45 | exactly the C strings of at most 1023 characters can be sent |
| `Mailbox.SenderKeepsInv` | lab1/sender.c:83-123 | every step of a send keeps semaphore conservation, slot contents and delivery |
| `Mailbox.ReceiverKeepsInv` | lab1/receiver.c:77-121 | every step of a receive, and of the loop and teardown around it, likewise |
| `Mailbox.EveryInterleaving` | lab1/sender.c:83-123 | under every schedule: the semaphores and the two processes add up to 1, never both in the critical section, `sem_wait(mutex)` never blocks, and what was received is a prefix, at most one behind, of what was copied in, each message whole with the right flag |
| `Mailbox.Progress` | lab1/receiver.c:276-287 | until the receiver is finished one of the two can move |
| `Mailbox.RunsEnd` | lab1/sender.c:268-302 | each move lowers the number of moves left |
| `Mailbox.Terminates` | lab1/receiver.c:276-306 | a run has at most 19 moves a message and 5, and one that cannot go on has finished |
| `Mailbox.CanFinish` | lab1/receiver.c:276-306 | every run can be continued to one in which the receiver is finished |
| `Mailbox.AtTheEnd` | lab1/receiver.c:276-306 | a finished receiver has delivered exactly the messages up to the first exit message |
| `Mailbox.DeliversTheInput` | lab1/sender.c:268-302 | end to end, from input lines to received messages, with the sender through with the semaphores |
| `Mailbox.EndToEnd` | lab1/receiver.c:276-306 | from the file to the end, in literals: in every run that cannot go on the lines before "EOF" have arrived in order and unflagged, then "__IPC_EXIT__" flagged, the semaphores are destroyed and the sender is through; and such a run exists |
| `Mailbox.TeardownSafeIff` | lab1/receiver.c:299-306 | the exact inputs for which every run destroys the semaphores after the sender's last post |
| `Mailbox.EarlyTeardown` | lab1/receiver.c:280-306 | for any other input, a schedule that destroys all three with messages still unsent |
| `SpinLock.StepKeepsInv` | lab3/1/1_2/1_2.c:15-48 | every step of every thread keeps lock word, holder, registers and counter consistent |
| `SpinLock.MutualExclusion` | lab3/1/1_2/1_2.c:15-38 | for any number of threads and any schedule at most one is inside, and the word is 1 exactly when none is, 0 exactly when one is |
| `SpinLock.NoLostUpdate` | lab3/1/1_2/1_2.c:40-48 | the counter is the number of increments stored, and in the end the sum of all iteration counts |
| `SpinLock.StepsLowerLeft` | lab3/1/1_2/1_2.c:15-48 | only spinning leaves the work left as it was; every step of the thread inside, and an exchange on a free lock, lowers it |
| `SpinLock.SomeCanMoveOn` | lab3/1/1_2/1_2.c:15-48 | until all threads are done two turns of one of them lower it |
| `SpinLock.CanFinish` | lab3/1/1_2/1_2.c:40-48 | from every reachable state some schedule ends all threads |
| `SpinLock.RoundLowersLeft` | lab3/1/1_2/1_2.c:15-48 | in every round that gives each thread two turns, in any order, something is done |
| `SpinLock.RoundsEnd` | lab3/1/1_2/1_2.c:40-48 | from every reachable state every schedule of as many such rounds as there are steps left ends all threads |
| `SpinLock.FairRunsEnd` | lab3/1/1_2/1_2.c:40-48 | every fair schedule from the start, five rounds an iteration, ends all threads with the counter at the total |
| `SpinLock.TwoThreads` | lab3/1/1_2/1_2.c:40-60 | the program itself: two threads of 10000 iterations end at 20000 |
| `Matrix.ZeroMatrix` | lab3/2/2_1.c:52-52 | every entry is 0 |
| `Matrix.DotExample` | lab3/2/2_1.c:52-57 | the product of two matrices of numbers, worked out |
| `Matrix.Sequential` | lab3/2/2_1.c:47-64 | every cell is the sum of products, starting from 0 |
| `Matrix.FirstKeepsInv` | lab3/2/2_2.c:48-62 | after every step of the first thread each cell is its first value plus what both threads have added |
| `Matrix.SecondKeepsInv` | lab3/2/2_2.c:64-78 | likewise for the second |
| `Matrix.NoDeadlock` | lab3/2/2_2.c:48-78 | until both are done one thread can go on |
| `Matrix.InnerSplitIsProduct` | lab3/2/2_2.c:48-78 | for all sizes, cuts and schedules the locked split ends with z + x y |
| `Matrix.RowSplitIsProduct` | lab3/3/3_1/3_1.c:50-68 | and so does the row split without a lock |
| `Matrix.AllFormsAgreeIff` | lab3/2/2_2.c:90-93 | each threaded form, for all cuts and schedules, leaves the sequential product exactly when every entry of `z` was 0 |
| `Matrix.Terminates` | lab3/2/2_2.c:48-78 | every turn that changes something lowers the steps left, and when none does both threads are done |
| `Matrix.CanFinish` | lab3/3/3_1/3_1.c:50-68 | every run can be continued to one in which both are done |
| `ShellParser.TokensOfJoin` | lab2/src/command.c:61-87 | cutting words joined by spaces gives the words |
| `ShellParser.RoundTrip` | lab2/src/command.c:43-91 | rendering a pipeline and parsing it gives its commands, arguments in order, and files |
| `ShellParser.OverlongCommand` | lab2/src/command.c:45-45 | a command of any words overruns its arguments exactly when it has more than ten: ten are stored, eleven not |
| `ShellParser.NextWord` | lab2/src/command.c:61-61 | a word ends at a space and nowhere else |
| `ShellParser.TokenMeaning` | lab2/src/command.c:63-86 | what each token does, told by its first character: a bar, `<`, `>` or an argument; a redirection takes the next token, and is cleared at the end of the line |
| `ShellParser.ExampleCommands` | lab2/src/command.c:43-91 | a line with a redirection, from its characters to its command |
| `ShellParser.ParsedIsOk` | lab2/src/command.c:62-88 | whatever the tokens, the commands built are of the kind the renderer takes |
| `ShellParser.ReparseIsStable` | lab2/src/command.c:43-91 | for any line at all, rendering what was parsed and parsing again changes nothing |
| `ShellParser.Tokenizer.Next` | lab2/src/command.c:61-61 | the scan returns the next token and advances past it |
| `ShellParser.AppendNode` | lab2/src/command.c:64-77 | links an empty node at the end; all earlier nodes keep their commands |
| `ShellParser.SetInFile` | lab2/src/command.c:78-80 | changes only the input file of the last command |
| `ShellParser.SetOutFile` | lab2/src/command.c:81-83 | changes only the output file of the last command |
| `ShellParser.AddArgument` | lab2/src/command.c:84-85 | appends one argument to the last command and nothing else |
| `ShellParser.TakeToken` | lab2/src/command.c:62-87 | one pass of the loop: the nodes and the tokens left still stand for the whole line, or `args` is full and the line has an overlong command |
| `ShellParser.SplitLine` | lab2/src/command.c:43-91 | the list built by mutation holds the commands of the line, unless some command has more than ten arguments, which is exactly when the code overruns |

## Left out

- `Contents.MountedContents`: a write to the name itself that is empty, far or stops part-way is not described by the contents alone, since it depends on or leaves bytes no reader sees; `Refinement.RunRefines`, which keeps those bytes, describes it exactly.
- VFS and kernel glue of osfs: dentries, the inode cache, `iput`, timestamps, owners and permissions, module loading, `vmalloc` failure, logging.
- The single-block bodies of `osfs_read` and `osfs_write` (lab4/file.c:323-340, 374-419): only that no live file reaches them.
- The second block allocation of `osfs_create` (lab4/dir.c:321-332): it is dead code, since `osfs_new_inode` always leaves one block with the new file.
- Failing user copies (`EFAULT`) and failing `new_inode` (`ENOMEM`).
- `OsfsMemory.Osfs.SetBlock`: a block is replaced as a whole value in the array of blocks; aliasing between C pointers into one block is not captured, the order of the word stores is.
- `OsfsMemory.Osfs.CopyOut`: the user's buffer is a returned value.
- `osfs_iterate`: a cursor over the entries that rests on `dir_emit`.
- lab1: the message-queue path, the races of creating and attaching the shared memory, `EINTR`, back-off and timing. The two processes are a transition system rather than methods, to have every interleaving.
- lab3: file input and output, the `/proc` modules, `1_1.c` (the same counter under a ready-made lock), `3_2.c` (the same row split). `Matrix` sums are mathematical integers; threads are transition systems, as in lab1, and the inside of `pthread_spin_lock` is one step.
- lab2: reading the line, history, built-ins, process creation and redirection; `pipe_num`, which counts passes through the loop and not pipes; the `in` and `out` descriptors, which the parser only initialises.

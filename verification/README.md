# A verified model of the file system, its formatter, and the loops of the shell

The repository contains a small Unix-style store (`filesystem.c`), the program that lays out
its disk image (`format.c`), and a shell on top (`shell.c`, `parser.c`). This project states in
Dafny what that code computes, branch by branch, and proves what can be relied on.

## How the model is organised

- **Disk and table as one value.** `Records` has the superblock, inodes, directory entries, blocks
  and the twenty open-file slots; a `State` holds them all, with the superblock in memory beside
  the one on disk. Blocks are 512 bytes; entries, free-list links and index blocks are *read out
  of those bytes* (`Bytes`, `Records`), never stored beside them.
- **The tree of blocks below an inode** (`FileTree`): data blocks, and the index blocks of all three
  levels that lead to them, each with the place where its number is recorded.
- **Functions that say what a call does**: `Operations` (create, mkdir, remove, block requests),
  `Transfer` (`f_write`, `f_read`), `Walk` (`f_opendir`), `Calls` (whole calls by path or
  descriptor), `Listing` (`f_readdir`), `OpenFiles` (the shell's table functions).
- **Methods that do it in place**: class `FileSystem.FileSystem` has arrays for inodes, blocks and
  slots and changes them statement by statement, with the loops of the C code. Every method is
  proved to change the state exactly as its function says, so that whatever is proved of the
  functions holds of the methods. `Format.Image`, `Layout.DiskFile`, `Parser.Tokenizer`,
  `Parser.Job` and `Jobs.JobList` do the same for the image, the bytes of the file, the command
  line and the two linked lists.
- **The invariant** (`Invariant.Inv`): both free lists, as threaded through the disk, are acyclic
  and complete; every data block is on the free list once, or is one inode's k-th block, or is an
  index block or a further data block in the tree of one inode, or is lost; every used inode but the root is named by one entry of one directory; directories form a
  tree with "." and ".." first; `last_block_index` is the block of the last entry; every open slot
  equals the inode on disk, no inode is open twice; the two superblocks agree. Which blocks are free,
  which are taken and which are lost is decided by the state alone (`Runs.LostDecided`), so no
  step can hide a block by calling it lost: every call states which blocks it loses, and
  `Invariant.NoneLost` is the invariant without lost blocks.
- **Where the code falls short** it is modelled as it stands. The model then gives the exact
  condition under which the call is right, and proves it for all inputs.

Two variants are distinguished by `Operations.Variant`. `AsWritten` is the code. `Repaired`
differs in these lines only:

| lines of `filesystem.c` | as written | repaired |
|---|---|---|
| 1112-1126 | `f_mkdir` behind a full directory block does not set the child's `last_block_index` | it is set, as in line 1153 |
| 1533 | `f_remove` scans from wherever the directory's offset is | from the first entry, as in line 249 |
| 1604 | a directory that gives up a block keeps its `last_block_index` | it names the block before |
| 1650 | the block that `f_open` gave an empty file is not returned, nor is any index block | all are |
| 1664 | the link just set is not what is written; a released buffer is | the block with the link is written |
| 455-458, 476, 492-523, 536, 1252 | `f_write`: see the head of `Intended.dfy` | position, content and size as the comments and callers expect |

`Intended` also has the repaired `f_read` (lines 1211-1236), `InstallIntended` the repaired
`find_next_datablock`, which takes the index blocks that are still missing and then the data block,
and records each where the reader looks (lines 1257-1335), and `BlockMap.RepairedPathOf` the missing
reduction of line 1397.

## The main results

1. **Runs.** From a formatted disk of any size in whole megabytes, any sequence of opens, creations,
   `f_mkdir`, removals, writes, closes, seeks, `f_opendir` and `f_readdir` that meets its guards ends
   in a state with the invariant, in which exactly those blocks are lost that calls of the run have
   lost. Repaired, no call loses one: every block is on the free list once or in one file, as a data
   or an index block, and free blocks + blocks of inodes = data blocks (`Session.RunsFromFormat`,
   `Session.RepairedRunsConserve`). As written, a call loses at most one block: a write (other than APPEND) at
   the end of a file replaces the block it begins in, if the file has that block already, and the removal
   of an empty file leaves the block that `f_open` gave it. The methods compute that very state
   (`Session.FormatAndRun`). The guards (`Guards.Guard`) are conditions on the state before a call:
   room on the disk and in the table and, for the code as written, the condition under which that
   call keeps the invariant. Repaired, only room, the kind of thing named, and the caller's duties remain.
   A file that no call of a run writes or removes has the contents it had, whatever the other calls
   are (`Isolation.RunIsolates`).
2. **Whole calls.** What `f_open`, `f_mkdir`, `f_remove`, `f_opendir`, `f_write`, `f_read`, `f_seek` and
   `f_close` return and leave, in terms of the state before the call, of the names in the path and of
   the bytes of the file: the directory a path of any length means, the slot and the access a file is
   opened with, the entries of the directory, the path that leads to what is new, and that nothing
   else on disk differs (`ByPath`, `RemoveByPath`, `WalkSlots`, `ByDescriptor`).
3. **Exactness.** `f_mkdir`, `f_remove` from the scan for the name to the last block returned, `f_write`
   in every mode, `f_read`, `f_opendir`, the placing of blocks and path printing each have an
   if-and-only-if that says when the code as written is right. Four runs of guarded calls from a fresh
   disk of any size show that the failures are reachable: `Missed.FileMissed` (`f_remove` does not find a
   closed file that is there), `RootCalls.SeventhDirectory` (`f_mkdir` behind a full block),
   `BlockZero.RootOverwritten` (an append to a full block replaces the root's entries) and
   `Forgery.ForgedFile` (`f_opendir` finds an entry in the bytes of a regular file).
4. **Cycles.** Create, write, close, remove. As written, everything but the one block the write has
   replaced comes back if and only if the directory's last block had room, the data fits into one
   block, and the buffer that line 1622 has released still begins with the head of the free list. With
   the repaired `f_remove` everything but that block comes back; with the intended `f_write` as well,
   everything does, index blocks included, for any data that the pointers of an inode can lead to.
5. **Refinement.** The intended `f_write` and `f_read` obey the byte-string law for every mode, offset
   and length up to the last of the 2114058 blocks, whatever index blocks have to be made on the way.
   `f_opendir` is a first-match lookup in the tree exactly when the path does not lead through the
   bytes of a regular file, and the string that `convert_absolute` prints is resolved to the directory
   it was printed for.
6. **Layout and format.** Storing a record changes no byte of any other; every image that `test_disk`
   accepts and that is no longer than it should be is valid when mounted, and what `write_disk` writes is accepted.
7. **Shell.** Tokens are the one way to cut a line behind every delimiter; the job lists behave as
   sequences.

Where the code and its documents disagree the model follows the code: the repository's README says
that a file may be written up to the end of the single-indirect blocks, but only the ten direct
blocks end up where the reader looks (`Install.InstallAgreesExactly`).

## Model

| member | source | states |
|---|---|---|
| Session.RunsFromFormat | filesystem.c:205-1673 | a formatted disk is valid with no block lost; after any guarded sequence of calls, in either variant, the state is valid and exactly those blocks are lost that calls of the run have lost; repaired, none |
| Session.RepairedRunsConserve | filesystem.c:1832-1845 | repaired, after every run from a formatted disk: free blocks + data and index blocks of the used inodes = data blocks, in number and as sets |
| Session.FirstCalls | filesystem.c:205-394 | the guards can be met: on a fresh disk of any size a file or directory of any name can be created |
| Session.FormatAndRun | format.c:301-328 | the program that formats, mounts and carries out the calls in place ends in exactly the state of the specification |
| Session.PerformAll | filesystem.c:205-1673 | a sequence of calls carried out on the arrays ends in the state of `Run` and keeps the invariant |
| Session.Perform | filesystem.c:205-1799 | so does each single call |
| Session.WrittenIsRead | filesystem.c:405-574 | as written: data that went where it belongs is what a later read of it returns, through whatever slot, open for READ or READANDWRITE, then holds the file, for the reads that `f_read` answers in full; the call succeeds |
| Runs.RunKeeps | filesystem.c:205-1673 | every guarded run from any valid state ends in a valid state; the blocks lost at its end are those lost before and those that its calls lose |
| Runs.RunOfOne | filesystem.c:205-1799 | a run of one call, of either variant, is that call, and loses what the call loses |
| Runs.RunsJoin | filesystem.c:205-1799 | a run can go on exactly when what follows is a guarded run from where it has led; the two are then one run, and what they lose adds up |
| Isolation.RunIsolates | filesystem.c:205-1799 | after any guarded run, of either variant, a file that no call of the run writes or removes has the same inode and, at every level of indirection, the same contents |
| Isolation.StepIsolates | filesystem.c:205-1799 | the same for one call |
| Intended.ContentsStay | filesystem.c:1367-1411 | a file whose own blocks, index blocks included, hold what they held has the contents it had |
| Runs.NoneLostExactly | filesystem.c:205-1673 | with no block lost at the start, none is lost at the end if and only if no call of the run loses one; repaired, always |
| Runs.RepairedLosesNothing | filesystem.c:405-1673 | repaired, no call loses a block |
| Runs.AllAccountedFor | filesystem.c:1832-1845 | with no block lost, free blocks + blocks of used inodes = data blocks |
| Runs.LostDecided | filesystem.c:1832-1845 | any two role assignments that explain one state agree on the free list, the free blocks and the lost blocks |
| Runs.StepKeeps | filesystem.c:205-1799 | every guarded call keeps the invariant, and adds to the lost blocks exactly its own `Loss`: for a write as written the block replaced, for the removal of an empty file as written the block it had, else nothing |
| Runs.StepRoles | filesystem.c:205-1799 | the same for the roles of any given explanation of the state |
| Runs.OpenPathKeeps | filesystem.c:205-394 | `f_open` by path, whether the file is found, missing or created: the invariant, and no block is lost |
| Runs.MkdirPathKeeps | filesystem.c:1022-1178 | `f_mkdir` by path, including no parent and no inode: the invariant, and no block is lost |
| Runs.RemovePathKeeps | filesystem.c:1488-1685 | `f_remove` by path, including no directory, no such name and an open file: the invariant, and which block is lost |
| Runs.RemoveInKeeps | filesystem.c:1533-1673 | the part of `f_remove` inside the directory: the invariant, and which block is lost |
| Runs.WriteCallKeeps | filesystem.c:405-580 | `f_write` as written with all its refusals: the invariant, and that only the replaced block is lost |
| Runs.WriteInKeeps | filesystem.c:405-580 | `f_write` in either variant; as intended, for files of every size, nothing is lost and only the kind of file, the end of the inode tree and the free blocks are asked for |
| Runs.ReaddirKeeps | filesystem.c:1727-1799 | `f_readdir` keeps the offset inside the directory and at an entry |
| Runs.CloseKeeps | filesystem.c:767-779 | `f_close` |
| Runs.SeekKeeps | filesystem.c:790-824 | `f_seek`: the offset stays inside the file |
| ByPath.ParentTokens | filesystem.c:217-231 | the path built for `f_opendir` of all names but the last is cut into exactly these names, however many there are, if none holds an apostrophe; in general, into the pieces of each |
| Paths.TokensArePieces | filesystem.c:224-231 | joining names with slashes and cutting again cuts every name on its own |
| Paths.TokensBefore | filesystem.c:217-231 | what stands before a separator and what stands after it are cut on their own |
| WalkSlots.OpendirLeaves | filesystem.c:928-1015 | the table after `f_opendir`, slot by slot: what was open and not gone through stays as it is; what was gone through is closed; the directory it ends at is at its start and open for reading and writing, unless it was open and not gone through, and then as it was; the root is open in slot 0, at its start when the call succeeds |
| WalkSlots.WalkLeft | filesystem.c:957-1012 | the same for the token loop, from any turn on |
| ByPath.OpenedListsAll | filesystem.c:998-1012 | after `f_opendir` of a directory that was not open, or that its own path goes through, or the root, `f_readdir` returns all its entries |
| ByPath.OpenPathDoes | filesystem.c:205-394 | `f_open`: the directory is the one that all names but the last lead to; the first regular file of the last name there is open in the first free slot (free before, or closed by the walk), at its start, with the access asked for, and the disk is as it was; if there is none, -1 for READ or without an inode, otherwise a new empty file, its entry behind the others, open in the same way, and, unless the name was there before or a regular file forges the way, the names lead to it; no directory: -1; every other slot is as the walk leaves it |
| ByPath.MkdirPathDoes | filesystem.c:1022-1178 | `f_mkdir`: the directory that all names but the last lead to has one more entry, behind the others and returned, for a directory of "." and ".." made of a free inode; unless the name was there before or a regular file forges the way, the names lead to it; nothing else that files or directories have differs; without a directory or an inode NULL and the disk as it was; valid if and only if the child's last block field gets set |
| ByPath.NewEntryFound | filesystem.c:957-1012 | after an entry has been added behind the others of a directory, its path leads to it if and only if the directory had no such name, and otherwise where it led |
| ByPath.LookupStays | filesystem.c:957-1012 | what a path led to before directories got more entries, it leads to after |
| RemoveByPath.RemovePathDoes | filesystem.c:1488-1685 | `f_remove`: in the directory that all names but the last lead to, the first entry of the last name at or behind the offset of its slot (repaired: the first of all) goes, the last one moving into its place, and its inode heads the free list, unless there is none or it is open: then failure, and the disk as it was; nothing differs that other files and directories have; and that is what the call is for exactly under the condition of `Scan.RemoveNameExactly` |
| RemoveByPath.RemovedIfRewound | filesystem.c:1004-1543 | as written, in a directory that was not open, or that the path itself goes through, or the root, `f_remove` of a closed file whose entry is the first of its name succeeds, and that entry goes |
| ByDescriptor.NothingWritten | filesystem.c:405-415 | `f_write` to a slot that is free or open for READ gives -1, to a directory 0, and nothing changes |
| Transfer.RepeatedByte | filesystem.c:424-428 | the data of a call is the buffer, as often as asked for, one copy behind the other |
| ByDescriptor.WriteInDoes | filesystem.c:405-580 | the whole call as written, WRITE or READANDWRITE: -1 and nothing changed when the data does not fit into the first block and no block is free; otherwise the number of bytes, every byte of the file, the sizes and the roles as in `WriteWhole.WriteDoes`, no other slot or inode changed, and the data where it belongs if and only if the write is sound |
| ByDescriptor.AppendInDoes | filesystem.c:405-580 | the whole call as written, APPEND: the same with the end of the file for the offset, and other files spared if and only if the block behind the end is none of theirs |
| ByDescriptor.RepairedWriteDoes | filesystem.c:405-580 | the whole call repaired, in every writing mode: contents c become c[..p] + data + c[p + length..], offset p + length, result the length, the invariant kept, exactly the blocks taken by which the file grows, no other slot, inode or file changed |
| ByDescriptor.CloseDoes | filesystem.c:767-779 | exactly the slot of a valid descriptor becomes free, and the free head is the first free slot |
| ByDescriptor.SeekDoes | filesystem.c:790-824 | SEEKSET goes to the offset, SEEKCUR that much further, if that is not behind the end of the file and the offset not negative; in every other case nothing changes |
| Guards.ListLength | filesystem.c:1832-1845 | following the links on disk counts exactly the free blocks of the invariant |
| Guards.InUseExactly | filesystem.c:295-307 | an inode is in use if and only if following the free list on disk does not lead to it |
| Birth.CreateKeeps | filesystem.c:288-394 | creating a file keeps the whole invariant; the new inode and its first block come off the lists |
| Birth.MakeDirValidExactly | filesystem.c:1063-1168 | `f_mkdir` leaves a valid state if and only if the parent's last block had room, or the inode happened to remember the right block |
| RootCalls.SeventhDirectory | filesystem.c:1112-1126 | on every fresh disk, whatever the names: after six guarded `f_mkdir` in the root, the seventh leaves a disk that is not valid; repaired, a valid one |
| Birth.MakeDirKeepsRest | filesystem.c:1087-1166 | whatever happens to that field, every other conjunct of the invariant holds, and all other directories have theirs right |
| Birth.TreeGrows | filesystem.c:1094-1140 | a new last entry with a fresh inode keeps the directory tree |
| Birth.FreeListDecides | filesystem.c:295-307 | the list on disk alone decides which inodes are free, so validity cannot be had by another reading |
| Append.AppendKeepsDisk | filesystem.c:314-358 | one more entry, in a new block or the last one: entries, owners, lists and table stay consistent |
| Removal.RemoveSwapIsRemoval | filesystem.c:1564-1600 | moving the last entry over the removed one removes exactly that entry and keeps every earlier slot |
| Removal.DropKeeps | filesystem.c:1564-1631 | the directory part of `f_remove` keeps everything but, possibly, `last_block_index` |
| Removal.DropLast | filesystem.c:1604 | `last_block_index` is right afterwards if and only if no block was given up, or the line is repaired |
| Listing.EntriesAfterRemove | filesystem.c:1564-1631 | entries read from disk after `f_remove`: the old multiset less the removed one, dense, dots in place, one block less exactly when the last entry was alone in its block |
| Release.ReleaseExactly | filesystem.c:1649-1667 | the loop that returns blocks leaves a sound list if and only if there is nothing to return, or one block and a buffer that happens to begin with the old head; repaired, always |
| Release.SecondBlockBreaksChain | filesystem.c:1654-1667 | as written, returning two blocks or more never leaves a sound list |
| Scan.RemoveNameExactly | filesystem.c:1533-1673 | `f_remove` of a name does what it is for (no entry of the name, or an open file: failure and nothing changed; else that entry gone, its inode freed, no block newly lost) if and only if no entry before the slot's offset has the name, the directory gives up no block, the file is not an empty one and the links are sound; for an open file, if and only if the scan finds nothing or an open one |
| Scan.ScanExactly | filesystem.c:1533-1543 | the scan from the offset picks what a rewound scan picks if and only if no entry before the offset has the name, and nothing if and only if all entries of the name lie before it |
| Scan.ReportsMissing | filesystem.c:1546-1549 | for a name of closed files the call fails if and only if every entry of it lies before the offset |
| Scan.RepairedAsksRight | filesystem.c:1533 | repaired, the condition always holds |
| Scan.RemovePathExactly | filesystem.c:1488-1673 | the same by path |
| Missed.FileMissed | filesystem.c:1533-1549 | on every fresh disk: make a directory, make and close a file in it, make another; then `f_remove` of the first file reports that there is none, although the lookup finds it and it is closed; repaired, it succeeds |
| Deletion.RemoveExactly | filesystem.c:1556-1673 | some role assignment explains the state after `f_remove` without a newly lost block if and only if the directory gives up no block, the file is not an empty one and the links of the returned blocks are sound; repaired, always |
| Deletion.RemoveKeeps | filesystem.c:1556-1673 | the invariant holds for the roles as they should be exactly under the conditions on the directory and the links, and the block that an empty file had is then the only one lost |
| Deletion.EmptyFileLeaks | filesystem.c:1649-1650 | the input at which the list stays sound and a block is lost all the same: any empty file |
| Deletion.TreeShrinks | filesystem.c:1564-1646 | removing a childless inode and its entry keeps the directory tree |
| Conservation.BlocksAddUp | filesystem.c:1832-1845 | free blocks + data and index blocks of all used inodes + lost blocks = data blocks |
| Conservation.OwnerDecided | filesystem.c:1367-1411 | the inodes on disk decide which block is whose |
| Conservation.NoMoreTaken | filesystem.c:1635-1667 | when no inode holds more than before, no block is taken that was not |
| Conservation.FreeListIsFreeSet | filesystem.c:1832-1845 | every free block is on the list, once |
| Conservation.NamedExactlyOnce | filesystem.c:295-358 | a used inode is named by exactly one entry of its parent, a free one by none |
| Conservation.SlotsAreSafe | filesystem.c:1556-1562 | no open slot names a free inode or disagrees with the disk, and no inode is open twice |
| Conservation.SameHoldersSameFree | filesystem.c:1635-1667 | which blocks are free is decided by which blocks the inodes hold and which are lost |
| Cycle.CreateWriteRemove | filesystem.c:288-1673 | all as written, in WRITE or READANDWRITE mode: create, write up to 5120 bytes, close, remove: inode list, entries and free blocks come back but for the one replaced block if and only if the directory's last block had room, the data fits into one block and the released buffer begins with the list head |
| Cycle.CreateWriteRepairedRemove | filesystem.c:288-1673 | the same `f_write` as written with the repaired `f_remove`: everything but that block comes back, for any data of up to 5120 bytes |
| Cycle.SessionEndsExactly | filesystem.c:1488-1673 | whatever was done with the new file, its removal brings everything back exactly under those conditions; repaired, always |
| Cycle.CreateAppendRemove | filesystem.c:288-1673 | all as written with APPEND and up to 512 bytes: everything comes back, without exception, under the same conditions on directory and buffer |
| Cycle.CreateIntendedRemove | filesystem.c:288-1673 | with the intended `f_write` and `f_remove` everything comes back, index blocks included, in any mode and for any data up to the end of the inode tree |
| Cycle.WriteOnlyFile | filesystem.c:488-567 | `f_write` changes no other inode, no other slot and not the inode list |
| WriteWhole.WriteExactly | filesystem.c:405-574 | `f_write` in WRITE or READANDWRITE mode puts the data where it belongs, with the right size and offset, if and only if it writes at the end of the file, or reaches past the end by what its first block takes with matching prefixes |
| WriteWhole.WriteDoes | filesystem.c:405-574 | what every such call does to every byte of the file, the sizes, and the roles of all blocks |
| WriteWhole.WriteKeeps | filesystem.c:405-574 | the invariant survives wherever the data goes, as long as the inflated size stays within the blocks of the file |
| WriteWhole.RefinedContents | filesystem.c:557-567 | being right means: contents c become c[..p] + data + c[p + length..] |
| WriteSteps.LoopKeeps | filesystem.c:538-565 | in WRITE and READANDWRITE mode, the loop over further blocks writes the rest in place and takes exactly the blocks the size calls for |
| Appending.AppendFits | filesystem.c:453-533 | an APPEND that fits the last block is right and keeps the invariant |
| Appending.AppendAtBoundary | filesystem.c:440-510 | at a block boundary it writes to a block the file does not own |
| Appending.AppendSpills | filesystem.c:476-565 | when data spills over by at most a block, the file's first bytes become those that should have followed its last |
| Spilling.AppendDoes | filesystem.c:405-574 | what any APPEND does: result, size, offset, every pointer of the file, the head of the free list, and every byte of every block |
| Spilling.AppendExactly | filesystem.c:405-574 | an APPEND refines the byte-string specification if and only if `AppendSound`, which the next rows spell out case by case, and spares the other files if and only if the block its first part goes to is none of theirs |
| Spilled.AppendSoundExactly | filesystem.c:405-574 | every append fits the last block, begins at a block boundary with at most a block of data, or spills over; in the first case it is sound, in the other two exactly under a condition on disk and data |
| Spilled.SpillSoundExactly | filesystem.c:476-565 | data that spills over is appended soundly if and only if the file as it should be begins with what spills over; the rest of the last block written already is right; at a boundary the unused pointer names no own block with other bytes; and every pointer behind the file's blocks names a block that comes to hold what should be there |
| Spilling.FitsIsSound | filesystem.c:453-533 | both hold whenever the data fits into the last block |
| Spilling.BoundaryExactly | filesystem.c:440-510 | at a block boundary, with at most a block of data, the file reads right if and only if the pointer behind its last block names a block, and one that the file does not have elsewhere with other bytes; or it names none, and the data is zeros |
| Spilling.SpillStartsOver | filesystem.c:476-565 | data that spills over by any length is written from the file's first block on |
| Spilling.SpillSoundRepeats | filesystem.c:476-565 | so it is right only if the file as it should be afterwards begins with those very bytes |
| Spilling.SpillSoundOnlyIf | filesystem.c:476-565 | and only if the data ends in the very bytes with which the block begins that the pointer of the last block names, a pointer no turn sets, if that is a block of another file; where the pointer is 0, these are the entries of the root |
| Spilling.BoundaryOverwritesDirectory | filesystem.c:440-510 | where that pointer names the first block of a directory, as a pointer never set does for the root, the directory's first entry becomes what the data decodes to |
| BlockZero.RootOverwritten | filesystem.c:405-574 | on every fresh disk: create a file, fill one block, append once more; the file reads right and the disk is no longer valid |
| Intended.IntendedWriteRefines | filesystem.c:405-574 | repaired, every mode, offset and length up to the last of 2114058 blocks: contents become c[..p] + data + c[p + length..], offset p + length, invariant kept, other files untouched, no block lost, and the free list shorter by exactly the data and index blocks that the new size has more |
| Intended.IntendedReadIsSlice | filesystem.c:1180-1241 | repaired, `f_read` returns size times count and the next bytes of a file of any size, across any blocks, in any number of passes, and leaves the offset behind them, if and only if the slot is open for READ or READANDWRITE, size and count are positive and the file has that many bytes left; otherwise -1 and nothing changes |
| Intended.ReadsGoOn | filesystem.c:1180-1241 | repaired, a second read goes on where the first one ended |
| Intended.WriteThenRead | filesystem.c:405-1241 | repaired, any slice of what was written is what a later read returns, through whatever slot then holds the file; open for READ or READANDWRITE, the read succeeds |
| Intended.ContentsAreBytes | filesystem.c:1367-1411 | for a file of direct blocks, the contents along repaired paths are what the code as written reads |
| Reading.ReadExactly | filesystem.c:1180-1241 | as written, for a file of any size, `f_read` at an offset below block 33290 fills the buffer if and only if it is asked for one item that ends before the last byte of its block; then with that slice of the file |
| Reading.ReadCallExactly | filesystem.c:1180-1241 | the whole call as written: size times count if and only if the descriptor is valid, its slot open for READ or READANDWRITE, both numbers positive and so many bytes left, otherwise -1 and nothing copied; what it returns is what it has copied exactly under the condition above |
| Reading.PassesExactly | filesystem.c:1210-1238 | as written, with w bytes from the offset to the last byte of its block, byte w i + j of the buffer is byte j behind the same place of the block 2 i further on: every pass skips a block |
| Reading.PassesLength | filesystem.c:1210-1238 | as written, n passes copy the smaller of `size` and n w bytes |
| Reading.ReadIsCutSlice | filesystem.c:1210-1238 | one pass returns the slice, cut before the last byte of the block |
| Reading.LastByteUnreadable | filesystem.c:1217 | a read that starts at the last byte of a block returns nothing |
| BlockMap.PathInRangeExactly | filesystem.c:1367-1411 | as written, the index path stays inside its index blocks if and only if the block number is below 33290 |
| BlockMap.PathInjective | filesystem.c:1367-1411 | no two block numbers share a path |
| BlockMap.RepairedPathIsBijection | filesystem.c:1367-1411 | repaired, block numbers 0..2114057 and leaves of the inode tree correspond one to one |
| BlockMap.TripleIndexOverflows | filesystem.c:1393-1402 | block 33290 asks for int 128, the last one for int 16383, of 128 |
| Install.InstallAgreesExactly | filesystem.c:1244-1411 | the reader finds the block that was installed if and only if it is one of the first ten or was recorded there by chance |
| Install.InstallDirect | filesystem.c:1244-1272 | for the first ten: found, every other block of the file maps as before, no other inode or block changes |
| Install.LookupAgrees | filesystem.c:1273-1281 | when overwriting, writer and reader look a block up alike where the writer's index is not a multiple of 128 |
| Install.EleventhBlockHitsRoot | filesystem.c:1324-1335 | the eleventh block of an ordinary file is recorded over the name of the root's first entry |
| Install.InstallIndirectForm | filesystem.c:1257-1335 | past the tenth, the n-th block is recorded as int (n - 10) % 128 of the block that pointer (n - 10) / 128 + 1 names, and where that is int 0 in the pointer before, too; nothing else changes |
| InstallIntended.EveryBlockAgrees | filesystem.c:1244-1411 | repaired, from a file of n blocks, after the missing ones below m have been installed one after the other, each with the index blocks it needed, the reader finds as block i the one that was taken for it, for every i, and the others where they were |
| InstallIntended.InstallGrows | filesystem.c:1257-1362 | repaired, one `find_next_datablock`: index blocks and data block come off the free list, all roles stay sound, and no other block of the file moves |
| FileTree.NodesAre | filesystem.c:1367-1411 | the index and data blocks of a file of n blocks are exactly those whose first block number is below n |
| FileTree.NumberIsRead | filesystem.c:1367-1411 | the block found along the repaired path is the one recorded in the tree |
| FileTree.RecordedNumber | filesystem.c:1311-1362 | recording one block's number where the reader looks changes the number of no other block of the tree |
| InstallIntended.OtherInodeStays | filesystem.c:1311-1362 | the map of another inode does not change |
| Opendir.OpendirExactly | filesystem.c:907-1016 | `f_opendir` returns what following first matches from the root returns, whatever kind of inode is followed; that is the lookup in the directory tree if and only if the path leads through no regular file to a forged entry; and it keeps the invariant if and only if the inode it ends at is in use |
| Opendir.OpendirIsLookup | filesystem.c:907-1016 | without a forged entry on the path it is the lookup, keeps the invariant and leaves the disk alone |
| Opendir.FollowIsLookupExactly | filesystem.c:957-1012 | following entries blind to the type and looking up in directories agree exactly then |
| Opendir.WalkIsFollow | filesystem.c:957-1012 | the token loop with its table computes what following entries on the disk computes |
| Opendir.OpendirSlots | filesystem.c:928-1015 | however long the path, at most two more slots are open, and no target slot stays behind on failure |
| Opendir.WalkTable | filesystem.c:957-1012 | at every turn the slot claimed is free and the root stays in slot 0 |
| Forgery.ForgedFile | filesystem.c:205-1016 | on every fresh disk: create a file, write one entry to it, close it; `f_opendir` of a path through the file returns that entry although the tree has no such path |
| Paths.PathRoundTripExactly | filesystem.c:217-231 | a path built of names is split into the same names if and only if none contains a separator |
| Absolute.PrintedPathLeadsBackExactly | shell.c:2112-2203 | with unique names, the printed path leads back if no name on the way has a slash or an apostrophe; otherwise no path leads there at all |
| Absolute.PrintedPathOpens | shell.c:2182-2199 | `f_opendir` of the printed path returns the inode it was printed for |
| GoTo.ConvertAbsolute | shell.c:2128-2203 | the upward walk ends, with depth as its measure, returns the names from the root down, and keeps the invariant; it closes no slot, moves at most the offset of what was open, opens nothing but directories above, with APPEND, and leaves all of these open |
| GoTo.PrintPath | shell.c:2051-2203 | for an absolute path, with free slots for the directory it leads to: an answer exactly when the path exists, and one that leads to the same inode; and what it leaves open |
| GoTo.ScanForChild | shell.c:2141-2174 | the scan finds the name of the child and the directory above |
| Listing.ListIsDirectory | filesystem.c:1727-1799 | after rewinding, `f_readdir` returns all entries in order, then NULL |
| Listing.ListIsSuffix | filesystem.c:1727-1799 | from any entry on, and the offset ends behind the last one |
| OpenFiles.AddKeepsTable | filesystem.c:1930-1955 | `addto_file_table` gives no inode a second slot and agrees with the disk; it fails only when there is neither a slot of the inode nor a free one; otherwise only the first free slot changes, and holds the inode at its start, a directory with APPEND |
| OpenFiles.RemoveUndoesAdd | filesystem.c:1957-1967 | `remove_from_file_table` undoes it, changes no other slot, and leaves the right free head |
| OpenFiles.RemoveFrees | filesystem.c:1957-1967 | after it the inode is open in no slot; only its slot has changed, and nothing if it was not open |
| FileSystem.FileSystem.constructor | filesystem.c:140-167 | mounting an image gives the state that formatting is said to give |
| FileSystem.FileSystem.GetInode | filesystem.c:1921-1928 | reads inode i of the region |
| FileSystem.FileSystem.UpdateInode | filesystem.c:1858-1875 | writes one inode of the region and nothing else |
| FileSystem.FileSystem.GetDataBlock | filesystem.c:1817-1830 | reads a block of the region, zeroed past the end of the image |
| FileSystem.FileSystem.WriteDataToBlock | filesystem.c:1877-1890 | writes the first bytes of one block of the region and nothing else |
| FileSystem.FileSystem.TakeFreeBlock | filesystem.c:1832-1845 | `request_new_block`: takes the head of the list, in memory and on disk |
| FileSystem.FileSystem.FindNextFreehead | filesystem.c:1908-1915 | the first free slot |
| FileSystem.FileSystem.AlreadyInTable | filesystem.c:1892-1905 | the first open slot of an inode |
| FileSystem.FileSystem.AddToFileTable | filesystem.c:1930-1955 | the table function of the specification |
| FileSystem.FileSystem.RemoveFromFileTable | filesystem.c:1957-1967 | the table function of the specification |
| FileSystem.FileSystem.CloseFile | filesystem.c:767-779 | exactly the slot asked for becomes free, and the free head is the first free slot; FALSE and nothing changed for an invalid descriptor |
| FileSystem.FileSystem.SeekFile | filesystem.c:790-824 | where each whence puts the offset, and TRUE exactly when it may go there |
| FileSystem.FileSystem.GetBlockFromIndex | filesystem.c:1367-1411 | follows the pointers of the block map below block 33290 |
| FileSystem.FileSystem.UpdateDatablocks | filesystem.c:1311-1335 | `update_inodes_datablocks`, direct and single-indirect |
| FileSystem.FileSystem.FindNextDatablock | filesystem.c:1244-1281 | allocates and installs, or looks up |
| FileSystem.FileSystem.AddEntry | filesystem.c:314-358 | appends an entry to a directory |
| FileSystem.FileSystem.CreateInSlot | filesystem.c:288-394 | the creating part of `f_open` |
| FileSystem.FileSystem.MkdirInSlot | filesystem.c:1063-1168 | `f_mkdir` inside the parent |
| FileSystem.FileSystem.ReadDir | filesystem.c:1727-1799 | `f_readdir` |
| FileSystem.FileSystem.FindNamed | filesystem.c:1533-1543 | the scan for a name, from the offset on |
| FileSystem.FileSystem.OpenDir | filesystem.c:907-1016 | `f_opendir`, loop and table included; what that comes to is `WalkSlots.OpendirLeaves` |
| FileSystem.FileSystem.FindRegular | filesystem.c:249-282 | the scan of `f_open`, which skips directories of the same name |
| FileSystem.FileSystem.OpenFile | filesystem.c:205-394 | `f_open`; what that comes to is `ByPath.OpenPathDoes` |
| FileSystem.FileSystem.MakeDirectory | filesystem.c:1022-1178 | `f_mkdir` with the entry it returns; what that comes to is `ByPath.MkdirPathDoes` |
| FileSystem.FileSystem.DropEntryAt | filesystem.c:1564-1631 | the directory part of `f_remove` |
| FileSystem.FileSystem.ReleaseInodeAndBlocks | filesystem.c:1633-1673 | the inode and block part of `f_remove` |
| FileSystem.FileSystem.RemoveFile | filesystem.c:1488-1685 | `f_remove`; what that comes to is `RemoveByPath.RemovePathDoes` |
| FileSystem.FileSystem.WriteFirstBlock | filesystem.c:488-530 | the block the data begins in |
| FileSystem.FileSystem.WriteNextBlock | filesystem.c:538-565 | one turn of the loop |
| FileSystem.FileSystem.WriteFile | filesystem.c:405-580 | `f_write`; what that comes to is `ByDescriptor.WriteInDoes` and `AppendInDoes` |
| FileSystem.FileSystem.AddBlock | filesystem.c:1257-1362 | repaired, one index or data block is taken, zeroed if it is an index block, and recorded where the reader looks |
| FileSystem.FileSystem.InstallBlock | filesystem.c:1244-1281 | `find_next_datablock` repaired, loop over the missing blocks included |
| FileSystem.FileSystem.WriteFileIn | filesystem.c:405-580 | `f_write` in either variant; repaired, `ByDescriptor.RepairedWriteDoes` |
| FileSystem.FileSystem.ReadOnePass | filesystem.c:1211-1237 | the inner loop of `f_read` |
| FileSystem.FileSystem.ReadFile | filesystem.c:1180-1241 | `f_read`: size times count exactly when the slot is open for READ or READANDWRITE and the file has so many bytes left, otherwise -1 and the buffer as it was; and what the buffer holds |
| Format.Sizes | format.c:301-328 | n inodes of s bytes in k blocks: n s <= 512 k < (n + 1) s; the image covers the request with less than a block of excess; up to which size the numbers are ints |
| Format.AcceptedIsValid | format.c:330-357 | every image that `test_disk` accepts and that is no longer than it should be is valid once mounted, with only the root allocated, lists 1..n-1 and 1..m-1, and no block lost |
| Format.WrittenIsAccepted | format.c:112-268 | what is written passes |
| Format.AcceptedIsLongEnough | format.c:178-298 | no image that is too short passes |
| Format.FreshIsValid | format.c:301-328 | the state after formatting and mounting has the invariant |
| Format.FormatDisk | format.c:301-357 | the program writes that image and its own checks pass |
| Format.Image.WriteSuperblock | format.c:77-93 | the six fields |
| Format.Image.WriteInodeRegion | format.c:112-176 | the loop writes the root and the free list of inodes |
| Format.Image.WriteDataRegion | format.c:242-268 | the loop writes the root's block and the free list of blocks |
| Format.Image.WriteDisk | format.c:301-328 | all regions |
| Format.Image.CheckInodeRegion | format.c:178-240 | passes if and only if every inode is as it should be |
| Format.Image.CheckDataRegion | format.c:270-298 | passes if and only if every block is as it should be |
| Format.Image.TestDisk | format.c:330-357 | passes if and only if the image is accepted |
| Layout.FormulasCoincideExactly | filesystem.c:1822-1890 | readers and writers compute the same offsets exactly for `size` 512 and `inode_offset` 0 |
| Layout.InodeStored | filesystem.c:1858-1875 | storing inode i changes no other inode, block, superblock or boot byte, wherever it straddles blocks |
| Layout.BlockStored | filesystem.c:1877-1890 | storing bytes in a block changes these bytes of it and nothing else |
| Layout.SuperblockStored | filesystem.c:1847-1856 | storing the superblock changes nothing else, whatever bytes pad it |
| Layout.InodeRoundTrip | filesystem.h:92-111 | the 29 words of an inode, each field in its place, decode to it |
| Layout.SuperblockRoundTrip | filesystem.h:35-42 | the six words of the superblock, each in its place, decode to it |
| Layout.FormattedFits | format.c:301-328 | the superblock that is written describes the image: the regions fill it exactly if it has the size that `Format.Sizes` speaks of, and the inode region has no room for one inode more |
| Layout.BoundIsOneTooMany | filesystem.c:1863-1867 | a number that passes the test lies in the inode region if and only if it is not the count itself |
| Layout.OneInodeTooMany | filesystem.c:1863-1874 | that write changes the front of the first data block, byte for byte as stated, and nothing else |
| Layout.OneMegabyteOverrun | filesystem.c:1863-1874 | on one megabyte it replaces the inode number of the root's "." |
| Layout.DiskFile.GetInode | filesystem.c:1921-1928 | reads inode i from the bytes |
| Layout.DiskFile.UpdateInode | filesystem.c:1858-1875 | writes inode i into the bytes; the number of inodes passes the test and overruns the first data block |
| Layout.DiskFile.GetDataBlock | filesystem.c:1817-1830 | reads a block from the bytes |
| Layout.DiskFile.WriteDataToBlock | filesystem.c:1877-1890 | writes into a block, or refuses more than 512 bytes |
| Layout.DiskFile.UpdateSuperblock | filesystem.c:1847-1856 | writes the superblock into the bytes |
| Records.EntryRoundTrip | filesystem.h:50-53 | both ways of storing an entry, zeroed first or over another one, decode to it |
| Parser.TokensAreTheCut | parser.c:65-87 | the tokens of a line are the only sequence of non-empty tokens, delimiters last, that concatenates to it |
| Parser.Tokenizer.GetNextToken | parser.c:65-87 | the two loops return that token and move behind it, or report the end |
| Parser.ArgumentsAreClean | parser.c:277-294 | at most the final delimiter is stripped, and no argument holds a delimiter or a separator |
| Parser.ArgumentsAreWords | parser.c:277-330 | a token of words with a space before each, with or without "&", ";" or ">" at its end, gives a job with exactly these arguments |
| Parser.RedirectionExactly | parser.c:164-184 | "<" as the first sign of a line makes it input, ">>" appends, any other ">" overwrites, and without either there is no redirection |
| Parser.WhichIsContained | parser.c:164-184 | the loop finds it |
| Parser.FlagsExactly | parser.c:273-284 | a job is in the background if and only if "&" ends its token, and passed over if and only if there are only spaces before a last space or delimiter |
| Parser.IsWhiteSpaceJob | parser.c:112-122 | the loop decides that |
| Parser.CountJobs | parser.c:221-227 | the first pass counts the tokens that are not a bare ">" |
| Parser.BuildJobs | parser.c:235-298 | the second pass links one node per such token, and a spare one |
| Parser.SplitAndTrim | parser.c:301-330 | the last loop cuts the spare node off and changes the order of nothing |
| Parser.PerformParse | parser.c:189-337 | the number returned is the length of the list that is left, and node i describes token i |
| Jobs.JobList.PutInBackground | shell.c:956-982 | the two-pointer loop ends and the job is appended at the tail |
| Jobs.JobList.Trim | shell.c:617-641 | removes the first job of the group and keeps the order |
| Jobs.WithoutFirstIs | shell.c:617-641 | that is: everything before and after the first match, or the whole list |
| Jobs.AddedThenTrimmed | shell.c:617-641 | a job that came and ended leaves the list as it was |
| Jobs.JobList.Suspend | shell.c:662-683 | suspends the first background job of the group only; if there is none, marks the first foreground job of the group |
| Jobs.JobList.Continue | shell.c:1011-1026 | one signal, and all jobs of the group are running |
| Jobs.JobList.ResumeNumber | shell.c:1333-1371 | `bg %n` resumes job n once; the message comes exactly when there is no job n |
| Jobs.JobList.ResumeLast | shell.c:1258-1297 | `bg` resumes the last job |

## Left out

- Spilling.AppendDoes: asks for free blocks for the turns past the old size, and leaves out one case: the pointer behind the file's last block names a free block that a later turn of the same append takes off the list. The first part has overwritten its link by then, and the list goes wherever the data points. `Appending.AppendSpills` covers this case too, for one turn.
- ByPath.OpenPathDoes: asks for a free slot for the walk and for the file, and room for a new entry and file, because the code checks for neither.
- ByPath.MkdirPathDoes: asks for that room, too; a name of 60 characters or more overruns the entry in the code.
- RemoveByPath.RemovePathDoes: what is removed is a file or an empty directory, as for `Scan.RemoveNameExactly`.
- ByDescriptor.WriteInDoes: some data, within the ten direct blocks, and free blocks for it, as for `WriteWhole.WriteExactly`.
- ByDescriptor.AppendInDoes: leaves out the case that `Spilling.AppendDoes` leaves out.
- Reading.ReadExactly: stops at block 33289, above which the code reads outside its index block.
- Scan.RemoveNameExactly: what is removed is a file or an empty directory, which the code leaves to its callers; as written, a file of at most ten blocks.
- Cycle.CreateWriteRemove: within the ten direct blocks, where `f_write` as written is right; `Cycle.CreateIntendedRemove` has no such limit.
- Cycle.CreateWriteRepairedRemove: within the ten direct blocks in the same way.
- Session.WrittenIsRead: is limited to the reads that `f_read` as written answers in full; `Intended.WriteThenRead` has no such limit.
- Runs.RunKeeps: holds under guards. Room on disk and in the table is a precondition because the code checks only once (lines 465-471) or not at all; zero-length writes as written are excluded.
- Runs.WriteCallKeeps: as written, within the ten direct blocks, where the code's pointers are right (`Install.InstallAgreesExactly`); as intended there is no such limit (`Runs.WriteInKeeps`).
- Runs.RemoveInKeeps: as written, for files of at most ten blocks; `f_write` as written records no further block where line 1655 would look for it.
- WriteWhole.WriteExactly: within the ten direct blocks; what happens beyond them is the subject of `Install`.
- FileSystem.FileSystem.WriteFirstBlock: `f_write` as written, within the ten direct blocks; `FileSystem.FileSystem.WriteFileIn` has the repaired form without that limit.
- FileSystem.FileSystem.WriteNextBlock: within the ten direct blocks in the same way.
- FileSystem.FileSystem.WriteFile: within the ten direct blocks in the same way.
- WriteSteps.LoopKeeps: the turns in APPEND mode are in `Spilling`.
- Install.InstallAgreesExactly: the double- and triple-indirect writers are not modelled, because nothing ever allocates their index blocks; nor are writes past total block 393, where `iblocks[index + 1]` leaves the array.
- FileSystem.FileSystem.UpdateDatablocks: leaves out the double- and triple-indirect branches for that reason.
- FileSystem.FileSystem.FindNextDatablock: leaves out the double- and triple-indirect branches for that reason.
- Install.LookupAgrees: leaves out block numbers ten more than a multiple of 128, where the code reads before its buffer.
- Opendir.OpendirExactly: a regular file of more than ten blocks is taken to have no entries; `f_readdir` on it reads past the ten direct pointers.
- FileSystem.FileSystem.GetInode: the records are typed objects, and an inode number at or past the number of inodes gives zeros; the code then reads bytes of the data region.
- FileSystem.FileSystem.UpdateInode: such a number changes nothing here; the code then writes into the slack of the region and the first data block, which `Layout.DiskFile.UpdateInode` models at byte level.
- FileSystem.FileSystem.GetDataBlock: a negative block number gives zeros; the code reads bytes of the inode region (block -1 is its last 512 bytes) or what lies before it.
- FileSystem.FileSystem.WriteDataToBlock: a negative block number changes nothing; the code overwrites bytes of the inode region.
- GoTo.ConvertAbsolute: `parent_node->size` and `parent_node->inode_index` are read as they were; in the code `addto_file_table` has freed that node when the directory was open already (lines 2162-2177), which makes it a use after free.
- Absolute.PrintedPathLeadsBackExactly: takes unique names as given, because `f_mkdir` does not refuse duplicates.
- GoTo.PrintPath: has absolute paths only; for relative paths `goto_destination` does not notice missing names, and `get_parentdir_name` depends on the grandparent being open. The fixed array of 60 names and the length of the string buffer are not modelled; twenty slots never let the walk go that deep.
- Format.Sizes: uses exact ceilings where the code divides floats; permission, owner and time fields are not part of the inode record.
- Layout.InodeStored: is about inodes that exist; a write past the end of the image extends the file and is not modelled at byte level.
- FileSystem.FileSystem.RemoveFile: the buffer that line 1622 has released before line 1664 writes it is a parameter, since its content is whatever the allocator leaves there.
- FileSystem.FileSystem.GetBlockFromIndex: stops at block 33289; above, the code reads outside its index block.
- Parser.PerformParse: needs one token that is not a bare ">", without which the code follows a null pointer; that `strtok` cuts up the command string in place is not modelled.
- Real file I/O, `malloc` and `free`, leaks, double frees and uninitialised buffers: disk and records are typed objects in memory.
- Overflow of int counters; byte counts and block numbers on a formatted disk are shown to fit (`Format.Sizes`).
- `f_rewind`: it sets an offset to 0 and would only add an easy member.
- `f_rmdir`: it removes one leaf per call and `f_remove` may refuse it because the directory is still open.
- Mounting several disks, `f_stat`, permissions, owners and times: not implemented in the code.
- Terminal control, process creation, signal delivery, `fg`, login, history, paging, and the front ends `ls`, `cat`, `more`: of a child's event only the change to the job list is modelled.
- `format_dir.c` and the commented-out second `f_write`: variants of code that is modelled.

# 7OS: a verified model of its file system, kernel heap and text helpers

7OS keeps a small file system on a sector disk: an inode table, a free-block bitmap and directory
blocks of sixteen entries, with all metadata cached in memory and changed in place. This project
models that file system down to the bytes of its sectors, proves that every operation does on those
bytes what a simple tree-shaped specification says, and proves what the file system promises about
that specification over whole runs. It does the same for the first-fit kernel heap, and for FNV-1a
hashing, decimal printing, string splitting and the shell's path resolution.

## How the model is built

The file system has two levels.

- *The node table* (`Tree`, `TreeEdits`, `VolumeSpec`, `VolumeTheorems`, `Paths`, `PathTheorems`,
  `VolumeRuns`). A volume is a sequence of nodes, each free, a file with its content, or a directory
  with its slots. Any number of nodes, any number of slots in a directory, any depth.
  `Tree.WellFormed` is the tree invariant: the root is a directory that nothing names, every used
  entry has a proper name and names a used inode that no other entry names, every used inode is
  reachable from the root, and no directory names two nodes of one kind alike. Each operation is a
  function on volumes; the theorems about these functions say what each keeps, changes and leaves
  alone. `Paths` and `PathTheorems` say the same with paths as relations: what a path denotes, where
  a copy or a rename arrives, told by the names in the directories alone.
- *The stored form* (`Bytes`, `DirBlock`, `Bitmap`, `Storage`, `StoredEdits`, `RawDisk`, `Sweep`,
  `Formatting`, `Encoding`, `Departures`, `FileSystem`). `Storage.Fs` is the cached superblock,
  bitmap and inode table together with the sectors. `Storage.View` reads a node table off those
  bytes. `Storage.Inv` holds between operations: used inodes own distinct blocks, a bitmap bit is
  set exactly for an owned block, the view is well formed, and the metadata sectors decode to what
  is in memory. `FileSystem.FileSystem` is the class whose methods change the buffers step by step
  as the source does; each is proved to turn the view into what the volume specification says and to
  keep `Inv`, outside the departures below; an operation that fails changes no byte of memory or
  disk, again outside those departures and apart from format. `Encoding.StoredIff` shows that no
  volume is lost in between: the states that satisfy `Inv` stand for exactly the well-formed volumes
  of the disk format's shape.

The heap is built the same way: `HeapSpec` and `HeapTheorems` work on the sequence of blocks,
`KernelHeap.KernelHeap` on headers stored at offsets of the arena and linked in both directions. The
arena size is a parameter; the source uses 65536 bytes. Runs of the heap are legal runs: every pointer
that is released is null or live at that moment, since the source leaves any other release undefined.

## Where the code departs from its promises

Each of these is kept as the code has it. The conditions are exact, and concrete inputs meet them; for
the file system these are stored states, 64 inodes and 16 slots to a directory, as `Encoding` has them.

- `mv d d/x` moves a directory into itself: the guard at line 1331 looks only at destinations that
  resolve to a directory. `FileSystem.FileSystem.Rename` and `VolumeTheorems.RenameKeepsTreeIff`: a
  rename keeps the tree if and only if it does not do this; `Departures.MoveIntoItselfHappens` is the
  example.
- `fs_write_path` does not check the length of a file name inside a directory, while `fs_write` does.
  `FileSystem.FileSystem.WritePath` and `VolumeTheorems.WriteKeepsTreeIff`: the invariant survives if
  and only if the call does not create a name of 30 bytes or more; `Departures.OverlongHappens` is the
  example. The bytes beyond the thirtieth run over the entries behind: `Departures.OverlongLosesIff`
  says when an entry loses its inode by that.
- `write_sys_file` claims an inode and a block before it looks for a slot, and makes `sys` before it
  knows that the file fits. `FileSystem.FileSystem.WriteSysFile`: the invariant survives if and only
  if nothing runs out half way; `Departures.SysLeakHappens` is the example. A format that fails can end
  so too, and leaves a mounted system mounted: `Formatting.FormatFailureIff`.
- `align8` wraps to 0 for the seven largest sizes: `HeapTheorems.GrantedSizeIff` for the granted size,
  `HeapTheorems.RunPositiveIff` for the sizes in the list, `HeapTheorems.WrapHappens` for the example.
- `int_to_str` cannot negate the least integer: `Decimal.RoundTripIff`. `toString` prints nothing for
  a negative number: `Decimal.SameTextIff`.
- `split` rebuilds every part as a C string, so a NUL inside a part cuts it:
  `Strings.PartsAreRunsIff`, with `Strings.SplitCutsHappens` as the example.

## Model

| member | source | states |
|---|---|---|
| Tree.WellFormedIffLaid | src/kernel/filesystem/filesystem.cpp:383-419 | The directory graph that the recursive removal walks has no cycle: the tree invariant, stated by reachability from the root, holds exactly when every node can be given one parent entry and a rank that grows downward. |
| Tree.DepthUnique | src/kernel/filesystem/filesystem.cpp:383-419 | In a well-formed table a node lies at exactly one depth below the root. |
| TreeEdits.AddChildKeeps | src/kernel/filesystem/filesystem.cpp:818-834 | Naming a fresh leaf in an empty slot, under a proper name the directory lacks for that kind, keeps the tree invariant. |
| TreeEdits.RenameKeeps | src/kernel/filesystem/filesystem.cpp:1338-1344 | Relabelling an entry in place, under a proper name the directory lacks for that kind, keeps the tree invariant. |
| TreeEdits.MoveKeeps | src/kernel/filesystem/filesystem.cpp:1346-1361 | Moving an entry into the root or a directory named in the root keeps the tree: the unique parent rules out that the target lies below the moved directory, provided it is not that directory itself. |
| TreeEdits.MoveIntoItselfBreaks | src/kernel/filesystem/filesystem.cpp:1331 | Moving a directory's entry into that directory always breaks the tree: the directory can no longer be reached from the root. |
| TreeEdits.PruneKeeps | src/kernel/filesystem/filesystem.cpp:421-475 | Freeing a whole subtree and clearing the entry that named it keeps the tree invariant. |
| TreeEdits.SubtreeClosed | src/kernel/filesystem/filesystem.cpp:396-415 | Subtrees are closed in both directions: whatever a directory inside names is inside, and only the top of the subtree is named from outside. |
| TreeEdits.ParentNotBelow | src/kernel/filesystem/filesystem.cpp:457-473 | The directory that names a node is never below it, so a recursive removal never touches the block in which the target is named. |
| VolumeTheorems.LookupIs | src/kernel/filesystem/filesystem.cpp:174-184 | In a well-formed volume the first-match scan finds the one entry of that name and kind, whichever slot it sits in. |
| VolumeTheorems.FilesKept | src/kernel/filesystem/filesystem.cpp:1438-1505 | Every path to a file outside a removed set leads to the same file afterwards when the other names are kept. |
| VolumeTheorems.MkdirTheorem | src/kernel/filesystem/filesystem.cpp:1023-1101 | mkdir keeps the tree and succeeds exactly when the path denotes a place with room and a proper single-component name that no directory has there; then it names a new one with sixteen empty slots, one more inode is in use, and every file keeps its content and every node its name; on failure nothing changed; what the path denotes is said by Paths.LocateIff. |
| VolumeTheorems.MkdirInEffect | src/kernel/filesystem/filesystem.cpp:781-834 | Making a directory succeeds exactly when its name is new for directories and slot, inode and block are all there. |
| VolumeTheorems.CreateTheorem | src/kernel/filesystem/filesystem.cpp:1529-1606 | create succeeds exactly for a proper name that is no file yet, with slot, inode and block left; the name then leads to an empty file and no other file changed. |
| VolumeTheorems.PutFileEffect | src/kernel/filesystem/filesystem.cpp:1198-1242 | Storing a file succeeds exactly when the file exists or there is room; the name then holds the content and every other file reads as before. |
| VolumeTheorems.WriteReadRoundTrip | src/kernel/filesystem/filesystem.cpp:1103-1243 | A write succeeds exactly when the path leads to a file or to a place with room and a proper name; after it the same path reads back the first min(length, 512, limit) bytes, an existing file keeps its inode, every other file reads as before and every node keeps its name; a failed write changes nothing; where the path leads is said by Paths.FileAtIff. |
| VolumeTheorems.WriteKeepsTreeIff | src/kernel/filesystem/filesystem.cpp:1165-1243 | A write keeps the tree if and only if it does not create a file under a name of 30 bytes or more; when it does, it reports success. |
| VolumeTheorems.CopyTheorem | src/kernel/filesystem/filesystem.cpp:885-1021 | A copy succeeds exactly when the source is a file and the target exists or can be added under a proper name; after it the target reads as the source did and still does, also when both are the same file; every other file is unchanged, and a failed copy changes nothing; what the target is, PathTheorems.CopyIff says. |
| VolumeTheorems.PlanFacts | src/kernel/filesystem/filesystem.cpp:1249-1329 | Whatever a rename resolves to, its destination directory is the root or is named in the root, and the moved entry is not named in the node it names. |
| VolumeTheorems.RenameKeepsTreeIff | src/kernel/filesystem/filesystem.cpp:1245-1362 | A rename keeps the tree invariant if and only if it does not move a directory under a new name into itself. |
| VolumeTheorems.RenameTheorem | src/kernel/filesystem/filesystem.cpp:1331-1361 | A rename succeeds exactly when it resolves and has nothing to do, or the new name is free for the kind and, across directories, a slot is left; carried out, it makes the new name lead to the node and the old name lead nowhere, keeping all other names; one that fails or has nothing to do changes nothing; what it resolves to, PathTheorems.RenameIff says. |
| VolumeTheorems.RenameKeepsContents | src/kernel/filesystem/filesystem.cpp:1340-1361 | No rename, not even one that breaks the tree, changes a file's content or which inodes are in use. |
| VolumeTheorems.FileSubtree | src/kernel/filesystem/filesystem.cpp:401-405 | Nothing lies below a file, so removing one recursively frees it alone. |
| VolumeTheorems.PruneEffect | src/kernel/filesystem/filesystem.cpp:421-475 | Pruning frees exactly the subtree, makes its name lead nowhere, and leaves every file outside it under its paths with its content. |
| VolumeTheorems.RemoveTheorem | src/kernel/filesystem/filesystem.cpp:1364-1403 | remove succeeds exactly when the path leads to a file; it frees that one inode, the path then leads nowhere, no other file or name is touched; on failure nothing changed; where the path leads is said by Paths.FileAtIff. |
| VolumeTheorems.RemoveTreeTheorem | src/kernel/filesystem/filesystem.cpp:1405-1436 | Recursive removal succeeds exactly when the place holds a directory or a file of that name; it frees exactly the inodes of the subtree of the directory, or without one of the file, however deep; everything outside keeps its name and every file outside reads as before; on failure nothing changed. |
| VolumeTheorems.SysWriteTheorem | src/kernel/filesystem/filesystem.cpp:186-268 | A system write that does not run out half way succeeds exactly when the file exists or there is room (for `sys` when that is missing), keeps the tree and every name, reads back what was written, and changes no file but the system file it wrote. |
| VolumeTheorems.SysSuccessIsSafe | src/kernel/filesystem/filesystem.cpp:186-268 | A system write that reports success did not run out half way. |
| VolumeTheorems.PasswdRoundTrip | src/kernel/filesystem/filesystem.cpp:1511-1527 | After a successful write of a password hash the stored hash is that value, for all 32-bit values, also when `sys` or `passwd` had to be made first. |
| Paths.LookupIff | src/kernel/filesystem/filesystem.cpp:174-184 | A search of a directory finds an inode if and only if the directory has an entry of that name for it and it is of that kind. |
| Paths.LocateIff | src/kernel/filesystem/filesystem.cpp:1165-1192 | A path resolves to a name in a directory if and only if it denotes that: a path without a slash itself in the root, a path dir/rest the non-empty rest in the directory that the root names by the first 29 bytes of dir. |
| Paths.FileAtIff | src/kernel/filesystem/filesystem.cpp:1463-1505 | A path leads to a file if and only if the directory it denotes names that file so. |
| Paths.InDirectory | src/kernel/filesystem/filesystem.cpp:1165-1200 | dir/name denotes the name in the directory that the root names dir, and leads to the file that this directory names so. |
| Paths.NoDirectory | src/kernel/filesystem/filesystem.cpp:1165-1200 | dir/rest denotes nothing when the root names no directory dir, or when nothing follows the slash. |
| Paths.LongDirectory | src/kernel/filesystem/filesystem.cpp:1173-1180 | Of a directory part of 30 bytes or more the first 29 count. |
| Paths.InRoot | src/kernel/filesystem/filesystem.cpp:1165-1172 | A path without a slash denotes itself in the root and leads to the file that the root names so. |
| Paths.HasRoomIff | src/kernel/filesystem/filesystem.cpp:122-150 | There is room in a directory exactly when it has an empty slot, an inode from 1 up within the limit is free, and the used inodes leave a block besides block 0. |
| PathTheorems.ReadIff | src/kernel/filesystem/filesystem.cpp:1438-1505 | A path that leads to a file reads its first bytes up to the limit; a path that leads to none reads nothing. |
| PathTheorems.SysReadIff | src/kernel/filesystem/filesystem.cpp:270-302 | A file of the directory sys reads its first bytes up to the limit; another name reads nothing. |
| PathTheorems.PasswdIff | src/kernel/filesystem/filesystem.cpp:1520-1527 | A hash is stored if and only if sys/passwd begins with its four bytes, low byte first. |
| PathTheorems.FormattedIff | src/kernel/filesystem/filesystem.cpp:650-722 | A consistent disk is taken for formatted if and only if sys/status is there and its block begins with 0xFF. |
| PathTheorems.MkdirIff | src/kernel/filesystem/filesystem.cpp:1023-1101 | mkdir of a path that denotes a name in a directory succeeds exactly when the name has no slash and at most 29 bytes, no directory has it there, and there is room; then it names a directory of sixteen empty slots. |
| PathTheorems.WriteIff | src/kernel/filesystem/filesystem.cpp:1103-1243 | A write to a path that denotes a name of at most 29 bytes succeeds exactly when that is a file or there is room; then the path leads to a file with the first 512 bytes of the data, and every other file reads as before. |
| PathTheorems.WriteLong | src/kernel/filesystem/filesystem.cpp:1103-1243 | A write to a longer name succeeds exactly in a directory that has room, given with a slash, and breaks the tree exactly then. |
| PathTheorems.RemoveIff | src/kernel/filesystem/filesystem.cpp:1364-1403 | remove of a path that denotes a name succeeds exactly when that is a file; exactly its inode is free then, the name is gone, and all other names and files stay. |
| PathTheorems.RemoveTreeIff | src/kernel/filesystem/filesystem.cpp:440-475 | Recursive removal of a path that denotes a name succeeds exactly when a directory or a file has it; the directory, or without one the file, goes with exactly what is below it. |
| PathTheorems.NothingDenoted | src/kernel/filesystem/filesystem.cpp:1023-1436 | A path that denotes nothing makes mkdir, write, remove and recursive removal fail and change nothing. |
| PathTheorems.CopyIff | src/kernel/filesystem/filesystem.cpp:935-1021 | A copy whose source leads to a file and that lands at a name in a directory (in the directory that a plain destination names, under the last name of the source; else at the destination itself) succeeds exactly when the name is proper and a file there or there is room; then it leads to a file with the content the source had and has, and every other file reads as before. |
| PathTheorems.CopyFails | src/kernel/filesystem/filesystem.cpp:885-969 | A copy without a source file or a place to land fails and changes nothing. |
| PathTheorems.CopyInto | src/kernel/filesystem/filesystem.cpp:961-968 | `cp b d` and `cp e/b d`, where the root names a directory d, put the content into a file b of d. |
| PathTheorems.CopyTo | src/kernel/filesystem/filesystem.cpp:935-969 | A copy to a path with a slash, or to a plain name that is no directory's, makes that path lead to a file with the content of the source. |
| PathTheorems.RenameIff | src/kernel/filesystem/filesystem.cpp:1245-1362 | A rename of the file, or else the directory, that the source path denotes, arriving under a name in a directory, succeeds exactly when the name is short enough and there is nothing to do, or the name is free there for the kind and, across directories, a slot is; it leaves the volume unchanged exactly when place and name are the old ones or the destination is the moved directory itself; else the new name leads to the node, the old one nowhere, all other names stay; moved under a new name into itself, the tree breaks. |
| PathTheorems.RenameFails | src/kernel/filesystem/filesystem.cpp:1249-1329 | A rename whose source denotes no node, or whose destination is nowhere, fails and changes nothing. |
| PathTheorems.MoveInto | src/kernel/filesystem/filesystem.cpp:1310-1361 | `mv s d`, `mv s d/` and `mv s d/x` succeed when directory d of the root is neither the node nor where it is, has an empty slot and lacks the name; then d names the node and its old directory does not. |
| PathTheorems.MoveToRoot | src/kernel/filesystem/filesystem.cpp:1320-1361 | `mv s x` with a plain new name, no directory's and free for the kind, succeeds when the node is in the root or the root has an empty slot; then the root names the node so. |
| VolumeRuns.StepKeeps | src/kernel/filesystem/filesystem.cpp:766-1606 | Outside the three departures, every operation keeps the tree invariant and a failing one leaves the volume as it was. |
| VolumeRuns.RunKeepsTree | src/kernel/filesystem/filesystem.cpp:766-1606 | In every state that a run of operations reaches outside the departures the directory graph is a tree. |
| VolumeRuns.StepTouches | src/kernel/filesystem/filesystem.cpp:885-1606 | Outside the three departures an operation changes no file but the ones it addresses and no name but those it renames, moves or frees, including what is nested too deep for any path. |
| VolumeRuns.RenameTouches | src/kernel/filesystem/filesystem.cpp:1340-1361 | A rename, also one that moves a directory into itself, changes no file and no name but that of the renamed node. |
| VolumeRuns.FileSurvivesRun | src/kernel/filesystem/filesystem.cpp:885-1606 | A file keeps its content through every run of operations none of which addresses it. |
| VolumeRuns.NameSurvivesRun | src/kernel/filesystem/filesystem.cpp:766-1606 | A file or directory keeps its name and its slot in its directory through every run that does not rename, move or free it. |
| VolumeRuns.ReadSurvivesRun | src/kernel/filesystem/filesystem.cpp:1463-1505 | A path to a file reads the same after every run outside the departures that neither addresses the file nor renames, moves or frees it or its directory. |
| Departures.MoveIntoItselfHappens | src/kernel/filesystem/filesystem.cpp:1331-1361 | A stored volume on which `mv d d/x` reports success and leaves a table that is not well formed. |
| Departures.OverlongHappens | src/kernel/filesystem/filesystem.cpp:1175-1229 | A stored volume on which writing any data to `d/` followed by thirty letters reports success and leaves a table that is not well formed. |
| Departures.OverlongEffect | src/kernel/filesystem/filesystem.cpp:1224-1240 | A write that creates an overlong name stores the file under its first thirty bytes, leaves every other node but the directory as it was, and of the directory's entries exactly those keep their inode whose inode byte the name does not reach, or reaches with the same number; those it does not reach keep their names too. |
| Departures.OverlongLosesIff | src/kernel/filesystem/filesystem.cpp:1224-1240 | After such a write every entry of every directory still names its inode if and only if the name spares all entries of the one directory. |
| Departures.LeftoversExist | src/kernel/filesystem/filesystem.cpp:186-268 | Whenever a system write would run out half way, there is a state in which it leaves the memory. |
| Departures.LeftoversKeep | src/kernel/filesystem/filesystem.cpp:186-268 | A system write that runs out half way leaves every file and every name as it was. |
| Departures.SysLeakHappens | src/kernel/filesystem/filesystem.cpp:195-211 | A stored volume, its root full and without `sys`, on which the system write runs out half way; there is a state in which it leaves the memory, and no such state is well formed. |
| DirBlock.WriteEntrySlots | src/kernel/filesystem/filesystem.cpp:831-834 | Zeroing an entry's 32 bytes and storing flag, inode and name puts exactly that name into that slot and leaves the other fifteen slots as they decode. |
| DirBlock.ClearEntrySlots | src/kernel/filesystem/filesystem.cpp:376 | Zeroing an entry empties that slot alone. |
| DirBlock.RenameEntrySlots | src/kernel/filesystem/filesystem.cpp:1341-1342 | Replacing the name bytes keeps the inode of that slot and all other slots. |
| DirBlock.SlotIs | src/kernel/filesystem/filesystem.cpp:45-48 | An entry is empty when its first byte is 0; else its second byte is the inode's number and the name follows, ended by a NUL unless it fills its thirty bytes. |
| DirBlock.WriteEntryOverlong | src/kernel/filesystem/filesystem.cpp:1224-1227 | An overlong name leaves an unterminated entry of thirty bytes; its further bytes overwrite the entries behind it, as far as the block goes, and nothing else. |
| DirBlock.WriteEntryReaches | src/kernel/filesystem/filesystem.cpp:1224-1227 | What an overlong name stored in one entry does to each other entry of the block: nothing, or put in use under the inode number that the name has there. |
| Bitmap.Mark | src/kernel/filesystem/filesystem.cpp:102-106 | Marking a block sets its bit and no other. |
| Bitmap.Unmark | src/kernel/filesystem/filesystem.cpp:108-112 | Freeing a block clears its bit and no other. |
| Bitmap.BitIs | src/kernel/filesystem/filesystem.cpp:102-112 | Block i has the bit of weight 2^(i mod 8) in byte i / 8. |
| Storage.SuperRoundTrip | src/kernel/filesystem/filesystem.cpp:25-34 | The superblock's eight fields survive being stored in a sector. |
| Storage.TableRoundTrip | src/kernel/filesystem/filesystem.cpp:36-43 | The inode table survives being stored in its eight sectors. |
| Storage.WriteOwned | src/kernel/filesystem/filesystem.cpp:167-172 | Writing the block of a used inode changes that one node and keeps the bookkeeping exact. |
| Storage.ClaimBase | src/kernel/filesystem/filesystem.cpp:818-823 | Claiming a free inode together with a free block adds one node and keeps bits and owned blocks in step. |
| Storage.ReleaseBase | src/kernel/filesystem/filesystem.cpp:369-377 | Giving both back frees one node and keeps bits and owned blocks in step. |
| Storage.DataKeepsSynced | src/kernel/filesystem/filesystem.cpp:8-18 | A write to any data block leaves the metadata on disk equal to the metadata in memory. |
| Storage.FlushBase | src/kernel/filesystem/filesystem.cpp:114-120 | Flushing changes no node and makes the disk agree with memory. |
| Storage.RemountTransparent | src/kernel/filesystem/filesystem.cpp:477-506 | Mounting the disk of a consistent file system loads exactly the superblock, bitmap and inode table that were in memory, and so the same volume. |
| Storage.MountIff | src/kernel/filesystem/filesystem.cpp:477-506 | A disk mounts if and only if sector 128 exists, begins with the bytes of 0x7A4F5346 and has those of 512 at its byte 8, and eight sectors each of bitmap and inodes lie on the disk where it points to; its superblock is a bad one exactly when the sector exists and one of the two values is wrong. |
| Storage.MountLoads | src/kernel/filesystem/filesystem.cpp:484-502 | A mount loads the superblock's fields in their order, every byte of the bitmap from its sectors, and flag, kind, size and block of every inode from the sector it stands in. |
| RawDisk.FlagOnDiskIff | src/kernel/filesystem/filesystem.cpp:650-722 | On the disk of a consistent file system, what its sectors tell about the status flag is what its node table says. |
| RawDisk.EntryView | src/kernel/filesystem/filesystem.cpp:174-184 | In a consistent state the byte-wise search of a directory block in the inode table finds what the node table says. |
| Encoding.EncodeTheorem | src/kernel/filesystem/filesystem.cpp:8-48 | Every well-formed volume of the format's shape can be stored: reading the encoded state back gives the volume, and that state is consistent. |
| Encoding.StoredIff | src/kernel/filesystem/filesystem.cpp:8-48 | Consistent states stand for exactly the well-formed volumes with 64 inodes, 16 slots to a directory, names of C-string form, files of at most a block and a block for every node. |
| Storage.BlocksMatchNodes | src/kernel/filesystem/filesystem.cpp:1632-1639 | As many bitmap bits are set as inodes are in use. |
| Storage.FreeBlockExists | src/kernel/filesystem/filesystem.cpp:135-150 | A clear bit exists exactly when the used inodes leave a block over. |
| StoredEdits.NewFileInv | src/kernel/filesystem/filesystem.cpp:1213-1242 | Storing and flushing a new file keeps memory and disk consistent if and only if its name is shorter than thirty bytes. |
| StoredEdits.ClaimLeaks | src/kernel/filesystem/filesystem.cpp:196-211 | An inode that is claimed and not named always breaks the tree invariant. |
| StoredEdits.LeakBreaks | src/kernel/filesystem/filesystem.cpp:196-211 | Whenever an inode is claimed and then not named, what is in memory is not well formed. |
| StoredEdits.UnflushedDir | src/kernel/filesystem/filesystem.cpp:195-235 | A `sys` directory that is made and not flushed is consistent in memory and always differs from the metadata on disk. |
| StoredEdits.LeftoversBreak | src/kernel/filesystem/filesystem.cpp:186-268 | None of the states in which a system write that runs out half way can leave the memory is consistent. |
| StoredEdits.SysWriteOutcome | src/kernel/filesystem/filesystem.cpp:186-268 | The two halves put together are the system write, consistent exactly when nothing ran out between them, and otherwise leave one of three known states. |
| StoredEdits.MovedInv | src/kernel/filesystem/filesystem.cpp:1352-1361 | The two block writes of a move amount to moving the entry; the state stays consistent exactly when the tree does. |
| StoredEdits.FileRemovedInv | src/kernel/filesystem/filesystem.cpp:365-380 | Freeing, zeroing, unnaming and flushing give the pruned tree, consistent in memory and on disk. |
| Sweep.SiblingsApart | src/kernel/filesystem/filesystem.cpp:396-415 | What was removed below earlier slots of a directory is disjoint from what the next slot leads to. |
| Sweep.SweptAll | src/kernel/filesystem/filesystem.cpp:396-415 | Working through all slots of a directory removes exactly what is below it. |
| Sweep.SubtreeShrinks | src/kernel/filesystem/filesystem.cpp:401-403 | The subtree of a child is strictly smaller, so the recursion ends at every depth. |
| Sweep.SweepMore | src/kernel/filesystem/filesystem.cpp:396-418 | Two removals one after the other are the removal of the union of their inodes and blocks. |
| Sweep.SweepTop | src/kernel/filesystem/filesystem.cpp:407-413 | Removing the node after what is below it completes the removal of its subtree. |
| Sweep.SweptBase | src/kernel/filesystem/filesystem.cpp:383-419 | After a removal the bookkeeping is exact, the removed nodes are free and every other node is what it was. |
| Sweep.SweptInv | src/kernel/filesystem/filesystem.cpp:456-474 | The parent's block, read before the recursion, is still current when it is written back; the result is the pruned tree, consistent in memory and on disk. |
| FileSystem.FileSystem.MarkBlockUsed | src/kernel/filesystem/filesystem.cpp:102-106 | Sets the one bit in the cached bitmap and changes nothing else. |
| FileSystem.FileSystem.MarkBlockFree | src/kernel/filesystem/filesystem.cpp:108-112 | Clears the one bit in the cached bitmap and changes nothing else. |
| FileSystem.FileSystem.Flush | src/kernel/filesystem/filesystem.cpp:114-120 | Writes bitmap and inode table to their sectors and no other sector. |
| FileSystem.FileSystem.AllocInode | src/kernel/filesystem/filesystem.cpp:122-133 | The lowest free inode from 1 up within the limit, or -1 when there is none. |
| FileSystem.FileSystem.AllocBlock | src/kernel/filesystem/filesystem.cpp:135-150 | The lowest free block from 1 up; fails exactly when the used inodes leave none. |
| FileSystem.FileSystem.FindDirEntry | src/kernel/filesystem/filesystem.cpp:174-184 | The first entry whose name, compared on beyond its field when no NUL ends it there, is this one and whose inode the given table has as used and of that kind, or -1. |
| FileSystem.FileSystem.ScanDir | src/kernel/filesystem/filesystem.cpp:1118-1131 | In one pass, the first match; when there is none, the first empty slot. |
| FileSystem.FileSystem.Allocate | src/kernel/filesystem/filesystem.cpp:998-1007 | Claims the lowest free inode and block together, or changes nothing. |
| FileSystem.FileSystem.Mkdir | src/kernel/filesystem/filesystem.cpp:766-849 | Refines the directory specification for the root and keeps memory and disk consistent; on failure no byte of memory or disk changes. |
| FileSystem.FileSystem.MkdirPath | src/kernel/filesystem/filesystem.cpp:1023-1101 | Refines the mkdir specification and keeps memory and disk consistent; on failure no byte of memory or disk changes. |
| FileSystem.FileSystem.Create | src/kernel/filesystem/filesystem.cpp:1529-1606 | Refines the create specification and keeps memory and disk consistent, although the new file's block is not written; on failure no byte changes. |
| FileSystem.FileSystem.StoreFile | src/kernel/filesystem/filesystem.cpp:1194-1242 | Overwrites the named file or makes it; consistent afterwards if and only if it did not make an overlong name, and then the exact state is given: lowest free inode and block, first empty slot, all flushed. |
| FileSystem.FileSystem.WritePath | src/kernel/filesystem/filesystem.cpp:1103-1243 | Refines the write specification; consistent afterwards if and only if no overlong name is created, and if one is, the exact state it leaves; on failure no byte changes. |
| FileSystem.FileSystem.ReadPath | src/kernel/filesystem/filesystem.cpp:1438-1505 | Returns the file's first bytes up to the limit, or fails, exactly as the read specification says. |
| FileSystem.FileSystem.CopyPath | src/kernel/filesystem/filesystem.cpp:885-1021 | Refines the copy specification and keeps memory and disk consistent; on failure no byte changes. |
| FileSystem.FileSystem.Rename | src/kernel/filesystem/filesystem.cpp:1245-1362 | Always does what the rename specification says, touching the disk only; consistent afterwards if and only if it does not move a directory into itself; on failure no byte changes. |
| FileSystem.FileSystem.RemoveDirContents | src/kernel/filesystem/filesystem.cpp:383-419 | Terminates at every depth; zeroes exactly the inodes strictly below the directory, clears exactly the bits of their blocks and overwrites exactly those blocks with zeros. |
| FileSystem.FileSystem.RemoveNode | src/kernel/filesystem/filesystem.cpp:398-413 | The same for a node together with everything below it. |
| FileSystem.FileSystem.RemoveEntryFromDir | src/kernel/filesystem/filesystem.cpp:346-381 | Succeeds exactly when the directory names such a file; then that file is pruned and its block is zero. |
| FileSystem.FileSystem.RemoveEntryFromDirRecursive | src/kernel/filesystem/filesystem.cpp:421-475 | Succeeds exactly when the directory names a directory or a file so; then its subtree is pruned, and every block it owned is zero. |
| FileSystem.FileSystem.RemovePath | src/kernel/filesystem/filesystem.cpp:1364-1403 | Refines the remove specification, keeps memory and disk consistent and leaves freed blocks zero; on failure no byte changes. |
| FileSystem.FileSystem.RemovePathRecursive | src/kernel/filesystem/filesystem.cpp:1405-1436 | Refines the recursive specification, keeps memory and disk consistent and leaves freed blocks zero; on failure no byte changes. |
| FileSystem.FileSystem.EnsureSys | src/kernel/filesystem/filesystem.cpp:187-225 | Finds `sys`, makes it unflushed, fails cleanly without inode or block, or leaks one inode and block when the root is full: which of these, and in which state it ends. |
| FileSystem.FileSystem.StoreSysFile | src/kernel/filesystem/filesystem.cpp:227-267 | Stores the file and flushes, fails cleanly, or leaks one inode and block when the directory is full: which of these, and in which state it ends. |
| FileSystem.FileSystem.WriteSysFile | src/kernel/filesystem/filesystem.cpp:186-268 | Consistent afterwards if and only if nothing ran out half way; its answer, and then its effect, are those of the system-write specification; otherwise the exact state it leaves behind. |
| FileSystem.FileSystem.ReadSysFile | src/kernel/filesystem/filesystem.cpp:270-302 | Returns the system file's first bytes, or fails, exactly as specified; always fails while unmounted. |
| FileSystem.FileSystem.WritePasswd | src/kernel/filesystem/filesystem.cpp:1511-1518 | Writes the four little-endian bytes of the hash; answer, effect and what is left when it runs out are those of the system write. |
| FileSystem.FileSystem.ReadPasswd | src/kernel/filesystem/filesystem.cpp:1520-1527 | Returns the hash that is stored, or fails when there are not four bytes. |
| FileSystem.FileSystem.EnsureRootDirBlock | src/kernel/filesystem/filesystem.cpp:308-344 | A root that has a block keeps it and nothing changes; else it gets the lowest free block, emptied and flushed; fails exactly when it needs one and none is free. |
| FileSystem.FileSystem.Format | src/kernel/filesystem/filesystem.cpp:508-575 | From any memory and disk contents: on success mounted and consistent with the freshly formatted volume; on failure, which is exactly as specified, the mounted flag and error code as before and one of the known states of a half-made layout. |
| FileSystem.FileSystem.Init | src/kernel/filesystem/filesystem.cpp:477-506 | On any device: mounts exactly the disks whose sector 128 begins with 0x7A4F5346, has 512 at its byte 8 and points to metadata that lies on the disk, and loads what is there; else sets the error code, a bad magic exactly when that sector exists and one of the two values is wrong. |
| FileSystem.FileSystem.Remount | src/kernel/filesystem/filesystem.cpp:477-506 | Mounting a disk that a consistent file system left behind restores that file system, whatever memory held. |
| FileSystem.FileSystem.IsFormatted | src/kernel/filesystem/filesystem.cpp:650-722 | On any disk and in any state of memory: true exactly when the sectors lead, through superblock, inode table, root and `sys`, to a status file that starts with the flag; sector 128 then begins with 0x7A4F5346 and has 512 at its byte 8. |
| FileSystem.FileSystem.GetUsage | src/kernel/filesystem/filesystem.cpp:1623-1648 | Used bytes are 512 times the number of used inodes, and used plus free is the total. |
| FileSystem.FileSystem.Execute | src/kernel/filesystem/filesystem.cpp:766-1606 | Any operation on a mounted file system refines its specification and keeps memory and disk consistent if and only if it is none of the three departures. |
| FileSystem.FileSystem.Session | src/kernel/filesystem/filesystem.cpp:766-1606 | A whole run on blocks, bitmap and inodes does exactly what the run does on the node table, with memory and disk consistent throughout. |
| Formatting.FormatSafe | src/kernel/filesystem/filesystem.cpp:508-575 | Formatting succeeds exactly when blocks and inodes suffice for the root, `sys` and the two files. |
| Formatting.StatusSafeIff | src/kernel/filesystem/filesystem.cpp:304-306 | On a fresh layout the write of the status flag runs out half way exactly when there is an inode and a block for `sys` and not both for the file. |
| Formatting.FormatTheorem | src/kernel/filesystem/filesystem.cpp:558-570 | A fresh volume is well formed and holds sys/status with the flag and sys/passwd with the hash of the default password, in inodes 2 and 3, and no other inode beyond root and sys is in use. |
| Formatting.LaidOut | src/kernel/filesystem/filesystem.cpp:508-530 | As many blocks are laid out as asked for, or, when that is 0, as the reported size leaves behind 145 sectors, and at most 32768; inodes as asked for, at most 64. |
| Formatting.FormatFailureIff | src/kernel/filesystem/filesystem.cpp:544-570 | A format that fails leaves a consistent file system if and only if the root fits and `sys` fits only together with its first file. |
| Formatting.FormattedIsRecognised | src/kernel/filesystem/filesystem.cpp:650-722 | A formatted disk is recognised as formatted. |
| Fnv.ComputeHash | src/kernel/filesystem/filesystem.cpp:83-90 | The loop computes the FNV-1a fold over the string. |
| Fnv.XorBits | src/kernel/filesystem/filesystem.cpp:86 | A bit of the exclusive or is set exactly when it is set in one of the two numbers only. |
| Fnv.KnownAnswers | src/kernel/filesystem/filesystem.cpp:83-90 | The hash of the empty string is 0x811C9DC5 and that of "a" 0xE40C292C. |
| Fnv.MultiplyInjective | src/kernel/filesystem/filesystem.cpp:87 | Multiplication by the prime modulo 2^32 loses nothing. |
| Fnv.AbsorbInjective | src/kernel/filesystem/filesystem.cpp:86-87 | Equal results of one step force equal states for equal bytes, and equal bytes for equal states. |
| Fnv.OneByteNeverCollides | src/kernel/filesystem/filesystem.cpp:1507-1509 | Two strings of one length that differ in exactly one byte never have the same hash. |
| HeapSpec.AlignRounds | src/kernel/mem/kheap.cpp:14-16 | Sizes are rounded up to the next multiple of 8, and to 0 for those above 0xFFFFFFF8. |
| HeapSpec.Canonical | src/kernel/mem/kheap.cpp:53-66 | The whole block list is determined by the set of live offsets and sizes. |
| HeapTheorems.MallocTheorem | src/kernel/mem/kheap.cpp:27-51 | kmalloc keeps the heap invariant, fails exactly for size 0 or when no free block is large enough and then changes nothing; else it takes the lowest one that is, and the live set gains exactly that block, of the rounded size when 24 bytes or more are left over and else whole. |
| HeapTheorems.GrantedSizeIff | src/kernel/mem/kheap.cpp:14-16 | A granted block is as large as requested if and only if the request is at most 0xFFFFFFF8. |
| HeapTheorems.WrapHappens | src/kernel/mem/kheap.cpp:14-16 | A request of 0xFFFFFFF9 bytes is granted a block of size 0, and the list has an empty payload then. |
| HeapTheorems.MallocPositiveIff | src/kernel/mem/kheap.cpp:27-51 | With all payloads non-empty before, kmalloc leaves an empty one exactly when the size wraps to 0 and the first free block has 24 bytes or more, so that it is split. |
| HeapTheorems.FreeTheorem | src/kernel/mem/kheap.cpp:68-73 | kfree of a live pointer keeps the heap invariant, and the live set loses exactly that block. |
| HeapTheorems.MergeNextKeeps | src/kernel/mem/kheap.cpp:54-59 | Merging with a free next block keeps tiling and live blocks and leaves at most the previous pair to merge. |
| HeapTheorems.MergePrevKeeps | src/kernel/mem/kheap.cpp:60-65 | Merging with a free previous block then restores the invariant: no two neighbours are free. |
| HeapTheorems.FreesCommute | src/kernel/mem/kheap.cpp:53-73 | Freeing two live pointers in either order gives the same block list. |
| HeapTheorems.FreeUndoesMalloc | src/kernel/mem/kheap.cpp:27-73 | Freeing what was just allocated restores the block list that was there before, split or not. |
| HeapTheorems.FreeAllRestores | src/kernel/mem/kheap.cpp:18-73 | Freeing all live pointers in any order is a legal run and gives back the single initial free block. |
| HeapTheorems.RunKeepsHeap | src/kernel/mem/kheap.cpp:27-73 | Every legal run of allocations and frees keeps blocks tiling the arena, sizes multiples of 8 and no two free neighbours. |
| HeapTheorems.RunPositiveIff | src/kernel/mem/kheap.cpp:14-73 | Through a legal run all sizes stay positive, in every state, if and only if no request of it wraps and splits a block to nothing. |
| HeapTheorems.SmallRequestsStayPositive | src/kernel/mem/kheap.cpp:14-73 | Through every legal run whose requests are at most 0xFFFFFFF8 bytes all sizes stay positive multiples of 8. |
| HeapTheorems.LiveBlockStays | src/kernel/mem/kheap.cpp:27-73 | A live block is neither moved nor resized by any legal run that does not free it. |
| HeapTheorems.LivesDisjoint | src/kernel/mem/kheap.cpp:27-51 | Live blocks are pairwise disjoint, headers included, and lie in the arena. |
| HeapTheorems.SizesAddUp | src/kernel/mem/kheap.cpp:18-25 | Sizes and headers of tiling blocks add up to the arena. |
| KernelHeap.KernelHeap.HeapInit | src/kernel/mem/kheap.cpp:18-25 | Sets up the single free block once and does nothing afterwards. |
| KernelHeap.KernelHeap.Kmalloc | src/kernel/mem/kheap.cpp:27-51 | The walk over linked headers does what first fit does on the block list, links intact in both directions. |
| KernelHeap.KernelHeap.SplitBlock | src/kernel/mem/kheap.cpp:35-44 | The header writes of a split keep every link right in both directions. |
| KernelHeap.KernelHeap.Coalesce | src/kernel/mem/kheap.cpp:53-66 | Merging with the next and then the previous free block keeps every link right in both directions. |
| KernelHeap.KernelHeap.Kfree | src/kernel/mem/kheap.cpp:68-73 | Frees a live pointer as the block list says; null changes nothing. |
| KernelHeap.KernelHeap.Execute | src/kernel/mem/kheap.cpp:27-73 | A call that is legal does to the linked headers what it does to the block list, and hands out what that says. |
| KernelHeap.KernelHeap.Session | src/kernel/mem/kheap.cpp:27-73 | After any legal run the linked headers describe exactly the block list that the same run makes of the list before. |
| KernelHeap.MergeLinked | src/kernel/mem/kheap.cpp:54-65 | The headers after the pointer writes of a merge are those of the merged block list. |
| KernelHeap.SplitLinked | src/kernel/mem/kheap.cpp:36-45 | The headers after the pointer writes of a split are those of the split block list. |
| Decimal.ReverseInPlace | src/kernel/util/util.cpp:23-33 | Reverses the first characters of the buffer in place and leaves the rest alone. |
| Decimal.IntToStr | src/kernel/util/util.cpp:35-58 | In any buffer that holds the text and a NUL, leaves the decimal text, of at most eleven characters, and a NUL. |
| Decimal.ToString | src/kernel/util/string.cpp:99-116 | Builds its text by emitting the digits backwards. |
| Decimal.RoundTripIff | src/kernel/util/util.cpp:35-58 | Parsing the text as a decimal number gives the number back if and only if it is not the least 32-bit integer. |
| Decimal.LeastText | src/kernel/util/util.cpp:35-58 | The least integer is printed as `-./,),(-*,(`. |
| Decimal.TextShape | src/kernel/util/util.cpp:35-58 | The text has 1 to 11 characters and no leading zero. |
| Decimal.SameTextIff | src/kernel/util/string.cpp:99-116 | toString and int_to_str agree if and only if the number is not negative; of a negative number toString makes the empty text. |
| Strings.ArrayList.Grow | src/kernel/util/types.h:18-28 | Growing keeps every element in its place. |
| Strings.ArrayList.PushBack | src/kernel/util/types.h:91-97 | Appends one element, keeps the others, and doubles the capacity only when it is full. |
| Strings.Split | src/kernel/util/string.cpp:122-144 | The parts are the maximal delimiter-free runs in order, each cut at its first NUL. |
| Strings.RunsAreMaximal | src/kernel/util/string.cpp:122-144 | The text is exactly its runs with stretches of delimiters between them, non-empty between any two runs; every run is non-empty and free of the delimiter. |
| Strings.RunsFlatten | src/kernel/util/string.cpp:122-144 | The runs one after the other are the text with every delimiter taken out. |
| Strings.PartsAreRunsIff | src/kernel/util/string.cpp:130-137 | The parts are the runs unchanged if and only if NUL is the delimiter or does not occur in the text. |
| Strings.SplitCutsHappens | src/kernel/util/string.cpp:130-137 | The text a, NUL, b is one run for the blank, and its one part is a alone. |
| ShellPath.Resolve | src/os/main.cpp:133-167 | For every buffer length, also 0, where the room wraps, the buffer loops compute the resolved path; the `..` loop terminates. |
| ShellPath.CwdIs | src/os/main.cpp:133-140 | The current directory is what follows the first slash of the root, up to 63 characters; without a slash there is none. |
| ShellPath.PiecesJoin | src/os/main.cpp:134-140 | Cutting a path at its slashes and joining the pieces gives the path back; no piece has a slash. |
| ShellPath.StripUpsDrops | src/os/main.cpp:143-154 | k leading `..` drop the last min(k, depth) components of any directory. |
| ShellPath.NameResolves | src/os/main.cpp:156-166 | Whatever the current directory, a slash-free name after k times `..` resolves to what is left of that directory joined with the name, cut to the buffer. |
| ShellPath.SlashedResolves | src/os/main.cpp:156-166 | Whatever the current directory, when the rest still has a slash, the result is that rest alone, cut to the buffer. |
| ShellPath.FinalUp | src/os/main.cpp:152-153 | A final `..` without a slash counts like one with a slash. |

## Left out

- Disk errors: the sectors are an array whose reads and writes succeed, so the branches that return early on a failed transfer are not modelled, except that mounting checks that the metadata lies on the disk.
- The ATA protocol, timers, interrupts, keyboard, screen, CPU identification, power-off and the assembly code: hardware.
- The shell's command loop, login prompts and messages in src/os/main.cpp other than path resolution: user interface. `interpreter/interpreter.h` is not part of this model.
- `fs_is_dir`, `fs_list_root`, `fs_list_dir`, `fs_last_error`, `fs_get_disk_bytes`, `getMB`: read-only members that would add easy ones.
- Null string arguments: they behave as empty strings do and are modelled as such.
- Scratch buffers: directory and file blocks that an operation works on are values, so sharing of the static buffers between operations is not captured; the order of writes is.
- The unused inode fields `direct[1]` to `direct[7]` and `reserved`, and the bytes of the superblock's sector behind its eight fields: zeros in the model.
- An entry whose thirty name bytes hold no NUL: comparing runs on through the entries behind it to the end of the block, as in the source; what lies behind the block is not modelled.
- Range checks on inode numbers, and the calls of `ensure_root_dir_block` that find the root's block in place: they never take effect in a consistent state.
- Code that the source repeats in several functions (scanning a directory, claiming inode and block, opening a directory, storing a file) is one method each; where the source makes the same checks in another order before its first change, the outcome is the same.
- FileSystem.FileSystem.WritePath: of an overlong name, the bytes that would land behind the end of the directory block are not modelled; those inside the block are.
- DirBlock.WriteEntryOverlong: bytes of the name that would land behind the end of the block are not modelled.
- FileSystem.FileSystem.StoreFile: as for WritePath.
- FileSystem.FileSystem.FindDirEntry: a comparison stops at the end of the block.
- FileSystem.FileSystem.StoreSysFile: the data is at most one block, as both callers' is.
- FileSystem.FileSystem.EnsureRootDirBlock: the layout has at least one block, as its only caller that finds the root without one has seen to.
- FileSystem.FileSystem.WriteSysFile: the data is at most one block, as both callers' is.
- FileSystem.FileSystem.Format: the blocks to be laid out must fit the device, because a transfer beyond its end would fail.
- FileSystem.FileSystem.Execute: takes a mounted file system; what each operation does while unmounted is in its own contract.
- KernelHeap.KernelHeap.Kfree: requires a live pointer or null; freeing twice or freeing a foreign pointer is undefined in the source. The contents of payloads are not modelled.
- ShellPath.Resolve: the result is a sequence; that a buffer length of 0 lets the source write behind the buffer is not captured.
- Strings.ArrayList.Grow: allocation always succeeds and the capacity does not wrap at 32 bits.
- Strings.ArrayList.PushBack: the doubled buffer is granted, as for Grow.
- String ownership, the shallow assignment and the no-op destructor of `String`: strings are values.

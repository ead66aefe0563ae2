/** The edits of the node table as the operations carry them out on blocks, bitmap and inodes. */
module StoredEdits {
  import opened Basics
  import opened Bytes
  import opened DirBlock
  import opened Bitmap
  import opened Tree
  import opened TreeEdits
  import opened VolumeSpec
  import opened VolumeTheorems
  import opened Storage

  /** The block of a used inode, as the disk holds it. */
  function DataOf(s: Fs, i: nat): Block
    requires i < |s.inodes| && DATA_LBA + s.inodes[i].block < |s.disk|
  {
    s.disk[DATA_LBA + s.inodes[i].block]
  }

  predicate IsDir(s: Fs, d: int) {
    0 <= d < |s.inodes| && View(s)[d].Dir?
  }

  predicate IsFile(s: Fs, i: int) {
    0 <= i < |s.inodes| && View(s)[i].File?
  }

  /** Writing the block of a directory gives it the slots of the new block. */
  lemma DirWritten(s: Fs, d: nat, data: Block)
    requires Base(s) && IsDir(s, d)
    ensures var t := WithData(s, s.inodes[d].block, data);
            Base(t) && View(t) == View(s)[d := Dir(Slots(data))]
  {
    WriteOwned(s, d, data);
  }

  lemma FileWritten(s: Fs, i: nat, data: Block)
    requires Base(s) && IsFile(s, i)
    ensures var t := WithData(s, s.inodes[i].block, data);
            Base(t) && View(t) == View(s)[i := File(data[..s.inodes[i].size])]
  {
    WriteOwned(s, i, data);
  }

  /** Naming an inode in a slot of a directory. */
  function Linked(s: Fs, d: nat, k: nat, i: byte, name: Name): Fs
    requires d < |s.inodes| && DATA_LBA + s.inodes[d].block < |s.disk| && k < SLOTS
  {
    WithData(s, s.inodes[d].block, WriteEntry(DataOf(s, d), k, i, name))
  }

  lemma LinkedView(s: Fs, d: nat, k: nat, i: byte, name: Name)
    requires Base(s) && IsDir(s, d) && k < SLOTS && |name| < NAME_SIZE && IsCString(name)
    ensures var t := Linked(s, d, k, i, name);
            Base(t) && View(t) == SetSlot(View(s), d, k, Named(i, name))
  {
    DirWritten(s, d, WriteEntry(DataOf(s, d), k, i, name));
    WriteEntrySlots(DataOf(s, d), k, i, name);
  }

  /** The superblock sector is not touched by anything but format. */
  predicate SameSuper(s: Fs, t: Fs) {
    && |t.disk| == |s.disk| && t.sb == s.sb && t.mounted == s.mounted && t.lastError == s.lastError
    && SUPER_LBA < |s.disk| && t.disk[SUPER_LBA] == s.disk[SUPER_LBA]
  }

  // ----- making a directory -----

  function NewDir(s: Fs, d: nat, k: nat, i: byte, b: nat, name: Name): Fs
    requires Geometry(s) && i < MAX_INODES && d < MAX_INODES && i != d && k < SLOTS
    requires b < s.sb.blockCount && s.inodes[d].block < s.sb.blockCount
  {
    WithData(WithData(Claimed(s, i, b, Inode(1, INODE_DIR, 1, 0, b)), b, ZERO_BLOCK),
             s.inodes[d].block, WriteEntry(DataOf(s, d), k, i, name))
  }

  predicate Claimable(s: Fs, i: nat, b: nat) {
    0 < i < |s.inodes| && !InodeUsed(s, i) && 1 <= b < s.sb.blockCount && !Bit(s.bitmap, b)
  }

  /** A claimed directory whose block has been emptied. */
  lemma EmptyDirClaimed(s: Fs, i: nat, b: nat)
    requires Base(s) && Claimable(s, i, b)
    ensures var t := WithData(Claimed(s, i, b, Inode(1, INODE_DIR, 1, 0, b)), b, ZERO_BLOCK);
            Base(t) && View(t) == View(s)[i := Dir(EmptySlots())]
  {
    var inode := Inode(1, INODE_DIR, 1, 0, b);
    ClaimBase(s, i, b, inode);
    ZeroBlockSlots();
    DirWritten(Claimed(s, i, b, inode), i, ZERO_BLOCK);
  }

  lemma NewDirSuper(s: Fs, d: nat, k: nat, i: byte, b: nat, name: Name)
    requires Geometry(s) && i < MAX_INODES && d < MAX_INODES && i != d && k < SLOTS
    requires b < s.sb.blockCount && s.inodes[d].block < s.sb.blockCount
    ensures SameSuper(s, NewDir(s, d, k, i, b, name))
  {
  }

  lemma NewDirView(s: Fs, d: nat, k: nat, i: byte, b: nat, name: Name)
    requires Base(s) && Claimable(s, i, b) && EmptySlot(View(s), d, k) && |name| < NAME_SIZE && IsCString(name)
    ensures var t := NewDir(s, d, k, i, b, name);
            Base(t) && SameSuper(s, t) && View(t) == AddChild(View(s), d, k, i, name, Dir(EmptySlots()))
  {
    hide SameSuper;
    var s1 := Claimed(s, i, b, Inode(1, INODE_DIR, 1, 0, b));
    var s2 := WithData(s1, b, ZERO_BLOCK);
    EmptyDirClaimed(s, i, b);
    assert View(s)[d] == NodeAt(s, d) && View(s2)[d] == NodeAt(s2, d);
    assert DataOf(s2, d) == DataOf(s, d) by { DistinctBlocks(s2, i, d); }
    LinkedView(s2, d, k, i, name);
    NewDirSuper(s, d, k, i, b, name);
  }

  lemma DistinctBlocks(s: Fs, i: nat, d: nat)
    requires Base(s) && InodeUsed(s, i) && InodeUsed(s, d) && i != d
    ensures s.inodes[i].block != s.inodes[d].block
  {
  }

  // ----- storing a file -----

  function NewFile(s: Fs, d: nat, k: nat, i: byte, b: nat, name: Name, size: u32, data: Block): Fs
    requires Geometry(s) && i < MAX_INODES && d < MAX_INODES && i != d && k < SLOTS
    requires b < s.sb.blockCount && s.inodes[d].block < s.sb.blockCount
  {
    WithData(Linked(Claimed(s, i, b, Inode(1, INODE_FILE, 1, size, b)), d, k, i, name), b, data)
  }

  lemma NewFileSuper(s: Fs, d: nat, k: nat, i: byte, b: nat, name: Name, size: u32, data: Block)
    requires Geometry(s) && i < MAX_INODES && d < MAX_INODES && i != d && k < SLOTS
    requires b < s.sb.blockCount && s.inodes[d].block < s.sb.blockCount
    ensures SameSuper(s, NewFile(s, d, k, i, b, name, size, data))
  {
  }

  lemma SlotsApart(v: Nodes, d: nat, k: nat, slot: Slot, i: nat, x: Node, y: Node)
    requires d < |v| && v[d].Dir? && k < |v[d].slots| && i < |v| && i != d
    ensures SetSlot(v[i := x], d, k, slot)[i := y] == SetSlot(v[i := y], d, k, slot)
  {
  }

  lemma NewFileView(s: Fs, d: nat, k: nat, i: byte, b: nat, name: Name, size: u32, data: Block)
    requires Base(s) && Claimable(s, i, b) && EmptySlot(View(s), d, k) && |name| < NAME_SIZE && IsCString(name)
    requires size <= BLOCK_SIZE
    ensures var t := NewFile(s, d, k, i, b, name, size, data);
            Base(t) && SameSuper(s, t) && View(t) == AddChild(View(s), d, k, i, name, File(data[..size]))
  {
    hide SameSuper, WriteEntry, SetSlot;
    var inode := Inode(1, INODE_FILE, 1, size, b);
    ClaimBase(s, i, b, inode);
    var s1 := Claimed(s, i, b, inode);
    LinkedView(s1, d, k, i, name);
    FileLinked(s1, d, k, i, name);
    FileWritten(Linked(s1, d, k, i, name), i, data);
    SlotsApart(View(s), d, k, Named(i, name), i, NodeAt(s1, i), File(data[..size]));
    NewFileSuper(s, d, k, i, b, name, size, data);
  }

  /** Naming a file changes nothing about the file. */
  lemma FileLinked(s: Fs, d: nat, k: nat, i: byte, name: Name)
    requires Base(s) && IsDir(s, d) && k < SLOTS && |name| < NAME_SIZE && IsCString(name) && i < MAX_INODES
             && IsFile(s, i)
    ensures var t := Linked(s, d, k, i, name); Base(t) && IsFile(t, i) && t.inodes == s.inodes
  {
    LinkedView(s, d, k, i, name);
  }

  lemma UpdatesApart(v: Nodes, d: nat, i: nat, x: Node, y: Node, z: Node)
    requires d < |v| && i < |v| && i != d
    ensures v[i := x][d := y][i := z] == v[d := y][i := z]
  {
  }

  /** Naming a claimed inode, whatever the length of the name. */
  lemma LinkedEffect(s: Fs, d: nat, k: nat, i: byte, b: nat, name: Name, size: u32)
    requires Base(s) && Claimable(s, i, b) && IsDir(s, d) && k < SLOTS && size <= BLOCK_SIZE
    ensures var s1 := Claimed(s, i, b, Inode(1, INODE_FILE, 1, size, b)); var t := Linked(s1, d, k, i, name);
            Base(t) && IsFile(t, i)
            && View(t) == View(s)[i := NodeAt(s1, i)][d := Dir(Slots(WriteEntry(DataOf(s, d), k, i, name)))]
  {
    hide WriteEntry, Slots, WithData;
    var inode := Inode(1, INODE_FILE, 1, size, b);
    var s1 := Claimed(s, i, b, inode);
    ClaimBase(s, i, b, inode);
    assert View(s)[d] == NodeAt(s, d) && View(s1)[d] == NodeAt(s1, d);
    DirWritten(s1, d, WriteEntry(DataOf(s, d), k, i, name));
  }

  /** What storing a new file does to the node table, whatever the length of its name. */
  lemma NewFileEffect(s: Fs, d: nat, k: nat, i: byte, b: nat, name: Name, size: u32, data: Block)
    requires Base(s) && Claimable(s, i, b) && IsDir(s, d) && k < SLOTS && size <= BLOCK_SIZE
    ensures var t := NewFile(s, d, k, i, b, name, size, data);
            Base(t)
            && View(t) == View(s)[d := Dir(Slots(WriteEntry(DataOf(s, d), k, i, name)))][i := File(data[..size])]
  {
    var s1 := Claimed(s, i, b, Inode(1, INODE_FILE, 1, size, b));
    LinkedEffect(s, d, k, i, b, name, size);
    assert i != d by { assert View(s)[d] == NodeAt(s, d); }
    hide WriteEntry, Slots, View, Base;
    FileWritten(Linked(s1, d, k, i, name), i, data);
    UpdatesApart(View(s), d, i, NodeAt(s1, i), Dir(Slots(WriteEntry(DataOf(s, d), k, i, name))), File(data[..size]));
  }

  lemma NewFileOverlong(s: Fs, d: nat, k: nat, i: byte, b: nat, name: Name, size: u32, data: Block)
    requires Base(s) && Claimable(s, i, b) && EmptySlot(View(s), d, k) && |name| >= NAME_SIZE && IsCString(name)
    requires size <= BLOCK_SIZE
    ensures Base(NewFile(s, d, k, i, b, name, size, data))
            && !WellFormed(View(NewFile(s, d, k, i, b, name, size, data)))
  {
    NewFileEffect(s, d, k, i, b, name, size, data);
    WriteEntryOverlong(DataOf(s, d), k, i, name);
    assert Names(View(NewFile(s, d, k, i, b, name, size, data)), d, k, i);
  }

  /** In `t` the new file has been stored and flushed. */
  ghost predicate FileStored(s: Fs, t: Fs, d: nat, k: nat, i: nat, b: nat, name: Name, size: u32, data: Block) {
    && Base(s) && IsDir(s, d) && k < SLOTS && Claimable(s, i, b)
    && t == Flushed(NewFile(s, d, k, i, b, name, size, data))
  }

  /** From `s` to `t` a file was added to directory `d`: the lowest free inode and block were given
      this data, the first empty slot was given this name, whatever its length, and all was flushed. */
  ghost predicate FileAdded(s: Fs, t: Fs, d: nat, name: Name, size: u32, data: Block) {
    && Base(s) && IsDir(s, d) && HasRoom(VolumeOf(s), d)
    && exists b: nat :: LowestFree(s, b) &&
         FileStored(s, t, d, FirstEmpty(View(s), d).value, FreeNode(VolumeOf(s)).value, b, name, size, data)
  }

  function Overwritten(s: Fs, i: nat, size: u32, data: Block): Fs
    requires i < |s.inodes| && DATA_LBA + s.inodes[i].block < |s.disk|
  {
    WithData(WithInode(s, i, s.inodes[i].(size := size)), s.inodes[i].block, data)
  }

  lemma OverwrittenView(s: Fs, i: nat, size: u32, data: Block)
    requires Base(s) && IsFile(s, i) && size <= BLOCK_SIZE
    ensures var t := Overwritten(s, i, size, data);
            Base(t) && SameSuper(s, t) && View(t) == View(s)[i := File(data[..size])]
  {
    ResizeBase(s, i, size);
    FileWritten(WithInode(s, i, s.inodes[i].(size := size)), i, data);
  }

  // ----- changing entries -----

  function Unlinked(s: Fs, d: nat, k: nat): Fs
    requires d < |s.inodes| && DATA_LBA + s.inodes[d].block < |s.disk| && k < SLOTS
  {
    WithData(s, s.inodes[d].block, ClearEntry(DataOf(s, d), k))
  }

  lemma UnlinkedView(s: Fs, d: nat, k: nat)
    requires Base(s) && IsDir(s, d) && k < SLOTS
    ensures var t := Unlinked(s, d, k);
            Base(t) && View(t) == SetSlot(View(s), d, k, Empty)
  {
    DirWritten(s, d, ClearEntry(DataOf(s, d), k));
    ClearEntrySlots(DataOf(s, d), k);
  }

  lemma RelabelledView(s: Fs, d: nat, k: nat, i: nat, name: Name)
    requires Base(s) && Names(View(s), d, k, i) && |name| < NAME_SIZE && IsCString(name)
    ensures var t := WithData(s, s.inodes[d].block, RenameEntry(DataOf(s, d), k, name));
            Base(t) && SameSuper(s, t) && View(t) == SetSlot(View(s), d, k, Named(i, name))
  {
    DirWritten(s, d, RenameEntry(DataOf(s, d), k, name));
    RenameEntrySlots(DataOf(s, d), k, name);
  }

  lemma MovedSuper(s: Fs, sd: nat, sk: nat, dd: nat, dk: nat, i: byte, name: Name)
    requires Geometry(s) && sd < MAX_INODES && dd < MAX_INODES && sk < SLOTS && dk < SLOTS
    requires s.inodes[sd].block < s.sb.blockCount && s.inodes[dd].block < s.sb.blockCount
    ensures SameSuper(s, WithData(WithData(s, s.inodes[sd].block, ClearEntry(DataOf(s, sd), sk)),
                                  s.inodes[dd].block, WriteEntry(DataOf(s, dd), dk, i, name)))
  {
  }

  lemma MovedView(s: Fs, sd: nat, sk: nat, dd: nat, dk: nat, i: byte, name: Name)
    requires Base(s) && Names(View(s), sd, sk, i) && sd != dd && EmptySlot(View(s), dd, dk)
    requires |name| < NAME_SIZE && IsCString(name)
    ensures var t := WithData(WithData(s, s.inodes[sd].block, ClearEntry(DataOf(s, sd), sk)),
                              s.inodes[dd].block, WriteEntry(DataOf(s, dd), dk, i, name));
            Base(t) && SameSuper(s, t) && View(t) == MoveEntry(View(s), sd, sk, dd, dk, name)
  {
    hide SameSuper;
    var s1 := Unlinked(s, sd, sk);
    UnlinkedView(s, sd, sk);
    assert View(s)[dd] == NodeAt(s, dd) && View(s)[sd] == NodeAt(s, sd);
    assert View(s1)[dd] == View(s)[dd];
    assert DataOf(s1, dd) == DataOf(s, dd) by { DistinctBlocks(s, sd, dd); }
    LinkedView(s1, dd, dk, i, name);
    MovedSuper(s, sd, sk, dd, dk, i, name);
  }

  // ----- ending an operation -----

  lemma FlushedInv(s: Fs, t: Fs)
    requires Sound(s) && Base(t) && SameSuper(s, t) && WellFormed(View(t))
    ensures Inv(Flushed(t)) && VolumeOf(Flushed(t)) == Volume(View(t), s.sb.inodeCount, s.sb.blockCount)
  {
    FlushBase(t);
  }

  lemma NewDirInv(s: Fs, d: nat, k: nat, i: byte, b: nat, name: Name)
    requires Sound(s) && IsDir(s, d) && NameOk(name) && IsCString(name)
    requires Lookup(View(s), d, name, DirKind).None? && FirstEmpty(View(s), d) == Some(k)
    requires FreeNode(VolumeOf(s)) == Some(i) && HasFreeBlock(VolumeOf(s)) && 1 <= b < s.sb.blockCount
             && !Bit(s.bitmap, b)
    ensures var t := Flushed(NewDir(s, d, k, i, b, name));
            Inv(t) && (true, VolumeOf(t)) == MkdirIn(VolumeOf(s), d, name)
  {
    hide WellFormed;
    NewDirView(s, d, k, i, b, name);
    MkdirInEffect(VolumeOf(s), d, name);
    FlushedInv(s, NewDir(s, d, k, i, b, name));
  }

  lemma NewFileInv(s: Fs, d: nat, k: nat, i: byte, b: nat, name: Name, size: u32, data: Block)
    requires Sound(s) && IsDir(s, d) && name != [] && IsCString(name) && size <= BLOCK_SIZE
    requires Lookup(View(s), d, name, FileKind).None? && FirstEmpty(View(s), d) == Some(k)
    requires FreeNode(VolumeOf(s)) == Some(i) && HasFreeBlock(VolumeOf(s)) && 1 <= b < s.sb.blockCount
             && !Bit(s.bitmap, b)
    ensures var t := Flushed(NewFile(s, d, k, i, b, name, size, data));
            && (Inv(t) <==> NameOk(name))
            && (NameOk(name) ==> (true, VolumeOf(t)) == PutFile(VolumeOf(s), d, name, data[..size]))
  {
    var t := NewFile(s, d, k, i, b, name, size, data);
    if NameOk(name) {
      NewFileView(s, d, k, i, b, name, size, data);
      PutFileEffect(VolumeOf(s), d, name, data[..size]);
      FlushedInv(s, t);
    } else {
      NewFileOverlong(s, d, k, i, b, name, size, data);
      FlushBase(t);
    }
  }

  lemma OverwrittenInv(s: Fs, d: nat, i: nat, name: Name, size: u32, data: Block)
    requires Sound(s) && size <= BLOCK_SIZE && Lookup(View(s), d, name, FileKind) == Some(i)
    ensures var t := Flushed(Overwritten(s, i, size, data));
            Inv(t) && (true, VolumeOf(t)) == PutFile(VolumeOf(s), d, name, data[..size])
  {
    OverwrittenView(s, i, size, data);
    PutFileEffect(VolumeOf(s), d, name, data[..size]);
    FlushedInv(s, Overwritten(s, i, size, data));
  }

  /** A freshly created file keeps whatever its block held: nothing is written to it. */
  lemma NewFileUntouched(s: Fs, d: nat, k: nat, i: byte, b: nat, name: Name)
    requires Base(s) && IsDir(s, d) && Claimable(s, i, b) && k < SLOTS
    ensures Linked(Claimed(s, i, b, Inode(1, INODE_FILE, 1, 0, b)), d, k, i, name)
            == NewFile(s, d, k, i, b, name, 0, s.disk[DATA_LBA + b])
  {
    assert Owns(s, d, s.inodes[d].block);
  }

  /** Writing a block back unchanged changes nothing. */
  lemma RewriteSame(s: Fs, i: nat)
    requires i < |s.inodes| && DATA_LBA + s.inodes[i].block < |s.disk|
    ensures WithData(s, s.inodes[i].block, DataOf(s, i)) == s
  {
  }

  // ----- removing one file -----

  function FileRemoved(s: Fs, d: nat, k: nat, i: nat): Fs
    requires Geometry(s) && i < MAX_INODES && d < MAX_INODES && k < SLOTS
    requires s.inodes[i].block < s.sb.blockCount && s.inodes[d].block < s.sb.blockCount
  {
    WithData(WithData(Released(s, i), s.inodes[i].block, ZERO_BLOCK),
             s.inodes[d].block, ClearEntry(DataOf(s, d), k))
  }

  lemma FileRemovedSuper(s: Fs, d: nat, k: nat, i: nat)
    requires Geometry(s) && i < MAX_INODES && d < MAX_INODES && k < SLOTS
    requires s.inodes[i].block < s.sb.blockCount && s.inodes[d].block < s.sb.blockCount
    ensures SameSuper(s, FileRemoved(s, d, k, i))
  {
  }

  lemma PruneOne(v: Nodes, d: nat, k: nat, i: nat)
    requires d < |v| && v[d].Dir? && k < |v[d].slots| && i < |v| && i != d
    ensures SetSlot(v[i := Free], d, k, Empty) == Prune(v, d, k, {i})
  {
  }

  /** A freed file whose block has been overwritten. */
  lemma FileFreed(s: Fs, i: nat)
    requires Base(s) && IsFile(s, i)
    ensures var t := WithData(Released(s, i), s.inodes[i].block, ZERO_BLOCK);
            Base(t) && View(t) == View(s)[i := Free]
  {
    ReleaseBase(s, i);
    WriteUnowned(Released(s, i), s.inodes[i].block, ZERO_BLOCK);
  }

  lemma FileRemovedView(s: Fs, d: nat, k: nat, i: nat)
    requires Base(s) && Names(View(s), d, k, i) && IsFile(s, i)
    ensures var t := FileRemoved(s, d, k, i);
            Base(t) && SameSuper(s, t) && View(t) == Prune(View(s), d, k, {i})
  {
    hide SameSuper, SetSlot, Prune;
    var t := WithData(Released(s, i), s.inodes[i].block, ZERO_BLOCK);
    FileFreed(s, i);
    assert View(s)[d] == NodeAt(s, d) && View(t)[d] == NodeAt(t, d);
    DistinctBlocks(s, i, d);
    assert DataOf(t, d) == DataOf(s, d);
    UnlinkedView(t, d, k);
    PruneOne(View(s), d, k, i);
    FileRemovedSuper(s, d, k, i);
  }

  lemma FileRemovedInv(s: Fs, d: nat, k: nat, i: nat)
    requires Inv(s) && Names(View(s), d, k, i) && IsFile(s, i)
    ensures var t := Flushed(FileRemoved(s, d, k, i));
            Inv(t) && View(t) == Prune(View(s), d, k, {i})
  {
    FileRemovedView(s, d, k, i);
    FileSubtree(View(s), i);
    PruneKeeps(View(s), d, k, i);
    FlushedInv(s, FileRemoved(s, d, k, i));
  }

  // ----- renaming -----

  lemma RelabelledInv(s: Fs, d: nat, k: nat, i: nat, name: Name)
    requires Inv(s) && Names(View(s), d, k, i) && |name| < NAME_SIZE && IsCString(name)
    ensures var t := WithData(s, s.inodes[d].block, RenameEntry(DataOf(s, d), k, name));
            View(t) == SetSlot(View(s), d, k, Named(i, name)) && (Inv(t) <==> WellFormed(View(t)))
  {
    hide WellFormed;
    RelabelledView(s, d, k, i, name);
    DataKeepsSynced(s, s.inodes[d].block, RenameEntry(DataOf(s, d), k, name));
  }

  lemma MovedInv(s: Fs, sd: nat, sk: nat, dd: nat, dk: nat, i: byte, name: Name)
    requires Inv(s) && Names(View(s), sd, sk, i) && sd != dd && EmptySlot(View(s), dd, dk)
    requires |name| < NAME_SIZE && IsCString(name)
    ensures var t := WithData(WithData(s, s.inodes[sd].block, ClearEntry(DataOf(s, sd), sk)),
                              s.inodes[dd].block, WriteEntry(DataOf(s, dd), dk, i, name));
            View(t) == MoveEntry(View(s), sd, sk, dd, dk, name) && (Inv(t) <==> WellFormed(View(t)))
  {
    hide WellFormed;
    MovedView(s, sd, sk, dd, dk, i, name);
    DataKeepsSynced(s, s.inodes[sd].block, ClearEntry(DataOf(s, sd), sk));
    DataKeepsSynced(WithData(s, s.inodes[sd].block, ClearEntry(DataOf(s, sd), sk)),
                    s.inodes[dd].block, WriteEntry(DataOf(s, dd), dk, i, name));
  }

  // ----- system files -----

  /** From `s` to `t` the lowest free inode and block were claimed in memory and nothing names them. */
  ghost predicate Leaked(s: Fs, t: Fs, kind: byte, size: u32) {
    && Base(s) && FreeNode(VolumeOf(s)).Some?
    && exists b: nat :: LowestFree(s, b) && t == Claimed(s, FreeNode(VolumeOf(s)).value, b, Inode(1, kind, 1, size, b))
  }

  /** From `s` to `t` the directory `sys` was made and not flushed. */
  ghost predicate SysUnflushed(s: Fs, t: Fs) {
    && Base(s) && HasRoom(VolumeOf(s), 0) && IsDir(s, 0)
    && exists b: nat :: LowestFree(s, b) &&
         t == NewDir(s, 0, FirstEmpty(View(s), 0).value, FreeNode(VolumeOf(s)).value, b, SYS)
  }

  /** What a system write that runs out half way leaves behind. */
  ghost predicate SysWriteLeaves(s: Fs, t: Fs, size: u32) {
    if Lookup(View(s), 0, SYS, DirKind).Some? then Leaked(s, t, INODE_FILE, size)
    else if FirstEmpty(View(s), 0).None? then Leaked(s, t, INODE_DIR, 0)
    else SysUnflushed(s, t)
  }

  lemma ClaimIsLeak(s: Fs, t: Fs, i: nat, b: nat, kind: byte, size: u32)
    requires Sound(s) && Claimable(s, i, b) && LowestFree(s, b) && FreeNode(VolumeOf(s)) == Some(i)
    requires (kind == INODE_FILE || kind == INODE_DIR) && size <= BLOCK_SIZE
    requires t == Claimed(s, i, b, Inode(1, kind, 1, size, b))
    ensures Leaked(s, t, kind, size) && !Inv(t)
  {
    hide WellFormed, Synced;
    ClaimLeaks(s, i, b, Inode(1, kind, 1, size, b));
  }

  /** A node that was claimed and is not named is not reachable. */
  lemma LeakBreaks(s: Fs, t: Fs, kind: byte, size: u32)
    requires Sound(s) && Leaked(s, t, kind, size) && (kind == INODE_FILE || kind == INODE_DIR) && size <= BLOCK_SIZE
    ensures !WellFormed(View(t))
  {
    hide WellFormed;
    var i := FreeNode(VolumeOf(s)).value;
    var b: nat :| LowestFree(s, b) && t == Claimed(s, i, b, Inode(1, kind, 1, size, b));
    assert View(s)[i] == NodeAt(s, i);
    ClaimLeaks(s, i, b, Inode(1, kind, 1, size, b));
  }

  lemma IsSysUnflushed(s: Fs, t: Fs, k: nat, i: nat, b: nat)
    requires Sound(s) && Claimable(s, i, b) && LowestFree(s, b) && FreeNode(VolumeOf(s)) == Some(i)
    requires HasFreeBlock(VolumeOf(s)) && FirstEmpty(View(s), 0) == Some(k) && IsDir(s, 0)
    requires t == NewDir(s, 0, k, i, b, SYS)
    ensures SysUnflushed(s, t)
  {
    hide WellFormed;
  }

  /** The first half of a system write, from `s` to `t`: `sys` was found to be inode `d`, or was made
      unflushed, or could not be made (`d` is negative), and then perhaps was claimed and not named. */
  ghost predicate SysEnsured(s: Fs, t: Fs, d: int) {
    match Lookup(View(s), 0, SYS, DirKind)
    case Some(i) => d == i && t == s
    case None =>
      if FreeNode(VolumeOf(s)).None? || !HasFreeBlock(VolumeOf(s)) then d < 0 && t == s
      else if FirstEmpty(View(s), 0).None? then d < 0 && !Inv(t) && Leaked(s, t, INODE_DIR, 0)
      else d == FreeNode(VolumeOf(s)).value && SysUnflushed(s, t)
  }

  /** The second half, from `s` to `t`: the file was stored in `d`, or there was no inode or block for
      it, or no slot, and then an inode was claimed and not named. */
  ghost predicate SysStored(s: Fs, t: Fs, d: nat, filename: Name, content: seq<byte>, ok: bool)
    requires |content| <= BLOCK_SIZE
  {
    var missing := Lookup(View(s), d, filename, FileKind).None?;
    if missing && (FreeNode(VolumeOf(s)).None? || !HasFreeBlock(VolumeOf(s))) then !ok && t == s
    else if missing && FirstEmpty(View(s), d).None? then
      !ok && !Inv(t) && Leaked(s, t, INODE_FILE, |content|)
    else ok && Inv(t) && (true, VolumeOf(t)) == PutFile(VolumeOf(s), d, filename, content)
  }

  /** Whatever the first half did, unless it failed the state is sound, and `d` is the directory. */
  lemma SysEnsuredSound(s: Fs, t: Fs, d: int)
    requires Inv(s) && SysEnsured(s, t, d) && d >= 0
    ensures Sound(t) && IsDir(t, d)
    ensures Lookup(View(s), 0, SYS, DirKind).None? ==>
              !Synced(t) && (true, VolumeOf(t)) == MkdirIn(VolumeOf(s), 0, SYS) && View(t)[d] == Dir(EmptySlots())
  {
    hide WellFormed, Synced, FindFrom, FirstEmptyFrom, FreeNodeFrom;
    if Lookup(View(s), 0, SYS, DirKind).None? {
      var k := FirstEmpty(View(s), 0).value;
      var b: nat :| LowestFree(s, b) && t == NewDir(s, 0, k, d, b, SYS);
      SysUnflushedSound(s, t, k, d, b);
    }
  }

  lemma SysUnflushedSound(s: Fs, t: Fs, k: nat, d: nat, b: nat)
    requires Inv(s) && Lookup(View(s), 0, SYS, DirKind).None? && HasRoom(VolumeOf(s), 0) && LowestFree(s, b)
    requires FirstEmpty(View(s), 0) == Some(k) && FreeNode(VolumeOf(s)) == Some(d) && t == NewDir(s, 0, k, d, b, SYS)
    ensures Sound(t) && !Synced(t) && IsDir(t, d)
    ensures (true, VolumeOf(t)) == MkdirIn(VolumeOf(s), 0, SYS) && View(t)[d] == Dir(EmptySlots())
  {
    hide WellFormed, Synced, FindFrom, FirstEmptyFrom, FreeNodeFrom;
    assert View(s)[d] == NodeAt(s, d);
    UnflushedDir(s, 0, k, d, b, SYS);
  }

  lemma UnflushedBreaks(s: Fs, t: Fs)
    requires Inv(s) && SysUnflushed(s, t) && Lookup(View(s), 0, SYS, DirKind).None?
    ensures !Inv(t)
  {
    hide WellFormed, FindFrom, FirstEmptyFrom, FreeNodeFrom;
    var k, i := FirstEmpty(View(s), 0).value, FreeNode(VolumeOf(s)).value;
    var b: nat :| LowestFree(s, b) && t == NewDir(s, 0, k, i, b, SYS);
    SysUnflushedSound(s, t, k, i, b);
  }

  /** Whatever a system write that runs out half way leaves, it is not consistent. */
  lemma LeftoversBreak(s: Fs, t: Fs, size: u32)
    requires Inv(s) && SysWriteLeaves(s, t, size) && size <= BLOCK_SIZE
    ensures !Inv(t)
  {
    hide WellFormed, Synced, Leaked, SysUnflushed, FindFrom, FirstEmptyFrom, FreeNodeFrom, Base;
    if Lookup(View(s), 0, SYS, DirKind).Some? {
      LeakBreaks(s, t, INODE_FILE, size);
    } else if FirstEmpty(View(s), 0).None? {
      LeakBreaks(s, t, INODE_DIR, 0);
    } else {
      UnflushedBreaks(s, t);
    }
  }

  /** Both halves together are the system write, consistent if and only if nothing ran out between
      them; otherwise it is known what is left behind. */
  lemma SysWriteOutcome(s: Fs, t: Fs, u: Fs, d: int, filename: Name, content: seq<byte>, ok: bool)
    requires Inv(s) && SysEnsured(s, t, d) && |content| <= BLOCK_SIZE
    requires if d < 0 then u == t && !ok else SysStored(t, u, d, filename, content, ok)
    ensures Inv(u) <==> SysWriteSafe(VolumeOf(s), filename)
    ensures ok == SysWriteSpec(VolumeOf(s), filename, content).0
    ensures Inv(u) ==> (ok, VolumeOf(u)) == SysWriteSpec(VolumeOf(s), filename, content)
    ensures !Inv(u) ==> SysWriteLeaves(s, u, |content|)
    ensures Inv(u) && !ok ==> u == s
  {
    hide WellFormed, Synced, Base, Inv, Leaked, SysUnflushed, FindFrom, FirstEmptyFrom, AddChild;
    if d >= 0 {
      SysEnsuredSound(s, t, d);
      if Lookup(View(s), 0, SYS, DirKind).None? {
        FreshDirLacks(View(t), d, filename);
        NotSyncedNotInv(t);
      }
    }
  }

  lemma NotSyncedNotInv(s: Fs)
    ensures !Synced(s) ==> !Inv(s)
  {
  }

  /** An inode that is claimed but never named is not reachable, whatever its block holds. */
  lemma ClaimLeaks(s: Fs, i: nat, b: nat, inode: Inode)
    requires Sound(s) && Claimable(s, i, b) && inode.used != 0 && inode.size <= BLOCK_SIZE && inode.block == b
    requires inode.kind == INODE_FILE || inode.kind == INODE_DIR
    ensures !WellFormed(View(Claimed(s, i, b, inode)))
  {
    ClaimBase(s, i, b, inode);
    var w := View(Claimed(s, i, b, inode));
    forall e, m | Names(w, e, m, i)
      ensures e == i
    {
      assert e != i ==> Names(View(s), e, m, i);
    }
    forall n: nat
      ensures !Descends(w, 0, i, n)
    {
      OnlyOwnParent(w, i, n);
    }
    assert Used(w, i);
  }

  /** A directory that was made but not flushed is missing from the inode table on disk. */
  lemma UnflushedDir(s: Fs, d: nat, k: nat, i: byte, b: nat, name: Name)
    requires Inv(s) && Claimable(s, i, b) && EmptySlot(View(s), d, k) && NameOk(name) && IsCString(name)
    requires Lookup(View(s), d, name, DirKind).None?
    ensures var t := NewDir(s, d, k, i, b, name);
            Sound(t) && !Synced(t) && View(t) == AddChild(View(s), d, k, i, name, Dir(EmptySlots()))
  {
    hide DecodeSuper;
    var t := NewDir(s, d, k, i, b, name);
    NewDirView(s, d, k, i, b, name);
    LookupNone(View(s), d, name, DirKind);
    AddChildKeeps(View(s), d, k, i, name, Dir(EmptySlots()));
    ReadSectorsLocal(s.disk, t.disk, TABLE_LBA, TABLE_SECTORS);
    assert t.inodes[i].used != s.inodes[i].used;
  }
}

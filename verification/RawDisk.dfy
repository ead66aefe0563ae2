/** Reading a disk that may hold anything: what is found in the inode table and the directory
    blocks on it when nothing is known to be consistent. */
module RawDisk {
  import opened Basics
  import opened Bytes
  import opened DirBlock
  import opened Tree
  import opened VolumeSpec
  import opened Storage
  import opened StoredEdits

  /** Entry `k` is in use and names so a used inode of this kind. Names are compared byte by byte, so
      one that no NUL ends is compared beyond its field. */
  predicate EntryMatches(table: seq<Inode>, block: Block, k: nat, name: Name, kind: Kind)
    requires k < SLOTS
  {
    block[32 * k] != 0 && NameAt(block, k) == name && block[32 * k + 1] < |table| && table[block[32 * k + 1]].used != 0
    && table[block[32 * k + 1]].kind == match kind case FileKind => INODE_FILE case DirKind => INODE_DIR
  }

  /** The first such entry from entry `k` on. */
  function EntryFrom(table: seq<Inode>, block: Block, name: Name, kind: Kind, k: nat): (r: Option<nat>)
    ensures r.Some? ==> k <= r.value < SLOTS && EntryMatches(table, block, r.value, name, kind)
    ensures forall m :: k <= m < (if r.Some? then r.value else SLOTS) ==> !EntryMatches(table, block, m, name, kind)
    decreases SLOTS - k
  {
    if k >= SLOTS then None
    else if EntryMatches(table, block, k, name, kind) then Some(k)
    else EntryFrom(table, block, name, kind, k + 1)
  }

  lemma EntryMatchesView(s: Fs, block: Block, k: nat, name: Name, kind: Kind)
    requires Base(s) && Terminated(block) && k < SLOTS
    ensures EntryMatches(s.inodes, block, k, name, kind) <==> Matches(View(s), SlotAt(block, k), name, kind)
  {
    var slot := SlotAt(block, k);
    if slot.Named? {
      NameAtIs(block, k);
      assert InodeUsed(s, slot.inode) ==> View(s)[slot.inode] == NodeAt(s, slot.inode);
    }
  }

  /** In a consistent state the inode table says what the node table says. */
  lemma EntryView(s: Fs, block: Block, name: Name, kind: Kind)
    requires Base(s) && Terminated(block)
    ensures EntryFrom(s.inodes, block, name, kind, 0) == FindFrom(View(s), Slots(block), name, kind, 0)
  {
    EntryViewFrom(s, block, name, kind, 0);
  }

  lemma {:induction false} EntryViewFrom(s: Fs, block: Block, name: Name, kind: Kind, k: nat)
    requires Base(s) && Terminated(block)
    ensures EntryFrom(s.inodes, block, name, kind, k) == FindFrom(View(s), Slots(block), name, kind, k)
    decreases SLOTS - k
  {
    hide EntryMatches, Matches, Base, View, Terminated;
    if k < SLOTS {
      EntryMatchesView(s, block, k, name, kind);
      EntryViewFrom(s, block, name, kind, k + 1);
    }
  }

  /** The names in a directory of a consistent state end inside their fields. */
  lemma DirTerminated(s: Fs, d: nat)
    requires Base(s) && WellFormed(View(s)) && IsDir(s, d)
    ensures Terminated(DataOf(s, d))
  {
    assert View(s)[d] == NodeAt(s, d);
    forall k | 0 <= k < SLOTS && SlotAt(DataOf(s, d), k).Named?
      ensures |SlotAt(DataOf(s, d), k).name| < NAME_SIZE
    {
      assert Names(View(s), d, k, SlotAt(DataOf(s, d), k).inode);
    }
  }

  /** What is read from the block of an inode of a consistent state. */
  lemma LoadedTerminated(s: Fs, i: nat)
    requires Base(s) && InodeUsed(s, i)
    ensures View(s)[i].Dir? && WellFormed(View(s)) ==> Terminated(DataOf(s, i))
  {
    if View(s)[i].Dir? && WellFormed(View(s)) {
      DirTerminated(s, i);
    }
  }

  // ----- what a disk holds -----

  /** The block of a used inode, if its number is one of a data block and its sector is on the disk. */
  function BlockOnDisk(disk: seq<Block>, super: Superblock, inode: Inode): Option<Block> {
    var lba := (super.dataLba + inode.block) % WORD;
    if inode.used == 0 || inode.block == 0 || inode.block >= super.blockCount || lba >= |disk| then None
    else Some(disk[lba])
  }

  /** The inode that directory `d` names so. */
  function LookupOnDisk(disk: seq<Block>, super: Superblock, table: seq<Inode>, d: nat, name: Name,
                        kind: Kind): (r: Option<nat>)
    requires d < |table|
    ensures r.Some? ==> r.value < |table|
  {
    match (if table[d].kind == INODE_DIR then BlockOnDisk(disk, super, table[d]) else None)
    case None => None
    case Some(block) =>
      match EntryFrom(table, block, name, kind, 0)
      case None => None
      case Some(k) => Some(SlotAt(block, k).inode)
  }

  /** There is a file `status` in a directory `sys` in the root, and its block begins with the flag. */
  predicate FlagInTable(disk: seq<Block>, super: Superblock, table: seq<Inode>)
    requires |table| == MAX_INODES
  {
    match LookupOnDisk(disk, super, table, 0, SYS, DirKind)
    case None => false
    case Some(d) =>
      match LookupOnDisk(disk, super, table, d, STATUS, FileKind)
      case None => false
      case Some(f) =>
        match BlockOnDisk(disk, super, table[f])
        case None => false
        case Some(block) => block[0] == 0xFF
  }

  /** The disk holds a formatted file system, as far as its own sectors tell. */
  predicate FlagOnDisk(disk: seq<Block>) {
    SUPER_LBA < |disk| && !BadSuper(disk) &&
    var super := DecodeSuper(disk[SUPER_LBA]);
    super.tableLba + TABLE_SECTORS <= |disk|
    && FlagInTable(disk, super, DecodeTable(ReadSectors(disk, super.tableLba, TABLE_SECTORS)))
  }

  // ----- the same on a consistent disk -----

  /** The status file is there and its block begins with the flag. */
  predicate StatusSet(s: Fs) {
    match SysFileAt(View(s), STATUS)
    case None => false
    case Some(f) => f < |s.inodes| && DATA_LBA + s.inodes[f].block < |s.disk| && DataOf(s, f)[0] == 0xFF
  }

  lemma BlockIs(s: Fs, i: nat)
    requires Base(s) && InodeUsed(s, i)
    ensures BlockOnDisk(s.disk, s.sb, s.inodes[i]) == Some(DataOf(s, i))
  {
  }

  lemma LookupOnDiskIs(s: Fs, d: nat, name: Name, kind: Kind)
    requires Base(s) && WellFormed(View(s)) && IsDir(s, d)
    ensures LookupOnDisk(s.disk, s.sb, s.inodes, d, name, kind) == Lookup(View(s), d, name, kind)
  {
    BlockIs(s, d);
    DirTerminated(s, d);
    EntryView(s, DataOf(s, d), name, kind);
    assert View(s)[d] == NodeAt(s, d);
  }

  /** What the sectors of a consistent file system tell is what its node table says. */
  lemma FlagOnDiskIff(s: Fs)
    requires Inv(s)
    ensures FlagOnDisk(s.disk) <==> StatusSet(s)
  {
    assert FlagOnDisk(s.disk) <==> FlagInTable(s.disk, s.sb, s.inodes);
    FlagInTableIff(s);
  }

  lemma FlagInTableIff(s: Fs)
    requires Base(s) && WellFormed(View(s))
    ensures FlagInTable(s.disk, s.sb, s.inodes) <==> StatusSet(s)
  {
    hide WellFormed;
    assert IsDir(s, 0) by { RootIsDir(s); }
    LookupOnDiskIs(s, 0, SYS, DirKind);
    var d := Lookup(View(s), 0, SYS, DirKind);
    if d.Some? {
      assert View(s)[d.value] == NodeAt(s, d.value);
      LookupOnDiskIs(s, d.value, STATUS, FileKind);
      var f := Lookup(View(s), d.value, STATUS, FileKind);
      if f.Some? {
        assert View(s)[f.value] == NodeAt(s, f.value);
        BlockIs(s, f.value);
      }
    }
  }

  lemma RootIsDir(s: Fs)
    requires Base(s) && WellFormed(View(s))
    ensures IsDir(s, 0)
  {
    assert View(s)[0] == NodeAt(s, 0);
  }
}

/** The file system itself: the superblock, bitmap and inode table it caches, changed in place,
    on an array of sectors that never fails. */
module FileSystem {
  import opened Basics
  import opened Bytes
  import opened DirBlock
  import opened Bitmap
  import opened Tree
  import opened TreeEdits
  import opened VolumeSpec
  import opened VolumeTheorems
  import opened VolumeRuns
  import opened Storage
  import opened StoredEdits
  import opened RawDisk
  import opened Sweep
  import opened Formatting
  import Fnv

  class FileSystem {
    var sb: Superblock
    var mounted: bool
    var lastError: FsError
    const bitmap: array<byte>
    const inodes: array<Inode>
    const disk: array<Block>

    /** The three buffers are distinct and have their fixed sizes. */
    ghost predicate Valid() {
      && bitmap.Length == 512 * BITMAP_SECTORS && inodes.Length == MAX_INODES
      && bitmap as object != inodes && bitmap as object != disk && inodes as object != disk
    }

    ghost function State(): Fs
      reads this, bitmap, inodes, disk
    {
      Fs(sb, bitmap[..], inodes[..], mounted, lastError, disk[..])
    }

    /** Mounted and consistent: memory, bitmap, directories and disk fit together. */
    ghost predicate Ready()
      reads this, bitmap, inodes, disk
    {
      Valid() && mounted && Inv(State())
    }

    /** What every call may rely on: nothing while unmounted, consistency once mounted. */
    ghost predicate Usable()
      reads this, bitmap, inodes, disk
    {
      Valid() && (mounted ==> Inv(State()))
    }

    ghost function Vol(): Volume
      reads this, bitmap, inodes, disk
    {
      VolumeOf(State())
    }

    /** A machine with this disk and unspecified memory contents. */
    constructor (device: array<Block>)
      ensures Valid() && disk == device && fresh(bitmap) && fresh(inodes) && !mounted
    {
      bitmap := new byte[512 * BITMAP_SECTORS];
      inodes := new Inode[MAX_INODES](_ => ZERO_INODE);
      disk := device;
      mounted := false;
      lastError := ErrNone;
      sb := Superblock(0, 0, 0, 0, 0, 0, 0, 0);
    }

    // ----- bitmap, inode table and sectors -----

    method MarkBlockUsed(b: nat)
      requires Valid() && b < MAX_BLOCKS
      modifies bitmap
      ensures State() == old(State()).(bitmap := Mark(old(State()).bitmap, b))
    {
      OrBitBound(bitmap[b / 8], b % 8, 8);
      bitmap[b / 8] := OrBit(bitmap[b / 8], b % 8);
    }

    method MarkBlockFree(b: nat)
      requires Valid() && b < MAX_BLOCKS
      modifies bitmap
      ensures State() == old(State()).(bitmap := Unmark(old(State()).bitmap, b))
    {
      bitmap[b / 8] := ClearBit(bitmap[b / 8], b % 8);
    }

    method SetInode(i: nat, inode: Inode)
      requires Valid() && i < MAX_INODES
      modifies inodes
      ensures State() == WithInode(old(State()), i, inode)
    {
      inodes[i] := inode;
    }

    method WriteBlock(b: nat, data: Block)
      requires Valid() && sb.dataLba == DATA_LBA && DATA_LBA + b < disk.Length
      modifies disk
      ensures State() == WithData(old(State()), b, data)
    {
      disk[sb.dataLba + b] := data;
    }

    /** Write `n` sectors one after the other. */
    method WriteRun(lba: nat, n: nat, bytes: seq<byte>)
      requires Valid() && lba + n <= disk.Length && |bytes| == 512 * n
      modifies disk
      ensures State() == old(State()).(disk := WriteSectors(old(State()).disk, lba, n, bytes))
    {
      ghost var before := disk[..];
      for s := 0 to n
        invariant forall l :: 0 <= l < disk.Length ==>
                    disk[l] == if lba <= l < lba + s then bytes[512 * (l - lba) .. 512 * (l - lba) + 512] else before[l]
      {
        disk[lba + s] := bytes[512 * s .. 512 * s + 512];
      }
      assert disk[..] == WriteSectors(before, lba, n, bytes);
    }

    /** Read `n` sectors one after the other. */
    method ReadRun(lba: nat, n: nat) returns (bytes: seq<byte>)
      requires lba + n <= disk.Length
      ensures bytes == ReadSectors(disk[..], lba, n)
    {
      bytes := [];
      for s := 0 to n
        invariant |bytes| == 512 * s
        invariant forall j :: 0 <= j < 512 * s ==> bytes[j] == disk[lba + j / 512][j % 512]
      {
        bytes := bytes + disk[lba + s];
      }
    }

    method Flush()
      requires Valid() && Geometry(State())
      modifies disk
      ensures State() == Flushed(old(State()))
    {
      WriteRun(sb.bitmapLba, BITMAP_SECTORS, bitmap[..]);
      WriteRun(sb.tableLba, TABLE_SECTORS, EncodeTable(inodes[..]));
    }

    /** The lowest free inode, or -1. */
    method AllocInode() returns (r: int)
      requires Valid()
      ensures r == match FreeNode(Vol()) case None => -1 case Some(i) => i
    {
      var limit: nat := sb.inodeCount;
      if limit == 0 || limit > MAX_INODES {
        limit := MAX_INODES;
      }
      assert FreeNode(Vol()) == FreeNodeFrom(View(State()), 1, limit);
      hide View, VolumeOf, FreeNode, FreeNodeFrom;
      var i := 1;
      while i < limit
        invariant 1 <= i && FreeNode(Vol()) == FreeNodeFrom(View(State()), i, limit)
      {
        FreeNodeStep(State(), i, limit);
        if inodes[i].used == 0 {
          return i;
        }
        i := i + 1;
      }
      FreeNodeStep(State(), i, limit);
      return -1;
    }

    /** The lowest free block, or -1 when the node table leaves no room for another node. */
    method AllocBlock() returns (r: int)
      requires Valid() && Base(State())
      ensures r >= 0 <==> HasFreeBlock(Vol())
      ensures r >= 0 ==> LowestFree(State(), r)
    {
      FreeBlockExists(State());
      var limit: int := sb.blockCount;
      if limit == 0 || limit > MAX_BLOCKS {
        limit := MAX_BLOCKS;
      }
      var i := 1;
      while i < limit
        invariant 1 <= i <= limit
        invariant forall b :: 1 <= b < i ==> Bit(bitmap[..], b)
      {
        if !BitOf(bitmap[i / 8], i % 8) {
          assert !Bit(State().bitmap, i);
          return i;
        }
        i := i + 1;
      }
      return -1;
    }

    // ----- directories -----

    /** The first slot of a directory block that names so an inode which is used and of this kind
        in the given table, or -1. */
    method FindDirEntry(name: Name, block: Block, table: seq<Inode>, kind: Kind) returns (r: int)
      ensures r == match EntryFrom(table, block, name, kind, 0) case None => -1 case Some(k) => k
    {
      var k := 0;
      while k < SLOTS
        invariant 0 <= k <= SLOTS
        invariant EntryFrom(table, block, name, kind, 0) == EntryFrom(table, block, name, kind, k)
      {
        if EntryMatches(table, block, k, name, kind) {
          return k;
        }
        k := k + 1;
      }
      return -1;
    }

    /** The same in the cached table, which says what the node table says. */
    method FindEntry(name: Name, block: Block, kind: Kind) returns (r: int)
      requires Valid() && Base(State()) && Terminated(block)
      ensures r == match FindFrom(View(State()), Slots(block), name, kind, 0) case None => -1 case Some(k) => k
    {
      EntryView(State(), block, name, kind);
      r := FindDirEntry(name, block, inodes[..], kind);
    }

    /** One pass over a directory block: the first matching slot, or -1, at which the pass stops,
        and the first empty slot seen until then, or -1. */
    method ScanDir(name: Name, block: Block, kind: Kind) returns (found: int, free: int)
      requires Valid() && Base(State()) && Terminated(block)
      ensures found == match FindFrom(View(State()), Slots(block), name, kind, 0) case None => -1 case Some(k) => k
      ensures found < 0 ==> free == match FirstEmptyFrom(Slots(block), 0) case None => -1 case Some(k) => k
    {
      hide EntryMatches, FindFrom;
      EntryView(State(), block, name, kind);
      free := -1;
      var k := 0;
      while k < SLOTS
        invariant 0 <= k <= SLOTS
        invariant EntryFrom(inodes[..], block, name, kind, 0) == EntryFrom(inodes[..], block, name, kind, k)
        invariant free < 0 ==> FirstEmptyFrom(Slots(block), 0) == FirstEmptyFrom(Slots(block), k)
        invariant free >= 0 ==> FirstEmptyFrom(Slots(block), 0) == Some(free)
        invariant free >= -1
      {
        if block[32 * k] != 0 {
          if EntryMatches(inodes[..], block, k, name, kind) {
            return k, free;
          }
        } else if free < 0 {
          free := k;
        }
        k := k + 1;
      }
      return -1, free;
    }

    /** The block of a used inode. */
    method LoadBlock(i: nat) returns (block: Block)
      requires Valid() && Base(State()) && InodeUsed(State(), i)
      ensures block == DataOf(State(), i)
      ensures View(State())[i].Dir? ==> View(State())[i].slots == Slots(block)
      ensures View(State())[i].Dir? && WellFormed(View(State())) ==> Terminated(block)
    {
      block := disk[sb.dataLba + inodes[i].block];
      LoadedTerminated(State(), i);
    }

    /** The inode of a directory named in the root, or -1. */
    method OpenDir(name: Name) returns (d: int)
      requires Valid() && Sound(State())
      ensures d == match Lookup(View(State()), 0, name, DirKind) case None => -1 case Some(i) => i
    {
      var block := LoadBlock(0);
      var k := FindEntry(name, block, DirKind);
      if k < 0 {
        return -1;
      }
      return SlotAt(block, k).inode;
    }

    /** The length of the part of a path before its first slash. */
    method FindSep(path: seq<byte>) returns (sep: nat)
      ensures sep == Sep(path)
    {
      sep := 0;
      while sep < |path| && path[sep] != SLASH
        invariant sep <= |path| && Sep(path) == sep + Sep(path[sep..])
      {
        sep := sep + 1;
      }
    }

    /** Claim the lowest free inode and the lowest free block for a new node, if both are there. */
    method Allocate(kind: byte, size: u32) returns (i: int, ghost b: nat)
      requires Valid() && Base(State()) && (kind == INODE_FILE || kind == INODE_DIR) && size <= BLOCK_SIZE
      modifies bitmap, inodes
      ensures i < 0 ==> State() == old(State()) && (FreeNode(old(Vol())).None? || !HasFreeBlock(old(Vol())))
      ensures i >= 0 ==> FreeNode(old(Vol())) == Some(i) && HasFreeBlock(old(Vol()))
      ensures i >= 0 ==> LowestFree(old(State()), b)
      ensures i >= 0 ==>
                Claimable(old(State()), i, b) && State() == Claimed(old(State()), i, b, Inode(1, kind, 1, size, b))
    {
      b := 0;
      i := AllocInode();
      if i < 0 {
        return;
      }
      var block := AllocBlock();
      if block < 0 {
        return -1, 0;
      }
      b := block;
      MarkBlockUsed(block);
      SetInode(i, Inode(1, kind, 1, size, block));
    }

    // ----- making directories -----

    /** The body shared by both ways to make a directory; they check inode, block and slot in
        different orders, before anything is changed. */
    method MakeDir(d: nat, name: Name) returns (ok: bool)
      requires Ready() && IsDir(State(), d) && NameOk(name) && IsCString(name)
      modifies bitmap, inodes, disk
      ensures Ready() && (ok, Vol()) == MkdirIn(old(Vol()), d, name)
      ensures !ok ==> State() == old(State())
    {
      var block := LoadBlock(d);
      var found, slot := ScanDir(name, block, DirKind);
      if found >= 0 || slot < 0 {
        return false;
      }
      ok := AddDir(d, block, slot, name);
    }

    /** Add a directory to another one, in this slot of its block. */
    method AddDir(d: nat, block: Block, slot: nat, name: Name) returns (ok: bool)
      requires Ready() && IsDir(State(), d) && NameOk(name) && IsCString(name) && block == DataOf(State(), d)
      requires FirstEmpty(View(State()), d) == Some(slot) && Lookup(View(State()), d, name, DirKind).None?
      modifies bitmap, inodes, disk
      ensures Ready() && (ok, Vol()) == MkdirIn(old(Vol()), d, name)
      ensures !ok ==> State() == old(State())
    {
      hide WellFormed, Synced, FindFrom, FirstEmptyFrom, FreeNodeFrom;
      ghost var s := State();
      var i, b := Allocate(INODE_DIR, 0);
      if i < 0 {
        return false;
      }
      NameDir(d, block, slot, i, name, s, b);
      ok := true;
    }

    /** Empty the block of a claimed directory, name it in its parent and flush. */
    method NameDir(d: nat, block: Block, slot: nat, i: nat, name: Name, ghost s: Fs, ghost b: nat)
      requires Valid() && Sound(s) && IsDir(s, d) && NameOk(name) && IsCString(name)
      requires block == DataOf(s, d) && FirstEmpty(View(s), d) == Some(slot) && Lookup(View(s), d, name, DirKind).None?
      requires Claimable(s, i, b) && FreeNode(VolumeOf(s)) == Some(i) && HasFreeBlock(VolumeOf(s))
      requires State() == Claimed(s, i, b, Inode(1, INODE_DIR, 1, 0, b))
      modifies disk
      ensures Inv(State()) && (true, Vol()) == MkdirIn(VolumeOf(s), d, name)
    {
      hide WellFormed, Synced, View, HasFreeBlock, FreeNode, FirstEmpty, Lookup, DecodeSuper;
      WriteBlock(inodes[i].block, ZERO_BLOCK);
      WriteBlock(inodes[d].block, WriteEntry(block, slot, i, name));
      assert State() == NewDir(s, d, slot, i, b, name);
      Flush();
      NewDirInv(s, d, slot, i, b, name);
    }

    method Mkdir(name: Name) returns (ok: bool)
      requires Usable() && IsCString(name)
      modifies bitmap, inodes, disk
      ensures !old(mounted) ==> !ok
      ensures old(mounted) ==> Ready()
      ensures old(mounted) ==> (ok, Vol()) == if NameOk(name) then MkdirIn(old(Vol()), 0, name) else (false, old(Vol()))
      ensures !ok ==> State() == old(State())
    {
      if !mounted {
        return false;
      }
      if name == [] || |name| >= NAME_SIZE {
        return false;
      }
      ok := MakeDir(0, name);
    }

    method MkdirPath(path: seq<byte>) returns (ok: bool)
      requires Usable() && IsCString(path)
      modifies bitmap, inodes, disk
      ensures !old(mounted) ==> !ok
      ensures old(mounted) ==> Ready() && (ok, Vol()) == MkdirSpec(old(Vol()), path)
      ensures !ok ==> State() == old(State())
    {
      hide WellFormed, Synced, Base, View, MkdirIn, Lookup;
      if !mounted {
        return false;
      }
      if path == [] {
        return false;
      }
      var sep := FindSep(path);
      if sep == |path| {
        ok := Mkdir(path);
        return;
      }
      var newdir := path[sep + 1..];
      if newdir == [] || SLASH in newdir || |newdir| >= NAME_SIZE {
        return false;
      }
      var d := OpenDir(path[..Min(sep, NAME_SIZE - 1)]);
      if d < 0 {
        return false;
      }
      ok := MakeDir(d, newdir);
    }

    // ----- creating, writing, copying and reading files -----

    method Create(name: Name) returns (ok: bool)
      requires Usable() && IsCString(name)
      modifies bitmap, inodes, disk
      ensures !old(mounted) ==> !ok
      ensures old(mounted) ==> Ready() && (ok, Vol()) == CreateSpec(old(Vol()), name)
      ensures !ok ==> State() == old(State())
    {
      if !mounted {
        return false;
      }
      if name == [] || |name| >= NAME_SIZE {
        return false;
      }
      var block := LoadBlock(0);
      var found, slot := ScanDir(name, block, FileKind);
      if found >= 0 || slot < 0 {
        return false;
      }
      ok := AddEmptyFile(block, slot, name);
    }

    /** Add an empty file to the root, in this slot of its block. */
    method AddEmptyFile(block: Block, slot: nat, name: Name) returns (ok: bool)
      requires Ready() && NameOk(name) && IsCString(name) && block == DataOf(State(), 0)
      requires FirstEmpty(View(State()), 0) == Some(slot) && Lookup(View(State()), 0, name, FileKind).None?
      modifies bitmap, inodes, disk
      ensures Ready() && (ok, Vol()) == PutFile(old(Vol()), 0, name, [])
      ensures !ok ==> State() == old(State())
    {
      hide WellFormed, Synced, FindFrom, FirstEmptyFrom, FreeNodeFrom;
      ghost var s := State();
      var i, b := Allocate(INODE_FILE, 0);
      if i < 0 {
        return false;
      }
      NameEmptyFile(block, slot, i, name, s, b);
      ok := true;
    }

    /** Name a claimed inode in the root and flush; nothing is written to its block. */
    method NameEmptyFile(block: Block, slot: nat, i: nat, name: Name, ghost s: Fs, ghost b: nat)
      requires Valid() && Sound(s) && NameOk(name) && IsCString(name)
      requires block == DataOf(s, 0) && FirstEmpty(View(s), 0) == Some(slot) && Lookup(View(s), 0, name, FileKind).None?
      requires Claimable(s, i, b) && FreeNode(VolumeOf(s)) == Some(i) && HasFreeBlock(VolumeOf(s))
      requires State() == Claimed(s, i, b, Inode(1, INODE_FILE, 1, 0, b))
      modifies disk
      ensures Inv(State()) && (true, Vol()) == PutFile(VolumeOf(s), 0, name, [])
    {
      hide WellFormed, Synced, Inv;
      assert IsDir(s, 0);
      NewFileUntouched(s, 0, slot, i, b, name);
      NewFileInv(s, 0, slot, i, b, name, 0, s.disk[DATA_LBA + b]);
      WriteBlock(inodes[0].block, WriteEntry(block, slot, i, name));
      assert State() == Linked(Claimed(s, i, b, Inode(1, INODE_FILE, 1, 0, b)), 0, slot, i, name);
      Flush();
    }

    /** The tail that writing and copying share: find the file in the directory or name a new
        one, record its size, write the directory block and then the block of the file. */
    method StoreFile(d: nat, name: Name, data: Block, size: u32) returns (ok: bool)
      requires Ready() && IsDir(State(), d) && name != [] && IsCString(name) && size <= BLOCK_SIZE
      modifies bitmap, inodes, disk
      ensures Valid() && (!ok ==> State() == old(State()))
      ensures Inv(State()) <==>
                !(Lookup(old(View(State())), d, name, FileKind).None? && HasRoom(old(Vol()), d) && |name| >= NAME_SIZE)
      ensures !Inv(State()) ==> ok && FileAdded(old(State()), State(), d, name, size, data)
      ensures Inv(State()) ==> (ok, Vol()) == PutFile(old(Vol()), d, name, data[..size])
    {
      var block := LoadBlock(d);
      var found, slot := ScanDir(name, block, FileKind);
      if found >= 0 {
        OverwriteFile(d, block, SlotAt(block, found).inode, name, data, size);
        ok := true;
      } else if slot >= 0 {
        ok := AddFile(d, block, slot, name, data, size);
      } else {
        ok := false;
      }
    }

    method OverwriteFile(d: nat, block: Block, f: nat, name: Name, data: Block, size: u32)
      requires Valid() && Sound(State()) && IsDir(State(), d) && size <= BLOCK_SIZE && block == DataOf(State(), d)
      requires Lookup(View(State()), d, name, FileKind) == Some(f)
      modifies inodes, disk
      ensures Inv(State()) && (true, Vol()) == PutFile(old(Vol()), d, name, data[..size])
    {
      hide WellFormed;
      ghost var s := State();
      SetInode(f, inodes[f].(size := size));
      RewriteSame(State(), d);
      WriteBlock(inodes[d].block, block);
      WriteBlock(inodes[f].block, data);
      assert State() == Overwritten(s, f, size, data);
      Flush();
      OverwrittenInv(s, d, f, name, size, data);
    }

    method AddFile(d: nat, block: Block, slot: nat, name: Name, data: Block, size: u32) returns (ok: bool)
      requires Ready() && IsDir(State(), d) && name != [] && IsCString(name) && size <= BLOCK_SIZE
      requires block == DataOf(State(), d) && FirstEmpty(View(State()), d) == Some(slot)
      requires Lookup(View(State()), d, name, FileKind).None?
      modifies bitmap, inodes, disk
      ensures Valid() && (!ok ==> State() == old(State())) && (ok <==> HasRoom(old(Vol()), d))
      ensures ok ==> FileAdded(old(State()), State(), d, name, size, data)
      ensures Inv(State()) <==> !(ok && |name| >= NAME_SIZE)
      ensures Inv(State()) ==> (ok, Vol()) == PutFile(old(Vol()), d, name, data[..size])
    {
      hide WellFormed, Synced;
      ghost var s := State();
      var target, b := Allocate(INODE_FILE, size);
      if target < 0 {
        return false;
      }
      NameFile(d, block, slot, target, name, data, size, s, b);
      ok := true;
    }

    /** Name a claimed inode in a directory, store its data and flush. */
    method NameFile(d: nat, block: Block, slot: nat, i: nat, name: Name, data: Block, size: u32, ghost s: Fs,
                    ghost b: nat)
      requires Valid() && Sound(s) && IsDir(s, d) && name != [] && IsCString(name) && size <= BLOCK_SIZE
      requires block == DataOf(s, d) && FirstEmpty(View(s), d) == Some(slot) && Lookup(View(s), d, name, FileKind).None?
      requires Claimable(s, i, b) && FreeNode(VolumeOf(s)) == Some(i) && HasFreeBlock(VolumeOf(s))
      requires State() == Claimed(s, i, b, Inode(1, INODE_FILE, 1, size, b))
      modifies disk
      ensures FileStored(s, State(), d, slot, i, b, name, size, data)
      ensures Inv(State()) <==> |name| < NAME_SIZE
      ensures Inv(State()) ==> (true, Vol()) == PutFile(VolumeOf(s), d, name, data[..size])
    {
      hide WellFormed, Synced, View, HasFreeBlock, FreeNode, FirstEmpty, Lookup, PutFile, DecodeSuper;
      WriteBlock(inodes[d].block, WriteEntry(block, slot, i, name));
      WriteBlock(inodes[i].block, data);
      assert State() == NewFile(s, d, slot, i, b, name, size, data);
      Flush();
      NewFileInv(s, d, slot, i, b, name, size, data);
    }

    /** The directory and the name that a path denotes; a negative inode when it denotes nothing. */
    method Resolve(path: seq<byte>) returns (d: int, name: Name)
      requires Ready()
      ensures d < 0 <==> Locate(View(State()), path).None?
      ensures d >= 0 ==> Locate(View(State()), path) == Some(Place(d, name)) && IsDir(State(), d) && name != []
      ensures IsCString(path) ==> IsCString(name)
    {
      if path == [] {
        return -1, [];
      }
      var sep := FindSep(path);
      if sep == |path| {
        return 0, path;
      }
      name := path[sep + 1..];
      if name == [] {
        return -1, name;
      }
      d := OpenDir(path[..Min(sep, NAME_SIZE - 1)]);
    }

    /** Writing to a path keeps the file system consistent if and only if it does not create a
        file under an overlong name. */
    method WritePath(path: seq<byte>, data: seq<byte>) returns (ok: bool)
      requires Usable() && IsCString(path)
      modifies bitmap, inodes, disk
      ensures Valid() && (!ok ==> State() == old(State()))
      ensures !old(mounted) ==> !ok
      ensures old(mounted) ==> (Inv(State()) <==> !WriteOverflows(old(Vol()), path))
      ensures old(mounted) && Inv(State()) ==> (ok, Vol()) == WriteSpec(old(Vol()), path, data)
      ensures old(mounted) && !Inv(State()) ==>
                ok && FileAdded(old(State()), State(), Locate(old(View(State())), path).value.dir, FilePart(path),
                                |Clip(data)|, Poke(ZERO_BLOCK, 0, Clip(data)))
    {
      hide WellFormed, Synced, PutFile, Base, DecodeSuper;
      if !mounted {
        return false;
      }
      var d, name := Resolve(path);
      if d < 0 {
        return false;
      }
      var sep := FindSep(path);
      if sep == |path| && |path| >= NAME_SIZE {
        return false;
      }
      ImproperIsNew(View(State()), d, name, FileKind);
      var len := Min(|data|, BLOCK_SIZE);
      var block := Poke(ZERO_BLOCK, 0, data[..len]);
      assert block[..len] == Clip(data);
      ok := StoreFile(d, name, block, len);
    }

    method ReadPath(path: seq<byte>, maxlen: u32) returns (ok: bool, out: seq<byte>)
      requires Usable()
      ensures (if ok then Some(out) else None) == if mounted then ReadSpec(View(State()), path, maxlen) else None
    {
      if !mounted {
        return false, [];
      }
      var f := FindFile(path);
      if f < 0 {
        return false, [];
      }
      ok, out := ReadFile(f, maxlen);
    }

    /** The first bytes of a file, as many as it has and the caller has room for. */
    method ReadFile(f: nat, maxlen: u32) returns (ok: bool, out: seq<byte>)
      requires Valid() && Sound(State()) && IsFile(State(), f)
      ensures ok && out == View(State())[f].content[..Min(|View(State())[f].content|, maxlen)]
    {
      var block := LoadBlock(f);
      var size := Min(inodes[f].size, maxlen);
      assert View(State())[f].content == block[..inodes[f].size];
      return true, block[..size];
    }

    /** Copying a file; the destination may be a directory to copy into. */
    method CopyPath(src: seq<byte>, dst: seq<byte>) returns (ok: bool)
      requires Usable() && IsCString(src) && IsCString(dst)
      modifies bitmap, inodes, disk
      ensures !old(mounted) ==> !ok
      ensures old(mounted) ==> Ready() && (ok, Vol()) == CopySpec(old(Vol()), src, dst)
      ensures !ok ==> State() == old(State())
    {
      hide WellFormed, Synced, PutFile, DecodeSuper, FileAt, CopyTarget, HasRoom;
      if !mounted {
        return false;
      }
      if src == [] || dst == [] {
        return false;
      }
      var f := FindFile(src);
      if f < 0 {
        return false;
      }
      var data := LoadBlock(f);
      var size := inodes[f].size;
      assert View(State())[f] == File(data[..size]);
      var d, name := FindCopyTarget(src, dst);
      if d < 0 || name == [] || |name| >= NAME_SIZE {
        return false;
      }
      ok := StoreFile(d, name, data, size);
    }

    /** The inode of the file a path leads to, or -1. */
    method FindFile(path: seq<byte>) returns (f: int)
      requires Ready()
      ensures f == match FileAt(View(State()), path) case None => -1 case Some(i) => i
    {
      var d, name := Resolve(path);
      if d < 0 {
        return -1;
      }
      var block := LoadBlock(d);
      var k := FindEntry(name, block, FileKind);
      if k < 0 {
        return -1;
      }
      return SlotAt(block, k).inode;
    }

    method FindCopyTarget(src: seq<byte>, dst: seq<byte>) returns (d: int, name: Name)
      requires Ready() && IsCString(src) && IsCString(dst) && dst != []
      ensures d < 0 <==> CopyTarget(View(State()), src, dst).None?
      ensures d >= 0 ==>
                CopyTarget(View(State()), src, dst) == Some(Place(d, name)) && IsDir(State(), d) && IsCString(name)
    {
      name := dst;
      var sep := FindSep(dst);
      if sep < |dst| {
        d, name := Resolve(dst);
        return;
      }
      d := OpenDir(dst);
      if d >= 0 {
        var s := FindSep(src);
        name := if s < |src| then src[s + 1..] else src;
      } else {
        d := 0;
      }
    }

    // ----- renaming -----

    /** The directory, slot and kind of the entry a rename starts from, or a negative inode. */
    method FindRenameSource(src: seq<byte>) returns (d: int, k: int, kind: Kind, name: Name)
      requires Ready() && IsCString(src)
      ensures IsCString(name)
      ensures d >= 0 ==> RenameSource(View(State()), src) == Some(Place(d, name)) && k >= 0
                         && RenameEntryOf(View(State()), d, name) == Some((k, kind)) && IsDir(State(), d)
      ensures d < 0 ==> RenameSource(View(State()), src).None?
                        || RenameEntryOf(View(State()), RenameSource(View(State()), src).value.dir,
                                         RenameSource(View(State()), src).value.name).None?
    {
      k, kind, name := -1, FileKind, [];
      var sep := FindSep(src);
      if sep < |src| && sep == 0 {
        return -1, -1, FileKind, [];
      }
      d, name := Resolve(src);
      if d < 0 || |name| >= NAME_SIZE {
        return -1, -1, FileKind, name;
      }
      var block := LoadBlock(d);
      k, kind := FindEither(d, name, block);
      if k < 0 {
        d := -1;
      }
    }

    /** The entry of this name, for a file if there is one and else for a directory. */
    method FindEither(d: nat, name: Name, block: Block) returns (k: int, kind: Kind)
      requires Valid() && Base(State()) && IsDir(State(), d) && View(State())[d].slots == Slots(block)
               && Terminated(block)
      ensures RenameEntryOf(View(State()), d, name) == if k < 0 then None else Some((k, kind))
    {
      kind := FileKind;
      k := FindEntry(name, block, FileKind);
      if k < 0 {
        k := FindEntry(name, block, DirKind);
        kind := DirKind;
      }
    }

    /** The directory and the name a rename leads to, and whether it leads into a directory. */
    method FindRenameTarget(srcName: Name, dst: seq<byte>) returns (d: int, name: Name, inside: bool)
      requires Ready() && IsCString(srcName) && IsCString(dst)
      ensures d < 0 <==> RenameTarget(View(State()), srcName, dst).None?
      ensures d >= 0 ==>
                RenameTarget(View(State()), srcName, dst) == Some((Place(d, name), inside)) && IsDir(State(), d)
      ensures IsCString(name)
    {
      d, name, inside := -1, dst, false;
      if dst == [] {
        return;
      }
      var sep := FindSep(dst);
      if sep < |dst| {
        if sep == 0 {
          return;
        }
        d := OpenDir(dst[..Min(sep, NAME_SIZE - 1)]);
        name := dst[sep + 1..];
        if name == [] {
          name, inside := srcName, true;
        }
      } else {
        d := OpenDir(dst);
        if d >= 0 {
          name, inside := srcName, true;
        } else {
          d := 0;
        }
      }
    }

    /** The first empty slot of a directory block, or -1. */
    method FreeSlot(block: Block) returns (k: int)
      ensures k == match FirstEmptyFrom(Slots(block), 0) case None => -1 case Some(m) => m
    {
      k := 0;
      while k < SLOTS
        invariant 0 <= k <= SLOTS
        invariant FirstEmptyFrom(Slots(block), 0) == FirstEmptyFrom(Slots(block), k)
      {
        if SlotAt(block, k).Empty? {
          return;
        }
        k := k + 1;
      }
      k := -1;
    }

    /** Resolve both paths of a rename: the entry it starts from and where it leads, if it does. */
    method FindPlan(src: seq<byte>, dst: seq<byte>)
      returns (found: bool, sd: int, sk: int, kind: Kind, srcName: Name, dd: int, name: Name, inside: bool)
      requires Ready() && IsCString(src) && IsCString(dst)
      ensures found <==> PlanRename(View(State()), src, dst).Some?
      ensures found ==>
                && IsDir(State(), sd) && IsDir(State(), dd) && 0 <= sk < SLOTS && |name| < NAME_SIZE && IsCString(name)
                && Matches(View(State()), View(State())[sd].slots[sk], srcName, kind)
                && PlanRename(View(State()), src, dst)
                   == Some(Plan(sd, sk, View(State())[sd].slots[sk].inode, kind, dd, name, inside))
    {
      hide WellFormed, Synced, DecodeSuper, FindFrom;
      dd, name, inside := -1, [], false;
      sd, sk, kind, srcName := FindRenameSource(src);
      if sd < 0 {
        found := false;
        return;
      }
      dd, name, inside := FindRenameTarget(srcName, dst);
      found := dd >= 0 && |name| < NAME_SIZE;
    }

    /** A rename always does what its specification says; it keeps the file system consistent if
        and only if it does not move a directory into itself. */
    method Rename(src: seq<byte>, dst: seq<byte>) returns (ok: bool)
      requires Usable() && IsCString(src) && IsCString(dst)
      modifies disk
      ensures !old(mounted) ==> !ok
      ensures Valid() && (old(mounted) ==> (ok, Vol()) == RenameSpec(old(Vol()), src, dst))
      ensures old(mounted) ==> (Inv(State()) <==> !MovesIntoItself(old(View(State())), src, dst))
      ensures !ok ==> State() == old(State())
    {
      hide WellFormed, View, PlanRename, Perform, MovesIntoItself;
      if !mounted || src == [] || dst == [] {
        EmptyPaths(Vol(), src, dst);
        return false;
      }
      RenameKeepsTreeIff(Vol(), src, dst);
      var found, sd, sk, kind, srcName, dd, name, inside := FindPlan(src, dst);
      if !found {
        return false;
      }
      ok := CarryOut(sd, sk, kind, srcName, dd, name, inside);
    }

    /** What a rename does once its plan is made. */
    method CarryOut(sd: nat, sk: nat, kind: Kind, srcName: Name, dd: nat, name: Name, inside: bool) returns (ok: bool)
      requires Ready() && IsDir(State(), sd) && IsDir(State(), dd) && sk < SLOTS && |name| < NAME_SIZE
               && IsCString(name)
      requires Matches(View(State()), View(State())[sd].slots[sk], srcName, kind)
      modifies disk
      ensures Valid()
      ensures var v := old(View(State()));
              (ok, Vol()) == Perform(old(Vol()), Plan(sd, sk, v[sd].slots[sk].inode, kind, dd, name, inside))
      ensures Inv(State()) <==> WellFormed(View(State()))
      ensures !ok ==> State() == old(State())
    {
      hide WellFormed, Synced, DecodeSuper;
      ghost var s := State();
      var srcBlock := LoadBlock(sd);
      var i := SlotAt(srcBlock, sk).inode;
      if inside && kind == DirKind && dd == i {
        return true;
      }
      var dstBlock := LoadBlock(dd);
      if dd == sd && name == srcName {
        return true;
      }
      ok := PlaceEntry(sd, sk, i, kind, srcBlock, dd, dstBlock, name);
    }

    /** If the name is free: relabel the entry, or take it to another directory with an empty slot. */
    method PlaceEntry(sd: nat, sk: nat, i: byte, kind: Kind, srcBlock: Block, dd: nat, dstBlock: Block, name: Name)
      returns (ok: bool)
      requires Ready() && Names(View(State()), sd, sk, i) && IsDir(State(), dd) && |name| < NAME_SIZE && IsCString(name)
      requires srcBlock == DataOf(State(), sd) && dstBlock == DataOf(State(), dd) && Terminated(dstBlock)
      modifies disk
      ensures Valid()
      ensures var v := old(View(State()));
              if Find(v, dd, name, kind).Some? then !ok
              else if dd == sd then ok && Vol() == old(Vol()).(nodes := SetSlot(v, sd, sk, Named(i, name)))
              else if FirstEmpty(v, dd).None? then !ok
              else ok && Vol() == old(Vol()).(nodes := MoveEntry(v, sd, sk, dd, FirstEmpty(v, dd).value, name))
      ensures Inv(State()) <==> WellFormed(View(State()))
      ensures !ok ==> State() == old(State())
    {
      hide WellFormed, Synced, DecodeSuper, FirstEmptyFrom;
      assert View(State())[dd] == NodeAt(State(), dd);
      var there := FindEntry(name, dstBlock, kind);
      if there >= 0 {
        return false;
      }
      if dd == sd {
        Relabel(sd, sk, i, srcBlock, name);
        return true;
      }
      var dk := FreeSlot(dstBlock);
      if dk < 0 {
        return false;
      }
      MoveTo(sd, sk, i, srcBlock, dd, dk, dstBlock, name);
      return true;
    }

    /** Give an entry another name where it is. */
    method Relabel(d: nat, k: nat, i: nat, block: Block, name: Name)
      requires Ready() && Names(View(State()), d, k, i) && block == DataOf(State(), d) && |name| < NAME_SIZE
               && IsCString(name)
      modifies disk
      ensures Vol() == old(Vol()).(nodes := SetSlot(old(View(State())), d, k, Named(i, name)))
      ensures Inv(State()) <==> WellFormed(View(State()))
    {
      hide WellFormed, Synced;
      ghost var s := State();
      WriteBlock(inodes[d].block, RenameEntry(block, k, name));
      RelabelledInv(s, d, k, i, name);
    }

    /** Take an entry from one directory to another; the two blocks are written one after the other. */
    method MoveTo(sd: nat, sk: nat, i: byte, srcBlock: Block, dd: nat, dk: nat, dstBlock: Block, name: Name)
      requires Ready() && Names(View(State()), sd, sk, i) && sd != dd && EmptySlot(View(State()), dd, dk)
      requires srcBlock == DataOf(State(), sd) && dstBlock == DataOf(State(), dd) && |name| < NAME_SIZE
               && IsCString(name)
      modifies disk
      ensures Vol() == old(Vol()).(nodes := MoveEntry(old(View(State())), sd, sk, dd, dk, name))
      ensures Inv(State()) <==> WellFormed(View(State()))
    {
      hide WellFormed, Synced;
      ghost var s := State();
      WriteBlock(inodes[sd].block, ClearEntry(srcBlock, sk));
      WriteBlock(inodes[dd].block, WriteEntry(dstBlock, dk, i, name));
      MovedInv(s, sd, sk, dd, dk, i, name);
    }

    // ----- removing -----

    /** Free the block of a node, overwriting it with zeros, and then its inode. */
    method ReleaseNode(i: nat)
      requires Valid() && Geometry(State()) && i < MAX_INODES && 1 <= inodes[i].block < sb.blockCount
      modifies bitmap, inodes, disk
      ensures State() == TopFreed(old(State()), i)
    {
      var b := inodes[i].block;
      if b != 0 && b < sb.blockCount {
        MarkBlockFree(b);
        WriteBlock(b, ZERO_BLOCK);
      }
      SetInode(i, ZERO_INODE);
    }

    /** Remove everything below directory `d`, however deep it is nested. The state `s0` is the
        well-formed one in which the removal started. */
    method RemoveDirContents(d: nat, ghost s0: Fs)
      requires Valid() && Base(s0) && WellFormed(View(s0)) && 0 < d && IsDir(s0, d)
      requires Agrees(s0, State(), Subtree(View(s0), d))
      modifies bitmap, inodes, disk
      ensures Swept(s0, old(State()), State(), Subtree(View(s0), d) - {d}, s0.inodes[d].block)
      decreases Subtree(View(s0), d), 2
    {
      ghost var s := State();
      ClearingStarts(s0, s, d);
      var block := disk[sb.dataLba + inodes[d].block];
      assert block == DataOf(s, d);
      block := ClearSlots(d, block, s0, s);
      ClearingEnds(s0, s, State(), d, block);
      WriteBlock(inodes[d].block, block);
    }

    /** The loop over the slots of the directory's block. */
    method ClearSlots(d: nat, block: Block, ghost s0: Fs, ghost s: Fs) returns (r: Block)
      requires Valid() && Base(s0) && WellFormed(View(s0))
      requires Agrees(s0, s, Subtree(View(s0), d)) && Clearing(s0, s, State(), d, 0, block)
      modifies bitmap, inodes, disk
      ensures Clearing(s0, s, State(), d, SLOTS, r)
      decreases Subtree(View(s0), d), 1
    {
      hide Clearing;
      r := block;
      var k := 0;
      while k < SLOTS
        invariant 0 <= k <= SLOTS
        invariant Clearing(s0, s, State(), d, k, r)
      {
        r := ClearSlot(d, k, r, s0, s);
        k := k + 1;
      }
    }

    /** One round of that loop: remove what slot `k` leads to and clear its entry. */
    method ClearSlot(d: nat, k: nat, block: Block, ghost s0: Fs, ghost s: Fs) returns (r: Block)
      requires Valid() && Base(s0) && WellFormed(View(s0)) && k < SLOTS
      requires Agrees(s0, s, Subtree(View(s0), d)) && Clearing(s0, s, State(), d, k, block)
      modifies bitmap, inodes, disk
      ensures Clearing(s0, s, State(), d, k + 1, r)
      decreases Subtree(View(s0), d), 0
    {
      r := block;
      ghost var t := State();
      if SlotAt(block, k).Named? {
        ClearingMeets(s0, s, t, d, k, block);
        RemoveNode(SlotAt(block, k).inode, s0);
        ClearingStep(s0, s, t, State(), d, k, block);
        r := Emptied(block, k);
      } else {
        ClearingSkips(s0, s, t, d, k, block);
      }
    }

    /** Remove a node with everything below it. */
    method RemoveNode(c: nat, ghost s0: Fs)
      requires Valid() && Base(s0) && WellFormed(View(s0)) && Used(View(s0), c) && c != 0
      requires Agrees(s0, State(), Subtree(View(s0), c))
      modifies bitmap, inodes, disk
      ensures Swept(s0, old(State()), State(), Subtree(View(s0), c), NO_SCRAP)
      decreases Subtree(View(s0), c), 3
    {
      hide WellFormed, Slots;
      ghost var s, all := State(), Subtree(View(s0), c);
      SubtreeUsed(s0, c);
      if inodes[c].kind == INODE_DIR {
        RemoveDirContents(c, s0);
      } else {
        FileSubtree(View(s0), c);
        assert all - {c} == {};
      }
      SweepTop(s0, s, State(), all - {c}, c, all);
      ReleaseNode(c);
    }

    /** Remove the file of this name from a directory. */
    method RemoveEntryFromDir(d: nat, name: Name) returns (ok: bool)
      requires Ready() && IsDir(State(), d)
      modifies bitmap, inodes, disk
      ensures Ready() && Vol() == old(Vol()).(nodes := Vol().nodes)
      ensures ok <==> Find(old(View(State())), d, name, FileKind).Some?
      ensures !ok ==> State() == old(State())
      ensures ok ==> var v := old(View(State())); var k := Find(v, d, name, FileKind).value;
                     Vol().nodes == Prune(v, d, k, {v[d].slots[k].inode})
      ensures FreedAreZero(old(State()), State())
    {
      hide DecodeSuper, WellFormed;
      ghost var s := State();
      var block := LoadBlock(d);
      var k := FindEntry(name, block, FileKind);
      if k < 0 {
        return false;
      }
      var f := SlotAt(block, k).inode;
      ReleaseNode(f);
      WriteBlock(inodes[d].block, ClearEntry(block, k));
      assert State() == FileRemoved(s, d, k, f);
      Flush();
      FileRemovedInv(s, d, k, f);
      FileRemovedZero(s, d, k, f);
      ok := true;
    }

    method RemovePath(path: seq<byte>) returns (ok: bool)
      requires Usable()
      modifies bitmap, inodes, disk
      ensures !old(mounted) ==> !ok
      ensures old(mounted) ==> Ready() && (ok, Vol()) == RemoveSpec(old(Vol()), path)
      ensures !ok ==> State() == old(State())
      ensures FreedAreZero(old(State()), State())
    {
      hide WellFormed, Synced, View, Lookup, Prune;
      if !mounted {
        return false;
      }
      var d, name := Resolve(path);
      if d < 0 {
        return false;
      }
      var sep := FindSep(path);
      if sep == |path| && |path| >= NAME_SIZE {
        return false;
      }
      ok := RemoveEntryFromDir(d, name);
    }

    /** Remove the directory of this name, or else the file, with everything below it. The block
        of the directory it stands in is read before the removal and written after it. */
    method RemoveEntryFromDirRecursive(d: nat, name: Name) returns (ok: bool)
      requires Ready() && IsDir(State(), d)
      modifies bitmap, inodes, disk
      ensures Ready() && Vol() == old(Vol()).(nodes := Vol().nodes)
      ensures ok <==> Lookup(old(View(State())), d, name, DirKind).Some?
                      || Lookup(old(View(State())), d, name, FileKind).Some?
      ensures !ok ==> State() == old(State())
      ensures ok ==> var v := old(View(State()));
                     DoomedSlot(v, d, name).Some? && var k := DoomedSlot(v, d, name).value;
                     Vol().nodes == Prune(v, d, k, Subtree(v, v[d].slots[k].inode))
      ensures FreedAreZero(old(State()), State())
    {
      hide WellFormed, Synced, DecodeSuper;
      var block := LoadBlock(d);
      var k := FindDoomed(d, name, block);
      if k < 0 {
        return false;
      }
      RemoveAt(d, k, SlotAt(block, k).inode, block);
      ok := true;
    }

    /** The slot of the directory of this name, or else of the file, or -1. */
    method FindDoomed(d: nat, name: Name, block: Block) returns (k: int)
      requires Valid() && Base(State()) && IsDir(State(), d) && View(State())[d].slots == Slots(block)
               && Terminated(block)
      ensures DoomedSlot(View(State()), d, name) == if k < 0 then None else Some(k)
    {
      k := FindEntry(name, block, DirKind);
      if k < 0 {
        k := FindEntry(name, block, FileKind);
      }
    }

    /** Remove inode `i`, which slot `k` of a directory names, then the entry, and flush. */
    method RemoveAt(d: nat, k: nat, i: nat, block: Block)
      requires Ready() && Names(View(State()), d, k, i) && block == DataOf(State(), d)
      modifies bitmap, inodes, disk
      ensures Ready() && Vol() == old(Vol()).(nodes := Prune(old(View(State())), d, k, Subtree(old(View(State())), i)))
      ensures FreedAreZero(old(State()), State())
    {
      hide DecodeSuper, Synced;
      ghost var s := State();
      RemoveNode(i, s);
      ghost var t := State();
      SweptInv(s, t, d, k, i);
      WriteBlock(inodes[d].block, ClearEntry(block, k));
      assert State() == Unlinked(t, d, k);
      Flush();
      SweptZero(s, t, d, k, i);
    }

    method RemovePathRecursive(path: seq<byte>) returns (ok: bool)
      requires Usable()
      modifies bitmap, inodes, disk
      ensures !old(mounted) ==> !ok
      ensures old(mounted) ==> Ready() && (ok, Vol()) == RemoveTreeSpec(old(Vol()), path)
      ensures !ok ==> State() == old(State())
      ensures FreedAreZero(old(State()), State())
    {
      if !mounted {
        return false;
      }
      var d, name := Resolve(path);
      if d < 0 {
        return false;
      }
      ok := RemoveEntryFromDirRecursive(d, name);
    }

    // ----- the files of the system directory -----

    /** The first half of a system write: find the `sys` directory in the root or make it. An
        inode that was claimed before the root turned out to be full stays claimed; a directory
        that is made is not flushed yet. */
    method EnsureSys() returns (d: int)
      requires Valid() && Inv(State())
      modifies bitmap, inodes, disk
      ensures Valid() && SysEnsured(old(State()), State(), d)
    {
      hide DecodeSuper, FindFrom, FirstEmptyFrom;
      ghost var s := State();
      var block := LoadBlock(0);
      var found := FindEntry(SYS, block, DirKind);
      if found >= 0 {
        d := SlotAt(block, found).inode;
        RewriteSame(State(), 0);
        WriteBlock(inodes[0].block, block);
        return;
      }
      d := MakeSys(block);
    }

    /** Claim an inode for `sys` and then look for a slot in the root's block to name it in. */
    method MakeSys(block: Block) returns (d: int)
      requires Valid() && Inv(State()) && block == DataOf(State(), 0) && Lookup(View(State()), 0, SYS, DirKind).None?
      modifies bitmap, inodes, disk
      ensures Valid() && SysEnsured(old(State()), State(), d)
    {
      hide WellFormed, Synced, DecodeSuper, FindFrom, FirstEmptyFrom, Leaked, SysUnflushed;
      ghost var s := State();
      assert IsDir(s, 0) by { RootIsDir(s); }
      ghost var b;
      d, b := Allocate(INODE_DIR, 0);
      if d < 0 {
        return;
      }
      var slot := FreeSlot(block);
      if slot < 0 {
        ClaimIsLeak(s, State(), d, b, INODE_DIR, 0);
        return -1;
      }
      WriteBlock(inodes[d].block, ZERO_BLOCK);
      WriteBlock(inodes[0].block, WriteEntry(block, slot, d, SYS));
      assert State() == NewDir(s, 0, slot, d, b, SYS);
      IsSysUnflushed(s, State(), slot, d, b);
    }

    /** The second half: find the file in that directory or name a new one, and store the data.
        Here too an inode is claimed before the slot for it is looked for. */
    method StoreSysFile(d: nat, filename: Name, data: Block, size: u32) returns (ok: bool)
      requires Valid() && Sound(State()) && IsDir(State(), d) && NameOk(filename) && IsCString(filename)
               && size <= BLOCK_SIZE
      modifies bitmap, inodes, disk
      ensures Valid() && SysStored(old(State()), State(), d, filename, data[..size], ok)
    {
      ghost var s := State();
      var block := LoadBlock(d);
      var found := FindEntry(filename, block, FileKind);
      if found >= 0 {
        OverwriteFile(d, block, SlotAt(block, found).inode, filename, data, size);
        return true;
      }
      ok := AddSysFile(d, block, filename, data, size);
    }

    method AddSysFile(d: nat, block: Block, filename: Name, data: Block, size: u32) returns (ok: bool)
      requires Valid() && Sound(State()) && IsDir(State(), d) && NameOk(filename) && IsCString(filename)
               && size <= BLOCK_SIZE
      requires block == DataOf(State(), d) && Lookup(View(State()), d, filename, FileKind).None?
      modifies bitmap, inodes, disk
      ensures Valid() && SysStored(old(State()), State(), d, filename, data[..size], ok)
    {
      hide WellFormed, Synced, Leaked, DecodeSuper, FindFrom, FirstEmptyFrom, FreeNodeFrom, Inv;
      ghost var s := State();
      var i, b := Allocate(INODE_FILE, size);
      if i < 0 {
        return false;
      }
      var slot := FreeSlot(block);
      if slot < 0 {
        ClaimIsLeak(s, State(), i, b, INODE_FILE, size);
        return false;
      }
      NameFile(d, block, slot, i, filename, data, size, s, b);
      ok := true;
    }

    /** Writing a system file does what it should, and leaves nothing half done, if and only if it
        does not run out of slots, inodes or blocks on the way. */
    method WriteSysFile(filename: Name, data: seq<byte>) returns (ok: bool)
      requires Valid() && Inv(State()) && NameOk(filename) && IsCString(filename) && |data| <= BLOCK_SIZE
      modifies bitmap, inodes, disk
      ensures Valid() && (Inv(State()) <==> SysWriteSafe(old(Vol()), filename))
      ensures ok == SysWriteSpec(old(Vol()), filename, data).0 && (ok ==> Inv(State()))
      ensures Inv(State()) ==> (ok, Vol()) == SysWriteSpec(old(Vol()), filename, data)
      ensures !Inv(State()) ==> SysWriteLeaves(old(State()), State(), |data|)
      ensures Inv(State()) && !ok ==> State() == old(State())
    {
      hide Inv, Sound, SysEnsured, SysStored, SysWriteLeaves;
      ghost var s := State();
      var d := EnsureSys();
      ghost var t := State();
      if d < 0 {
        SysWriteOutcome(s, t, t, d, filename, data, false);
        return false;
      }
      SysEnsuredSound(s, t, d);
      var block := Poke(ZERO_BLOCK, 0, data);
      assert block[..|data|] == data;
      ok := StoreSysFile(d, filename, block, |data|);
      SysWriteOutcome(s, t, State(), d, filename, data, ok);
    }

    /** Reading a system file. */
    method ReadSysFile(filename: Name, maxlen: u32) returns (ok: bool, out: seq<byte>)
      requires Usable()
      ensures (if ok then Some(out) else None) == if mounted then SysReadSpec(View(State()), filename, maxlen) else None
    {
      if !mounted {
        return false, [];
      }
      var d := OpenDir(SYS);
      if d < 0 {
        return false, [];
      }
      var block := LoadBlock(d);
      var k := FindEntry(filename, block, FileKind);
      if k < 0 {
        return false, [];
      }
      ok, out := ReadFile(SlotAt(block, k).inode, maxlen);
    }

    method WritePasswd(hash: u32) returns (ok: bool)
      requires Valid() && Inv(State())
      modifies bitmap, inodes, disk
      ensures Valid() && (Inv(State()) <==> SysWriteSafe(old(Vol()), PASSWD))
      ensures ok == SysWriteSpec(old(Vol()), PASSWD, Put32(hash)).0 && (ok ==> Inv(State()))
      ensures Inv(State()) ==> (ok, Vol()) == SysWriteSpec(old(Vol()), PASSWD, Put32(hash))
      ensures !Inv(State()) ==> SysWriteLeaves(old(State()), State(), 4)
      ensures Inv(State()) && !ok ==> State() == old(State())
    {
      hide Inv, Base, View, SysWriteSpec, SysWriteSafe;
      ok := WriteSysFile(PASSWD, Put32(hash));
    }

    method ReadPasswd() returns (ok: bool, hash: u32)
      requires Usable()
      ensures (if ok then Some(hash) else None) == if mounted then PasswdSpec(View(State())) else None
    {
      hash := 0;
      var bytes;
      ok, bytes := ReadSysFile(PASSWD, 4);
      if !ok || |bytes| < 4 {
        return false, 0;
      }
      return true, Get32(bytes);
    }

    // ----- formatting, mounting, usage -----

    /** Give the root its block, the lowest free one, emptied; a root that has one keeps it. */
    method EnsureRootDirBlock() returns (ok: bool, ghost b: nat)
      requires Valid() && Geometry(State())
      modifies bitmap, inodes, disk
      ensures old(inodes[0].block) != 0 ==> ok && State() == old(State())
      ensures !ok ==> State() == old(State())
      ensures old(inodes[0].block) == 0 ==>
                (ok <==> exists c: nat :: 1 <= c < sb.blockCount && !Bit(old(State()).bitmap, c))
      ensures old(inodes[0].block) == 0 && ok ==>
                LowestFree(old(State()), b)
                && State() == Flushed(WithData(Claimed(old(State()), 0, b, old(inodes[0]).(block := b)), b, ZERO_BLOCK))
    {
      b := 0;
      if inodes[0].block != 0 {
        return true, 0;
      }
      var limit: int := sb.blockCount;
      if limit == 0 || limit > MAX_BLOCKS {
        limit := MAX_BLOCKS;
      }
      var block := -1;
      var i := 1;
      while i < limit
        invariant 1 <= i <= limit && block == -1
        invariant forall c: nat :: 1 <= c < i ==> Bit(State().bitmap, c)
      {
        if !BitOf(bitmap[i / 8], i % 8) {
          assert !Bit(State().bitmap, i);
          block := i;
          break;
        }
        i := i + 1;
      }
      if block < 0 {
        return false, 0;
      }
      b := block;
      MarkBlockUsed(block);
      SetInode(0, inodes[0].(block := block));
      WriteBlock(inodes[0].block, ZERO_BLOCK);
      Flush();
      ok := true;
    }

    /** Erase the cached metadata, lay out an empty root and write everything to disk. */
    method LayOut(blocks: u32, inodeCount: u32) returns (ok: bool)
      requires Valid() && 1 <= blocks <= MAX_BLOCKS && inodeCount <= MAX_INODES && DATA_LBA + blocks <= disk.Length
      modifies `sb, bitmap, inodes, disk
      ensures ok <==> blocks > 1
      ensures ok ==> Inv(State()) && Vol() == FreshVolume(blocks, inodeCount)
      ensures !ok ==> State() == ErasedFor(old(State()), blocks, inodeCount)
    {
      hide EncodeSuper;
      sb := Superblock(MAGIC, VERSION, BLOCK_SIZE, inodeCount, blocks, TABLE_LBA, BITMAP_LBA, DATA_LBA);
      Erase();
      SetInode(0, Inode(1, INODE_DIR, 1, 0, 0));
      ghost var s := State();
      ClearBits(s.bitmap);
      assert blocks > 1 ==> !Bit(s.bitmap, 1);
      ghost var b;
      ok, b := EnsureRootDirBlock();
      if ok {
        assert b == 1;
        WriteSuper();
        FreshFlushed(s, State());
        FlushedInv(State(), State());
        Flush();
      }
    }

    method WriteSuper()
      requires Valid() && SUPER_LBA < disk.Length
      modifies disk
      ensures State() == old(State()).(disk := old(State()).disk[SUPER_LBA := EncodeSuper(sb)])
    {
      disk[SUPER_LBA] := EncodeSuper(sb);
    }

    /** Make an empty file system on the disk and put the `sys` files into it. `sectors` is the
        size the disk reports, if it reports one. */
    method Format(totalBlocks: u32, inodeCount: u32, sectors: Option<nat>) returns (ok: bool)
      requires Valid() && DATA_LBA + FormatBlocks(totalBlocks, sectors) <= disk.Length
      modifies this, bitmap, inodes, disk
      ensures Valid() && ok == FormatSpec(FormatBlocks(totalBlocks, sectors), FormatInodes(inodeCount)).0
      ensures ok ==> Ready() && Vol() == FormatSpec(FormatBlocks(totalBlocks, sectors), FormatInodes(inodeCount)).1
      ensures !ok ==> mounted == old(mounted) && lastError == old(lastError)
      ensures !ok ==> FormatLeaves(old(State()), State(), FormatBlocks(totalBlocks, sectors), FormatInodes(inodeCount))
    {
      hide WellFormed, Inv, FormatSpec, FilesMissing;
      var blocks := FormatBlocks(totalBlocks, sectors);
      FormatSafe(blocks, FormatInodes(inodeCount));
      ok := LayOut(blocks, FormatInodes(inodeCount));
      if ok {
        ok := FillSys(blocks, FormatInodes(inodeCount));
      }
      if ok {
        SetMounted();
      }
    }

    /** Write the status flag and the hash of the default password. */
    method FillSys(ghost blocks: nat, ghost inodeCount: nat) returns (ok: bool)
      requires Valid() && Inv(State()) && inodeCount <= MAX_INODES && blocks > 1
               && Vol() == FreshVolume(blocks, inodeCount)
      modifies bitmap, inodes, disk
      ensures ok == FormatSpec(blocks, inodeCount).0
      ensures ok ==> Inv(State()) && Vol() == FormatSpec(blocks, inodeCount).1
      ensures !ok ==> FilesMissing(old(State()), State())
    {
      hide Inv, Base, View, SysWriteSpec, SysWriteSafe, FreshVolume, FormatFits, SysWriteLeaves;
      FormatSafe(blocks, inodeCount);
      ok := WriteStatusFlag();
      if ok {
        var hash := Fnv.ComputeHash(DEFAULT_PASSWORD);
        ok := WritePasswd(hash);
      }
    }

    method WriteStatusFlag() returns (ok: bool)
      requires Valid() && Inv(State())
      modifies bitmap, inodes, disk
      ensures Valid() && ok == SysWriteSpec(old(Vol()), STATUS, [0xFF]).0
      ensures ok ==> Inv(State()) && Vol() == SysWriteSpec(old(Vol()), STATUS, [0xFF]).1
      ensures !ok ==> if SysWriteSafe(old(Vol()), STATUS) then State() == old(State())
                      else SysWriteLeaves(old(State()), State(), 1)
    {
      hide Inv, Base, View, SysWriteSpec, SysWriteSafe;
      ok := WriteSysFile(STATUS, [0xFF]);
    }

    method SetMounted()
      requires Inv(State())
      modifies `mounted, `lastError
      ensures mounted && lastError == ErrNone && Inv(State()) && Vol() == old(Vol())
    {
      ghost var s := State();
      lastError := ErrNone;
      mounted := true;
      MountKeeps(s);
    }

    /** Zero the bitmap and the inode table. */
    method Erase()
      requires Valid()
      modifies bitmap, inodes
      ensures State() == old(State()).(bitmap := Zeros(512 * BITMAP_SECTORS),
                                       inodes := seq(MAX_INODES, _ => ZERO_INODE))
    {
      for i := 0 to bitmap.Length
        invariant forall j :: 0 <= j < i ==> bitmap[j] == 0
      {
        bitmap[i] := 0;
      }
      for i := 0 to inodes.Length
        invariant forall j :: 0 <= j < i ==> inodes[j] == ZERO_INODE
        invariant bitmap[..] == Zeros(512 * BITMAP_SECTORS)
      {
        inodes[i] := ZERO_INODE;
      }
    }

    method LoadBitmap()
      requires Valid() && sb.bitmapLba + BITMAP_SECTORS <= disk.Length
      modifies bitmap
      ensures State() == old(State()).(bitmap := ReadSectors(old(State()).disk, sb.bitmapLba, BITMAP_SECTORS))
    {
      var bytes := ReadRun(sb.bitmapLba, BITMAP_SECTORS);
      forall i | 0 <= i < bitmap.Length {
        bitmap[i] := bytes[i];
      }
      assert bitmap[..] == bytes;
    }

    method LoadTable()
      requires Valid() && sb.tableLba + TABLE_SECTORS <= disk.Length
      modifies inodes
      ensures State() ==
              old(State()).(inodes := DecodeTable(ReadSectors(old(State()).disk, sb.tableLba, TABLE_SECTORS)))
    {
      var bytes := ReadRun(sb.tableLba, TABLE_SECTORS);
      var table := DecodeTable(bytes);
      forall i | 0 <= i < inodes.Length {
        inodes[i] := table[i];
      }
      assert inodes[..] == table;
    }

    /** Mount the disk: load superblock, bitmap and inode table, whatever the memory held. Sector 128
        must be there, begin with 0x7A4F5346, have 512 at its byte 8 and point to bitmap and inodes. */
    method Init() returns (ok: bool)
      requires Valid()
      modifies this, bitmap, inodes
      ensures Valid() && mounted == ok
      ensures ok <==>
              && 128 < disk.Length && disk[128][0..4] == [0x46, 0x53, 0x4F, 0x7A] && disk[128][8..12] == [0, 2, 0, 0]
              && Get32(disk[128][24..28]) + 8 <= disk.Length && Get32(disk[128][20..24]) + 8 <= disk.Length
      ensures ok ==> MountOf(disk[..]) == Some(State())
      ensures !ok ==> lastError == ErrIo || lastError == ErrBadMagic
      ensures !ok && lastError == ErrBadMagic <==>
              128 < disk.Length && (disk[128][0..4] != [0x46, 0x53, 0x4F, 0x7A] || disk[128][8..12] != [0, 2, 0, 0])
    {
      hide DecodeSuper, DecodeTable, ReadSectors;
      MountIff(disk[..]);
      if SUPER_LBA >= disk.Length {
        lastError := ErrIo;
        mounted := false;
        return false;
      }
      sb := DecodeSuper(disk[SUPER_LBA]);
      mounted := false;
      if sb.magic != MAGIC || sb.blockSize != BLOCK_SIZE {
        lastError := ErrBadMagic;
        return false;
      }
      lastError := ErrIo;
      if sb.bitmapLba + BITMAP_SECTORS > disk.Length {
        return false;
      }
      LoadBitmap();
      if sb.tableLba + TABLE_SECTORS > disk.Length {
        return false;
      }
      LoadTable();
      lastError := ErrNone;
      mounted := true;
      ok := true;
    }

    /** Mounting a disk that a consistent file system left behind. */
    method Remount(ghost before: Fs)
      requires Valid() && Inv(before) && disk[..] == before.disk
      modifies this, bitmap, inodes
      ensures Ready() && State() == before.(mounted := true, lastError := ErrNone)
    {
      hide WellFormed, MountOf;
      RemountTransparent(before);
      MountKeeps(before);
      var ok := Init();
    }

    /** Whether the disk holds a formatted file system, whatever else it holds and whatever is in
        memory: the status file must be there and begin with the flag. */
    method IsFormatted() returns (r: bool)
      requires Valid()
      ensures r <==> FlagOnDisk(disk[..])
      ensures r ==> 128 < disk.Length && disk[128][0..4] == [0x46, 0x53, 0x4F, 0x7A] && disk[128][8..12] == [0, 2, 0, 0]
    {
      MountIff(disk[..]);
      hide DecodeSuper, DecodeTable, ReadSectors, FlagInTable;
      if SUPER_LBA >= disk.Length {
        return false;
      }
      var super := DecodeSuper(disk[SUPER_LBA]);
      if super.magic != MAGIC || super.blockSize != BLOCK_SIZE || super.tableLba + TABLE_SECTORS > disk.Length {
        return false;
      }
      var bytes := ReadRun(super.tableLba, TABLE_SECTORS);
      r := HasFlag(super, DecodeTable(bytes));
    }

    /** Whether the status file that this table leads to begins with the flag. */
    method HasFlag(super: Superblock, table: seq<Inode>) returns (r: bool)
      requires |table| == MAX_INODES
      ensures r <==> FlagInTable(disk[..], super, table)
    {
      hide LookupOnDisk, BlockOnDisk;
      var d := FindOnDisk(super, table, 0, SYS, DirKind);
      if d < 0 {
        return false;
      }
      var f := FindOnDisk(super, table, d, STATUS, FileKind);
      if f < 0 {
        return false;
      }
      var found, block := ReadOwned(super, table[f]);
      return found && block[0] == 0xFF;
    }

    /** The inode that directory `d` names so, going by this superblock and table. */
    method FindOnDisk(super: Superblock, table: seq<Inode>, d: nat, name: Name, kind: Kind) returns (r: int)
      requires d < |table|
      ensures r == match LookupOnDisk(disk[..], super, table, d, name, kind) case None => -1 case Some(i) => i
    {
      hide BlockOnDisk;
      if table[d].kind != INODE_DIR {
        return -1;
      }
      var found, block := ReadOwned(super, table[d]);
      if !found {
        return -1;
      }
      var k := FindDirEntry(name, block, table, kind);
      if k < 0 {
        return -1;
      }
      return SlotAt(block, k).inode;
    }

    /** Read the block of an inode, if it has one and its sector is on the disk. */
    method ReadOwned(super: Superblock, inode: Inode) returns (found: bool, block: Block)
      ensures BlockOnDisk(disk[..], super, inode) == if found then Some(block) else None
    {
      var lba := (super.dataLba + inode.block) % WORD;
      if inode.used == 0 || inode.block == 0 || inode.block >= super.blockCount || lba >= disk.Length {
        return false, ZERO_BLOCK;
      }
      return true, disk[lba];
    }

    /** How many of the blocks from 1 up are marked as used. */
    method CountMarked(blocks: nat) returns (count: nat)
      requires Valid() && blocks <= MAX_BLOCKS
      ensures count == |set b | 1 <= b < blocks && Bit(bitmap[..], b)|
    {
      ghost var bm := bitmap[..];
      count := 0;
      var i := 1;
      ghost var seen: set<int> := {};
      while i < blocks
        invariant 1 <= i && (i <= blocks || i == 1)
        invariant seen == (set b | 1 <= b < i && Bit(bm, b)) && count == |seen|
      {
        hide BitOf;
        assert Bit(bm, i) <==> BitOf(bitmap[i / 8], i % 8);
        if BitOf(bitmap[i / 8], i % 8) {
          count := count + 1;
          seen := seen + {i};
        }
        i := i + 1;
      }
      assert seen == set b | 1 <= b < blocks && Bit(bm, b);
    }

    /** Total, used and free bytes. */
    method GetUsage() returns (ok: bool, total: nat, used: nat, free: int)
      requires Valid() && (mounted ==> Base(State()))
      ensures ok == mounted
      ensures ok ==> total == BLOCK_SIZE * sb.blockCount && used == BLOCK_SIZE * |UsedSet(View(State()))|
      ensures ok ==> used + free == total
    {
      if !mounted {
        return false, 0, 0, 0;
      }
      UsageCountsNodes(State());
      var blocks: int := sb.blockCount;
      if blocks == 0 || blocks > MAX_BLOCKS {
        blocks := MAX_BLOCKS;
      }
      var count := CountMarked(blocks);
      assert count == |UsedBlocks(State())|;
      ok, total, used := true, blocks * BLOCK_SIZE, count * BLOCK_SIZE;
      free := if total > used then total - used else 0;
    }

    // ----- sessions -----

    /** One command of the shell. */
    method Execute(op: Op) returns (ok: bool)
      requires Ready() && OpOk(op)
      modifies bitmap, inodes, disk
      ensures Valid() && (Inv(State()) <==> !Hazard(old(Vol()), op))
      ensures Inv(State()) ==> (ok, Vol()) == Step(old(Vol()), op)
      ensures Inv(State()) && !ok ==> State() == old(State())
    {
      hide WellFormed, Synced, Base;
      match op
      case Mkdir(path) => ok := MkdirPath(path);
      case Create(name) => ok := Create(name);
      case Write(path, data) => ok := WritePath(path, data);
      case Copy(src, dst) => ok := CopyPath(src, dst);
      case Rename(src, dst) => ok := Rename(src, dst);
      case Remove(path) => ok := RemovePath(path);
      case RemoveTree(path) => ok := RemovePathRecursive(path);
      case SysWrite(filename, content) => ok := WriteSysFile(filename, content);
    }

    /** A whole session: on blocks, bitmap and inodes it does exactly what the run of the same
        commands does on the node table, and memory and disk stay consistent throughout. */
    method Session(ops: seq<Op>)
      requires Ready() && NoHazard(Vol(), ops) && forall i :: 0 <= i < |ops| ==> OpOk(ops[i])
      modifies bitmap, inodes, disk
      ensures Ready() && Vol() == Run(old(Vol()), ops)
    {
      hide WellFormed, Inv;
      var i := 0;
      assert ops[0..] == ops;
      while i < |ops|
        invariant 0 <= i <= |ops| && Ready()
        invariant NoHazard(Vol(), ops[i..]) && Run(Vol(), ops[i..]) == Run(old(Vol()), ops)
      {
        assert ops[i..][0] == ops[i] && ops[i..][1..] == ops[i + 1..];
        var ok := Execute(ops[i]);
        i := i + 1;
      }
    }
  }
}

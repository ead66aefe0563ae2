/** The state of the file system on bytes: superblock, bitmap and inode table in memory and the
    sectors of the disk, the invariant that ties them together, and the node table they stand for. */
module Storage {
  import opened Basics
  import opened Bytes
  import opened DirBlock
  import opened Bitmap
  import opened Tree
  import opened VolumeSpec

  const MAGIC: u32 := 0x7A4F5346
  const VERSION: u32 := 1
  const SUPER_LBA := 128
  const BITMAP_LBA := 129
  const BITMAP_SECTORS := 8
  const MAX_BLOCKS := 32768
  const MAX_INODES := 64
  const TABLE_LBA := 137
  const TABLE_SECTORS := 8
  const DATA_LBA := 145

  const INODE_FILE: byte := 1
  const INODE_DIR: byte := 2

  datatype Superblock = Superblock(magic: u32, version: u32, blockSize: u32, inodeCount: u32,
                                   blockCount: u32, tableLba: u32, bitmapLba: u32, dataLba: u32)

  datatype Inode = Inode(used: byte, kind: byte, links: u16, size: u32, block: u32)

  const ZERO_INODE := Inode(0, 0, 0, 0, 0)

  datatype FsError = ErrNone | ErrIo | ErrBadMagic

  datatype Fs = Fs(sb: Superblock, bitmap: seq<byte>, inodes: seq<Inode>, mounted: bool,
                   lastError: FsError, disk: seq<Block>)

  // ----- encodings -----

  function EncodeSuper(sb: Superblock): (b: Block)
  {
    Put32(sb.magic) + Put32(sb.version) + Put32(sb.blockSize) + Put32(sb.inodeCount)
    + Put32(sb.blockCount) + Put32(sb.tableLba) + Put32(sb.bitmapLba) + Put32(sb.dataLba) + Zeros(480)
  }

  function DecodeSuper(b: Block): Superblock {
    Superblock(Get32(b[0..4]), Get32(b[4..8]), Get32(b[8..12]), Get32(b[12..16]),
               Get32(b[16..20]), Get32(b[20..24]), Get32(b[24..28]), Get32(b[28..32]))
  }

  /** The fields of the superblock in their order, four bytes each; what is behind them is zero. */
  lemma SuperLayout(sb: Superblock)
    ensures var b := EncodeSuper(sb);
      && b[0..4] == Put32(sb.magic) && b[4..8] == Put32(sb.version) && b[8..12] == Put32(sb.blockSize)
      && b[12..16] == Put32(sb.inodeCount) && b[16..20] == Put32(sb.blockCount) && b[20..24] == Put32(sb.tableLba)
      && b[24..28] == Put32(sb.bitmapLba) && b[28..32] == Put32(sb.dataLba)
      && forall j :: 32 <= j < 512 ==> b[j] == 0
  {
  }

  lemma SuperRoundTrip(sb: Superblock)
    ensures DecodeSuper(EncodeSuper(sb)) == sb
  {
    SuperLayout(sb);
  }

  const INODE_SIZE := 64

  /** Only the first of the eight block pointers is ever set. */
  function EncodeInode(i: Inode): (s: seq<byte>)
    ensures |s| == INODE_SIZE
  {
    [i.used, i.kind] + Put16(i.links) + Put32(i.size) + Put32(i.block) + Zeros(52)
  }

  function DecodeInode(s: seq<byte>): Inode
    requires |s| == INODE_SIZE
  {
    Inode(s[0], s[1], Get16(s[2..4]), Get32(s[4..8]), Get32(s[8..12]))
  }

  /** The fields of an inode in their order: flag, kind, links, size, first block; then zeros. */
  lemma InodeLayout(i: Inode)
    ensures var s := EncodeInode(i);
      && s[0] == i.used && s[1] == i.kind && s[2] == i.links % 0x100 && s[3] == i.links / 0x100
      && s[4..8] == Put32(i.size) && s[8..12] == Put32(i.block)
      && forall j :: 12 <= j < 64 ==> s[j] == 0
  {
  }

  lemma InodeRoundTrip(i: Inode)
    ensures DecodeInode(EncodeInode(i)) == i
  {
    var s := EncodeInode(i);
    InodeLayout(i);
    assert s[2..4] == Put16(i.links);
  }

  function EncodeTable(t: seq<Inode>): (s: seq<byte>)
    ensures |s| == INODE_SIZE * |t|
  {
    seq(INODE_SIZE * |t|, j requires 0 <= j < INODE_SIZE * |t| => EncodeInode(t[j / INODE_SIZE])[j % INODE_SIZE])
  }

  function DecodeTable(s: seq<byte>): (t: seq<Inode>)
    requires |s| == INODE_SIZE * MAX_INODES
    ensures |t| == MAX_INODES
  {
    seq(MAX_INODES, i requires 0 <= i < MAX_INODES => DecodeInode(s[INODE_SIZE * i .. INODE_SIZE * i + INODE_SIZE]))
  }

  lemma TableRoundTrip(t: seq<Inode>)
    requires |t| == MAX_INODES
    ensures DecodeTable(EncodeTable(t)) == t
  {
    var s := EncodeTable(t);
    forall i | 0 <= i < MAX_INODES
      ensures DecodeTable(s)[i] == t[i]
    {
      TableEntry(t, i);
      InodeRoundTrip(t[i]);
    }
  }

  /** Inode `i` stands in the table from byte 64 * i on. */
  lemma TableEntry(t: seq<Inode>, i: nat)
    requires i < |t|
    ensures EncodeTable(t)[INODE_SIZE * i .. INODE_SIZE * i + INODE_SIZE] == EncodeInode(t[i])
  {
    forall j | 0 <= j < INODE_SIZE
      ensures EncodeTable(t)[INODE_SIZE * i + j] == EncodeInode(t[i])[j]
    {
      assert (INODE_SIZE * i + j) / INODE_SIZE == i && (INODE_SIZE * i + j) % INODE_SIZE == j;
    }
  }

  // ----- runs of sectors -----

  function ReadSectors(disk: seq<Block>, lba: nat, n: nat): (s: seq<byte>)
    requires lba + n <= |disk|
    ensures |s| == 512 * n
  {
    seq(512 * n, j requires 0 <= j < 512 * n => disk[lba + j / 512][j % 512])
  }

  function WriteSectors(disk: seq<Block>, lba: nat, n: nat, s: seq<byte>): (d: seq<Block>)
    requires lba + n <= |disk| && |s| == 512 * n
    ensures |d| == |disk|
    ensures forall l :: 0 <= l < |d| && !(lba <= l < lba + n) ==> d[l] == disk[l]
  {
    seq(|disk|, l requires 0 <= l < |disk| =>
      if lba <= l < lba + n then s[512 * (l - lba) .. 512 * (l - lba) + 512] else disk[l])
  }

  lemma SectorsRoundTrip(disk: seq<Block>, lba: nat, n: nat, s: seq<byte>)
    requires lba + n <= |disk| && |s| == 512 * n
    ensures ReadSectors(WriteSectors(disk, lba, n, s), lba, n) == s
  {
    var r := ReadSectors(WriteSectors(disk, lba, n, s), lba, n);
    forall j | 0 <= j < 512 * n
      ensures r[j] == s[j]
    {
      var q, m := j / 512, j % 512;
      assert q < n && j == 512 * q + m;
      SectorByte(disk, lba, n, s, q, m);
    }
  }

  lemma SectorByte(disk: seq<Block>, lba: nat, n: nat, s: seq<byte>, q: nat, m: nat)
    requires lba + n <= |disk| && |s| == 512 * n && q < n && m < 512
    ensures WriteSectors(disk, lba, n, s)[lba + q][m] == s[512 * q + m]
  {
  }

  lemma ReadSectorsLocal(disk: seq<Block>, disk': seq<Block>, lba: nat, n: nat)
    requires |disk| == |disk'| && lba + n <= |disk|
    requires forall l :: lba <= l < lba + n ==> disk[l] == disk'[l]
    ensures ReadSectors(disk, lba, n) == ReadSectors(disk', lba, n)
  {
  }

  // ----- the storage invariant -----

  predicate Geometry(s: Fs) {
    && |s.bitmap| == 512 * BITMAP_SECTORS && |s.inodes| == MAX_INODES
    && s.sb.magic == MAGIC && s.sb.version == VERSION && s.sb.blockSize == BLOCK_SIZE
    && s.sb.tableLba == TABLE_LBA && s.sb.bitmapLba == BITMAP_LBA && s.sb.dataLba == DATA_LBA
    && 1 <= s.sb.blockCount <= MAX_BLOCKS && DATA_LBA + s.sb.blockCount <= |s.disk|
  }

  predicate InodeUsed(s: Fs, i: int) {
    0 <= i < |s.inodes| && s.inodes[i].used != 0
  }

  predicate Owns(s: Fs, i: int, b: int) {
    InodeUsed(s, i) && s.inodes[i].block == b
  }

  /** Block `b` is the lowest one from 1 up whose bit is clear. */
  ghost predicate LowestFree(s: Fs, b: nat) {
    1 <= b < s.sb.blockCount && !Bit(s.bitmap, b) && forall c: nat :: 1 <= c < b ==> Bit(s.bitmap, c)
  }

  /** Used inodes are files or directories of at most one block and own distinct blocks;
      a bit of the bitmap is set exactly for the owned blocks. */
  ghost predicate Base(s: Fs) {
    && Geometry(s)
    && (forall i :: InodeUsed(s, i) ==>
          (s.inodes[i].kind == INODE_FILE || s.inodes[i].kind == INODE_DIR)
          && s.inodes[i].size <= BLOCK_SIZE && 1 <= s.inodes[i].block < s.sb.blockCount)
    && (forall i, j :: InodeUsed(s, i) && InodeUsed(s, j) && i != j ==> s.inodes[i].block != s.inodes[j].block)
    && (forall b: nat :: 1 <= b < s.sb.blockCount ==> (Bit(s.bitmap, b) <==> exists i :: Owns(s, i, b)))
  }

  function NodeAt(s: Fs, i: int): Node
    requires 0 <= i < |s.inodes|
  {
    if s.inodes[i].used == 0 then Free
    else
      var data := if DATA_LBA + s.inodes[i].block < |s.disk| then s.disk[DATA_LBA + s.inodes[i].block] else ZERO_BLOCK;
      if s.inodes[i].kind == INODE_DIR then Dir(Slots(data)) else File(data[..Min(s.inodes[i].size, BLOCK_SIZE)])
  }

  /** The node table a state stands for. */
  function View(s: Fs): (v: Nodes)
    ensures |v| == |s.inodes|
    ensures forall i :: 0 <= i < |v| ==> v[i] == NodeAt(s, i)
  {
    seq(|s.inodes|, i requires 0 <= i < |s.inodes| => NodeAt(s, i))
  }

  function VolumeOf(s: Fs): Volume {
    Volume(View(s), s.sb.inodeCount, s.sb.blockCount)
  }

  /** The metadata sectors on disk decode to what is in memory. */
  predicate Synced(s: Fs) {
    && DATA_LBA <= |s.disk|
    && DecodeSuper(s.disk[SUPER_LBA]) == s.sb
    && ReadSectors(s.disk, BITMAP_LBA, BITMAP_SECTORS) == s.bitmap
    && DecodeTable(ReadSectors(s.disk, TABLE_LBA, TABLE_SECTORS)) == s.inodes
  }

  /** Memory and data blocks are consistent; the bitmap and inode sectors may be stale. */
  ghost predicate Sound(s: Fs) {
    Base(s) && WellFormed(View(s)) && DecodeSuper(s.disk[SUPER_LBA]) == s.sb
  }

  /** What holds between operations. */
  ghost predicate Inv(s: Fs) {
    Sound(s) && Synced(s)
  }

  // ----- the steps the operations take -----

  function WithInode(s: Fs, i: nat, inode: Inode): Fs
    requires i < |s.inodes|
  {
    s.(inodes := s.inodes[i := inode])
  }

  function WithData(s: Fs, b: nat, data: Block): Fs
    requires DATA_LBA + b < |s.disk|
  {
    s.(disk := s.disk[DATA_LBA + b := data])
  }

  /** Writing the block of a used inode changes that node alone. */
  lemma WriteOwned(s: Fs, i: nat, data: Block)
    requires Base(s) && InodeUsed(s, i)
    ensures var t := WithData(s, s.inodes[i].block, data);
            Base(t) && View(t) == View(s)[i := NodeAt(t, i)]
  {
    hide View;
    var t := WithData(s, s.inodes[i].block, data);
    assert forall j :: InodeUsed(t, j) <==> InodeUsed(s, j);
    assert forall j, b :: Owns(t, j, b) <==> Owns(s, j, b);
  }

  /** Writing a data block nobody owns changes no node. */
  lemma WriteUnowned(s: Fs, b: nat, data: Block)
    requires Base(s) && 1 <= b < s.sb.blockCount && !Bit(s.bitmap, b)
    ensures var t := WithData(s, b, data); Base(t) && View(t) == View(s)
  {
    var t := WithData(s, b, data);
    assert forall j :: InodeUsed(t, j) <==> InodeUsed(s, j);
    assert forall j, c :: Owns(t, j, c) <==> Owns(s, j, c);
    forall j | InodeUsed(s, j)
      ensures s.inodes[j].block != b
    {
      assert Owns(s, j, s.inodes[j].block);
    }
  }

  function Claimed(s: Fs, i: nat, b: nat, inode: Inode): Fs
    requires i < |s.inodes| && b / 8 < |s.bitmap|
  {
    WithInode(s, i, inode).(bitmap := Mark(s.bitmap, b))
  }

  /** Claiming a free inode and a free block for it. */
  lemma ClaimBase(s: Fs, i: nat, b: nat, inode: Inode)
    requires Base(s) && i < MAX_INODES && !InodeUsed(s, i) && 1 <= b < s.sb.blockCount && !Bit(s.bitmap, b)
    requires inode.used != 0 && (inode.kind == INODE_FILE || inode.kind == INODE_DIR)
    requires inode.size <= BLOCK_SIZE && inode.block == b
    ensures var t := Claimed(s, i, b, inode);
            Base(t) && View(t) == View(s)[i := NodeAt(t, i)]
  {
    hide WithData;
    var t := Claimed(s, i, b, inode);
    assert forall j :: InodeUsed(t, j) <==> (j == i || InodeUsed(s, j));
    assert forall j, c :: Owns(t, j, c) <==> (if j == i then c == b else Owns(s, j, c));
    forall j | InodeUsed(s, j)
      ensures s.inodes[j].block != b
    {
      assert Owns(s, j, s.inodes[j].block);
    }
    forall c: nat | 1 <= c < t.sb.blockCount
      ensures Bit(t.bitmap, c) <==> exists j :: Owns(t, j, c)
    {
      if c == b {
        assert Owns(t, i, b);
      } else if Bit(s.bitmap, c) {
        var j :| Owns(s, j, c);
        assert Owns(t, j, c);
      }
    }
  }

  function Released(s: Fs, i: nat): Fs
    requires i < |s.inodes| && s.inodes[i].block / 8 < |s.bitmap|
  {
    WithInode(s, i, ZERO_INODE).(bitmap := Unmark(s.bitmap, s.inodes[i].block))
  }

  /** Giving an inode and its block back. */
  lemma ReleaseBase(s: Fs, i: nat)
    requires Base(s) && InodeUsed(s, i)
    ensures var t := Released(s, i);
            Base(t) && View(t) == View(s)[i := Free]
  {
    hide Unmark;
    var t := Released(s, i);
    assert forall j :: InodeUsed(t, j) <==> (j != i && InodeUsed(s, j));
    assert forall j, c :: Owns(t, j, c) <==> (j != i && Owns(s, j, c));
    forall c: nat | 1 <= c < t.sb.blockCount
      ensures Bit(t.bitmap, c) <==> exists j :: Owns(t, j, c)
    {
      if Bit(s.bitmap, c) && c != s.inodes[i].block {
        var j :| Owns(s, j, c);
        assert Owns(t, j, c);
      }
    }
  }

  /** Recording another size for a file changes that node alone. */
  lemma ResizeBase(s: Fs, i: nat, size: u32)
    requires Base(s) && InodeUsed(s, i) && size <= BLOCK_SIZE
    ensures var t := WithInode(s, i, s.inodes[i].(size := size));
            Base(t) && View(t) == View(s)[i := NodeAt(t, i)]
  {
    var t := WithInode(s, i, s.inodes[i].(size := size));
    assert forall j :: InodeUsed(t, j) <==> InodeUsed(s, j);
    assert forall j, c :: Owns(t, j, c) <==> Owns(s, j, c);
  }

  // ----- flushing -----

  function Flushed(s: Fs): Fs
    requires Geometry(s)
  {
    s.(disk := WriteSectors(WriteSectors(s.disk, BITMAP_LBA, BITMAP_SECTORS, s.bitmap),
                            TABLE_LBA, TABLE_SECTORS, EncodeTable(s.inodes)))
  }

  /** A flush leaves every node as it is, and makes the disk agree with the memory. */
  lemma FlushBase(s: Fs)
    requires Base(s)
    ensures Base(Flushed(s)) && View(Flushed(s)) == View(s)
    ensures DecodeSuper(s.disk[SUPER_LBA]) == s.sb ==> Synced(Flushed(s))
  {
    var t := Flushed(s);
    assert forall j :: InodeUsed(t, j) <==> InodeUsed(s, j);
    assert forall j, c :: Owns(t, j, c) <==> Owns(s, j, c);
    FlushSynced(s);
  }

  lemma FlushSynced(s: Fs)
    requires Geometry(s)
    ensures DecodeSuper(s.disk[SUPER_LBA]) == s.sb ==> Synced(Flushed(s))
  {
    var mid := WriteSectors(s.disk, BITMAP_LBA, BITMAP_SECTORS, s.bitmap);
    SectorsRoundTrip(s.disk, BITMAP_LBA, BITMAP_SECTORS, s.bitmap);
    SectorsRoundTrip(mid, TABLE_LBA, TABLE_SECTORS, EncodeTable(s.inodes));
    ReadSectorsLocal(mid, Flushed(s).disk, BITMAP_LBA, BITMAP_SECTORS);
    TableRoundTrip(s.inodes);
  }

  /** A write to a data block never lands on a metadata sector. */
  lemma DataKeepsSynced(s: Fs, b: nat, data: Block)
    requires Synced(s) && DATA_LBA + b < |s.disk|
    ensures Synced(WithData(s, b, data))
  {
    var t := WithData(s, b, data);
    ReadSectorsLocal(s.disk, t.disk, BITMAP_LBA, BITMAP_SECTORS);
    ReadSectorsLocal(s.disk, t.disk, TABLE_LBA, TABLE_SECTORS);
  }

  // ----- scanning for a free inode -----

  /** One step of the scan, on the inode table and on the node table. */
  lemma FreeNodeStep(s: Fs, i: nat, limit: nat)
    requires limit <= |s.inodes|
    ensures FreeNodeFrom(View(s), i, limit) ==
            if i >= limit then None else if s.inodes[i].used == 0 then Some(i) else FreeNodeFrom(View(s), i + 1, limit)
  {
    if i < limit {
      assert View(s)[i] == NodeAt(s, i);
    }
  }

  // ----- counting blocks -----

  function UsedBlocks(s: Fs): set<int> {
    set b | 1 <= b < s.sb.blockCount && Bit(s.bitmap, b)
  }

  lemma Pick<T>(a: set<T>) returns (x: T)
    requires a != {}
    ensures x in a
  {
    x :| x in a;
  }

  lemma {:induction false} CountOwned(s: Fs, owners: set<int>, blocks: set<int>)
    requires Base(s)
    requires forall i :: i in owners ==> InodeUsed(s, i) && s.inodes[i].block in blocks
    requires forall b :: b in blocks ==> exists i :: i in owners && Owns(s, i, b)
    ensures |owners| == |blocks|
  {
    if owners != {} {
      var i := Pick(owners);
      var b := s.inodes[i].block;
      forall c | c in blocks - {b}
        ensures exists j :: j in owners - {i} && Owns(s, j, c)
      {
        var j :| j in owners && Owns(s, j, c);
        assert j in owners - {i};
      }
      CountOwned(s, owners - {i}, blocks - {b});
    } else {
      assert blocks == {};
    }
  }

  /** As many blocks are marked as nodes are in use. */
  lemma BlocksMatchNodes(s: Fs)
    requires Base(s)
    ensures |UsedBlocks(s)| == |UsedSet(View(s))|
  {
    forall i | i in UsedSet(View(s))
      ensures InodeUsed(s, i) && s.inodes[i].block in UsedBlocks(s)
    {
      assert Owns(s, i, s.inodes[i].block);
    }
    forall b | b in UsedBlocks(s)
      ensures exists i :: i in UsedSet(View(s)) && Owns(s, i, b)
    {
      var i :| Owns(s, i, b);
      assert i in UsedSet(View(s));
    }
    CountOwned(s, UsedSet(View(s)), UsedBlocks(s));
  }

  lemma {:induction false} Interval(lo: int, hi: int) returns (all: set<int>)
    requires lo <= hi
    ensures (forall b :: b in all <==> lo <= b < hi) && |all| == hi - lo
    decreases hi - lo
  {
    if lo == hi {
      all := {};
    } else {
      all := Interval(lo, hi - 1);
      all := all + {hi - 1};
    }
  }

  /** A clear bit exists exactly when the node table leaves room for another node. */
  lemma FreeBlockExists(s: Fs)
    requires Base(s)
    ensures HasFreeBlock(VolumeOf(s)) <==> exists b: nat :: 1 <= b < s.sb.blockCount && !Bit(s.bitmap, b)
  {
    BlocksMatchNodes(s);
    var all := Interval(1, s.sb.blockCount);
    if b: nat :| 1 <= b < s.sb.blockCount && !Bit(s.bitmap, b) {
      assert UsedBlocks(s) <= all - {b};
      Subset(UsedBlocks(s), all - {b});
    } else {
      assert UsedBlocks(s) == all;
    }
  }

  /** Where there is a free block there is a lowest one. */
  lemma LowestFreeExists(s: Fs) returns (b: nat)
    requires Base(s) && HasFreeBlock(VolumeOf(s))
    ensures LowestFree(s, b)
  {
    FreeBlockExists(s);
    b := 1;
    while Bit(s.bitmap, b)
      invariant 1 <= b && forall c: nat :: 1 <= c < b ==> Bit(s.bitmap, c)
      invariant exists c: nat :: b <= c < s.sb.blockCount && !Bit(s.bitmap, c)
      decreases s.sb.blockCount - b
    {
      b := b + 1;
    }
  }

  lemma {:induction false} Subset<T>(a: set<T>, b: set<T>)
    requires a <= b
    ensures |a| <= |b|
  {
    if a != {} {
      var x := Pick(a);
      Subset(a - {x}, b - {x});
    }
  }

  // ----- mounting -----

  /** The disk has a superblock sector, and it is not one of this file system. */
  predicate BadSuper(disk: seq<Block>) {
    SUPER_LBA < |disk| &&
    (DecodeSuper(disk[SUPER_LBA]).magic != MAGIC || DecodeSuper(disk[SUPER_LBA]).blockSize != BLOCK_SIZE)
  }

  /** What mounting a disk loads, if it has a superblock of this file system and the metadata it
      points to lies on the disk. */
  function MountOf(disk: seq<Block>): Option<Fs> {
    if SUPER_LBA >= |disk| then None
    else
      var sb := DecodeSuper(disk[SUPER_LBA]);
      if BadSuper(disk) || sb.bitmapLba + BITMAP_SECTORS > |disk|
         || sb.tableLba + TABLE_SECTORS > |disk| then None
      else Some(Fs(sb, ReadSectors(disk, sb.bitmapLba, BITMAP_SECTORS),
                   DecodeTable(ReadSectors(disk, sb.tableLba, TABLE_SECTORS)), true, ErrNone, disk))
  }

  /** A disk can be mounted exactly when sector 128 exists and begins with 0x7A4F5346, has 512 at its
      byte 8, and points to eight sectors of bitmap and eight of inodes that lie on the disk. */
  lemma MountIff(disk: seq<Block>)
    ensures MountOf(disk).Some? <==>
            && 128 < |disk| && disk[128][0..4] == [0x46, 0x53, 0x4F, 0x7A] && disk[128][8..12] == [0, 2, 0, 0]
            && Get32(disk[128][24..28]) + 8 <= |disk| && Get32(disk[128][20..24]) + 8 <= |disk|
    ensures BadSuper(disk) <==>
            128 < |disk| && !(disk[128][0..4] == [0x46, 0x53, 0x4F, 0x7A] && disk[128][8..12] == [0, 2, 0, 0])
  {
    if 128 < |disk| {
      assert Put32(MAGIC) == [0x46, 0x53, 0x4F, 0x7A] && Put32(512) == [0, 2, 0, 0];
      GetPut(disk[128][0..4]);
      GetPut(disk[128][8..12]);
    }
  }

  /** What a mount loads, byte by byte: the superblock's fields, the bitmap from its eight sectors, and
      of every inode flag, kind, size and block from the sector of the table it stands in. */
  lemma MountLoads(disk: seq<Block>, j: nat, i: nat)
    requires MountOf(disk).Some? && j < 4096 && i < 64
    ensures var s := MountOf(disk).value; var b := disk[128];
      && s.disk == disk && s.mounted && s.lastError == ErrNone
      && Put32(s.sb.version) == b[4..8] && Put32(s.sb.inodeCount) == b[12..16] && Put32(s.sb.blockCount) == b[16..20]
      && Put32(s.sb.tableLba) == b[20..24] && Put32(s.sb.bitmapLba) == b[24..28] && Put32(s.sb.dataLba) == b[28..32]
      && |s.bitmap| == 4096 && s.bitmap[j] == disk[s.sb.bitmapLba + j / 512][j % 512]
      && |s.inodes| == 64 && var t := disk[s.sb.tableLba + i / 8]; var at := 64 * (i % 8);
         && s.inodes[i].used == t[at] && s.inodes[i].kind == t[at + 1]
         && Put32(s.inodes[i].size) == t[at + 4..at + 8] && Put32(s.inodes[i].block) == t[at + 8..at + 12]
  {
    var b := disk[128];
    GetPut(b[4..8]);
    GetPut(b[12..16]);
    GetPut(b[16..20]);
    GetPut(b[20..24]);
    GetPut(b[24..28]);
    GetPut(b[28..32]);
    InodeLoads(disk, DecodeSuper(b).tableLba, i);
  }

  lemma InodeLoads(disk: seq<Block>, lba: nat, i: nat)
    requires lba + 8 <= |disk| && i < 64
    ensures var inode := DecodeTable(ReadSectors(disk, lba, 8))[i]; var t := disk[lba + i / 8]; var at := 64 * (i % 8);
      && inode.used == t[at] && inode.kind == t[at + 1]
      && Put32(inode.size) == t[at + 4..at + 8] && Put32(inode.block) == t[at + 8..at + 12]
  {
    var t, at := disk[lba + i / 8], 64 * (i % 8);
    var e := ReadSectors(disk, lba, 8)[64 * i .. 64 * i + 64];
    forall j | 0 <= j < 64
      ensures e[j] == t[at + j]
    {
      assert (64 * i + j) / 512 == i / 8 && (64 * i + j) % 512 == at + j;
    }
    assert e[4..8] == t[at + 4..at + 8] && e[8..12] == t[at + 8..at + 12];
    GetPut(e[4..8]);
    GetPut(e[8..12]);
  }

  /** Remounting a consistent file system, whatever the memory holds, brings back exactly the
      superblock, bitmap and inode table that were in memory, and so the same volume. */
  lemma RemountTransparent(s: Fs)
    requires Inv(s)
    ensures MountOf(s.disk) == Some(s.(mounted := true, lastError := ErrNone))
    ensures VolumeOf(MountOf(s.disk).value) == VolumeOf(s)
  {
    hide WellFormed, DecodeSuper, ReadSectors, DecodeTable;
    var t := s.(mounted := true, lastError := ErrNone);
    assert forall i :: 0 <= i < |s.inodes| ==> NodeAt(t, i) == NodeAt(s, i);
  }

  /** The mounted flag and the last error are no part of the invariant or of the volume. */
  lemma MountKeeps(s: Fs)
    requires Inv(s)
    ensures var t := s.(mounted := true, lastError := ErrNone); Inv(t) && VolumeOf(t) == VolumeOf(s)
  {
    hide WellFormed, DecodeSuper;
    var t := s.(mounted := true, lastError := ErrNone);
    assert forall i :: InodeUsed(t, i) <==> InodeUsed(s, i);
    assert forall i, b :: Owns(t, i, b) <==> Owns(s, i, b);
    assert forall i :: 0 <= i < |s.inodes| ==> NodeAt(t, i) == NodeAt(s, i);
    assert View(t) == View(s);
  }

  /** The bytes in use are those of the blocks of the used nodes. */
  lemma UsageCountsNodes(s: Fs)
    requires Base(s)
    ensures |UsedBlocks(s)| == |UsedSet(View(s))| < s.sb.blockCount
  {
    BlocksMatchNodes(s);
    var all := Interval(1, s.sb.blockCount);
    Subset(UsedBlocks(s), all);
  }
}

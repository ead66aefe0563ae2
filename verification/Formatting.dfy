/** What formatting produces: an empty root, and in it the system directory with the status flag
    and the hash of the default password. */
module Formatting {
  import opened Basics
  import opened Bytes
  import opened DirBlock
  import opened Bitmap
  import opened Tree
  import opened VolumeSpec
  import opened VolumeTheorems
  import opened Paths
  import opened Storage
  import opened StoredEdits
  import opened RawDisk
  import Fnv

  /** "password123" */
  const DEFAULT_PASSWORD: seq<byte> := [112, 97, 115, 115, 119, 111, 114, 100, 49, 50, 51]

  /** How many blocks are laid out: as many as asked for, or as the reported disk size leaves
      behind the metadata, but no more than the bitmap has bits. */
  function FormatBlocks(totalBlocks: u32, sectors: Option<nat>): (n: u32)
    ensures 1 <= n <= MAX_BLOCKS
  {
    if totalBlocks != 0 then Min(totalBlocks, MAX_BLOCKS)
    else if sectors.Some? && sectors.value > DATA_LBA then Min(sectors.value - DATA_LBA, MAX_BLOCKS)
    else MAX_BLOCKS
  }

  function FormatInodes(inodeCount: u32): u32 { Min(inodeCount, MAX_INODES) }

  function FreshNodes(): (v: Nodes)
    ensures |v| == MAX_INODES
  {
    seq(MAX_INODES, i => if i == 0 then Dir(EmptySlots()) else Free)
  }

  function FreshVolume(blocks: nat, inodeCount: nat): Volume {
    Volume(FreshNodes(), inodeCount, blocks)
  }

  function FormatSpec(blocks: nat, inodeCount: nat): (bool, Volume) {
    var blank := FreshVolume(blocks, inodeCount);
    if blocks <= 1 then (false, blank)
    else
      var a := SysWriteSpec(blank, STATUS, [0xFF]);
      if !a.0 then a else SysWriteSpec(a.1, PASSWD, Put32(Fnv.Hash(DEFAULT_PASSWORD)))
  }

  /** The smallest layout that holds the root, the system directory and its two files. */
  predicate FormatFits(blocks: nat, inodeCount: nat) {
    blocks >= 5 && (inodeCount == 0 || inodeCount >= 4)
  }

  lemma FreshWellFormed()
    ensures WellFormed(FreshNodes())
  {
    var v := FreshNodes();
    assert Descends(v, 0, 0, 0);
    assert forall d, k, i :: !Names(v, d, k, i);
  }

  /** The state just before the first flush of a format stands for the fresh node table. */
  lemma FreshSound(s: Fs)
    requires Geometry(s) && s.sb.blockCount > 1 && s.disk[SUPER_LBA] == EncodeSuper(s.sb)
    requires forall i :: 0 <= i < MAX_INODES ==>
              s.inodes[i] == if i == 0 then Inode(1, INODE_DIR, 1, 0, 1) else ZERO_INODE
    requires forall b: nat :: Bit(s.bitmap, b) <==> b == 1
    requires s.disk[DATA_LBA + 1] == ZERO_BLOCK
    ensures Sound(s) && View(s) == FreshNodes()
  {
    SuperRoundTrip(s.sb);
    assert forall i :: InodeUsed(s, i) <==> i == 0;
    assert Owns(s, 0, 1);
    ZeroBlockSlots();
    assert NodeAt(s, 0) == Dir(EmptySlots());
    assert View(s) == FreshNodes();
    FreshWellFormed();
  }

  /** From erased metadata, claiming block 1 for the root and writing the superblock gives a sound
      state that stands for the fresh volume. */
  lemma FreshFlushed(s: Fs, t: Fs)
    requires Geometry(s) && s.sb.blockCount > 1
    requires s.inodes == seq(MAX_INODES, _ => ZERO_INODE)[0 := Inode(1, INODE_DIR, 1, 0, 0)]
    requires forall b: nat :: !Bit(s.bitmap, b)
    requires var f := Flushed(WithData(Claimed(s, 0, 1, s.inodes[0].(block := 1)), 1, ZERO_BLOCK));
             t == f.(disk := f.disk[SUPER_LBA := EncodeSuper(s.sb)])
    ensures Sound(t) && VolumeOf(t) == FreshVolume(s.sb.blockCount, s.sb.inodeCount)
  {
    FreshSound(t);
  }

  lemma FreeNodeIs(vol: Volume, i: nat)
    requires 1 <= i < |vol.nodes| && vol.nodes[i].Free?
    requires forall j :: 1 <= j < i ==> !vol.nodes[j].Free?
    ensures FreeNode(vol) == if i < InodeLimit(vol) then Some(i) else None
  {
  }

  /** Whether so many nodes can be allocated besides the root. */
  predicate Holds(blocks: nat, inodeCount: nat, n: nat) {
    blocks > n + 1 && (inodeCount == 0 || inodeCount > n)
  }

  /** Room in a volume whose used nodes are the first `n + 1`. */
  lemma RoomFor(vol: Volume, d: nat, n: nat)
    requires |vol.nodes| == MAX_INODES && n + 1 < MAX_INODES && vol.inodeCount <= MAX_INODES
    requires forall j :: 0 <= j < MAX_INODES ==> (vol.nodes[j].Free? <==> j > n)
    requires FirstEmpty(vol.nodes, d).Some?
    ensures HasRoom(vol, d) <==> Holds(vol.blockCount, vol.inodeCount, n + 1)
    ensures HasRoom(vol, d) ==> FreeNode(vol) == Some(n + 1)
    ensures FreeNode(vol).Some? <==> n + 1 < InodeLimit(vol)
  {
    FreeNodeIs(vol, n + 1);
    var all := Interval(0, n + 1);
    assert UsedSet(vol.nodes) == all;
  }

  /** Making the system directory on a fresh volume. */
  lemma SysMade(blocks: nat, inodeCount: nat)
    requires inodeCount <= MAX_INODES
    ensures var vol := FreshVolume(blocks, inodeCount); var r := MkdirIn(vol, 0, SYS);
      && Lookup(vol.nodes, 0, SYS, DirKind).None?
      && (r.0 <==> Holds(blocks, inodeCount, 1)) && (r.0 <==> HasRoom(vol, 0)) && FirstEmpty(vol.nodes, 0).Some?
      && (r.0 ==> FreeNode(vol) == Some(1) && WellFormed(r.1.nodes) && |r.1.nodes| == MAX_INODES
                  && r.1.nodes[1] == Dir(EmptySlots()) && !r.1.nodes[0].Free?
                  && (forall j :: 2 <= j < MAX_INODES ==> r.1.nodes[j].Free?))
  {
    hide Lookup;
    var vol := FreshVolume(blocks, inodeCount);
    FreshWellFormed();
    LackingNone(vol.nodes, 0, SYS, DirKind);
    RoomFor(vol, 0, 0);
    MkdirInEffect(vol, 0, SYS);
  }

  /** The first system write of a format makes the directory and the status file, unless inodes
      or blocks run out. */
  lemma StatusWritten(blocks: nat, inodeCount: nat)
    requires inodeCount <= MAX_INODES
    ensures var vol := FreshVolume(blocks, inodeCount); var r := SysWriteSpec(vol, STATUS, [0xFF]);
      && (r.0 <==> Holds(blocks, inodeCount, 2))
      && (r.0 ==> SysWriteSafe(vol, STATUS) && WellFormed(r.1.nodes) && r.1 == Volume(r.1.nodes, inodeCount, blocks)
                  && AfterStatus(r.1.nodes))
  {
    hide WellFormed;
    var vol := FreshVolume(blocks, inodeCount);
    SysMade(blocks, inodeCount);
    FreshWellFormed();
    if HasRoom(vol, 0) {
      var made := MkdirIn(vol, 0, SYS).1;
      FreshDirLacks(made.nodes, 1, STATUS);
      RoomFor(made, 1, 1);
      if HasRoom(made, 1) {
        SysCreated(vol, STATUS, [0xFF]);
      }
    }
  }

  /** The node table with the system directory and the status file in it. */
  predicate AfterStatus(v: Nodes) {
    && |v| == MAX_INODES && !v[0].Free?
    && Lookup(v, 0, SYS, DirKind) == Some(1)
    && v[1] == Dir(EmptySlots()[0 := Named(2, STATUS)]) && v[2] == File([0xFF])
    && (forall j :: 3 <= j < MAX_INODES ==> v[j].Free?)
  }

  /** Then the password file fits in if there is one more inode and block; its write is safe. */
  lemma PasswdWritten(vol: Volume, bytes: seq<byte>)
    requires WellFormed(vol.nodes) && AfterStatus(vol.nodes) && vol.inodeCount <= MAX_INODES
    ensures SysWriteSafe(vol, PASSWD)
    ensures SysWriteSpec(vol, PASSWD, bytes).0 <==> Holds(vol.blockCount, vol.inodeCount, 3)
    ensures SysWriteSpec(vol, PASSWD, bytes).0 ==>
              var w := SysWriteSpec(vol, PASSWD, bytes).1.nodes;
              Gained(vol.nodes, w, 1, 3, PASSWD, File(bytes)) && WellFormed(w)
              && SysWriteSpec(vol, PASSWD, bytes).1 == vol.(nodes := w)
  {
    hide WellFormed;
    LackingNone(vol.nodes, 1, PASSWD, FileKind);
    assert EmptySlot(vol.nodes, 1, 1);
    RoomFor(vol, 1, 2);
    AddNamed(vol, 1, PASSWD, File(bytes));
  }

  /** A format succeeds exactly when the layout holds the root, the directory and the two files;
      its password write is always safe. */
  lemma FormatSafe(blocks: nat, inodeCount: nat)
    requires inodeCount <= MAX_INODES
    ensures FormatSpec(blocks, inodeCount).0 <==> FormatFits(blocks, inodeCount)
    ensures var a := SysWriteSpec(FreshVolume(blocks, inodeCount), STATUS, [0xFF]);
            a.0 ==> SysWriteSafe(FreshVolume(blocks, inodeCount), STATUS) && SysWriteSafe(a.1, PASSWD)
  {
    hide WellFormed;
    StatusWritten(blocks, inodeCount);
    var a := SysWriteSpec(FreshVolume(blocks, inodeCount), STATUS, [0xFF]);
    if a.0 {
      PasswdWritten(a.1, Put32(Fnv.Hash(DEFAULT_PASSWORD)));
    }
  }

  /** What is laid out: the blocks asked for; when that is 0, those that the reported size leaves behind
      the first 145 sectors, if it leaves any; in each case, and else, at most 32768. */
  lemma LaidOut(totalBlocks: u32, sectors: Option<nat>, inodeCount: u32)
    ensures 0 < totalBlocks <= 32768 ==> FormatBlocks(totalBlocks, sectors) == totalBlocks
    ensures totalBlocks > 32768 ==> FormatBlocks(totalBlocks, sectors) == 32768
    ensures totalBlocks == 0 && (sectors.None? || sectors.value <= 145 || sectors.value >= 32913) ==>
              FormatBlocks(totalBlocks, sectors) == 32768
    ensures totalBlocks == 0 && sectors.Some? && 145 < sectors.value < 32913 ==>
              FormatBlocks(totalBlocks, sectors) + 145 == sectors.value
    ensures FormatInodes(inodeCount) == if inodeCount <= 64 then inodeCount else 64
  {
  }

  /** After a successful format the tree is well formed; it holds the directory sys and in it the files
      status, with the flag, and passwd, with the hash of the default password, and nothing else. */
  lemma FormatTheorem(blocks: nat, inodeCount: nat)
    requires inodeCount <= MAX_INODES && FormatFits(blocks, inodeCount)
    ensures var vol := FormatSpec(blocks, inodeCount).1; var v := vol.nodes;
      && vol == Volume(v, inodeCount, blocks)
      && WellFormed(v) && |v| == 64 && (forall i :: 4 <= i < 64 ==> v[i].Free?)
      && FileAt(v, [115, 121, 115, 47, 115, 116, 97, 116, 117, 115]) == Some(2) && v[2] == File([0xFF])
      && FileAt(v, [115, 121, 115, 47, 112, 97, 115, 115, 119, 100]) == Some(3)
      && v[3] == File(Put32(Fnv.Hash(DEFAULT_PASSWORD)))
      && SysReadSpec(v, STATUS, 1) == Some([0xFF])
      && PasswdSpec(v) == Some(Fnv.Hash(DEFAULT_PASSWORD))
  {
    hide WellFormed, FileAt, SysReadSpec, PasswdSpec, SysWriteSafe, SysWriteSpec, FreshVolume, AfterStatus, Fnv.Hash;
    FormatSafe(blocks, inodeCount);
    StatusWritten(blocks, inodeCount);
    SystemFiles(SysWriteSpec(FreshVolume(blocks, inodeCount), STATUS, [0xFF]).1, Fnv.Hash(DEFAULT_PASSWORD));
  }

  /** With the password file written the system directory is complete. */
  lemma SystemFiles(a: Volume, hash: u32)
    requires WellFormed(a.nodes) && AfterStatus(a.nodes) && a.inodeCount <= MAX_INODES
    requires SysWriteSpec(a, PASSWD, Put32(hash)).0
    ensures var w := SysWriteSpec(a, PASSWD, Put32(hash)).1; var v := w.nodes;
      && w == a.(nodes := v)
      && WellFormed(v) && |v| == 64 && (forall i :: 4 <= i < 64 ==> v[i].Free?)
      && FileAt(v, [115, 121, 115, 47, 115, 116, 97, 116, 117, 115]) == Some(2) && v[2] == File([0xFF])
      && FileAt(v, [115, 121, 115, 47, 112, 97, 115, 115, 119, 100]) == Some(3)
      && v[3] == File(Put32(hash))
      && SysReadSpec(v, STATUS, 1) == Some([0xFF])
      && PasswdSpec(v) == Some(hash)
  {
    hide WellFormed, FileAt, SysReadSpec, PasswdSpec, SysWriteSafe, SysWriteSpec, Put32, EmptySlots, Lookup;
    PasswdRoundTrip(a, hash);
    PasswdWritten(a, Put32(hash));
    StatusKept(a.nodes, SysWriteSpec(a, PASSWD, Put32(hash)).1.nodes, File(Put32(hash)));
    SysPaths();
  }

  lemma SysPaths()
    ensures SYS + [SLASH] + STATUS == [115, 121, 115, 47, 115, 116, 97, 116, 117, 115]
    ensures SYS + [SLASH] + PASSWD == [115, 121, 115, 47, 112, 97, 115, 115, 119, 100]
  {
  }

  lemma StatusKept(v: Nodes, w: Nodes, passwd: Node)
    requires WellFormed(v) && WellFormed(w) && AfterStatus(v) && Gained(v, w, 1, 3, PASSWD, passwd) && passwd.File?
    ensures SysReadSpec(w, STATUS, 1) == Some([0xFF])
    ensures FileAt(w, SYS + [SLASH] + STATUS) == Some(2) && FileAt(w, SYS + [SLASH] + PASSWD) == Some(3)
  {
    hide WellFormed, Sep;
    Parts(SYS, STATUS);
    Parts(SYS, PASSWD);
    assert [0xFF][..1] == [0xFF];
    LookupKept(v, w, {3}, 0, SYS, DirKind);
    assert Names(v, 1, 0, 2);
    LookupIs(v, 1, 0, 2, STATUS, FileKind);
    LookupKept(v, w, {3}, 1, STATUS, FileKind);
  }

  lemma FlagSet(s: Fs)
    requires Base(s) && SysReadSpec(View(s), STATUS, 1) == Some([0xFF])
    ensures StatusSet(s)
  {
    FlagByte(s, SysFileAt(View(s), STATUS).value);
  }

  lemma FlagByte(s: Fs, f: nat)
    requires Base(s) && IsFile(s, f) && View(s)[f].content[..Min(|View(s)[f].content|, 1)] == [0xFF]
    ensures DATA_LBA + s.inodes[f].block < |s.disk| && DataOf(s, f)[0] == 0xFF
  {
    assert View(s)[f] == NodeAt(s, f);
    assert View(s)[f].content[..1][0] == DataOf(s, f)[0];
  }

  /** A state that stands for a freshly formatted volume is recognised as formatted, in memory and
      from its sectors, and the password it stores is the default one. */
  lemma FormattedIsRecognised(s: Fs, blocks: nat, inodeCount: nat)
    requires Base(s) && inodeCount <= MAX_INODES && FormatFits(blocks, inodeCount)
    requires View(s) == FormatSpec(blocks, inodeCount).1.nodes
    ensures StatusSet(s) && PasswdSpec(View(s)) == Some(Fnv.Hash(DEFAULT_PASSWORD))
    ensures Inv(s) ==> FlagOnDisk(s.disk)
  {
    hide *;
    FormatTheorem(blocks, inodeCount);
    FlagSet(s);
    if Inv(s) {
      FlagOnDiskIff(s);
    }
  }

  // ----- a format that fails -----

  /** The cached metadata erased for a new layout, and nothing written yet. */
  function ErasedFor(s: Fs, blocks: u32, inodeCount: u32): Fs {
    s.(sb := Superblock(MAGIC, VERSION, BLOCK_SIZE, inodeCount, blocks, TABLE_LBA, BITMAP_LBA, DATA_LBA),
       bitmap := Zeros(512 * BITMAP_SECTORS),
       inodes := seq(MAX_INODES, _ => ZERO_INODE)[0 := Inode(1, INODE_DIR, 1, 0, 0)])
  }

  /** From the empty file system `s` to `t`: the status flag could not be written, or was and the
      password was not. */
  ghost predicate FilesMissing(s: Fs, t: Fs) {
    var flag := SysWriteSpec(VolumeOf(s), STATUS, [0xFF]);
    if flag.0 then Inv(t) && VolumeOf(t) == flag.1
    else if SysWriteSafe(VolumeOf(s), STATUS) then t == s
    else SysWriteLeaves(s, t, 1)
  }

  /** What a format that fails leaves: erased metadata over the old disk when not even the root fits,
      else the empty file system with what could be written of the system files. */
  ghost predicate FormatLeaves(s: Fs, t: Fs, blocks: u32, inodeCount: u32) {
    t.mounted == s.mounted && t.lastError == s.lastError &&
    if blocks <= 1 then t == ErasedFor(s, blocks, inodeCount)
    else exists u :: Inv(u) && VolumeOf(u) == FreshVolume(blocks, inodeCount) && FilesMissing(u, t)
  }

  /** The system write of the status flag runs out half way exactly when the layout has an inode and a
      block for the directory and not both for the file. */
  lemma StatusSafeIff(blocks: nat, inodeCount: nat)
    requires inodeCount <= MAX_INODES
    ensures SysWriteSafe(FreshVolume(blocks, inodeCount), STATUS)
            <==> (Holds(blocks, inodeCount, 1) ==> Holds(blocks, inodeCount, 2))
  {
    hide Lookup, WellFormed;
    var vol := FreshVolume(blocks, inodeCount);
    SysMade(blocks, inodeCount);
    if Holds(blocks, inodeCount, 1) {
      var made := MkdirIn(vol, 0, SYS).1;
      FreshDirLacks(made.nodes, 1, STATUS);
      RoomFor(made, 1, 1);
    }
  }

  /** A format that fails leaves a consistent file system, empty or with the status flag, if and only
      if the root fits and the directory of the system files fits only together with the first file. */
  lemma FormatFailureIff(s: Fs, t: Fs, blocks: u32, inodeCount: u32)
    requires inodeCount <= MAX_INODES && !FormatFits(blocks, inodeCount) && FormatLeaves(s, t, blocks, inodeCount)
    ensures Inv(t) <==> blocks > 1 && (Holds(blocks, inodeCount, 1) ==> Holds(blocks, inodeCount, 2))
  {
    if blocks <= 1 {
      assert InodeUsed(t, 0) && t.inodes[0].block == 0;
    } else {
      hide Inv, FreshVolume, SysWriteSpec, SysWriteSafe, SysWriteLeaves;
      StatusSafeIff(blocks, inodeCount);
      FormatSafe(blocks, inodeCount);
      StatusWritten(blocks, inodeCount);
      var u :| Inv(u) && VolumeOf(u) == FreshVolume(blocks, inodeCount) && FilesMissing(u, t);
      if SysWriteLeaves(u, t, 1) {
        LeftoversBreak(u, t, 1);
      }
    }
  }
}

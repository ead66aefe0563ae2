/** Stored states in which an operation does not keep the promises of the file system. */
module Departures {
  import opened Basics
  import opened Bytes
  import opened DirBlock
  import opened Tree
  import opened VolumeSpec
  import opened VolumeTheorems
  import opened VolumeRuns
  import opened Paths
  import opened Storage
  import opened StoredEdits
  import opened RawDisk
  import opened Encoding

  /** A consistent state stands for this volume. */
  ghost predicate Stored(vol: Volume) {
    exists s :: Inv(s) && VolumeOf(s) == vol
  }

  const D: Name := [100]
  const X: Name := [120]
  const D_SLASH_X: seq<byte> := [100, 47, 120]

  // ----- an empty directory d in the root -----

  function OneDir(): (v: Nodes)
    ensures |v| == MAX_INODES && v[1] == Dir(EmptySlots()) && forall i :: 2 <= i < MAX_INODES ==> v[i].Free?
    ensures v[0].Dir? && |v[0].slots| == SLOTS && v[0].slots[0] == Named(1, D)
    ensures forall k :: 1 <= k < SLOTS ==> v[0].slots[k].Empty?
  {
    [Dir([Named(1, D)] + EmptySlots()[1..]), Dir(EmptySlots())] + seq(MAX_INODES - 2, _ => Free)
  }

  function OneDirVolume(): Volume { Volume(OneDir(), MAX_INODES, 8) }

  lemma OneDirNames(d: int, k: int, i: int)
    ensures Names(OneDir(), d, k, i) <==> d == 0 && k == 0 && i == 1
  {
  }

  lemma OneDirWellFormed()
    ensures WellFormed(OneDir())
  {
    var sh := Shape(seq(MAX_INODES, i => i), seq(MAX_INODES, _ => 0), seq(MAX_INODES, _ => 0));
    forall d, k, i
      ensures Names(OneDir(), d, k, i) <==> d == 0 && k == 0 && i == 1
    {
      OneDirNames(d, k, i);
    }
    LaidWellFormed(OneDir(), sh);
  }

  lemma OneDirStored()
    ensures Stored(OneDirVolume()) && HasFreeBlock(OneDirVolume())
  {
    OneDirWellFormed();
    assert UsedSet(OneDir()) == {0, 1};
    assert forall k :: 0 <= k < SLOTS ==> SlotStorable(OneDir()[0].slots[k]);
    hide WellFormed, Inv, VolumeOf;
    StoredIff(OneDirVolume());
  }

  lemma OneDirLookups()
    ensures Find(OneDir(), 0, D, DirKind) == Some(0) && Lookup(OneDir(), 0, D, DirKind) == Some(1)
    ensures Find(OneDir(), 0, D, FileKind).None? && Find(OneDir(), 1, X, DirKind).None?
    ensures FirstEmpty(OneDir(), 1) == Some(0) && OneDir()[1].Dir?
  {
    OneDirWellFormed();
    OneDirNames(0, 0, 1);
    hide WellFormed;
    assert OneDir()[0].slots[0].name == D && OneDir()[1].Is(DirKind);
    LookupIs(OneDir(), 0, 0, 1, D, DirKind);
    LackingNone(OneDir(), 0, D, FileKind);
    LackingNone(OneDir(), 1, X, DirKind);
  }

  // ----- moving a directory into itself -----

  /** `mv d d/x` succeeds in a stored state and leaves d unreachable. */
  lemma MoveIntoItselfHappens()
    ensures Stored(OneDirVolume()) && MovesIntoItself(OneDir(), D, D_SLASH_X)
    ensures var (ok, w) := RenameSpec(OneDirVolume(), D, D_SLASH_X); ok && !WellFormed(w.nodes)
  {
    OneDirWellFormed();
    OneDirStored();
    MovePlanned();
    OneDirLookups();
    hide WellFormed, OneDir;
    RenameKeepsTreeIff(OneDirVolume(), D, D_SLASH_X);
  }

  lemma PathParts()
    ensures !HasSep(D) && HasSep(D_SLASH_X) && Sep(D_SLASH_X) == 1
    ensures DirPart(D_SLASH_X) == D && FilePart(D_SLASH_X) == X
  {
    assert Sep(D) == 1;
    SepOf(D_SLASH_X, 1);
  }

  lemma MovePlanned()
    ensures PlanRename(OneDir(), D, D_SLASH_X) == Some(Plan(0, 0, 1, DirKind, 1, X, false))
  {
    PathParts();
    OneDirLookups();
    assert OneDir()[0].slots[0] == Named(1, D);
    hide Find, HasSep, DirPart, FilePart, Sep, OneDir;
    assert RenameSource(OneDir(), D) == Some(Place(0, D));
    assert RenameEntryOf(OneDir(), 0, D) == Some((0, DirKind));
    assert RenameTarget(OneDir(), D, D_SLASH_X) == Some((Place(1, X), false));
  }

  // ----- an overlong name -----

  function Xs(n: nat): Name { seq(n, _ => 120) }

  /** Writing d/ followed by thirty times the letter x succeeds in a stored state and leaves a name
      that no directory may hold. */
  lemma OverlongHappens(data: seq<byte>)
    ensures var path := D + [SLASH] + Xs(30);
      && Stored(OneDirVolume()) && WriteOverflows(OneDirVolume(), path)
      && var (ok, w) := WriteSpec(OneDirVolume(), path, data); ok && !WellFormed(w.nodes)
  {
    var path := D + [SLASH] + Xs(30);
    OneDirWellFormed();
    OneDirStored();
    LongPath();
    hide OneDir, WellFormed, Sep, HasSep, DirPart, FilePart, Xs, Lookup, Locate, Stored, FirstEmpty;
    assert WriteOverflows(OneDirVolume(), path);
    WriteKeepsTreeIff(OneDirVolume(), path, data);
  }

  lemma LongPath()
    ensures var path := D + [SLASH] + Xs(30);
      HasSep(path) && FilePart(path) == Xs(30) && |Xs(30)| == 30 && path != []
      && Locate(OneDir(), path) == Some(Place(1, Xs(30))) && FirstEmpty(OneDir(), 1).Some?
      && FreeNode(OneDirVolume()).Some?
  {
    var path := D + [SLASH] + Xs(30);
    OneDirLookups();
    SepOf(path, 1);
    assert DirPart(path) == D && FilePart(path) == Xs(30);
    assert OneDir()[2].Free?;
  }

  /** Slot `m` keeps naming inode `j` when an overlong name is stored in slot `k`: the name does not
      reach its inode byte, or happens to have the same number there. */
  predicate Spared(k: nat, name: Name, m: int, j: int) {
    m < k || |name| <= Reach(k, m) || (0 <= Reach(k, m) && name[Reach(k, m)] == j)
  }

  /** What a write that creates an overlong name leaves: the file under the first thirty bytes of the
      name; every node but the directory and the file as it was; and in the directory exactly the
      entries that the name spares keep naming what they named, those it does not reach by the same
      name. */
  lemma OverlongEffect(s: Fs, t: Fs, d: nat, name: Name, size: u32, data: Block)
    requires Inv(s) && FileAdded(s, t, d, name, size, data) && size <= BLOCK_SIZE
    requires |name| >= NAME_SIZE && IsCString(name)
    ensures var v, w, k, i := View(s), View(t), FirstEmpty(View(s), d).value, FreeNode(VolumeOf(s)).value;
      && |w| == |v| && d < |w| && w[d].Dir? && |w[d].slots| == SLOTS && i < |w| && k < SLOTS
      && w[i] == File(data[..size]) && w[d].slots[k] == Named(i, name[..NAME_SIZE])
      && (forall x :: 0 <= x < |v| && x != d && x != i ==> w[x] == v[x])
      && (forall m, j :: Names(v, d, m, j) ==> (Names(w, d, m, j) <==> Spared(k, name, m, j)))
      && (forall m, j :: Names(v, d, m, j) && (m < k || |name| <= Reach(k, m)) ==> w[d].slots[m] == v[d].slots[m])
  {
    hide WellFormed, Synced, Flushed, NewFile, WriteEntry, FreeNodeFrom, FirstEmptyFrom, SlotAt, Spared, Reach;
    var k, i := FirstEmpty(View(s), d).value, FreeNode(VolumeOf(s)).value;
    var b: nat :| LowestFree(s, b) && FileStored(s, t, d, k, i, b, name, size, data);
    AddedView(s, t, d, k, i, b, name, size, data);
    WriteEntryOverlong(DataOf(s, d), k, i, name);
    assert View(s)[d] == NodeAt(s, d);
    forall m, j | Names(View(s), d, m, j)
      ensures Names(View(t), d, m, j) <==> Spared(k, name, m, j)
      ensures m < k || |name| <= Reach(k, m) ==> View(t)[d].slots[m] == View(s)[d].slots[m]
    {
      SparedIff(DataOf(s, d), k, i, name, m);
    }
  }

  lemma SparedIff(b: Block, k: nat, inode: byte, name: Name, m: nat)
    requires k < SLOTS && m < SLOTS && m != k && |name| >= NAME_SIZE && IsCString(name) && SlotAt(b, m).Named?
    ensures var slot := SlotAt(WriteEntry(b, k, inode, name), m);
      && slot.Named? && (slot.inode == SlotAt(b, m).inode <==> Spared(k, name, m, SlotAt(b, m).inode))
      && (m < k || |name| <= Reach(k, m) ==> slot == SlotAt(b, m))
  {
    WriteEntryReaches(b, k, inode, name, m);
  }

  lemma AddedView(s: Fs, t: Fs, d: nat, k: nat, i: nat, b: nat, name: Name, size: u32, data: Block)
    requires FileStored(s, t, d, k, i, b, name, size, data) && size <= BLOCK_SIZE
    ensures View(t) == View(s)[d := Dir(Slots(WriteEntry(DataOf(s, d), k, i, name)))][i := File(data[..size])]
    ensures i != d && k < SLOTS && IsDir(s, d) && Base(s)
  {
    hide WriteEntry, Slots, Flushed, View, NewFile;
    NewFileEffect(s, d, k, i, b, name, size, data);
    FlushBase(NewFile(s, d, k, i, b, name, size, data));
  }

  /** After a write that creates an overlong name every entry of every directory still names its inode
      if and only if the name spares all entries of the one directory. */
  lemma OverlongLosesIff(s: Fs, t: Fs, d: nat, name: Name, size: u32, data: Block)
    requires Inv(s) && FileAdded(s, t, d, name, size, data) && size <= BLOCK_SIZE
    requires |name| >= NAME_SIZE && IsCString(name)
    ensures (forall e, m, j :: Names(View(s), e, m, j) ==> Names(View(t), e, m, j))
            <==> forall m, j :: Names(View(s), d, m, j) ==> Spared(FirstEmpty(View(s), d).value, name, m, j)
  {
    hide WellFormed, Synced;
    var i := FreeNode(VolumeOf(s)).value;
    assert View(s)[i].Free?;
    OverlongEffect(s, t, d, name, size, data);
    forall e, m, j | Names(View(s), e, m, j) && e != d
      ensures Names(View(t), e, m, j)
    {
      assert e != i && View(t)[e] == View(s)[e];
    }
  }

  // ----- a claimed inode that nothing names -----

  function FullSlots(): (s: seq<Slot>)
    ensures |s| == SLOTS && forall k :: 0 <= k < SLOTS ==> s[k] == Named(k + 1, [97 + k])
  {
    seq(SLOTS, k requires 0 <= k < SLOTS => Named(k + 1, [97 + k]))
  }

  /** Sixteen files in the root, and no directory `sys`. */
  function FullRoot(): (v: Nodes)
    ensures |v| == MAX_INODES && v[0] == Dir(FullSlots())
    ensures forall i :: 0 < i < MAX_INODES ==> v[i] == if i <= SLOTS then File([]) else Free
  {
    seq(MAX_INODES, i => if i == 0 then Dir(FullSlots()) else if i <= SLOTS then File([]) else Free)
  }

  function FullRootVolume(): Volume { Volume(FullRoot(), MAX_INODES, 64) }

  lemma FullRootNames(d: int, k: int, i: int)
    ensures Names(FullRoot(), d, k, i) <==> d == 0 && 0 <= k < SLOTS && i == k + 1
  {
  }

  lemma FullRootWellFormed()
    ensures WellFormed(FullRoot())
  {
    var v := FullRoot();
    var sh := Shape(seq(MAX_INODES, i => i), seq(MAX_INODES, _ => 0),
                    seq(MAX_INODES, i => if i == 0 then 0 else i - 1));
    forall d, k, i
      ensures Names(v, d, k, i) <==> d == 0 && 0 <= k < SLOTS && i == k + 1
    {
      FullRootNames(d, k, i);
    }
    FullRootDistinct();
    hide FullRoot;
    assert v[0].slots == FullSlots();
    LaidWellFormed(v, sh);
  }

  lemma FullRootDistinct()
    ensures DistinctNames(FullRoot())
  {
    var v := FullRoot();
    forall d, k, m, i, j | Names(v, d, k, i) && Names(v, d, m, j) && k != m
      ensures v[d].slots[k].name != v[d].slots[m].name
    {
      FullRootNames(d, k, i);
      FullRootNames(d, m, j);
      assert v[d].slots[k].name[0] == 97 + k && v[d].slots[m].name[0] == 97 + m;
    }
  }

  lemma FullRootUsed()
    ensures |UsedSet(FullRoot())| <= 17
  {
    var all := Interval(0, 17);
    assert UsedSet(FullRoot()) <= all;
    Subset(UsedSet(FullRoot()), all);
  }

  lemma FullRootStored()
    ensures Stored(FullRootVolume()) && HasFreeBlock(FullRootVolume())
  {
    FullRootWellFormed();
    FullRootUsed();
    assert forall k :: 0 <= k < SLOTS ==> SlotStorable(FullRoot()[0].slots[k]);
    hide WellFormed, Inv, VolumeOf;
    StoredIff(FullRootVolume());
  }

  lemma FullRootLookups()
    ensures Lookup(FullRoot(), 0, SYS, DirKind).None? && FirstEmpty(FullRoot(), 0).None?
    ensures FreeNode(FullRootVolume()).Some?
  {
    LackingNone(FullRoot(), 0, SYS, DirKind);
    assert FullRoot()[0].Dir?;
    assert FullRoot()[17].Free?;
  }

  /** Whenever a system write would run out half way there is a state in which it leaves the memory. */
  lemma LeftoversExist(s: Fs, filename: Name, size: u32)
    requires Inv(s) && !SysWriteSafe(VolumeOf(s), filename)
    ensures exists t :: SysWriteLeaves(s, t, size)
  {
    hide WellFormed, Synced, Leaked, SysUnflushed, FindFrom, FirstEmptyFrom, FreeNodeFrom;
    assert FreeNode(VolumeOf(s)).Some? && HasFreeBlock(VolumeOf(s));
    RootIsDir(s);
    var t;
    if Lookup(View(s), 0, SYS, DirKind).Some? {
      t := LeakExists(s, INODE_FILE, size);
    } else if FirstEmpty(View(s), 0).None? {
      t := LeakExists(s, INODE_DIR, 0);
    } else {
      t := UnflushedExists(s);
    }
    assert SysWriteLeaves(s, t, size);
  }

  lemma LeakExists(s: Fs, kind: byte, size: u32) returns (t: Fs)
    requires Base(s) && FreeNode(VolumeOf(s)).Some? && HasFreeBlock(VolumeOf(s))
    ensures Leaked(s, t, kind, size)
  {
    var b := LowestFreeExists(s);
    t := Claimed(s, FreeNode(VolumeOf(s)).value, b, Inode(1, kind, 1, size, b));
  }

  lemma UnflushedExists(s: Fs) returns (t: Fs)
    requires Base(s) && HasRoom(VolumeOf(s), 0) && IsDir(s, 0)
    ensures SysUnflushed(s, t)
  {
    var b := LowestFreeExists(s);
    t := NewDir(s, 0, FirstEmpty(View(s), 0).value, FreeNode(VolumeOf(s)).value, b, SYS);
  }

  /** What a system write that runs out half way leaves in memory: every file and every name as it was. */
  lemma LeftoversKeep(s: Fs, t: Fs, size: u32)
    requires Inv(s) && SysWriteLeaves(s, t, size) && size <= BLOCK_SIZE
    ensures FilesSame(View(s), View(t), {}) && NamesKept(View(s), View(t), {})
  {
    hide WellFormed, Synced, Leaked, SysUnflushed, FindFrom, FirstEmptyFrom, FreeNodeFrom, FilesSame, NamesKept;
    if Lookup(View(s), 0, SYS, DirKind).Some? {
      LeakKeeps(s, t, INODE_FILE, size);
    } else if FirstEmpty(View(s), 0).None? {
      LeakKeeps(s, t, INODE_DIR, 0);
    } else {
      UnflushedKeeps(s, t);
    }
  }

  lemma LeakKeeps(s: Fs, t: Fs, kind: byte, size: u32)
    requires Leaked(s, t, kind, size) && (kind == INODE_FILE || kind == INODE_DIR) && size <= BLOCK_SIZE
    ensures FilesSame(View(s), View(t), {}) && NamesKept(View(s), View(t), {})
  {
    var i := FreeNode(VolumeOf(s)).value;
    var b: nat :| LowestFree(s, b) && t == Claimed(s, i, b, Inode(1, kind, 1, size, b));
    assert View(s)[i] == NodeAt(s, i);
    ClaimBase(s, i, b, Inode(1, kind, 1, size, b));
    hide View, Base, Claimed;
    ClaimKeeps(View(s), i, NodeAt(t, i));
  }

  lemma ClaimKeeps(v: Nodes, i: nat, node: Node)
    requires i < |v| && v[i].Free? && !node.Free?
    ensures FilesSame(v, v[i := node], {}) && NamesKept(v, v[i := node], {})
  {
  }

  lemma UnflushedKeeps(s: Fs, t: Fs)
    requires SysUnflushed(s, t)
    ensures FilesSame(View(s), View(t), {}) && NamesKept(View(s), View(t), {})
  {
    hide FreeNodeFrom, NamesKept, SlotAt, UsedSet;
    var k, i := FirstEmpty(View(s), 0).value, FreeNode(VolumeOf(s)).value;
    var b: nat :| LowestFree(s, b) && t == NewDir(s, 0, k, i, b, SYS);
    assert View(s)[i] == NodeAt(s, i);
    NewDirView(s, 0, k, i, b, SYS);
    hide View, Base, NewDir;
    AddChildKept(View(s), 0, k, i, SYS, Dir(EmptySlots()));
  }

  /** In a stored state whose root is full and has no `sys`, a system write runs out half way; there is
      a state in which it leaves the memory, and no such state is well formed. */
  lemma SysLeakHappens(filename: Name, size: u32)
    ensures Stored(FullRootVolume()) && !SysWriteSafe(FullRootVolume(), filename)
    ensures forall s :: Inv(s) && VolumeOf(s) == FullRootVolume() ==> exists t :: SysWriteLeaves(s, t, size)
    ensures forall s, t :: Inv(s) && VolumeOf(s) == FullRootVolume() && SysWriteLeaves(s, t, size) ==>
              !WellFormed(View(t))
  {
    FullRootStored();
    FullRootLookups();
    hide FullRoot, WellFormed, Synced;
    forall s | Inv(s) && VolumeOf(s) == FullRootVolume()
      ensures exists t :: SysWriteLeaves(s, t, size)
    {
      LeftoversExist(s, filename, size);
    }
    forall s, t | Inv(s) && VolumeOf(s) == FullRootVolume() && SysWriteLeaves(s, t, size)
      ensures !WellFormed(View(t))
    {
      LeakBreaks(s, t, INODE_DIR, 0);
    }
  }
}

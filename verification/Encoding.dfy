/** Every node table that the disk format has room for is what some consistent state stands for. */
module Encoding {
  import opened Basics
  import opened Bytes
  import opened DirBlock
  import opened Bitmap
  import opened Tree
  import opened VolumeSpec
  import opened Storage
  import opened StoredEdits

  // ----- what the format has room for -----

  predicate SlotStorable(s: Slot) {
    s.Named? ==> s.inode < 256 && |s.name| < NAME_SIZE && IsCString(s.name)
  }

  predicate NodeStorable(n: Node) {
    match n
    case Free => true
    case File(content) => |content| <= BLOCK_SIZE
    case Dir(slots) => |slots| == SLOTS && forall k :: 0 <= k < SLOTS ==> SlotStorable(slots[k])
  }

  /** The shape of every volume on a disk: 64 inodes, 16 slots to a directory, one block to a node. */
  predicate Storable(vol: Volume) {
    && |vol.nodes| == MAX_INODES && (forall i :: 0 <= i < MAX_INODES ==> NodeStorable(vol.nodes[i]))
    && vol.inodeCount < WORD && |UsedSet(vol.nodes)| < vol.blockCount <= MAX_BLOCKS
  }

  // ----- directories -----

  /** The directory block of the first `k` slots. */
  function DirBytes(slots: seq<Slot>, k: nat): (b: Block)
    requires k <= SLOTS == |slots| && forall j :: 0 <= j < SLOTS ==> SlotStorable(slots[j])
  {
    if k == 0 then ZERO_BLOCK
    else if slots[k - 1].Empty? then DirBytes(slots, k - 1)
    else WriteEntry(DirBytes(slots, k - 1), k - 1, slots[k - 1].inode, slots[k - 1].name)
  }

  lemma {:induction false} DirBytesAt(slots: seq<Slot>, k: nat, j: nat)
    requires k <= SLOTS == |slots| && forall i :: 0 <= i < SLOTS ==> SlotStorable(slots[i])
    requires j < SLOTS
    ensures Slots(DirBytes(slots, k))[j] == if j < k then slots[j] else Empty
    decreases k
  {
    if k == 0 {
      ZeroBlockSlots();
    } else {
      DirBytesAt(slots, k - 1, j);
      if slots[k - 1].Named? {
        hide WriteEntry, Slots, SlotAt;
        var before := DirBytes(slots, k - 1);
        WriteEntrySlots(before, k - 1, slots[k - 1].inode, slots[k - 1].name);
        assert DirBytes(slots, k) == WriteEntry(before, k - 1, slots[k - 1].inode, slots[k - 1].name);
      }
    }
  }

  lemma DirBytesSlots(slots: seq<Slot>)
    requires |slots| == SLOTS && forall j :: 0 <= j < SLOTS ==> SlotStorable(slots[j])
    ensures Slots(DirBytes(slots, SLOTS)) == slots
  {
    hide Slots, DirBytes;
    forall j | 0 <= j < SLOTS
      ensures Slots(DirBytes(slots, SLOTS))[j] == slots[j]
    {
      DirBytesAt(slots, SLOTS, j);
    }
  }

  function NodeBytes(n: Node): Block
    requires NodeStorable(n)
  {
    match n
    case Free => ZERO_BLOCK
    case File(content) => Poke(ZERO_BLOCK, 0, content)
    case Dir(slots) => DirBytes(slots, SLOTS)
  }

  // ----- one block for each used node, from block 1 up -----

  function UsedBelow(v: Nodes, i: nat): (n: nat)
    requires i <= |v|
    ensures n <= i
  {
    if i == 0 then 0 else UsedBelow(v, i - 1) + if v[i - 1].Free? then 0 else 1
  }

  function BlockFor(v: Nodes, i: nat): (b: nat)
    requires i <= |v|
    ensures 1 <= b <= i + 1
  {
    1 + UsedBelow(v, i)
  }

  lemma {:induction false} UsedBelowCounts(v: Nodes, i: nat)
    requires i <= |v|
    ensures UsedBelow(v, i) == |set j | 0 <= j < i && !v[j].Free?|
  {
    var below := set j | 0 <= j < i && !v[j].Free?;
    if i > 0 {
      UsedBelowCounts(v, i - 1);
      var less := set j | 0 <= j < i - 1 && !v[j].Free?;
      assert below == if v[i - 1].Free? then less else less + {i - 1};
    } else {
      assert below == {};
    }
  }

  lemma {:induction false} UsedBelowGrows(v: Nodes, i: nat, j: nat)
    requires i < j <= |v|
    ensures UsedBelow(v, i) + (if v[i].Free? then 0 else 1) <= UsedBelow(v, j)
    decreases j
  {
    if i + 1 < j {
      UsedBelowGrows(v, i, j - 1);
    }
  }

  lemma BlockForFits(vol: Volume, i: nat)
    requires Storable(vol) && i < MAX_INODES && !vol.nodes[i].Free?
    ensures BlockFor(vol.nodes, i) < vol.blockCount
  {
    UsedBelowGrows(vol.nodes, i, MAX_INODES);
    UsedBelowCounts(vol.nodes, MAX_INODES);
    assert UsedSet(vol.nodes) == set j | 0 <= j < MAX_INODES && !vol.nodes[j].Free?;
  }

  lemma BlocksDiffer(v: Nodes, i: nat, j: nat)
    requires i < |v| && j < |v| && i != j && !v[i].Free? && !v[j].Free?
    ensures BlockFor(v, i) != BlockFor(v, j)
  {
    if i < j {
      UsedBelowGrows(v, i, j);
    } else {
      UsedBelowGrows(v, j, i);
    }
  }

  // ----- the state -----

  function InodeFor(v: Nodes, i: nat): Inode
    requires i < |v| <= MAX_INODES && NodeStorable(v[i])
  {
    match v[i]
    case Free => ZERO_INODE
    case File(content) => Inode(1, INODE_FILE, 1, |content|, BlockFor(v, i))
    case Dir(_) => Inode(1, INODE_DIR, 1, 0, BlockFor(v, i))
  }

  /** The bitmap with the blocks of the first `k` nodes marked. */
  function MarkedFor(v: Nodes, k: nat): (bm: seq<byte>)
    requires k <= |v| <= MAX_INODES
    ensures |bm| == 512 * BITMAP_SECTORS
  {
    if k == 0 then Zeros(512 * BITMAP_SECTORS)
    else if v[k - 1].Free? then MarkedFor(v, k - 1)
    else Mark(MarkedFor(v, k - 1), BlockFor(v, k - 1))
  }

  /** Block `b` belongs to one of the first `k` nodes. */
  ghost predicate BelongsBelow(v: Nodes, k: nat, b: nat)
    requires k <= |v|
  {
    exists i :: 0 <= i < k && !v[i].Free? && BlockFor(v, i) == b
  }

  lemma BelongsStep(v: Nodes, k: nat, b: nat)
    requires 0 < k <= |v|
    ensures BelongsBelow(v, k, b) <==> BelongsBelow(v, k - 1, b) || (!v[k - 1].Free? && BlockFor(v, k - 1) == b)
  {
    if !v[k - 1].Free? && BlockFor(v, k - 1) == b {
      assert 0 <= k - 1 < k;
    }
  }

  lemma {:induction false} MarkedForBits(v: Nodes, k: nat, b: nat)
    requires k <= |v| <= MAX_INODES
    ensures Bit(MarkedFor(v, k), b) <==> BelongsBelow(v, k, b)
  {
    if k == 0 {
      ClearBits(MarkedFor(v, 0));
    } else {
      hide Bit, Mark, BlockFor, BelongsBelow;
      MarkedForBits(v, k - 1, b);
      BelongsStep(v, k, b);
    }
  }

  /** The sectors with the blocks of the first `k` nodes written. */
  function DiskFor(vol: Volume, k: nat): (disk: seq<Block>)
    requires Storable(vol) && k <= MAX_INODES
    ensures |disk| == DATA_LBA + vol.blockCount
  {
    if k == 0 then seq(DATA_LBA + vol.blockCount, _ => ZERO_BLOCK)
    else if vol.nodes[k - 1].Free? then DiskFor(vol, k - 1)
    else
      BlockForFits(vol, k - 1);
      DiskFor(vol, k - 1)[DATA_LBA + BlockFor(vol.nodes, k - 1) := NodeBytes(vol.nodes[k - 1])]
  }

  lemma {:induction false} DiskForHolds(vol: Volume, k: nat, i: nat)
    requires Storable(vol) && i < k <= MAX_INODES && !vol.nodes[i].Free?
    ensures DATA_LBA + BlockFor(vol.nodes, i) < |DiskFor(vol, k)|
    ensures DiskFor(vol, k)[DATA_LBA + BlockFor(vol.nodes, i)] == NodeBytes(vol.nodes[i])
    decreases k
  {
    BlockForFits(vol, i);
    if i < k - 1 {
      DiskForHolds(vol, k - 1, i);
      if !vol.nodes[k - 1].Free? {
        BlockForFits(vol, k - 1);
        BlocksDiffer(vol.nodes, i, k - 1);
      }
    }
  }

  /** Memory and data blocks of a volume, before the metadata is flushed. */
  function Unflushed(vol: Volume): Fs
    requires Storable(vol)
  {
    var super := Superblock(MAGIC, VERSION, BLOCK_SIZE, vol.inodeCount, vol.blockCount,
                            TABLE_LBA, BITMAP_LBA, DATA_LBA);
    Fs(super, MarkedFor(vol.nodes, MAX_INODES),
       seq(MAX_INODES, i requires 0 <= i < MAX_INODES => InodeFor(vol.nodes, i)),
       true, ErrNone, DiskFor(vol, MAX_INODES)[SUPER_LBA := EncodeSuper(super)])
  }

  lemma NodeEncoded(vol: Volume, i: nat)
    requires Storable(vol) && i < MAX_INODES
    ensures NodeAt(Unflushed(vol), i) == vol.nodes[i]
  {
    hide DirBytes, EncodeSuper, MarkedFor;
    var n := vol.nodes[i];
    if !n.Free? {
      DiskForHolds(vol, MAX_INODES, i);
      NodeBytesRead(n);
      assert Unflushed(vol).disk[DATA_LBA + BlockFor(vol.nodes, i)] == NodeBytes(n);
    }
  }

  lemma NodeBytesRead(n: Node)
    requires NodeStorable(n)
    ensures n.File? ==> NodeBytes(n)[..|n.content|] == n.content
    ensures n.Dir? ==> Slots(NodeBytes(n)) == n.slots
  {
    if n.Dir? {
      DirBytesSlots(n.slots);
    }
  }

  lemma EncodedOwners(vol: Volume, i: nat)
    requires Storable(vol) && i < MAX_INODES
    ensures InodeUsed(Unflushed(vol), i) <==> !vol.nodes[i].Free?
    ensures InodeUsed(Unflushed(vol), i) ==>
              var inode := Unflushed(vol).inodes[i];
              (inode.kind == INODE_FILE || inode.kind == INODE_DIR) && inode.size <= BLOCK_SIZE
              && inode.block == BlockFor(vol.nodes, i) && 1 <= inode.block < vol.blockCount
  {
    if !vol.nodes[i].Free? {
      BlockForFits(vol, i);
    }
  }

  lemma EncodedInodes(vol: Volume)
    requires Storable(vol)
    ensures var s := Unflushed(vol);
      && (forall i :: InodeUsed(s, i) ==>
            (s.inodes[i].kind == INODE_FILE || s.inodes[i].kind == INODE_DIR)
            && s.inodes[i].size <= BLOCK_SIZE && 1 <= s.inodes[i].block < s.sb.blockCount)
      && (forall i, j :: InodeUsed(s, i) && InodeUsed(s, j) && i != j ==> s.inodes[i].block != s.inodes[j].block)
  {
    assert |vol.nodes| == MAX_INODES;
    hide Storable, BlockFor, MarkedFor, DiskFor;
    var s := Unflushed(vol);
    forall i | InodeUsed(s, i)
      ensures (s.inodes[i].kind == INODE_FILE || s.inodes[i].kind == INODE_DIR)
              && s.inodes[i].size <= BLOCK_SIZE && 1 <= s.inodes[i].block < s.sb.blockCount
    {
      EncodedOwners(vol, i);
    }
    forall i, j | InodeUsed(s, i) && InodeUsed(s, j) && i != j
      ensures s.inodes[i].block != s.inodes[j].block
    {
      EncodedOwners(vol, i);
      EncodedOwners(vol, j);
      BlocksDiffer(vol.nodes, i, j);
    }
  }

  lemma EncodedBits(vol: Volume, b: nat)
    requires Storable(vol)
    ensures Bit(Unflushed(vol).bitmap, b) <==> exists i :: Owns(Unflushed(vol), i, b)
  {
    hide Bit, MarkedFor, DiskFor, InodeFor, NodeStorable;
    var s := Unflushed(vol);
    MarkedForBits(vol.nodes, MAX_INODES, b);
    forall i | 0 <= i < MAX_INODES
      ensures Owns(s, i, b) <==> !vol.nodes[i].Free? && BlockFor(vol.nodes, i) == b
    {
      EncodedOwners(vol, i);
    }
    if Bit(s.bitmap, b) {
      var i :| 0 <= i < MAX_INODES && !vol.nodes[i].Free? && BlockFor(vol.nodes, i) == b;
      assert Owns(s, i, b);
    }
    if i :| Owns(s, i, b) {
      assert 0 <= i < MAX_INODES;
    }
  }

  lemma EncodedView(vol: Volume)
    requires Storable(vol)
    ensures VolumeOf(Unflushed(vol)) == vol
  {
    hide MarkedFor, DiskFor, InodeFor, NodeStorable;
    forall i | 0 <= i < MAX_INODES
      ensures NodeAt(Unflushed(vol), i) == vol.nodes[i]
    {
      NodeEncoded(vol, i);
    }
    assert View(Unflushed(vol)) == vol.nodes;
  }

  lemma EncodedBase(vol: Volume)
    requires Storable(vol)
    ensures Base(Unflushed(vol)) && VolumeOf(Unflushed(vol)) == vol
  {
    hide MarkedFor, DiskFor, InodeFor, NodeStorable, Bit, InodeUsed, Owns;
    EncodedInodes(vol);
    EncodedView(vol);
    forall b: nat
      ensures Bit(Unflushed(vol).bitmap, b) <==> exists i :: Owns(Unflushed(vol), i, b)
    {
      EncodedBits(vol, b);
    }
  }

  function Encode(vol: Volume): Fs
    requires Storable(vol)
  {
    Flushed(Unflushed(vol))
  }

  /** A well-formed volume is read off the state it is encoded in, and that state is consistent. */
  lemma EncodeTheorem(vol: Volume)
    requires Storable(vol) && WellFormed(vol.nodes)
    ensures Inv(Encode(vol)) && VolumeOf(Encode(vol)) == vol
  {
    hide WellFormed;
    var s := Unflushed(vol);
    EncodedBase(vol);
    SuperRoundTrip(s.sb);
    FlushedInv(s, s);
  }

  lemma NamesStorable(s: Fs, d: nat, k: nat)
    requires Base(s) && WellFormed(View(s)) && d < MAX_INODES && View(s)[d].Dir? && k < SLOTS
    ensures |View(s)[d].slots| == SLOTS && SlotStorable(View(s)[d].slots[k])
  {
    var slot := View(s)[d].slots[k];
    assert View(s)[d] == NodeAt(s, d);
    assert slot.Named? ==> Names(View(s), d, k, slot.inode);
  }

  /** What consistent states stand for is exactly the well-formed volumes that fit the format. */
  lemma StoredIff(vol: Volume)
    ensures (exists s :: Inv(s) && VolumeOf(s) == vol) <==> Storable(vol) && WellFormed(vol.nodes)
  {
    hide WellFormed;
    if Storable(vol) && WellFormed(vol.nodes) {
      EncodeTheorem(vol);
    }
    if s :| Inv(s) && VolumeOf(s) == vol {
      InvStorable(s);
    }
  }

  lemma InvStorable(s: Fs)
    requires Inv(s)
    ensures Storable(VolumeOf(s))
  {
    hide WellFormed, Synced;
    forall i | 0 <= i < MAX_INODES
      ensures NodeStorable(View(s)[i])
    {
      if View(s)[i].Dir? {
        forall k | 0 <= k < SLOTS
          ensures |View(s)[i].slots| == SLOTS && SlotStorable(View(s)[i].slots[k])
        {
          NamesStorable(s, i, k);
        }
      }
      assert View(s)[i] == NodeAt(s, i);
    }
    UsageCountsNodes(s);
  }
}

/** What the recursive removal does to inodes, bitmap and disk, stated on the set of inodes that go. */
module Sweep {
  import opened Bytes
  import opened DirBlock
  import opened Bitmap
  import opened Tree
  import opened TreeEdits
  import opened Storage
  import opened StoredEdits

  /** Block `b` belonged, in `s0`, to an inode of `gone`. */
  predicate Freed(s0: Fs, gone: set<int>, b: int) {
    exists i :: i in gone && Owns(s0, i, b)
  }

  const NO_SCRAP := -1 - DATA_LBA

  /** From `s` to `t` exactly the inodes of `gone` are zeroed, exactly the bits of their blocks
      are cleared and exactly those blocks are overwritten with zeros; only what is in block
      `scrap`, if that is a block, is left open. */
  ghost predicate Swept(s0: Fs, s: Fs, t: Fs, gone: set<int>, scrap: int) {
    && t.sb == s.sb && t.mounted == s.mounted && t.lastError == s.lastError
    && |t.inodes| == |s.inodes| && |t.bitmap| == |s.bitmap| && |t.disk| == |s.disk|
    && (forall i :: 0 <= i < |s.inodes| ==> t.inodes[i] == if i in gone then ZERO_INODE else s.inodes[i])
    && (forall b: nat :: Bit(t.bitmap, b) <==> Bit(s.bitmap, b) && !Freed(s0, gone, b))
    && (forall l :: 0 <= l < |s.disk| && l != DATA_LBA + scrap ==>
          t.disk[l] == if Freed(s0, gone, l - DATA_LBA) then ZERO_BLOCK else s.disk[l])
  }

  /** The inodes of `keep` and their blocks are in `s` what they were in `s0`. */
  ghost predicate Agrees(s0: Fs, s: Fs, keep: set<int>) {
    && s.sb == s0.sb && |s.inodes| == |s0.inodes| && |s.bitmap| == |s0.bitmap| && |s.disk| == |s0.disk|
    && (forall i :: i in keep && InodeUsed(s0, i) ==>
          s.inodes[i] == s0.inodes[i] && DATA_LBA + s0.inodes[i].block < |s.disk|
          && s.disk[DATA_LBA + s0.inodes[i].block] == s0.disk[DATA_LBA + s0.inodes[i].block])
  }

  /** Everything below the first `k` slots of directory `d`. */
  ghost function SweptUpTo(v: Nodes, d: int, k: int): set<int> {
    set i | 0 <= i < |v| && BelowSlots(v, d, k, i)
  }

  ghost predicate BelowSlots(v: Nodes, d: int, k: int, i: int) {
    exists j, c :: 0 <= j < k && Names(v, d, j, c) && i in Subtree(v, c)
  }

  lemma SweptUpToStep(v: Nodes, d: int, k: nat)
    ensures (forall c :: !Names(v, d, k, c)) ==> SweptUpTo(v, d, k + 1) == SweptUpTo(v, d, k)
    ensures forall c :: Names(v, d, k, c) ==> SweptUpTo(v, d, k + 1) == SweptUpTo(v, d, k) + Subtree(v, c)
  {
    if (forall c :: !Names(v, d, k, c)) {
      forall i | i in SweptUpTo(v, d, k + 1)
        ensures i in SweptUpTo(v, d, k)
      {
        var j, c :| 0 <= j < k + 1 && Names(v, d, j, c) && i in Subtree(v, c);
        assert j != k;
      }
      assert SweptUpTo(v, d, k) <= SweptUpTo(v, d, k + 1);
    }
    forall c | Names(v, d, k, c)
      ensures SweptUpTo(v, d, k + 1) == SweptUpTo(v, d, k) + Subtree(v, c)
    {
      forall i | i in SweptUpTo(v, d, k + 1)
        ensures i in SweptUpTo(v, d, k) + Subtree(v, c)
      {
        var j, e :| 0 <= j < k + 1 && Names(v, d, j, e) && i in Subtree(v, e);
        if j == k {
          assert e == c;
        }
      }
    }
  }

  /** What lies below a directory, and not the directory itself, is below one of its slots. */
  lemma SweptAll(v: Nodes, d: nat, n: nat)
    requires WellFormed(v) && Used(v, d) && v[d].Dir? && n == |v[d].slots|
    ensures SweptUpTo(v, d, n) == Subtree(v, d) - {d}
  {
    hide WellFormed;
    forall i | i in Subtree(v, d) - {d}
      ensures i in SweptUpTo(v, d, n)
    {
      BelowIsSwept(v, d, n, i);
    }
    forall i | i in SweptUpTo(v, d, n)
      ensures i in Subtree(v, d) - {d}
    {
      SweptIsBelow(v, d, n, i);
    }
  }

  lemma BelowIsSwept(v: Nodes, d: nat, n: nat, i: int)
    requires WellFormed(v) && Used(v, d) && v[d].Dir? && n == |v[d].slots| && i in Subtree(v, d) && i != d
    ensures i in SweptUpTo(v, d, n)
  {
    assert forall e, k, c :: Names(v, e, k, c) ==> Used(v, c);
    var m: nat :| Descends(v, d, i, m);
    var k, c := FirstStep(v, d, i, m);
  }

  lemma SweptIsBelow(v: Nodes, d: nat, n: nat, i: int)
    requires WellFormed(v) && i in SweptUpTo(v, d, n)
    ensures i in Subtree(v, d) && i != d
  {
    hide WellFormed;
    var j, c :| 0 <= j < n && Names(v, d, j, c) && i in Subtree(v, c);
    ParentNotBelow(v, d, j, c);
    var m: nat :| Descends(v, c, i, m);
    StepAbove(v, d, j, c, i, m);
  }

  lemma {:induction false} FirstStep(v: Nodes, d: int, i: int, m: nat) returns (k: int, c: int)
    requires Descends(v, d, i, m) && i != d && 0 <= i < |v|
    requires forall e, k, c :: Names(v, e, k, c) ==> Used(v, c)
    ensures Names(v, d, k, c) && i in Subtree(v, c)
    decreases m
  {
    var e :| Child(v, e, i) && Descends(v, d, e, m - 1);
    if e == d {
      k :| Names(v, d, k, i);
      c := i;
      assert Descends(v, i, i, 0);
    } else {
      var l :| Names(v, e, l, i);
      k, c := FirstStep(v, d, e, m - 1);
      var n: nat :| Descends(v, c, e, n);
      assert Descends(v, c, i, n + 1);
    }
  }

  lemma {:induction false} StepAbove(v: Nodes, d: int, k: int, c: int, i: int, m: nat)
    requires Names(v, d, k, c) && Descends(v, c, i, m)
    ensures Descends(v, d, i, m + 1)
    decreases m
  {
    if m == 0 {
      assert Child(v, d, c) && Descends(v, d, d, 0);
    } else {
      var e :| Child(v, e, i) && Descends(v, c, e, m - 1);
      StepAbove(v, d, k, c, e, m - 1);
    }
  }

  /** The subtrees of two different slots are disjoint. */
  lemma SiblingsApart(v: Nodes, d: nat, k: nat, c: int)
    requires WellFormed(v) && Names(v, d, k, c)
    ensures SweptUpTo(v, d, k) !! Subtree(v, c)
  {
    hide WellFormed;
    forall i | i in SweptUpTo(v, d, k)
      ensures i !in Subtree(v, c)
    {
      var j, e :| 0 <= j < k && Names(v, d, j, e) && i in Subtree(v, e);
      var n: nat :| Descends(v, e, i, n);
      if i in Subtree(v, c) {
        var m: nat :| Descends(v, c, i, m);
        OneWayUp(v, d, j, e, k, c, i, n, m);
      }
    }
  }

  /** A node cannot be reached from two different children of one directory. */
  lemma {:induction false} OneWayUp(v: Nodes, d: int, j: int, e: int, k: int, c: int, i: int, n: nat, m: nat)
    requires WellFormed(v) && Names(v, d, j, e) && Names(v, d, k, c) && j != k
    requires Descends(v, e, i, n) && Descends(v, c, i, m)
    ensures false
    decreases n + m
  {
    if n == 0 && m > 0 {
      SameParent(v, d, j, e, c, m);
    } else if n > 0 && m == 0 {
      SameParent(v, d, k, c, e, n);
    } else if n > 0 && m > 0 {
      var x :| Child(v, x, i) && Descends(v, e, x, n - 1);
      var y :| Child(v, y, i) && Descends(v, c, y, m - 1);
      var p :| Names(v, x, p, i);
      var q :| Names(v, y, q, i);
      OneWayUp(v, d, j, e, k, c, x, n - 1, m - 1);
    }
  }

  /** If `e`, named in `d`, lay properly below a sibling `c`, then `d` would too. */
  lemma SameParent(v: Nodes, d: int, j: int, e: int, c: int, m: nat)
    requires WellFormed(v) && Names(v, d, j, e) && Child(v, d, c) && m > 0
    ensures !Descends(v, c, e, m)
  {
    if Descends(v, c, e, m) {
      var x :| Child(v, x, e) && Descends(v, c, x, m - 1);
      var p :| Names(v, x, p, e);
      var k :| Names(v, d, k, c);
      ParentNotBelow(v, d, k, c);
    }
  }

  // ----- composing sweeps -----

  lemma FreedUnion(s0: Fs, a: set<int>, b: set<int>)
    ensures forall x :: Freed(s0, a + b, x) <==> Freed(s0, a, x) || Freed(s0, b, x)
  {
    forall x | Freed(s0, a, x) || Freed(s0, b, x)
      ensures Freed(s0, a + b, x)
    {
      var i :| (i in a || i in b) && Owns(s0, i, x);
      assert i in a + b;
    }
  }

  /** One sweep after another; the scrap block of the second is freed by a later step. */
  lemma SweepMore(s0: Fs, s: Fs, t: Fs, u: Fs, a: set<int>, b: set<int>, scrap: int)
    requires Swept(s0, s, t, a, NO_SCRAP) && Swept(s0, t, u, b, scrap)
    ensures Swept(s0, s, u, a + b, scrap)
  {
    FreedUnion(s0, a, b);
  }

  /** Freeing the top of a subtree: its bit, its block (whatever is in it) and its inode. */
  function TopFreed(t: Fs, i: nat): Fs
    requires i < |t.inodes| && t.inodes[i].block / 8 < |t.bitmap| && DATA_LBA + t.inodes[i].block < |t.disk|
  {
    WithData(Released(t, i), t.inodes[i].block, ZERO_BLOCK)
  }

  lemma SweepTop(s0: Fs, s: Fs, t: Fs, rest: set<int>, i: nat, all: set<int>)
    requires Base(s0) && Agrees(s0, s, all) && InodeUsed(s0, i) && i !in rest && all == rest + {i}
    requires forall j :: j in rest ==> InodeUsed(s0, j)
    requires Swept(s0, s, t, rest, s0.inodes[i].block)
    ensures t.inodes[i] == s0.inodes[i] && Swept(s0, s, TopFreed(t, i), all, NO_SCRAP)
  {
    var u := TopFreed(t, i);
    var b := s0.inodes[i].block;
    assert Owns(s0, i, b);
    FreedUnion(s0, rest, {i});
    assert forall x :: Freed(s0, {i}, x) <==> x == b by {
      assert forall x, j :: Owns(s0, j, x) && j in {i} ==> x == b;
      assert i in {i};
    }
  }

  /** Sweeping some subtree leaves the nodes of a disjoint one as they were. */
  lemma SweepKeeps(s0: Fs, s: Fs, t: Fs, gone: set<int>, keep: set<int>)
    requires Base(s0) && Agrees(s0, s, keep) && Swept(s0, s, t, gone, NO_SCRAP) && keep !! gone
    ensures Agrees(s0, t, keep)
  {
    forall i | i in keep && InodeUsed(s0, i)
      ensures !Freed(s0, gone, s0.inodes[i].block)
    {
      assert Owns(s0, i, s0.inodes[i].block);
    }
  }

  /** A sweep of a whole well-formed state frees exactly the swept nodes and keeps the storage
      invariant. */
  lemma SweptBase(s0: Fs, t: Fs, gone: set<int>)
    requires Base(s0) && Swept(s0, s0, t, gone, NO_SCRAP)
    ensures Base(t) && forall i :: 0 <= i < |s0.inodes| ==> View(t)[i] == if i in gone then Free else View(s0)[i]
  {
    hide SlotAt;
    assert forall i :: InodeUsed(t, i) <==> InodeUsed(s0, i) && i !in gone;
    assert forall i, b :: Owns(t, i, b) <==> Owns(s0, i, b) && i !in gone;
    forall i, b | Owns(s0, i, b) && i !in gone
      ensures !Freed(s0, gone, b)
    {
    }
    forall b: nat | 1 <= b < t.sb.blockCount
      ensures Bit(t.bitmap, b) <==> exists i :: Owns(t, i, b)
    {
      if Bit(t.bitmap, b) {
        var i :| Owns(s0, i, b);
        assert Owns(t, i, b);
      }
    }
    forall i | 0 <= i < |s0.inodes|
      ensures View(t)[i] == if i in gone then Free else View(s0)[i]
    {
      if InodeUsed(s0, i) && i !in gone {
        assert Owns(s0, i, s0.inodes[i].block);
        assert NodeAt(t, i) == NodeAt(s0, i);
      }
    }
  }

  lemma AgreesLess(s0: Fs, s: Fs, more: set<int>, less: set<int>)
    requires Agrees(s0, s, more) && less <= more
    ensures Agrees(s0, s, less)
  {
  }

  /** A child's subtree is a proper part of its directory's. */
  lemma SubtreeShrinks(v: Nodes, d: nat, k: nat, c: int)
    requires WellFormed(v) && Names(v, d, k, c)
    ensures Subtree(v, c) < Subtree(v, d)
  {
    ParentNotBelow(v, d, k, c);
    assert Descends(v, d, d, 0);
    forall i | i in Subtree(v, c)
      ensures i in Subtree(v, d)
    {
      var m: nat :| Descends(v, c, i, m);
      StepAbove(v, d, k, c, i, m);
    }
  }

  /** Every node of the subtree of a named node is a used one other than the root. */
  lemma SubtreeUsed(s: Fs, c: int)
    requires Base(s) && WellFormed(View(s)) && Used(View(s), c) && c != 0
    ensures c in Subtree(View(s), c) && 0 !in Subtree(View(s), c)
    ensures forall i :: i in Subtree(View(s), c) ==> InodeUsed(s, i)
  {
    var v := View(s);
    var p := Parent(v, c);
    ParentNotBelow(v, p.0, p.1, c);
  }

  // ----- the whole removal -----

  /** After a sweep of a subtree, clearing its entry and flushing give the pruned tree. */
  lemma SweptInv(s: Fs, t: Fs, d: nat, k: nat, i: nat)
    requires Inv(s) && Names(View(s), d, k, i) && Swept(s, s, t, Subtree(View(s), i), NO_SCRAP)
    ensures Base(t) && InodeUsed(t, d) && t.inodes[d] == s.inodes[d] && DataOf(t, d) == DataOf(s, d)
    ensures var u := Flushed(Unlinked(t, d, k));
            Inv(u) && View(u) == Prune(View(s), d, k, Subtree(View(s), i))
  {
    hide WellFormed, Synced, Swept, DecodeSuper, Slots, View;
    var v := View(s);
    var gone := Subtree(v, i);
    ParentNotBelow(v, d, k, i);
    SweptBase(s, t, gone);
    SweptParent(s, t, d, gone);
    SweptSuper(s, t, gone);
    UnlinkedView(t, d, k);
    PruneKeeps(v, d, k, i);
    assert View(Unlinked(t, d, k)) == Prune(v, d, k, gone);
    FlushedInv(s, Unlinked(t, d, k));
  }

  /** A directory outside the sweep keeps its inode and its block. */
  lemma SweptParent(s: Fs, t: Fs, d: nat, gone: set<int>)
    requires Base(s) && Base(t) && IsDir(s, d) && d !in gone && Swept(s, s, t, gone, NO_SCRAP)
    ensures t.inodes[d] == s.inodes[d] && DataOf(t, d) == DataOf(s, d)
  {
    assert Owns(s, d, s.inodes[d].block);
    assert !Freed(s, gone, s.inodes[d].block);
  }

  lemma SweptSuper(s: Fs, t: Fs, gone: set<int>)
    requires Base(s) && Swept(s, s, t, gone, NO_SCRAP)
    ensures SameSuper(s, t)
  {
    forall i | i in gone && InodeUsed(s, i)
      ensures s.inodes[i].block != SUPER_LBA - DATA_LBA
    {
    }
  }

  /** When the loop over a directory comes to a child, nothing in the child's subtree has been
      touched yet. */
  lemma ChildAgrees(s0: Fs, s: Fs, t: Fs, d: nat, k: nat, c: nat)
    requires Base(s0) && WellFormed(View(s0)) && Names(View(s0), d, k, c)
    requires Agrees(s0, s, Subtree(View(s0), d)) && Swept(s0, s, t, SweptUpTo(View(s0), d, k), NO_SCRAP)
    ensures Agrees(s0, t, Subtree(View(s0), c)) && Subtree(View(s0), c) < Subtree(View(s0), d)
    ensures Used(View(s0), c) && c != 0
  {
    var v := View(s0);
    SubtreeShrinks(v, d, k, c);
    SiblingsApart(v, d, k, c);
    AgreesLess(s0, s, Subtree(v, d), Subtree(v, c));
    SweepKeeps(s0, s, t, SweptUpTo(v, d, k), Subtree(v, c));
  }

  /** Clearing one entry of a directory block leaves the others. */
  function Emptied(block: Block, k: nat): (r: Block)
    requires k < SLOTS
    ensures forall j :: 0 <= j < SLOTS && j != k ==> SlotAt(r, j) == SlotAt(block, j)
  {
    ClearEntrySlots(block, k);
    assert forall j :: 0 <= j < SLOTS ==> Slots(ClearEntry(block, k))[j] == SlotAt(ClearEntry(block, k), j);
    assert forall j :: 0 <= j < SLOTS ==> Slots(block)[j] == SlotAt(block, j);
    ClearEntry(block, k)
  }

  // ----- the loop over one directory -----

  /** Directory `d` is being cleared, from state `s`: what its first `k` slots lead to is gone,
      and the buffered block still has the other slots. */
  ghost predicate Clearing(s0: Fs, s: Fs, t: Fs, d: nat, k: nat, block: Block) {
    && IsDir(s0, d) && |View(s0)[d].slots| == SLOTS
    && Swept(s0, s, t, SweptUpTo(View(s0), d, k), NO_SCRAP)
    && (forall j :: k <= j < SLOTS ==> SlotAt(block, j) == View(s0)[d].slots[j])
  }

  lemma ClearingStarts(s0: Fs, s: Fs, d: nat)
    requires Base(s0) && IsDir(s0, d) && Agrees(s0, s, Subtree(View(s0), d))
    requires WellFormed(View(s0)) && d != 0
    ensures d in Subtree(View(s0), d) && s.inodes[d] == s0.inodes[d] && 1 <= s0.inodes[d].block < s0.sb.blockCount
    ensures DATA_LBA + s.inodes[d].block < |s.disk| && DataOf(s, d) == DataOf(s0, d)
    ensures Clearing(s0, s, s, d, 0, DataOf(s, d))
  {
    SubtreeUsed(s0, d);
    assert SweptUpTo(View(s0), d, 0) == {};
    assert View(s0)[d].slots == Slots(DataOf(s0, d));
  }

  lemma ClearingSkips(s0: Fs, s: Fs, t: Fs, d: nat, k: nat, block: Block)
    requires Clearing(s0, s, t, d, k, block) && k < SLOTS && SlotAt(block, k).Empty?
    ensures Clearing(s0, s, t, d, k + 1, block)
  {
    SweptUpToStep(View(s0), d, k);
  }

  lemma ClearingMeets(s0: Fs, s: Fs, t: Fs, d: nat, k: nat, block: Block)
    requires Base(s0) && WellFormed(View(s0)) && Agrees(s0, s, Subtree(View(s0), d))
    requires Clearing(s0, s, t, d, k, block) && k < SLOTS && SlotAt(block, k).Named?
    ensures var c := SlotAt(block, k).inode;
      && Used(View(s0), c) && c != 0
      && Agrees(s0, t, Subtree(View(s0), c)) && Subtree(View(s0), c) < Subtree(View(s0), d)
  {
    ChildAgrees(s0, s, t, d, k, SlotAt(block, k).inode);
  }

  lemma ClearingStep(s0: Fs, s: Fs, t: Fs, u: Fs, d: nat, k: nat, block: Block)
    requires Clearing(s0, s, t, d, k, block) && k < SLOTS && SlotAt(block, k).Named?
    requires Swept(s0, t, u, Subtree(View(s0), SlotAt(block, k).inode), NO_SCRAP)
    ensures Clearing(s0, s, u, d, k + 1, Emptied(block, k))
  {
    var c := SlotAt(block, k).inode;
    assert Names(View(s0), d, k, c);
    SweptUpToStep(View(s0), d, k);
    SweepMore(s0, s, t, u, SweptUpTo(View(s0), d, k), Subtree(View(s0), c), NO_SCRAP);
  }

  lemma ClearingEnds(s0: Fs, s: Fs, t: Fs, d: nat, block: Block)
    requires Base(s0) && WellFormed(View(s0)) && Agrees(s0, s, Subtree(View(s0), d)) && d != 0
    requires Clearing(s0, s, t, d, SLOTS, block)
    ensures t.inodes[d] == s0.inodes[d] && DATA_LBA + s0.inodes[d].block < |t.disk| && t.sb == s0.sb
    ensures Swept(s0, s, WithData(t, s0.inodes[d].block, block), Subtree(View(s0), d) - {d}, s0.inodes[d].block)
  {
    SweptAll(View(s0), d, SLOTS);
    SubtreeUsed(s0, d);
  }

  // ----- freed blocks -----

  /** Every block whose bit was cleared between two states holds zeros. */
  ghost predicate FreedAreZero(s: Fs, t: Fs) {
    forall b: nat :: 1 <= b < s.sb.blockCount && Bit(s.bitmap, b) && !Bit(t.bitmap, b) && DATA_LBA + b < |t.disk|
      ==> t.disk[DATA_LBA + b] == ZERO_BLOCK
  }

  lemma FileRemovedZero(s: Fs, d: nat, k: nat, i: nat)
    requires Base(s) && IsDir(s, d) && IsFile(s, i) && k < SLOTS
    ensures FreedAreZero(s, Flushed(FileRemoved(s, d, k, i)))
  {
    DistinctBlocks(s, i, d);
  }

  lemma SweptZero(s: Fs, t: Fs, d: nat, k: nat, i: nat)
    requires Inv(s) && Names(View(s), d, k, i) && Swept(s, s, t, Subtree(View(s), i), NO_SCRAP)
    requires Base(t) && t.inodes[d] == s.inodes[d]
    ensures FreedAreZero(s, Flushed(Unlinked(t, d, k)))
  {
    var gone := Subtree(View(s), i);
    ParentNotBelow(View(s), d, k, i);
    assert Owns(s, d, s.inodes[d].block) && !Freed(s, gone, s.inodes[d].block);
  }
}

/** Every run of the kernel heap: the invariant, what stays where it is, and the independence of
    the order of releases. */
module HeapTheorems {
  import opened Basics
  import opened Bytes
  import opened HeapSpec

  /** Tiling and alignment, but free neighbours are allowed. */
  predicate Aligned(bs: Heap, arena: nat) {
    Tiles(bs, arena) && forall i :: 0 <= i < |bs| ==> bs[i].size % 8 == 0
  }

  lemma LiveIn(bs: Heap, i: nat)
    requires i < |bs| && !bs[i].free
    ensures (bs[i].off, bs[i].size) in Lives(bs)
  {
  }

  // ----- allocation -----

  lemma TakeKeeps(bs: Heap, arena: nat, k: nat, size: nat)
    requires ArenaOk(arena) && HeapOk(bs, arena) && k < |bs| && bs[k].free && bs[k].size >= size && size % 8 == 0
    ensures HeapOk(Take(bs, k, size), arena)
    ensures Take(bs, k, size)[k].off == bs[k].off && !Take(bs, k, size)[k].free
    ensures Take(bs, k, size)[k].size == if bs[k].size >= size + 24 then size else bs[k].size
  {
    InsideArena(bs, arena, k);
    var t := Take(bs, k, size);
    if |t| != |bs| {
      SplitKeeps(bs, arena, k, t[k], t[k + 1], t);
    }
  }

  /** Replacing a free block by a live one and a free one that fill its place. */
  lemma SplitKeeps(bs: Heap, arena: nat, k: nat, x: HeapBlock, y: HeapBlock, t: Heap)
    requires HeapOk(bs, arena) && k < |bs| && bs[k].free && t == bs[..k] + [x, y] + bs[k + 1..]
    requires x.off == bs[k].off && y.off == x.End() && y.End() == bs[k].End() && !x.free
    requires x.size % 8 == 0 && y.size % 8 == 0
    ensures HeapOk(t, arena)
  {
    assert forall i :: k + 2 <= i < |t| ==> t[i] == bs[i - 1];
    forall i | 0 < i < |t|
      ensures t[i].off == t[i - 1].End() && (!t[i - 1].free || !t[i].free)
    {
      if i < k {
        assert t[i] == bs[i] && t[i - 1] == bs[i - 1];
      } else if i > k + 2 {
        assert t[i] == bs[i - 1] && t[i - 1] == bs[i - 2];
      }
    }
  }

  /** Taking a block adds one live block and leaves all others as they are. */
  lemma TakeLives(bs: Heap, arena: nat, k: nat, size: nat)
    requires Tiles(bs, arena) && k < |bs| && bs[k].free && bs[k].size >= size
    ensures var t := Take(bs, k, size);
            Lives(t) == Lives(bs) + {(t[k].off, t[k].size)}
  {
    var t := Take(bs, k, size);
    var shift := |t| - |bs|;
    forall e | e in Lives(t)
      ensures e in Lives(bs) + {(t[k].off, t[k].size)}
    {
      var i := LiveIndex(t, e);
      if i < k {
        LiveIn(bs, i);
      } else if i > k {
        LiveIn(bs, i - shift);
      }
    }
    forall e | e in Lives(bs)
      ensures e in Lives(t)
    {
      var i := LiveIndex(bs, e);
      LiveIn(t, if i < k then i else i + shift);
    }
    LiveIn(t, k);
  }

  /** An allocation keeps the invariant and adds the block it hands out to the live ones, at the
      offset of the lowest free block that is large enough: the whole block, unless that has 24
      bytes more, for a header and eight bytes; it fails exactly when there is none or nothing is
      asked for. Live blocks are neither moved nor resized. */
  lemma MallocTheorem(bs: Heap, arena: nat, n: u32)
    requires ArenaOk(arena) && HeapOk(bs, arena)
    ensures var (r, cs) := Malloc(bs, n);
      && HeapOk(cs, arena)
      && (r.None? <==> n == 0 || forall i :: 0 <= i < |bs| ==> !(bs[i].free && bs[i].size >= Align8(n)))
      && (r.None? ==> cs == bs)
      && (r.Some? ==> exists k, size ::
            && 0 <= k < |bs| && bs[k].free && bs[k].size >= size >= Align8(n) && r.value == bs[k].off + HEADER
            && (forall i :: 0 <= i < k ==> !(bs[i].free && bs[i].size >= Align8(n)))
            && size == (if bs[k].size >= Align8(n) + 24 then Align8(n) else bs[k].size)
            && Lives(cs) == Lives(bs) + {(bs[k].off, size)} && !IsLive(bs, r.value) && IsLive(cs, r.value))
  {
    hide Take, Lives;
    var (r, cs) := Malloc(bs, n);
    if r.Some? {
      AlignRounds(n);
      var k := FirstFit(bs, Align8(n), 0).value;
      TakeKeeps(bs, arena, k, Align8(n));
      TakeLives(bs, arena, k, Align8(n));
      var size := cs[k].size;
      assert bs[k].size >= size >= Align8(n);
      assert LiveAt(cs, k, r.value);
      forall j
        ensures !LiveAt(bs, j, r.value)
      {
        if LiveAt(bs, j, r.value) {
          SameOffset(bs, arena, j, k);
        }
      }
    }
  }

  /** A granted block is as large as was asked for if and only if the request does not wrap when
      it is rounded up. */
  lemma GrantedSizeIff(bs: Heap, arena: nat, n: u32, k: nat)
    requires ArenaOk(arena) && HeapOk(bs, arena) && Malloc(bs, n).0.Some?
    requires LiveAt(Malloc(bs, n).1, k, Malloc(bs, n).0.value)
    ensures Malloc(bs, n).1[k].size >= n <==> n <= MAX_REQUEST
  {
    AlignRounds(n);
    var cs := Malloc(bs, n).1;
    var j := FirstFit(bs, Align8(n), 0).value;
    TakeKeeps(bs, arena, j, Align8(n));
    SameOffset(cs, arena, j, k);
    InsideArena(cs, arena, k);
  }

  /** A request of 0xFFFFFFF9 bytes is granted, with a payload of none. */
  lemma WrapHappens()
    ensures Malloc(Initial(65536), 0xFFFF_FFF9).0 == Some(HEADER)
    ensures Malloc(Initial(65536), 0xFFFF_FFF9).1[0] == HeapBlock(0, 0, false)
    ensures Positive(Initial(65536)) && !Positive(Malloc(Initial(65536), 0xFFFF_FFF9).1)
  {
    AlignRounds(0xFFFF_FFF9);
    assert FirstFit(Initial(65536), 0, 0) == Some(0);
  }

  // ----- release -----

  lemma MergeKeeps(bs: Heap, arena: nat, k: nat)
    requires Aligned(bs, arena) && k + 1 < |bs|
    ensures Aligned(Merge(bs, k), arena)
    ensures forall i :: 0 <= i <= k ==> Merge(bs, k)[i].off == bs[i].off && Merge(bs, k)[i].free == bs[i].free
    ensures forall i :: k < i < |bs| - 1 ==> Merge(bs, k)[i] == bs[i + 1]
  {
  }

  lemma MergeLives(bs: Heap, k: nat)
    requires k + 1 < |bs| && bs[k].free && bs[k + 1].free
    ensures Lives(Merge(bs, k)) == Lives(bs)
  {
    var m := Merge(bs, k);
    forall e | e in Lives(m)
      ensures e in Lives(bs)
    {
      var i := LiveIndex(m, e);
      LiveIn(bs, if i < k then i else i + 1);
    }
    forall e | e in Lives(bs)
      ensures e in Lives(m)
    {
      var i := LiveIndex(bs, e);
      LiveIn(m, if i < k then i else i - 1);
    }
  }

  lemma ReleaseLives(bs: Heap, arena: nat, k: nat)
    requires Tiles(bs, arena) && k < |bs| && !bs[k].free
    ensures Lives(bs[k := HeapBlock(bs[k].off, bs[k].size, true)]) == Lives(bs) - {(bs[k].off, bs[k].size)}
  {
    var c := bs[k := HeapBlock(bs[k].off, bs[k].size, true)];
    forall e | e in Lives(c)
      ensures e in Lives(bs) && e != (bs[k].off, bs[k].size)
    {
      var i := LiveIndex(c, e);
      LiveIn(bs, i);
      if bs[i].off == bs[k].off {
        SameOffset(bs, arena, i, k);
      }
    }
    forall e | e in Lives(bs) && e != (bs[k].off, bs[k].size)
      ensures e in Lives(c)
    {
      var i := LiveIndex(bs, e);
      LiveIn(c, i);
    }
  }

  /** Releasing a live block merges it with the free blocks on both sides, keeps the invariant and
      takes exactly that block out of the live ones. */
  lemma ReleaseKeeps(bs: Heap, arena: nat, k: nat)
    requires HeapOk(bs, arena) && k < |bs| && !bs[k].free
    ensures HeapOk(Release(bs, k), arena)
    ensures Lives(Release(bs, k)) == Lives(bs) - {(bs[k].off, bs[k].size)}
  {
    var c := bs[k := HeapBlock(bs[k].off, bs[k].size, true)];
    ReleaseLives(bs, arena, k);
    MergeNextKeeps(c, arena, k);
    MergePrevKeeps(MergeNext(c, k), arena, k);
  }

  /** The only free neighbours are block `k` with those on the listed sides. */
  predicate FreePairsAt(bs: Heap, k: nat, next: bool) {
    forall i :: 0 < i < |bs| && bs[i - 1].free && bs[i].free ==> i == k || (next && i == k + 1)
  }

  lemma MergeNextKeeps(c: Heap, arena: nat, k: nat)
    requires Aligned(c, arena) && k < |c| && c[k].free && FreePairsAt(c, k, true)
    ensures var d := MergeNext(c, k);
            Aligned(d, arena) && d[k].free && Lives(d) == Lives(c) && FreePairsAt(d, k, false)
  {
    if k + 1 < |c| && c[k + 1].free {
      MergeKeeps(c, arena, k);
      MergeLives(c, k);
    }
  }

  lemma MergePrevKeeps(d: Heap, arena: nat, k: nat)
    requires Aligned(d, arena) && k < |d| && d[k].free && FreePairsAt(d, k, false)
    ensures HeapOk(MergePrev(d, k), arena) && Lives(MergePrev(d, k)) == Lives(d)
  {
    if k > 0 && d[k - 1].free {
      MergeKeeps(d, arena, k - 1);
      MergeLives(d, k - 1);
    }
  }

  /** Freeing a live pointer. */
  lemma FreeTheorem(bs: Heap, arena: nat, p: nat, size: nat)
    requires HeapOk(bs, arena) && p >= HEADER && (p - HEADER, size) in Lives(bs)
    ensures IsLive(bs, p) && HeapOk(Free(bs, p), arena)
    ensures Lives(Free(bs, p)) == Lives(bs) - {(p - HEADER, size)}
  {
    var i := LiveIndex(bs, (p - HEADER, size));
    assert LiveAt(bs, i, p);
    var k := IndexFrom(bs, p, 0);
    SameOffset(bs, arena, i, k);
    ReleaseKeeps(bs, arena, k);
  }

  lemma LiveBlock(bs: Heap, p: nat) returns (size: nat)
    requires IsLive(bs, p)
    ensures p >= HEADER && (p - HEADER, size) in Lives(bs)
  {
    var k := IndexFrom(bs, p, 0);
    size := bs[k].size;
    LiveIn(bs, k);
  }

  lemma LiveAgain(bs: Heap, p: nat, size: nat)
    requires p >= HEADER && (p - HEADER, size) in Lives(bs)
    ensures IsLive(bs, p)
  {
    var i := LiveIndex(bs, (p - HEADER, size));
    assert LiveAt(bs, i, p);
  }

  // ----- whole-run consequences of canonicity -----

  /** Two different live blocks can be released in either order with the same result. */
  lemma FreesCommute(bs: Heap, arena: nat, p: nat, q: nat)
    requires HeapOk(bs, arena) && IsLive(bs, p) && IsLive(bs, q) && p != q
    ensures IsLive(Free(bs, p), q) && IsLive(Free(bs, q), p)
    ensures Free(Free(bs, p), q) == Free(Free(bs, q), p)
  {
    hide *;
    var m := LiveBlock(bs, p);
    var n := LiveBlock(bs, q);
    FreeTheorem(bs, arena, p, m);
    FreeTheorem(bs, arena, q, n);
    LiveAgain(Free(bs, p), q, n);
    LiveAgain(Free(bs, q), p, m);
    FreeTheorem(Free(bs, p), arena, q, n);
    FreeTheorem(Free(bs, q), arena, p, m);
    Canonical(Free(Free(bs, p), q), Free(Free(bs, q), p), arena);
  }

  /** Releasing what was just allocated gives back exactly the block list there was, whether the
      block had been split or not, and even when the request had wrapped around. */
  lemma FreeUndoesMalloc(bs: Heap, arena: nat, n: u32)
    requires ArenaOk(arena) && HeapOk(bs, arena) && Malloc(bs, n).0.Some?
    ensures IsLive(Malloc(bs, n).1, Malloc(bs, n).0.value)
    ensures Free(Malloc(bs, n).1, Malloc(bs, n).0.value) == bs
  {
    hide *;
    var (r, cs) := Malloc(bs, n);
    MallocTheorem(bs, arena, n);
    var k: nat, size: nat :|
      && 0 <= k < |bs| && bs[k].size >= size >= Align8(n) && r.value == bs[k].off + HEADER
      && Lives(cs) == Lives(bs) + {(bs[k].off, size)};
    if (bs[k].off, size) in Lives(bs) {
      LiveAgain(bs, r.value, size);
    }
    FreeTheorem(cs, arena, r.value, size);
    assert Lives(Free(cs, r.value)) == Lives(bs);
    Canonical(Free(cs, r.value), bs, arena);
  }

  /** A heap without live blocks is the single initial free block, whatever happened before. */
  lemma EmptyIsInitial(bs: Heap, arena: nat)
    requires ArenaOk(arena) && HeapOk(bs, arena) && Lives(bs) == {}
    ensures bs == Initial(arena)
  {
    assert Lives(Initial(arena)) == {};
    Canonical(bs, Initial(arena), arena);
  }

  // ----- runs -----

  datatype HeapOp = Alloc(n: u32) | Dealloc(p: nat)

  /** What a caller may ask for: anything may be allocated, and null or a live pointer released. */
  ghost predicate StepLegal(bs: Heap, op: HeapOp) {
    op.Dealloc? ==> op.p == 0 || IsLive(bs, op.p)
  }

  ghost function StepHeap(bs: Heap, op: HeapOp): Heap
    requires StepLegal(bs, op)
  {
    match op
    case Alloc(n) => Malloc(bs, n).1
    case Dealloc(p) => if p == 0 then bs else Free(bs, p)
  }

  /** Every pointer the run releases is, at that moment, null or live: none is released twice. */
  ghost predicate Legal(bs: Heap, ops: seq<HeapOp>)
    decreases |ops|
  {
    ops == [] || (StepLegal(bs, ops[0]) && Legal(StepHeap(bs, ops[0]), ops[1..]))
  }

  ghost function RunHeap(bs: Heap, ops: seq<HeapOp>): Heap
    requires Legal(bs, ops)
    decreases |ops|
  {
    if ops == [] then bs else RunHeap(StepHeap(bs, ops[0]), ops[1..])
  }

  /** One call keeps the invariant, and every live block but the one it releases. */
  lemma StepKeepsHeap(bs: Heap, arena: nat, op: HeapOp)
    requires ArenaOk(arena) && HeapOk(bs, arena) && StepLegal(bs, op)
    ensures HeapOk(StepHeap(bs, op), arena)
    ensures forall e :: e in Lives(bs) && op != Dealloc(e.0 + HEADER) ==> e in Lives(StepHeap(bs, op))
  {
    match op {
      case Alloc(n) => MallocTheorem(bs, arena, n);
      case Dealloc(p) =>
        if p != 0 {
          var size := LiveBlock(bs, p);
          FreeTheorem(bs, arena, p, size);
        }
    }
  }

  /** In every state of every legal run the blocks tile the arena, aligned and without free neighbours. */
  lemma {:induction false} RunKeepsHeap(bs: Heap, arena: nat, ops: seq<HeapOp>)
    requires ArenaOk(arena) && HeapOk(bs, arena) && Legal(bs, ops)
    ensures HeapOk(RunHeap(bs, ops), arena)
    decreases |ops|
  {
    if ops != [] {
      StepKeepsHeap(bs, arena, ops[0]);
      RunKeepsHeap(StepHeap(bs, ops[0]), arena, ops[1..]);
    }
  }

  /** A live block stays where it is, with its size, through every legal run that does not release it. */
  lemma {:induction false} LiveBlockStays(bs: Heap, arena: nat, ops: seq<HeapOp>, off: nat, size: nat)
    requires ArenaOk(arena) && HeapOk(bs, arena) && Legal(bs, ops) && (off, size) in Lives(bs)
    requires forall i :: 0 <= i < |ops| ==> ops[i] != Dealloc(off + HEADER)
    ensures (off, size) in Lives(RunHeap(bs, ops))
    decreases |ops|
  {
    if ops != [] {
      StepKeepsHeap(bs, arena, ops[0]);
      LiveBlockStays(StepHeap(bs, ops[0]), arena, ops[1..], off, size);
    }
  }

  // ----- no empty payloads -----

  /** The request wraps to nothing, and the first free block is large enough to split. */
  predicate SplitsToNothing(bs: Heap, n: u32) {
    n > MAX_REQUEST && FirstFit(bs, 0, 0).Some? && bs[FirstFit(bs, 0, 0).value].size >= HEADER + 8
  }

  /** Taking a block leaves an empty payload behind if and only if nothing is asked of a block that
      is split. */
  lemma TakePositiveIff(bs: Heap, arena: nat, k: nat, size: nat)
    requires ArenaOk(arena) && HeapOk(bs, arena) && Positive(bs)
    requires k < |bs| && bs[k].size >= size && size % 8 == 0
    ensures Positive(Take(bs, k, size)) <==> size > 0 || bs[k].size < HEADER + 8
  {
    InsideArena(bs, arena, k);
    var t := Take(bs, k, size);
    var more := |t| - |bs|;
    assert more == 0 || more == 1;
    forall i | 0 <= i < |t| && i != k
      ensures t[i].size > 0
    {
      if i < k {
        assert t[i] == bs[i];
      } else if i > k + more {
        assert t[i] == bs[i - more];
      }
    }
    assert t[k].size == if more == 0 then bs[k].size else size;
  }

  /** An allocation leaves an empty payload behind if and only if its size wraps and the block that
      it takes is split. */
  lemma MallocPositiveIff(bs: Heap, arena: nat, n: u32)
    requires ArenaOk(arena) && HeapOk(bs, arena) && Positive(bs)
    ensures Positive(Malloc(bs, n).1) <==> !SplitsToNothing(bs, n)
  {
    hide Positive, Take, HeapOk;
    AlignRounds(n);
    if Malloc(bs, n).0.Some? {
      TakePositiveIff(bs, arena, FirstFit(bs, Align8(n), 0).value, Align8(n));
    }
  }

  lemma MergePositive(bs: Heap, k: nat)
    requires k + 1 < |bs| && Positive(bs)
    ensures Positive(Merge(bs, k))
  {
  }

  /** Releasing a block leaves no empty payload. */
  lemma FreePositive(bs: Heap, p: nat)
    requires IsLive(bs, p) && Positive(bs)
    ensures Positive(Free(bs, p))
  {
    var k := IndexFrom(bs, p, 0);
    var c := bs[k := HeapBlock(bs[k].off, bs[k].size, true)];
    if k + 1 < |c| && c[k + 1].free {
      MergePositive(c, k);
    }
    if k > 0 && MergeNext(c, k)[k - 1].free {
      MergePositive(MergeNext(c, k), k - 1);
    }
  }

  /** The call splits a block to nothing. */
  predicate StepSplits(bs: Heap, op: HeapOp) {
    op.Alloc? && SplitsToNothing(bs, op.n)
  }

  lemma StepPositiveIff(bs: Heap, arena: nat, op: HeapOp)
    requires ArenaOk(arena) && HeapOk(bs, arena) && StepLegal(bs, op) && Positive(bs)
    ensures Positive(StepHeap(bs, op)) <==> !StepSplits(bs, op)
  {
    match op
    case Alloc(n) => MallocPositiveIff(bs, arena, n);
    case Dealloc(p) =>
      if p != 0 {
        FreePositive(bs, p);
      }
  }

  /** No call of the run splits a block to nothing. */
  ghost predicate NeverSplits(bs: Heap, ops: seq<HeapOp>)
    requires Legal(bs, ops)
    decreases |ops|
  {
    ops == [] || (!StepSplits(bs, ops[0]) && NeverSplits(StepHeap(bs, ops[0]), ops[1..]))
  }

  /** In every state of the run, the first and the last one included, no payload is empty. */
  ghost predicate PositiveThroughout(bs: Heap, ops: seq<HeapOp>)
    requires Legal(bs, ops)
    decreases |ops|
  {
    Positive(bs) && (ops == [] || PositiveThroughout(StepHeap(bs, ops[0]), ops[1..]))
  }

  /** Sizes stay positive through a legal run if and only if no request of it wraps and splits. */
  lemma {:induction false} RunPositiveIff(bs: Heap, arena: nat, ops: seq<HeapOp>)
    requires ArenaOk(arena) && HeapOk(bs, arena) && Legal(bs, ops) && Positive(bs)
    ensures PositiveThroughout(bs, ops) <==> NeverSplits(bs, ops)
    decreases |ops|
  {
    if ops != [] {
      StepKeepsHeap(bs, arena, ops[0]);
      StepPositiveIff(bs, arena, ops[0]);
      if !StepSplits(bs, ops[0]) {
        RunPositiveIff(StepHeap(bs, ops[0]), arena, ops[1..]);
      }
    }
  }

  /** They do through every legal run whose requests are at most 0xFFFFFFF8 bytes. */
  lemma SmallRequestsStayPositive(bs: Heap, arena: nat, ops: seq<HeapOp>)
    requires ArenaOk(arena) && HeapOk(bs, arena) && Legal(bs, ops) && Positive(bs)
    requires forall i :: 0 <= i < |ops| && ops[i].Alloc? ==> ops[i].n <= MAX_REQUEST
    ensures PositiveThroughout(bs, ops)
  {
    SmallNeverSplit(bs, ops);
    RunPositiveIff(bs, arena, ops);
  }

  lemma {:induction false} SmallNeverSplit(bs: Heap, ops: seq<HeapOp>)
    requires Legal(bs, ops)
    requires forall i :: 0 <= i < |ops| && ops[i].Alloc? ==> ops[i].n <= MAX_REQUEST
    ensures NeverSplits(bs, ops)
    decreases |ops|
  {
    if ops != [] {
      SmallNeverSplit(StepHeap(bs, ops[0]), ops[1..]);
    }
  }

  // ----- releasing everything -----

  lemma OthersLive(bs: Heap, arena: nat, p: nat, q: nat)
    requires HeapOk(bs, arena) && IsLive(bs, p)
    ensures IsLive(Free(bs, p), q) <==> q != p && IsLive(bs, q)
  {
    var size := LiveBlock(bs, p);
    FreeTheorem(bs, arena, p, size);
    if IsLive(Free(bs, p), q) {
      var n := LiveBlock(Free(bs, p), q);
      LiveAgain(bs, q, n);
      if q == p {
        var i := LiveIndex(bs, (p - HEADER, size));
        var j := LiveIndex(bs, (p - HEADER, n));
        SameOffset(bs, arena, i, j);
      }
    }
    if q != p && IsLive(bs, q) {
      var n := LiveBlock(bs, q);
      LiveAgain(Free(bs, p), q, n);
    }
  }

  /** A run that only releases. */
  function Releases(ps: seq<nat>): seq<HeapOp> {
    seq(|ps|, i requires 0 <= i < |ps| => Dealloc(ps[i]))
  }

  /** Releasing all live blocks, in any order, is legal and gives back the initial heap. */
  lemma {:induction false} FreeAllRestores(bs: Heap, arena: nat, ps: seq<nat>)
    requires ArenaOk(arena) && HeapOk(bs, arena)
    requires forall p :: p in ps <==> IsLive(bs, p)
    requires forall i, j :: 0 <= i < j < |ps| ==> ps[i] != ps[j]
    ensures Legal(bs, Releases(ps)) && RunHeap(bs, Releases(ps)) == Initial(arena)
    decreases |ps|
  {
    hide HeapOk, Free, IsLive, Lives;
    if ps == [] {
      if e :| e in Lives(bs) {
        LiveAgain(bs, e.0 + HEADER, e.1);
      }
      EmptyIsInitial(bs, arena);
    } else {
      var p := ps[0];
      assert p in ps;
      var size := LiveBlock(bs, p);
      FreeTheorem(bs, arena, p, size);
      forall q
        ensures q in ps[1..] <==> IsLive(Free(bs, p), q)
      {
        OthersLive(bs, arena, p, q);
        assert q in ps <==> q == p || q in ps[1..];
      }
      FreeAllRestores(Free(bs, p), arena, ps[1..]);
      assert Releases(ps)[1..] == Releases(ps[1..]) && Releases(ps)[0] == Dealloc(p);
    }
  }

  // ----- where the live blocks are -----

  /** The payloads of two live blocks never overlap, and each lies inside the arena. */
  lemma LivesDisjoint(bs: Heap, arena: nat, d: (nat, nat), e: (nat, nat))
    requires HeapOk(bs, arena) && d in Lives(bs) && e in Lives(bs) && d != e
    ensures d.0 + HEADER + d.1 <= e.0 || e.0 + HEADER + e.1 <= d.0
    ensures d.0 + HEADER + d.1 <= arena && e.0 + HEADER + e.1 <= arena
  {
    var i := LiveIndex(bs, d);
    var j := LiveIndex(bs, e);
    InsideArena(bs, arena, i);
    InsideArena(bs, arena, j);
    if i < j {
      OffsetsGrow(bs, arena, i, j);
    } else {
      OffsetsGrow(bs, arena, j, i);
    }
  }

  function TotalSize(bs: Heap): nat {
    if bs == [] then 0 else HEADER + bs[0].size + TotalSize(bs[1..])
  }

  /** Payloads and headers together always make up the arena. */
  lemma {:induction false} SizesAddUp(bs: Heap, lo: nat, hi: nat)
    requires |bs| > 0 && bs[0].off == lo && bs[|bs| - 1].End() == hi
    requires forall i :: 0 < i < |bs| ==> bs[i].off == bs[i - 1].End()
    ensures TotalSize(bs) == hi - lo
    decreases |bs|
  {
    if |bs| > 1 {
      SizesAddUp(bs[1..], bs[0].End(), hi);
    }
  }
}

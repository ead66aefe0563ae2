/** The allocator itself: block headers inside the arena, linked both ways and changed in place. */
module KernelHeap {
  import opened Basics
  import opened Bytes
  import opened HeapSpec
  import opened HeapTheorems

  /** A block header; the links are header offsets, -1 for none. */
  datatype Header = Header(size: nat, free: bool, next: int, prev: int)

  lemma HeapTiles(bs: Heap, arena: nat)
    requires HeapOk(bs, arena)
    ensures Aligned(bs, arena) && |bs| > 0 && bs[0].off == 0
  {
  }

  lemma StateAligned(bs: Heap, arena: nat, k: nat, free: bool)
    requires Aligned(bs, arena) && k < |bs|
    ensures Aligned(bs[k := HeapBlock(bs[k].off, bs[k].size, free)], arena)
  {
  }

  /** The offset of block `i`, or -1 outside the list. */
  function OffsetOf(bs: Heap, i: int): int {
    if 0 <= i < |bs| then bs[i].off else -1
  }

  function HeaderOf(bs: Heap, i: nat): Header
    requires i < |bs|
  {
    Header(bs[i].size, bs[i].free, OffsetOf(bs, i + 1), OffsetOf(bs, i - 1))
  }

  /** The headers at the offsets of the blocks hold their sizes and states and link them both ways. */
  ghost predicate Linked(h: seq<Header>, bs: Heap) {
    LinkedBut(h, bs, {})
  }

  /** All headers are right except perhaps those of the blocks in `stale`. */
  ghost predicate LinkedBut(h: seq<Header>, bs: Heap, stale: set<int>) {
    forall i :: 0 <= i < |bs| && i !in stale ==> HeaderRight(h, bs, i)
  }

  predicate HeaderRight(h: seq<Header>, bs: Heap, i: nat)
    requires i < |bs|
  {
    bs[i].off < |h| && h[bs[i].off] == HeaderOf(bs, i)
  }

  /** What the headers say about block `k` and its neighbours. */
  lemma NextIs(h: seq<Header>, bs: Heap, k: nat)
    requires Linked(h, bs) && k < |bs|
    ensures bs[k].off < |h| && h[bs[k].off] == HeaderOf(bs, k)
    ensures k + 1 < |bs| ==> bs[k + 1].off < |h| && h[bs[k + 1].off] == HeaderOf(bs, k + 1)
    ensures k + 2 < |bs| ==> bs[k + 2].off < |h| && h[bs[k + 2].off] == HeaderOf(bs, k + 2)
    ensures k > 0 ==> bs[k - 1].off < |h| && h[bs[k - 1].off] == HeaderOf(bs, k - 1)
  {
    assert HeaderRight(h, bs, k);
    assert k + 1 < |bs| ==> HeaderRight(h, bs, k + 1);
    assert k + 2 < |bs| ==> HeaderRight(h, bs, k + 2);
    assert k > 0 ==> HeaderRight(h, bs, k - 1);
  }

  lemma NextInside(bs: Heap, arena: nat, k: nat)
    requires Aligned(bs, arena) && k < |bs|
    ensures bs[k].off < bs[k].End() <= arena
    ensures OffsetOf(bs, k + 1) == -1 || bs[k].End() == OffsetOf(bs, k + 1) < arena
  {
    InsideArena(bs, arena, k);
    if k + 1 < |bs| {
      InsideArena(bs, arena, k + 1);
    }
  }

  /** Storing the right header for one more block. */
  lemma StoreFixes(h: seq<Header>, bs: Heap, arena: nat, stale: set<int>, j: nat)
    requires Aligned(bs, arena) && |h| == arena && LinkedBut(h, bs, stale) && j < |bs|
    ensures bs[j].off < arena && LinkedBut(h[bs[j].off := HeaderOf(bs, j)], bs, stale - {j})
  {
    InsideArena(bs, arena, j);
    forall i | 0 <= i < |bs| && i !in stale - {j}
      ensures HeaderRight(h[bs[j].off := HeaderOf(bs, j)], bs, i)
    {
      if i != j {
        assert HeaderRight(h, bs, i);
        if bs[i].off == bs[j].off {
          SameOffset(bs, arena, i, j);
        }
      }
    }
  }

  /** After a split all headers are right but those of the two parts and of the block behind them. */
  lemma SplitStale(h: seq<Header>, bs: Heap, arena: nat, k: nat, size: nat)
    requires Linked(h, bs) && k < |bs| && bs[k].size >= size
    ensures LinkedBut(h, Take(bs, k, size), {k, k + 1, k + 2})
  {
    var t := Take(bs, k, size);
    forall i | 0 <= i < |t| && i !in {k, k + 1, k + 2}
      ensures HeaderRight(h, t, i)
    {
      assert HeaderRight(h, bs, if i < k || |t| == |bs| then i else i - 1);
      if i < k {
        assert t[i] == bs[i];
      } else if |t| > |bs| {
        assert t[i] == bs[i - 1] && t[i - 1] == bs[i - 2];
      }
    }
  }

  lemma WholeStale(h: seq<Header>, bs: Heap, arena: nat, k: nat, b: HeapBlock)
    requires Linked(h, bs) && k < |bs| && b.off == bs[k].off
    ensures LinkedBut(h, bs[k := b], {k})
  {
    var t := bs[k := b];
    forall i | 0 <= i < |t| && i !in {k}
      ensures HeaderRight(h, t, i)
    {
      assert HeaderRight(h, bs, i);
    }
  }

  lemma MergeStale(h: seq<Header>, bs: Heap, k: nat)
    requires Linked(h, bs) && k + 1 < |bs|
    ensures LinkedBut(h, Merge(bs, k), {k, k + 1})
  {
    var t := Merge(bs, k);
    forall i | 0 <= i < |t| && i !in {k, k + 1}
      ensures HeaderRight(h, t, i)
    {
      assert HeaderRight(h, bs, if i < k then i else i + 1);
      if i < k {
        assert t[i] == bs[i];
      } else {
        assert t[i] == bs[i + 1] && t[i - 1] == bs[i];
      }
    }
  }

  lemma LinkedAll(h: seq<Header>, bs: Heap, stale: set<int>)
    requires LinkedBut(h, bs, stale) && forall i :: i in stale ==> i < 0 || i >= |bs|
    ensures Linked(h, bs)
  {
  }

  /** The headers of a merged heap: the swallowing block's, and the back link of the one behind. */
  ghost function MergedHeaders(h: seq<Header>, bs: Heap, k: nat): (g: seq<Header>)
    requires k + 1 < |bs| && bs[k].off < |h| && OffsetOf(bs, k + 2) < |h|
  {
    var a, n := bs[k].off, OffsetOf(bs, k + 2);
    var g := h[a := Header(bs[k].size + HEADER + bs[k + 1].size, bs[k].free, n, OffsetOf(bs, k - 1))];
    if n == -1 then g else g[n := HeaderOf(bs, k + 2).(prev := a)]
  }

  lemma MergeLinked(h: seq<Header>, bs: Heap, arena: nat, k: nat)
    requires Aligned(bs, arena) && |h| == arena && Linked(h, bs) && k + 1 < |bs|
    ensures bs[k].off < arena && OffsetOf(bs, k + 2) < arena
    ensures Linked(MergedHeaders(h, bs, k), Merge(bs, k))
  {
    hide Linked, LinkedBut, Aligned;
    NextInside(bs, arena, k);
    NextInside(bs, arena, k + 1);
    var t := Merge(bs, k);
    MergeKeeps(bs, arena, k);
    MergeStale(h, bs, k);
    StoreFixes(h, t, arena, {k, k + 1}, k);
    var g := h[t[k].off := HeaderOf(t, k)];
    if k + 1 < |t| {
      StoreFixes(g, t, arena, {k, k + 1} - {k}, k + 1);
      LinkedAll(g[t[k + 1].off := HeaderOf(t, k + 1)], t, {k, k + 1} - {k} - {k + 1});
    } else {
      LinkedAll(g, t, {k, k + 1} - {k});
    }
  }

  /** The headers after a split: the split-off part, the back link behind it, the taken part. */
  ghost function SplitHeaders(h: seq<Header>, bs: Heap, k: nat, size: nat): (g: seq<Header>)
    requires k < |bs| && bs[k].End() <= |h| && OffsetOf(bs, k + 1) < |h| && bs[k].size >= size + HEADER + 8
  {
    var cur, split, n := bs[k].off, bs[k].off + HEADER + size, OffsetOf(bs, k + 1);
    var g := h[split := Header(bs[k].size - size - HEADER, true, n, cur)];
    var g' := if n == -1 then g else g[n := HeaderOf(bs, k + 1).(prev := split)];
    g'[cur := Header(size, false, split, OffsetOf(bs, k - 1))]
  }

  lemma SplitLinked(h: seq<Header>, bs: Heap, arena: nat, k: nat, size: nat)
    requires ArenaOk(arena) && HeapOk(bs, arena) && |h| == arena && Linked(h, bs)
    requires k < |bs| && bs[k].free && size % 8 == 0 && bs[k].size >= size + HEADER + 8
    ensures bs[k].End() <= arena && OffsetOf(bs, k + 1) < arena
    ensures Linked(SplitHeaders(h, bs, k, size), Take(bs, k, size))
  {
    hide Linked, LinkedBut, HeapOk, Aligned;
    var t := Take(bs, k, size);
    HeapTiles(bs, arena);
    NextInside(bs, arena, k);
    TakeKeeps(bs, arena, k, size);
    HeapTiles(t, arena);
    SplitStale(h, bs, arena, k, size);
    StoreFixes(h, t, arena, {k, k + 1, k + 2}, k + 1);
    var g := h[t[k + 1].off := HeaderOf(t, k + 1)];
    if k + 2 < |t| {
      assert t[k + 2] == bs[k + 1];
      StoreFixes(g, t, arena, {k, k + 1, k + 2} - {k + 1}, k + 2);
      var g' := g[t[k + 2].off := HeaderOf(t, k + 2)];
      StoreFixes(g', t, arena, {k, k + 1, k + 2} - {k + 1} - {k + 2}, k);
      LinkedAll(g'[t[k].off := HeaderOf(t, k)], t, {k, k + 1, k + 2} - {k + 1} - {k + 2} - {k});
    } else {
      StoreFixes(g, t, arena, {k, k + 1, k + 2} - {k + 1}, k);
      LinkedAll(g[t[k].off := HeaderOf(t, k)], t, {k, k + 1, k + 2} - {k + 1} - {k});
    }
  }

  /** Changing the state of one block in place. */
  lemma StateLinked(h: seq<Header>, bs: Heap, arena: nat, k: nat, free: bool)
    requires Aligned(bs, arena) && |h| == arena && Linked(h, bs) && k < |bs|
    ensures bs[k].off < arena
    ensures Linked(h[bs[k].off := HeaderOf(bs, k).(free := free)], bs[k := HeapBlock(bs[k].off, bs[k].size, free)])
  {
    var t := bs[k := HeapBlock(bs[k].off, bs[k].size, free)];
    StateAligned(bs, arena, k, free);
    WholeStale(h, bs, arena, k, t[k]);
    StoreFixes(h, t, arena, {k}, k);
    LinkedAll(h[t[k].off := HeaderOf(t, k)], t, {k} - {k});
  }

  class KernelHeap {
    /** The header stored at each offset of the arena. */
    const headers: array<Header>
    const arena: nat
    /** The offset of the first header, -1 before the first allocation. */
    var head: int
    ghost var blocks: Heap

    ghost predicate Valid()
      reads this, headers
    {
      && ArenaOk(arena) && headers.Length == arena
      && HeapOk(blocks, arena)
      && (head == -1 || head == 0)
      && (head == -1 ==> blocks == Initial(arena))
      && (head == 0 ==> Linked(headers[..], blocks))
    }

    constructor (size: nat)
      requires ArenaOk(size)
      ensures Valid() && arena == size && blocks == Initial(size) && fresh(headers)
    {
      headers := new Header[size];
      arena := size;
      head := -1;
      blocks := Initial(size);
    }

    method HeapInit()
      requires Valid()
      modifies this`head, headers
      ensures Valid() && head == 0 && blocks == old(blocks)
    {
      if head != -1 {
        return;
      }
      head := 0;
      headers[0] := Header(arena - HEADER, true, -1, -1);
    }

    /** Allocate: the payload offset, or 0 when no free block is large enough. */
    method Kmalloc(n: u32) returns (p: nat)
      requires Valid()
      modifies this, headers
      ensures Valid()
      ensures blocks == Malloc(old(blocks), n).1
      ensures p == match Malloc(old(blocks), n).0 case None => 0 case Some(q) => q
    {
      hide HeapOk, Linked, Aligned, Take;
      if n == 0 {
        return 0;
      }
      HeapInit();
      var size := Align8(n);
      var cur := head;
      ghost var k := 0;
      MallocTheorem(blocks, arena, n);
      AlignRounds(n);
      HeapTiles(blocks, arena);
      while cur != -1
        invariant Valid() && head == 0 && blocks == old(blocks)
        invariant 0 <= k <= |blocks| && cur == OffsetOf(blocks, k)
        invariant FirstFit(blocks, size, 0) == FirstFit(blocks, size, k)
        decreases |blocks| - k
      {
        HeapTiles(blocks, arena);
        NextInside(blocks, arena, k);
        NextIs(headers[..], blocks, k);
        if headers[cur].free && headers[cur].size >= size {
          TakeBlock(cur, size, k);
          return cur + HEADER;
        }
        cur := headers[cur].next;
        k := k + 1;
      }
      return 0;
    }

    /** Mark a free block as used, splitting off the rest when it can hold a header and 8 bytes. */
    method TakeBlock(cur: nat, size: nat, ghost k: nat)
      requires Valid() && head == 0 && k < |blocks| && cur == blocks[k].off
      requires blocks[k].free && size % 8 == 0 && blocks[k].size >= size
      modifies this`blocks, headers
      ensures Valid() && blocks == Take(old(blocks), k, size)
    {
      hide HeapOk;
      ghost var bs := blocks;
      TakeKeeps(bs, arena, k, size);
      HeapTiles(bs, arena);
      NextInside(bs, arena, k);
      NextIs(headers[..], bs, k);
      if headers[cur].size >= (size + HEADER + 8) % WORD {
        SplitBlock(cur, size, k);
      } else {
        StateLinked(headers[..], bs, arena, k, false);
        headers[cur] := headers[cur].(free := false);
        blocks := Take(bs, k, size);
      }
    }

    /** Split the block behind the payload that is wanted and mark its first part as used. */
    method SplitBlock(cur: nat, size: nat, ghost k: nat)
      requires ArenaOk(arena) && headers.Length == arena && HeapOk(blocks, arena) && Linked(headers[..], blocks)
      requires k < |blocks| && cur == blocks[k].off && blocks[k].free
      requires size % 8 == 0 && blocks[k].size >= size + HEADER + 8
      modifies this`blocks, headers
      ensures Linked(headers[..], blocks) && blocks == Take(old(blocks), k, size)
    {
      hide HeapOk, Linked, Aligned;
      ghost var bs, h := blocks, headers[..];
      HeapTiles(bs, arena);
      NextInside(bs, arena, k);
      SplitLinked(h, bs, arena, k, size);
      NextIs(h, bs, k);
      var split := cur + HEADER + size;
      var next := headers[cur].next;
      headers[split] := Header(headers[cur].size - size - HEADER, true, next, cur);
      if next != -1 {
        headers[next] := headers[next].(prev := split);
      }
      headers[cur] := headers[cur].(size := size);
      headers[cur] := headers[cur].(next := split);
      headers[cur] := headers[cur].(free := false);
      assert headers[..] == SplitHeaders(h, bs, k, size);
      blocks := Take(bs, k, size);
    }

    /** Release a pointer that an allocation handed out and that is still live, or null. */
    method Kfree(p: nat)
      requires Valid() && (p == 0 || IsLive(blocks, p))
      modifies this`blocks, headers
      ensures Valid()
      ensures blocks == if p == 0 then old(blocks) else Free(old(blocks), p)
    {
      if p == 0 {
        return;
      }
      ghost var k := IndexFrom(blocks, p, 0);
      ReleaseBlock(p - HEADER, k);
    }

    method ReleaseBlock(block: nat, ghost k: nat)
      requires Valid() && head == 0 && LiveAt(blocks, k, block + HEADER)
      modifies this`blocks, headers
      ensures Valid() && blocks == Release(old(blocks), k)
    {
      hide HeapOk, Linked, Aligned;
      ghost var bs := blocks;
      HeapTiles(bs, arena);
      ReleaseKeeps(bs, arena, k);
      NextIs(headers[..], bs, k);
      StateLinked(headers[..], bs, arena, k, true);
      headers[block] := headers[block].(free := true);
      blocks := bs[k := HeapBlock(bs[k].off, bs[k].size, true)];
      StateAligned(bs, arena, k, true);
      Coalesce(block, k);
    }

    /** Merge a free block with its free neighbours, first the next one, then the previous one. */
    method Coalesce(block: nat, ghost k: nat)
      requires ArenaOk(arena) && headers.Length == arena
      requires Aligned(blocks, arena) && Linked(headers[..], blocks)
      requires k < |blocks| && block == blocks[k].off && blocks[k].free
      modifies this`blocks, headers
      ensures Linked(headers[..], blocks)
      ensures blocks == MergePrev(MergeNext(old(blocks), k), k)
    {
      NextInside(blocks, arena, k);
      NextIs(headers[..], blocks, k);
      var next := headers[block].next;
      if next != -1 && headers[next].free {
        MergeKeeps(blocks, arena, k);
        MergeHeaders(block, next, k);
      }
      assert blocks == MergeNext(old(blocks), k);
      NextInside(blocks, arena, k);
      NextIs(headers[..], blocks, k);
      var prev := headers[block].prev;
      if prev != -1 {
        NextInside(blocks, arena, k - 1);
        if headers[prev].free {
          MergeHeaders(prev, block, k - 1);
        }
      }
    }

    /** Let the header at `a` swallow the next one, at `b`. */
    method MergeHeaders(a: nat, b: nat, ghost k: nat)
      requires ArenaOk(arena) && headers.Length == arena
      requires Aligned(blocks, arena) && Linked(headers[..], blocks)
      requires k + 1 < |blocks| && a == blocks[k].off && b == blocks[k + 1].off
      modifies this`blocks, headers
      ensures Linked(headers[..], blocks) && blocks == Merge(old(blocks), k)
    {
      hide Linked, Aligned;
      ghost var bs, h := blocks, headers[..];
      MergeLinked(h, bs, arena, k);
      NextInside(bs, arena, k);
      NextInside(bs, arena, k + 1);
      NextIs(h, bs, k);
      var next := headers[b].next;
      headers[a] := headers[a].(size := headers[a].size + HEADER + headers[b].size);
      headers[a] := headers[a].(next := headers[b].next);
      if next != -1 {
        headers[next] := headers[next].(prev := a);
      }
      assert headers[..] == MergedHeaders(h, bs, k);
      blocks := Merge(bs, k);
    }

    /** One call: what it hands out, or 0. */
    method Execute(op: HeapOp) returns (p: nat)
      requires Valid() && StepLegal(blocks, op)
      modifies this, headers
      ensures Valid() && blocks == StepHeap(old(blocks), op)
      ensures p == if op.Alloc? && Malloc(old(blocks), op.n).0.Some? then Malloc(old(blocks), op.n).0.value else 0
    {
      p := 0;
      match op
      case Alloc(n) => p := Kmalloc(n);
      case Dealloc(q) => Kfree(q);
    }

    /** A whole legal run: after it the linked headers describe exactly the block list that the same
        run makes of the list before. */
    method Session(ops: seq<HeapOp>)
      requires Valid() && Legal(blocks, ops)
      modifies this, headers
      ensures Valid() && blocks == RunHeap(old(blocks), ops)
    {
      var i := 0;
      assert ops[0..] == ops;
      while i < |ops|
        invariant 0 <= i <= |ops| && Valid()
        invariant Legal(blocks, ops[i..]) && RunHeap(blocks, ops[i..]) == RunHeap(old(blocks), ops)
      {
        hide Linked, HeapOk, Malloc;
        assert ops[i..][0] == ops[i] && ops[i..][1..] == ops[i + 1..];
        var p := Execute(ops[i]);
        i := i + 1;
      }
    }
  }
}

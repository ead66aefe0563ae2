/** The kernel heap as the sequence of its blocks in address order: first-fit allocation with
    splitting, release with merging of free neighbours, and what every run keeps. */
module HeapSpec {
  import opened Basics
  import opened Bytes

  const HEADER := 16
  /** The largest request that rounding up to a multiple of eight does not wrap around. */
  const MAX_REQUEST := 0xFFFF_FFF8

  /** A block: the offset of its header in the arena, the size of its payload, its state. */
  datatype HeapBlock = HeapBlock(off: nat, size: nat, free: bool) {
    function End(): nat { off + HEADER + size }
  }

  type Heap = seq<HeapBlock>

  /** (size + 7u) & ~7u */
  function Align8(size: u32): u32 {
    var x := (size + 7) % WORD;
    x - x % 8
  }

  lemma AlignRounds(size: u32)
    ensures Align8(size) % 8 == 0
    ensures size <= MAX_REQUEST ==> size <= Align8(size) < size + 8
    ensures size > MAX_REQUEST ==> Align8(size) == 0
  {
  }

  predicate ArenaOk(arena: nat) {
    arena % 8 == 0 && 24 <= arena < 0x8000_0000
  }

  /** The blocks tile the arena without gap or overlap. */
  predicate Tiles(bs: Heap, arena: nat) {
    && |bs| > 0 && bs[0].off == 0 && bs[|bs| - 1].End() == arena
    && forall i :: 0 < i < |bs| ==> bs[i].off == bs[i - 1].End()
  }

  /** The heap invariant: tiling, payloads of multiples of eight, no two free neighbours. */
  predicate HeapOk(bs: Heap, arena: nat) {
    && Tiles(bs, arena)
    && (forall i :: 0 <= i < |bs| ==> bs[i].size % 8 == 0)
    && (forall i :: 0 < i < |bs| ==> !bs[i - 1].free || !bs[i].free)
  }

  /** No payload is empty; as sizes are multiples of eight, each is of eight bytes or more. */
  predicate Positive(bs: Heap) {
    forall i :: 0 <= i < |bs| ==> bs[i].size > 0
  }

  function Initial(arena: nat): Heap
    requires arena >= HEADER
  {
    [HeapBlock(0, arena - HEADER, true)]
  }

  lemma {:induction false} OffsetsGrow(bs: Heap, arena: nat, i: nat, j: nat)
    requires Tiles(bs, arena) && i < j < |bs|
    ensures bs[i].End() <= bs[j].off
    decreases j
  {
    if i < j - 1 {
      OffsetsGrow(bs, arena, i, j - 1);
    }
  }

  lemma InsideArena(bs: Heap, arena: nat, i: nat)
    requires Tiles(bs, arena) && i < |bs|
    ensures bs[i].End() <= arena
  {
    if i < |bs| - 1 {
      OffsetsGrow(bs, arena, i, |bs| - 1);
    }
  }

  // ----- allocation -----

  /** The lowest free block from index `k` on that is large enough. */
  function FirstFit(bs: Heap, size: nat, k: nat): (r: Option<nat>)
    ensures r.Some? ==> k <= r.value < |bs| && bs[r.value].free && bs[r.value].size >= size
    ensures forall j :: k <= j < (if r.Some? then r.value else |bs|) ==> !(bs[j].free && bs[j].size >= size)
    decreases |bs| - k
  {
    if k >= |bs| then None
    else if bs[k].free && bs[k].size >= size then Some(k)
    else FirstFit(bs, size, k + 1)
  }

  /** Take a free block, splitting off what is left when that can hold a header and eight bytes. */
  function Take(bs: Heap, k: nat, size: nat): (r: Heap)
    requires k < |bs| && bs[k].size >= size
    ensures k < |r|
  {
    var b := bs[k];
    if b.size >= (size + HEADER + 8) % WORD && b.size >= size + HEADER then
      var rest := HeapBlock(b.off + HEADER + size, b.size - size - HEADER, true);
      bs[..k] + [HeapBlock(b.off, size, false), rest] + bs[k + 1..]
    else bs[k := HeapBlock(b.off, b.size, false)]
  }

  /** The payload offset handed out, if any, and the heap afterwards. */
  function Malloc(bs: Heap, n: u32): (Option<nat>, Heap) {
    if n == 0 then (None, bs)
    else match FirstFit(bs, Align8(n), 0)
      case None => (None, bs)
      case Some(k) => (Some(bs[k].off + HEADER), Take(bs, k, Align8(n)))
  }

  // ----- release -----

  /** Merge block `k` with its successor. */
  function Merge(bs: Heap, k: nat): Heap
    requires k + 1 < |bs|
  {
    bs[..k] + [HeapBlock(bs[k].off, bs[k].size + HEADER + bs[k + 1].size, bs[k].free)] + bs[k + 2..]
  }

  function MergeNext(bs: Heap, k: nat): (r: Heap)
    requires k < |bs|
    ensures k < |r|
  {
    if k + 1 < |bs| && bs[k + 1].free then Merge(bs, k) else bs
  }

  function MergePrev(bs: Heap, k: nat): Heap
    requires k < |bs|
  {
    if k > 0 && bs[k - 1].free then Merge(bs, k - 1) else bs
  }

  function Release(bs: Heap, k: nat): Heap
    requires k < |bs|
  {
    MergePrev(MergeNext(bs[k := HeapBlock(bs[k].off, bs[k].size, true)], k), k)
  }

  /** The index of the live block whose payload starts at `p`. */
  predicate LiveAt(bs: Heap, k: int, p: nat) {
    0 <= k < |bs| && !bs[k].free && bs[k].off + HEADER == p
  }

  ghost predicate IsLive(bs: Heap, p: nat) {
    exists k :: LiveAt(bs, k, p)
  }

  function IndexFrom(bs: Heap, p: nat, k: nat): (r: nat)
    requires exists j :: k <= j && LiveAt(bs, j, p)
    ensures LiveAt(bs, r, p)
    decreases |bs| - k
  {
    if LiveAt(bs, k, p) then k else IndexFrom(bs, p, k + 1)
  }

  /** Releasing a live pointer. What the release of any other pointer does to the list is undefined. */
  ghost function Free(bs: Heap, p: nat): Heap
    requires IsLive(bs, p)
  {
    Release(bs, IndexFrom(bs, p, 0))
  }

  // ----- the live blocks -----

  /** Where the live payloads are and how large they are. */
  function Lives(bs: Heap): set<(nat, nat)> {
    set i | 0 <= i < |bs| && !bs[i].free :: (bs[i].off, bs[i].size)
  }

  lemma LiveIndex(bs: Heap, e: (nat, nat)) returns (i: nat)
    requires e in Lives(bs)
    ensures i < |bs| && !bs[i].free && bs[i].off == e.0 && bs[i].size == e.1
  {
    i :| 0 <= i < |bs| && !bs[i].free && (bs[i].off, bs[i].size) == e;
  }

  /** The whole block list is determined by the live blocks alone. */
  lemma Canonical(bs: Heap, cs: Heap, arena: nat)
    requires HeapOk(bs, arena) && HeapOk(cs, arena) && Lives(bs) == Lives(cs)
    ensures bs == cs
  {
    SamePrefix(bs, cs, arena, |bs|);
    SamePrefix(cs, bs, arena, |cs|);
  }

  lemma {:induction false} SamePrefix(bs: Heap, cs: Heap, arena: nat, n: nat)
    requires HeapOk(bs, arena) && HeapOk(cs, arena) && Lives(bs) == Lives(cs) && n <= |bs|
    ensures n <= |cs| && bs[..n] == cs[..n]
    decreases n
  {
    if n > 0 {
      SamePrefix(bs, cs, arena, n - 1);
      InsideArena(bs, arena, n - 1);
      if n > 1 {
        assert bs[..n - 1][n - 2] == cs[..n - 1][n - 2];
      }
      assert n - 1 < |cs| && cs[n - 1].off == bs[n - 1].off;
      SameBlock(bs, cs, arena, n - 1);
      assert bs[..n] == bs[..n - 1] + [bs[n - 1]] && cs[..n] == cs[..n - 1] + [cs[n - 1]];
    }
  }

  lemma SameBlock(bs: Heap, cs: Heap, arena: nat, i: nat)
    requires HeapOk(bs, arena) && HeapOk(cs, arena) && Lives(bs) == Lives(cs)
    requires i < |bs| && i < |cs| && bs[i].off == cs[i].off
    ensures bs[i] == cs[i]
  {
    if !bs[i].free {
      LiveInBoth(bs, cs, arena, i);
    } else if !cs[i].free {
      LiveInBoth(cs, bs, arena, i);
    } else {
      NotShorter(bs, cs, arena, i);
      NotShorter(cs, bs, arena, i);
    }
  }

  lemma LiveInBoth(bs: Heap, cs: Heap, arena: nat, i: nat)
    requires HeapOk(bs, arena) && HeapOk(cs, arena) && Lives(bs) == Lives(cs)
    requires i < |bs| && i < |cs| && bs[i].off == cs[i].off && !bs[i].free
    ensures bs[i] == cs[i]
  {
    assert (bs[i].off, bs[i].size) in Lives(bs);
    var j := LiveIndex(cs, (bs[i].off, bs[i].size));
    SameOffset(cs, arena, i, j);
  }

  lemma SameOffset(bs: Heap, arena: nat, i: nat, j: nat)
    requires Tiles(bs, arena) && i < |bs| && j < |bs| && bs[i].off == bs[j].off
    ensures i == j
  {
    if i < j {
      OffsetsGrow(bs, arena, i, j);
    } else if j < i {
      OffsetsGrow(bs, arena, j, i);
    }
  }

  lemma NotShorter(bs: Heap, cs: Heap, arena: nat, i: nat)
    requires HeapOk(bs, arena) && HeapOk(cs, arena) && Lives(bs) == Lives(cs)
    requires i < |bs| && i < |cs| && bs[i].off == cs[i].off && bs[i].free
    ensures bs[i].size >= cs[i].size
  {
    InsideArena(cs, arena, i);
    if bs[i].size < cs[i].size {
      assert i + 1 < |bs| && !bs[i + 1].free && bs[i + 1].off == bs[i].End();
      assert (bs[i + 1].off, bs[i + 1].size) in Lives(bs);
      var j := LiveIndex(cs, (bs[i + 1].off, bs[i + 1].size));
      if j < i {
        OffsetsGrow(cs, arena, j, i);
      } else if i < j {
        OffsetsGrow(cs, arena, i, j);
      }
    }
  }
}

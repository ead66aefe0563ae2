/** The file system seen as a table of nodes: what each inode is, what a file
    holds and what a directory names. The table may have any length and its
    directories any number of slots. */
module Tree {
  import opened Bytes
  import opened DirBlock

  datatype Kind = FileKind | DirKind

  datatype Node = Free | File(content: seq<byte>) | Dir(slots: seq<Slot>) {
    predicate Is(kind: Kind) {
      match kind
      case FileKind => File?
      case DirKind => Dir?
    }
  }

  type Nodes = seq<Node>

  predicate Used(v: Nodes, i: int) {
    0 <= i < |v| && !v[i].Free?
  }

  predicate EmptySlot(v: Nodes, d: int, k: int) {
    0 <= d < |v| && v[d].Dir? && 0 <= k < |v[d].slots| && v[d].slots[k].Empty?
  }

  /** Slot `k` of directory `d` is in use and names inode `i`. */
  predicate Names(v: Nodes, d: int, k: int, i: int) {
    0 <= d < |v| && v[d].Dir? && 0 <= k < |v[d].slots| && v[d].slots[k].Named? && v[d].slots[k].inode == i
  }

  predicate NameOk(name: Name) {
    1 <= |name| < NAME_SIZE
  }

  // ----- the tree invariant -----

  ghost predicate Child(v: Nodes, d: int, i: int) {
    exists k :: Names(v, d, k, i)
  }

  /** `i` lies `n` directory steps below `a`. */
  ghost predicate Descends(v: Nodes, a: int, i: int, n: nat)
    decreases n
  {
    if n == 0 then a == i else exists d :: Child(v, d, i) && Descends(v, a, d, n - 1)
  }

  ghost predicate Below(v: Nodes, a: int, i: int) {
    exists n: nat :: Descends(v, a, i, n)
  }

  ghost function Subtree(v: Nodes, a: int): (s: set<int>) {
    set i | 0 <= i < |v| && Below(v, a, i)
  }

  /** No directory holds two entries with the same name for nodes of the same kind. */
  ghost predicate DistinctNames(v: Nodes) {
    forall d, k, m, i, j :: Names(v, d, k, i) && Names(v, d, m, j) && k != m
      && v[d].slots[k].name == v[d].slots[m].name && 0 <= i < |v| && 0 <= j < |v|
      ==> v[i].Dir? != v[j].Dir?
  }

  /** The root is a directory and nothing names it; every used entry has a proper name
      and names a used inode that no other entry names; every used inode is reachable
      from the root; names are distinct within a directory and a kind. */
  ghost predicate WellFormed(v: Nodes) {
    && |v| > 0 && v[0].Dir?
    && (forall d, k, i :: Names(v, d, k, i) ==> i != 0 && Used(v, i) && NameOk(v[d].slots[k].name))
    && (forall d, k, e, m, i :: Names(v, d, k, i) && Names(v, e, m, i) ==> d == e && k == m)
    && (forall i :: Used(v, i) ==> Below(v, 0, i))
    && DistinctNames(v)
  }

  // ----- the witness form used in proofs: the parent of every node, and a rank that grows downward -----

  datatype Shape = Shape(rank: seq<nat>, dir: seq<nat>, slot: seq<nat>)

  ghost predicate Laid(v: Nodes, sh: Shape) {
    Chained(v, sh) && DistinctNames(v)
  }

  ghost predicate Chained(v: Nodes, sh: Shape) {
    && |v| > 0 && v[0].Dir?
    && |sh.rank| == |sh.dir| == |sh.slot| == |v|
    && (forall d, k, i :: Names(v, d, k, i) ==>
          i != 0 && Used(v, i) && NameOk(v[d].slots[k].name)
          && sh.dir[i] == d && sh.slot[i] == k && sh.rank[d] < sh.rank[i])
    && (forall i :: Used(v, i) && i != 0 ==> Names(v, sh.dir[i], sh.slot[i], i))
  }

  lemma {:induction false} LaidReaches(v: Nodes, sh: Shape, i: int) returns (n: nat)
    requires Laid(v, sh) && Used(v, i)
    ensures Descends(v, 0, i, n)
    decreases sh.rank[i]
  {
    if i == 0 {
      n := 0;
    } else {
      var d := sh.dir[i];
      assert Names(v, d, sh.slot[i], i);
      n := LaidReaches(v, sh, d);
      n := n + 1;
      assert Child(v, d, i) && Descends(v, 0, d, n - 1);
    }
  }

  /** The depth of a node is unique. */
  lemma {:induction false} DepthUnique(v: Nodes, i: int, n: nat, m: nat)
    requires WellFormed(v) && Descends(v, 0, i, n) && Descends(v, 0, i, m)
    ensures n == m
    decreases n
  {
    assert forall d :: !Child(v, d, 0);
    if n != 0 && m != 0 {
      var d :| Child(v, d, i) && Descends(v, 0, d, n - 1);
      var e :| Child(v, e, i) && Descends(v, 0, e, m - 1);
      var k :| Names(v, d, k, i);
      var l :| Names(v, e, l, i);
      DepthUnique(v, d, n - 1, m - 1);
    }
  }

  ghost function Depth(v: Nodes, i: int): (n: nat)
    requires WellFormed(v)
    ensures Used(v, i) ==> Descends(v, 0, i, n)
  {
    if Used(v, i) then var n: nat :| Descends(v, 0, i, n); n else 0
  }

  ghost function Parent(v: Nodes, i: int): (p: (nat, nat))
    requires WellFormed(v)
    ensures Used(v, i) && i != 0 ==> Names(v, p.0, p.1, i)
  {
    if Used(v, i) && i != 0 then
      assert exists d: nat, k: nat :: Names(v, d, k, i) by {
        var n: nat :| Descends(v, 0, i, n);
        assert n != 0;
        var d :| Child(v, d, i) && Descends(v, 0, d, n - 1);
        var k :| Names(v, d, k, i);
      }
      var d: nat, k: nat :| Names(v, d, k, i);
      (d, k)
    else (0, 0)
  }

  ghost function ShapeOf(v: Nodes): (sh: Shape)
    requires WellFormed(v)
  {
    Shape(seq(|v|, i requires 0 <= i < |v| => Depth(v, i)),
          seq(|v|, i requires 0 <= i < |v| => Parent(v, i).0),
          seq(|v|, i requires 0 <= i < |v| => Parent(v, i).1))
  }

  /** Reachability from the root through unique parents is the same as having ranks and
      parents: in particular the directory graph has no cycle. */
  lemma WellFormedIffLaid(v: Nodes)
    ensures WellFormed(v) <==> exists sh :: Laid(v, sh)
  {
    if WellFormed(v) {
      ShapeLaid(v);
    }
    if sh :| Laid(v, sh) {
      LaidWellFormed(v, sh);
    }
  }

  lemma LaidWellFormed(v: Nodes, sh: Shape)
    requires Laid(v, sh)
    ensures WellFormed(v)
  {
    forall i | Used(v, i)
      ensures Below(v, 0, i)
    {
      var n := LaidReaches(v, sh, i);
    }
  }

  lemma ShapeLaid(v: Nodes)
    requires WellFormed(v)
    ensures Laid(v, ShapeOf(v))
  {
    var sh := ShapeOf(v);
    forall d, k, i | Names(v, d, k, i)
      ensures sh.dir[i] == d && sh.slot[i] == k && sh.rank[d] < sh.rank[i]
    {
      var n := Depth(v, d);
      assert Child(v, d, i) && Descends(v, 0, d, n);
      assert Descends(v, 0, i, n + 1);
      DepthUnique(v, i, n + 1, Depth(v, i));
    }
  }
}

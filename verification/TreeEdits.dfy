/** The five edits every file-system operation is made of, and that each keeps the
    tree invariant. */
module TreeEdits {
  import opened Bytes
  import opened DirBlock
  import opened Tree

  /** Directory `d` has no entry of this name for a node of this kind. */
  ghost predicate Lacks(v: Nodes, d: int, name: Name, kind: Kind) {
    forall k, i :: Names(v, d, k, i) && 0 <= i < |v| && v[d].slots[k].name == name ==> !v[i].Is(kind)
  }

  function SetSlot(v: Nodes, d: nat, k: nat, s: Slot): Nodes
    requires d < |v| && v[d].Dir? && k < |v[d].slots|
  {
    v[d := Dir(v[d].slots[k := s])]
  }

  /** A node without children: a file, or a directory all of whose slots are empty. */
  predicate IsLeaf(n: Node) {
    n.File? || (n.Dir? && forall k :: 0 <= k < |n.slots| ==> n.slots[k].Empty?)
  }

  /** Make the free inode `i` into `node` and name it in slot `k` of `d`. */
  function AddChild(v: Nodes, d: nat, k: nat, i: nat, name: Name, node: Node): Nodes
    requires EmptySlot(v, d, k) && i < |v| && i != d
  {
    SetSlot(v[i := node], d, k, Named(i, name))
  }

  lemma AddChildKeeps(v: Nodes, d: nat, k: nat, i: nat, name: Name, node: Node)
    requires WellFormed(v) && EmptySlot(v, d, k)
    requires 0 < i < |v| && v[i].Free? && IsLeaf(node) && NameOk(name)
    requires Lacks(v, d, name, if node.Dir? then DirKind else FileKind)
    ensures WellFormed(AddChild(v, d, k, i, name, node))
  {
    ShapeLaid(v);
    var sh := ShapeOf(v);
    var rank := sh.rank[i := sh.rank[d] + 1];
    AddChildChained(v, sh, d, k, i, name, node);
    AddChildDistinct(v, sh, d, k, i, name, node);
    LaidWellFormed(AddChild(v, d, k, i, name, node), Shape(rank, sh.dir[i := d], sh.slot[i := k]));
  }

  lemma AddChildNames(v: Nodes, sh: Shape, d: nat, k: nat, i: nat, name: Name, node: Node)
    requires Chained(v, sh) && EmptySlot(v, d, k) && 0 < i < |v| && v[i].Free? && IsLeaf(node)
    ensures var w := AddChild(v, d, k, i, name, node);
            && Names(w, d, k, i) && w[d].slots[k].name == name
            && (forall e, m, j :: Names(w, e, m, j) ==>
                  (e == d && m == k && j == i) || (Names(v, e, m, j) && j != i && w[e].slots[m] == v[e].slots[m]))
            && (forall e, m, j :: Names(v, e, m, j) ==> Names(w, e, m, j))
  {
    var w := AddChild(v, d, k, i, name, node);
    forall e, m, j | Names(w, e, m, j) && !(e == d && m == k)
      ensures Names(v, e, m, j) && w[e].slots[m] == v[e].slots[m]
    {
      assert e != i;
    }
  }

  lemma AddChildChained(v: Nodes, sh: Shape, d: nat, k: nat, i: nat, name: Name, node: Node)
    requires Chained(v, sh) && EmptySlot(v, d, k)
    requires 0 < i < |v| && v[i].Free? && IsLeaf(node) && NameOk(name)
    ensures Chained(AddChild(v, d, k, i, name, node),
                   Shape(sh.rank[i := sh.rank[d] + 1], sh.dir[i := d], sh.slot[i := k]))
  {
    AddChildNames(v, sh, d, k, i, name, node);
  }

  lemma AddChildDistinct(v: Nodes, sh: Shape, d: nat, k: nat, i: nat, name: Name, node: Node)
    requires Chained(v, sh) && DistinctNames(v) && EmptySlot(v, d, k)
    requires 0 < i < |v| && v[i].Free? && IsLeaf(node)
    requires Lacks(v, d, name, if node.Dir? then DirKind else FileKind)
    ensures DistinctNames(AddChild(v, d, k, i, name, node))
  {
    hide NameOk;
    var w := AddChild(v, d, k, i, name, node);
    AddChildNames(v, sh, d, k, i, name, node);
    forall e, m, n, j, l | Names(w, e, m, j) && Names(w, e, n, l) && m != n
        && w[e].slots[m].name == w[e].slots[n].name && 0 <= j < |w| && 0 <= l < |w|
      ensures w[j].Dir? != w[l].Dir?
    {
      if e == d && m == k {
        assert Names(v, e, n, l);
      } else if e == d && n == k {
        assert Names(v, e, m, j);
      } else {
        assert Names(v, e, m, j) && Names(v, e, n, l);
      }
    }
  }

  /** Replacing the contents of a file changes no name and no kind. */
  lemma SetContentKeeps(v: Nodes, i: nat, content: seq<byte>)
    requires WellFormed(v) && i < |v| && v[i].File?
    ensures WellFormed(v[i := File(content)])
  {
    hide NameOk;
    ShapeLaid(v);
    var w := v[i := File(content)];
    assert forall d, k, j :: Names(w, d, k, j) <==> Names(v, d, k, j);
    LaidWellFormed(w, ShapeOf(v));
  }

  /** Give the entry in slot `k` of `d` another name. */
  lemma RenameKeeps(v: Nodes, d: nat, k: nat, i: nat, name: Name)
    requires WellFormed(v) && Names(v, d, k, i) && NameOk(name)
    requires Lacks(v, d, name, if v[i].Dir? then DirKind else FileKind)
    ensures WellFormed(SetSlot(v, d, k, Named(i, name)))
  {
    ShapeLaid(v);
    RenameChained(v, ShapeOf(v), d, k, i, name);
    RenameDistinct(v, ShapeOf(v), d, k, i, name);
    LaidWellFormed(SetSlot(v, d, k, Named(i, name)), ShapeOf(v));
  }

  lemma RenameNames(v: Nodes, d: nat, k: nat, i: nat, name: Name)
    requires Names(v, d, k, i)
    ensures var w := SetSlot(v, d, k, Named(i, name));
            && (forall e, m, j :: Names(w, e, m, j) <==> Names(v, e, m, j))
            && (forall e, m, j :: Names(w, e, m, j) && (e != d || m != k) ==> w[e].slots[m] == v[e].slots[m])
            && w[d].slots[k].name == name
  {
  }

  lemma RenameChained(v: Nodes, sh: Shape, d: nat, k: nat, i: nat, name: Name)
    requires Chained(v, sh) && Names(v, d, k, i) && NameOk(name)
    ensures Chained(SetSlot(v, d, k, Named(i, name)), sh)
  {
    RenameNames(v, d, k, i, name);
  }

  lemma RenameDistinct(v: Nodes, sh: Shape, d: nat, k: nat, i: nat, name: Name)
    requires Chained(v, sh) && DistinctNames(v) && Names(v, d, k, i)
    requires Lacks(v, d, name, if v[i].Dir? then DirKind else FileKind)
    ensures DistinctNames(SetSlot(v, d, k, Named(i, name)))
  {
    hide AddChild;
    var w := SetSlot(v, d, k, Named(i, name));
    RenameNames(v, d, k, i, name);
    forall e, m, n, j, l | Names(w, e, m, j) && Names(w, e, n, l) && m != n
        && w[e].slots[m].name == w[e].slots[n].name && 0 <= j < |w| && 0 <= l < |w|
      ensures w[j].Dir? != w[l].Dir?
    {
      assert Names(v, e, m, j) && Names(v, e, n, l);
    }
  }

  /** Take the entry in slot `sk` of `sd` away and put it into slot `dk` of `dd`. */
  function MoveEntry(v: Nodes, sd: nat, sk: nat, dd: nat, dk: nat, name: Name): Nodes
    requires sd < |v| && v[sd].Dir? && sk < |v[sd].slots| && v[sd].slots[sk].Named?
    requires sd != dd && EmptySlot(v, dd, dk)
  {
    SetSlot(SetSlot(v, sd, sk, Empty), dd, dk, Named(v[sd].slots[sk].inode, name))
  }

  lemma MoveNames(v: Nodes, sd: nat, sk: nat, dd: nat, dk: nat, i: nat, name: Name)
    requires WellFormed(v) && Names(v, sd, sk, i) && sd != dd && EmptySlot(v, dd, dk)
    ensures var w := MoveEntry(v, sd, sk, dd, dk, name);
            && |w| == |v|
            && Names(w, dd, dk, i) && w[dd].slots[dk].name == name
            && (forall j :: Used(w, j) <==> Used(v, j))
            && (forall e, m, j :: Names(w, e, m, j) && !(e == dd && m == dk) ==>
                  Names(v, e, m, j) && j != i && w[e].slots[m] == v[e].slots[m])
            && (forall e, m, j :: Names(v, e, m, j) && j != i ==> Names(w, e, m, j))
  {
    hide DistinctNames;
    var w := MoveEntry(v, sd, sk, dd, dk, name);
    forall e, m, j | Names(w, e, m, j) && !(e == dd && m == dk)
      ensures Names(v, e, m, j) && j != i && w[e].slots[m] == v[e].slots[m]
    {
      assert Names(v, e, m, j) && (e != sd || m != sk);
    }
  }

  /** The moved node keeps its whole subtree reachable as long as the destination directory,
      which is the root or is named in the root, is not the moved node itself: the destination
      has the root as its only parent, so it cannot lie further down in the moved subtree. */
  lemma MoveKeeps(v: Nodes, sd: nat, sk: nat, dd: nat, dk: nat, i: nat, name: Name)
    requires WellFormed(v) && Names(v, sd, sk, i) && sd != dd && EmptySlot(v, dd, dk)
    requires dd == 0 || Child(v, 0, dd)
    requires NameOk(name) && Lacks(v, dd, name, if v[i].Dir? then DirKind else FileKind)
    requires dd != i
    ensures WellFormed(MoveEntry(v, sd, sk, dd, dk, name))
  {
    hide DistinctNames;
    ShapeLaid(v);
    var sh := ShapeOf(v);
    var w := MoveEntry(v, sd, sk, dd, dk, name);
    MoveNames(v, sd, sk, dd, dk, i, name);
    var rank := seq(|v|, j requires 0 <= j < |v| => if j == 0 then 0 else if j == dd then 1 else sh.rank[j] + 2);
    var sh' := Shape(rank, sh.dir[i := dd], sh.slot[i := dk]);
    forall e, m, j | Names(w, e, m, j)
      ensures j != 0 && Used(w, j) && NameOk(w[e].slots[m].name)
      ensures sh'.dir[j] == e && sh'.slot[j] == m && rank[e] < rank[j]
    {
      if !(e == dd && m == dk) {
        assert Names(v, e, m, j);
        if j == dd {
          var q :| Names(v, 0, q, dd);
        }
      }
    }
    forall j | Used(w, j) && j != 0
      ensures Names(w, sh'.dir[j], sh'.slot[j], j)
    {
      if j != i {
        assert Names(v, sh.dir[j], sh.slot[j], j);
      }
    }
    MoveDistinct(v, sd, sk, dd, dk, i, name);
    LaidWellFormed(w, sh');
  }

  lemma MoveDistinct(v: Nodes, sd: nat, sk: nat, dd: nat, dk: nat, i: nat, name: Name)
    requires WellFormed(v) && Names(v, sd, sk, i) && sd != dd && EmptySlot(v, dd, dk)
    requires Lacks(v, dd, name, if v[i].Dir? then DirKind else FileKind)
    ensures DistinctNames(MoveEntry(v, sd, sk, dd, dk, name))
  {
    hide Descends;
    var w := MoveEntry(v, sd, sk, dd, dk, name);
    MoveNames(v, sd, sk, dd, dk, i, name);
    forall e, m, n, j, l | Names(w, e, m, j) && Names(w, e, n, l) && m != n
        && w[e].slots[m].name == w[e].slots[n].name && 0 <= j < |w| && 0 <= l < |w|
      ensures w[j].Dir? != w[l].Dir?
    {
      if e == dd && m == dk {
        assert Names(v, e, n, l);
      } else if e == dd && n == dk {
        assert Names(v, e, m, j);
      } else {
        assert Names(v, e, m, j) && Names(v, e, n, l);
      }
    }
  }

  /** Moving a directory into itself cuts it off: it becomes its own only parent. */
  lemma MoveIntoItselfBreaks(v: Nodes, sd: nat, sk: nat, dk: nat, i: nat, name: Name)
    requires WellFormed(v) && Names(v, sd, sk, i) && sd != i && EmptySlot(v, i, dk)
    ensures !WellFormed(MoveEntry(v, sd, sk, i, dk, name))
    ensures !Below(MoveEntry(v, sd, sk, i, dk, name), 0, i)
  {
    var w := MoveEntry(v, sd, sk, i, dk, name);
    MoveNames(v, sd, sk, i, dk, i, name);
    if n: nat :| Descends(w, 0, i, n) {
      OnlyOwnParent(w, i, n);
    }
  }

  lemma {:induction false} OnlyOwnParent(w: Nodes, i: nat, n: nat)
    requires i != 0
    requires forall e, m :: Names(w, e, m, i) ==> e == i
    ensures !Descends(w, 0, i, n)
    decreases n
  {
    if Descends(w, 0, i, n) {
      var d :| Child(w, d, i) && Descends(w, 0, d, n - 1);
      var m :| Names(w, d, m, i);
      OnlyOwnParent(w, i, n - 1);
    }
  }

  // ----- removing a subtree -----

  /** Empty slot `k` of `d` and free every node of `gone`. */
  function Prune(v: Nodes, d: nat, k: nat, gone: set<int>): Nodes
    requires d < |v| && v[d].Dir? && k < |v[d].slots|
  {
    var w := SetSlot(v, d, k, Empty);
    seq(|v|, j requires 0 <= j < |v| => if j in gone then Free else w[j])
  }

  /** A subtree is closed under going down, and is entered only through its top. */
  lemma SubtreeClosed(v: Nodes, a: nat, d: int, k: int, i: int)
    requires WellFormed(v) && Used(v, a) && Names(v, d, k, i)
    ensures d in Subtree(v, a) ==> i in Subtree(v, a)
    ensures i in Subtree(v, a) && i != a ==> d in Subtree(v, a)
  {
    assert Child(v, d, i);
    if d in Subtree(v, a) {
      var n: nat :| Descends(v, a, d, n);
      assert Descends(v, a, i, n + 1);
    }
    if i in Subtree(v, a) && i != a {
      var n: nat :| Descends(v, a, i, n);
      var e :| Child(v, e, i) && Descends(v, a, e, n - 1);
      var m :| Names(v, e, m, i);
    }
  }

  lemma {:induction false} BelowRank(v: Nodes, sh: Shape, a: int, i: int, n: nat)
    requires Laid(v, sh) && Used(v, a) && Descends(v, a, i, n)
    ensures Used(v, i) && sh.rank[a] + n <= sh.rank[i]
    decreases n
  {
    if n != 0 {
      var d :| Child(v, d, i) && Descends(v, a, d, n - 1);
      var k :| Names(v, d, k, i);
      BelowRank(v, sh, a, d, n - 1);
    }
  }

  /** A directory is not in the subtree of what it names; nor is the root. */
  lemma ParentNotBelow(v: Nodes, d: int, k: int, i: int)
    requires WellFormed(v) && Names(v, d, k, i)
    ensures d !in Subtree(v, i) && 0 !in Subtree(v, i) && i in Subtree(v, i)
    ensures forall j :: j in Subtree(v, i) ==> Used(v, j)
  {
    ShapeLaid(v);
    var sh := ShapeOf(v);
    forall j | j in Subtree(v, i)
      ensures Used(v, j) && j != d && j != 0
    {
      var n: nat :| Descends(v, i, j, n);
      BelowRank(v, sh, i, j, n);
      if n != 0 {
        var e :| Child(v, e, j) && Descends(v, i, e, n - 1);
        var m :| Names(v, e, m, j);
      }
    }
    assert Descends(v, i, i, 0);
  }

  lemma PruneNames(v: Nodes, d: nat, k: nat, i: nat)
    requires WellFormed(v) && Names(v, d, k, i)
    ensures var w := Prune(v, d, k, Subtree(v, i));
            && (forall e, m, j :: Names(w, e, m, j) ==>
                  Names(v, e, m, j) && j !in Subtree(v, i) && w[e].slots[m] == v[e].slots[m])
            && (forall e, m, j :: Names(v, e, m, j) && j !in Subtree(v, i) ==> Names(w, e, m, j))
  {
    var gone := Subtree(v, i);
    var w := Prune(v, d, k, gone);
    ParentNotBelow(v, d, k, i);
    forall e, m, j | Names(w, e, m, j)
      ensures Names(v, e, m, j) && j !in gone
    {
      assert Names(v, e, m, j);
      SubtreeClosed(v, i, e, m, j);
    }
    forall e, m, j | Names(v, e, m, j) && j !in gone
      ensures Names(w, e, m, j)
    {
      SubtreeClosed(v, i, e, m, j);
    }
  }

  lemma PruneKeeps(v: Nodes, d: nat, k: nat, i: nat)
    requires WellFormed(v) && Names(v, d, k, i)
    ensures WellFormed(Prune(v, d, k, Subtree(v, i)))
  {
    ShapeLaid(v);
    var sh := ShapeOf(v);
    var w := Prune(v, d, k, Subtree(v, i));
    ParentNotBelow(v, d, k, i);
    PruneNames(v, d, k, i);
    PruneLaid(v, w, sh, Subtree(v, i));
    LaidWellFormed(w, sh);
  }

  lemma PruneLaid(v: Nodes, w: Nodes, sh: Shape, gone: set<int>)
    requires Laid(v, sh) && |w| == |v| && 0 !in gone && w[0].Dir?
    requires forall j :: 0 <= j < |v| ==> w[j].Dir? == (v[j].Dir? && j !in gone)
    requires forall j :: 0 <= j < |v| ==> w[j].Free? == (v[j].Free? || j in gone)
    requires forall e, m, j :: Names(w, e, m, j) ==>
               Names(v, e, m, j) && j !in gone && w[e].slots[m] == v[e].slots[m]
    requires forall e, m, j :: Names(v, e, m, j) && j !in gone ==> Names(w, e, m, j)
    ensures Laid(w, sh)
  {
    forall e, m, n, j, l | Names(w, e, m, j) && Names(w, e, n, l) && m != n
        && w[e].slots[m].name == w[e].slots[n].name && 0 <= j < |w| && 0 <= l < |w|
      ensures w[j].Dir? != w[l].Dir?
    {
      assert Names(v, e, m, j) && Names(v, e, n, l);
    }
  }
}

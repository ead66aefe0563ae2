/** What every operation keeps and what it changes, over all well-formed volumes. */
module VolumeTheorems {
  import opened Basics
  import opened Bytes
  import opened DirBlock
  import opened Tree
  import opened TreeEdits
  import opened VolumeSpec

  // ----- lookups in a well-formed volume -----

  /** In a well-formed volume a lookup is a relation: it finds `i` exactly when an entry of
      the directory names `i` so. */
  lemma LookupIs(v: Nodes, d: nat, k: nat, i: nat, name: Name, kind: Kind)
    requires WellFormed(v) && Names(v, d, k, i) && v[d].slots[k].name == name && v[i].Is(kind)
    ensures Find(v, d, name, kind) == Some(k) && Lookup(v, d, name, kind) == Some(i)
  {
    var m := Find(v, d, name, kind).value;
    assert Names(v, d, m, v[d].slots[m].inode);
  }

  lemma LookupNames(v: Nodes, d: nat, name: Name, kind: Kind) returns (k: nat)
    requires Lookup(v, d, name, kind).Some?
    ensures Find(v, d, name, kind) == Some(k)
    ensures Names(v, d, k, Lookup(v, d, name, kind).value) && v[d].slots[k].name == name
  {
    k := Find(v, d, name, kind).value;
  }

  lemma LookupNone(v: Nodes, d: nat, name: Name, kind: Kind)
    requires Lookup(v, d, name, kind).None?
    ensures Lacks(v, d, name, kind)
  {
  }

  lemma LackingNone(v: Nodes, d: nat, name: Name, kind: Kind)
    requires Lacks(v, d, name, kind)
    ensures Lookup(v, d, name, kind).None?
  {
    if Find(v, d, name, kind).Some? {
      var k := Find(v, d, name, kind).value;
      assert Names(v, d, k, v[d].slots[k].inode);
    }
  }

  // ----- frames -----

  /** Every node outside `gone` that a directory names in `v` is named alike in `w` and is
      still a node of the same kind. */
  ghost predicate NamesKept(v: Nodes, w: Nodes, gone: set<int>) {
    |v| == |w| &&
    (forall d, k, i :: Names(v, d, k, i) && i !in gone ==>
      Names(w, d, k, i) && w[d].slots[k].name == v[d].slots[k].name) &&
    (forall i :: Used(v, i) && i !in gone ==> Used(w, i) && w[i].Dir? == v[i].Dir?)
  }

  lemma NamesSame(v: Nodes)
    ensures NamesKept(v, v, {})
  {
  }

  lemma LookupKept(v: Nodes, w: Nodes, gone: set<int>, d: nat, name: Name, kind: Kind)
    requires WellFormed(v) && WellFormed(w) && NamesKept(v, w, gone)
    requires Lookup(v, d, name, kind).Some? && Lookup(v, d, name, kind).value !in gone
    ensures Lookup(w, d, name, kind) == Lookup(v, d, name, kind)
  {
    var k := LookupNames(v, d, name, kind);
    LookupIs(w, d, k, Lookup(v, d, name, kind).value, name, kind);
  }

  /** Every path that leads to a file outside `gone` still leads to that file, provided no
      directory that holds such a file is gone. */
  lemma FilesKept(v: Nodes, w: Nodes, gone: set<int>)
    requires WellFormed(v) && WellFormed(w) && NamesKept(v, w, gone)
    requires forall d, k, i :: Names(v, d, k, i) && d in gone ==> i in gone
    ensures forall q :: FileAt(v, q).Some? && FileAt(v, q).value !in gone ==> FileAt(w, q) == FileAt(v, q)
  {
    forall q | FileAt(v, q).Some? && FileAt(v, q).value !in gone
      ensures FileAt(w, q) == FileAt(v, q)
    {
      var p := Locate(v, q).value;
      var k := LookupNames(v, p.dir, p.name, FileKind);
      if HasSep(q) {
        LookupKept(v, w, gone, 0, DirPart(q), DirKind);
      }
      LookupKept(v, w, gone, p.dir, p.name, FileKind);
    }
  }

  /** A file keeps its path and its contents. */
  ghost predicate ReadsAlike(v: Nodes, w: Nodes, q: seq<byte>) {
    FileAt(v, q).Some? && FileAt(w, q) == FileAt(v, q) && w[FileAt(v, q).value] == v[FileAt(v, q).value]
  }

  // ----- adding -----

  function KindOf(node: Node): Kind { if node.Dir? then DirKind else FileKind }

  /** What a new child changes: one node appears, its directory gains one name. */
  lemma AddChildEffect(v: Nodes, d: nat, k: nat, i: nat, name: Name, node: Node)
    requires WellFormed(v) && EmptySlot(v, d, k)
    requires 0 < i < |v| && v[i].Free? && IsLeaf(node) && NameOk(name)
    requires Lacks(v, d, name, KindOf(node))
    ensures var w := AddChild(v, d, k, i, name, node);
      && WellFormed(w)
      && NamesKept(v, w, {})
      && Lookup(w, d, name, KindOf(node)) == Some(i)
  {
    AddChildKeeps(v, d, k, i, name, node);
    ShapeLaid(v);
    AddChildNames(v, ShapeOf(v), d, k, i, name, node);
    var w := AddChild(v, d, k, i, name, node);
    LookupIs(w, d, k, i, name, KindOf(node));
    AddChildKept(v, d, k, i, name, node);
  }

  lemma AddChildKept(v: Nodes, d: nat, k: nat, i: nat, name: Name, node: Node)
    requires EmptySlot(v, d, k) && i < |v| && v[i].Free?
    ensures NamesKept(v, AddChild(v, d, k, i, name, node), {})
  {
    var w := AddChild(v, d, k, i, name, node);
    forall e, m, j | Names(v, e, m, j)
      ensures Names(w, e, m, j) && w[e].slots[m] == v[e].slots[m]
    {
      assert e != i;
    }
  }

  /** From `v` to `w`, directory `d` gained the child `i` under this name and nothing else changed. */
  ghost predicate Gained(v: Nodes, w: Nodes, d: nat, i: nat, name: Name, node: Node) {
    && 0 < i < |v| == |w| && i != d && v[i].Free? && w[i] == node
    && NamesKept(v, w, {})
    && Lookup(w, d, name, KindOf(node)) == Some(i)
    && (forall j :: 0 <= j < |w| && j != i && j != d ==> w[j] == v[j])
    && UsedSet(w) == UsedSet(v) + {i}
  }

  lemma AddChildUsed(v: Nodes, d: nat, k: nat, i: nat, name: Name, node: Node)
    requires EmptySlot(v, d, k) && i < |v| && v[i].Free? && !node.Free?
    ensures UsedSet(AddChild(v, d, k, i, name, node)) == UsedSet(v) + {i}
  {
  }

  /** Adding fails exactly when there is no room; else the name leads to the new node and
      one more node is in use. */
  lemma AddNamed(vol: Volume, d: nat, name: Name, node: Node)
    requires WellFormed(vol.nodes) && IsLeaf(node) && NameOk(name)
    requires Lookup(vol.nodes, d, name, KindOf(node)).None?
    ensures WellFormed(Add(vol, d, name, node).1.nodes)
    ensures HasRoom(vol, d) ==>
              Gained(vol.nodes, Add(vol, d, name, node).1.nodes, d, FreeNode(vol).value, name, node)
  {
    hide UsedSet;
    if HasRoom(vol, d) {
      var v, k, i := vol.nodes, FirstEmpty(vol.nodes, d).value, FreeNode(vol).value;
      assert WellFormed(AddChild(v, d, k, i, name, node))
             && Gained(v, AddChild(v, d, k, i, name, node), d, i, name, node) by {
        LookupNone(v, d, name, KindOf(node));
        AddChildEffect(v, d, k, i, name, node);
        AddChildUsed(v, d, k, i, name, node);
      }
    }
  }

  /** Every file outside `changed` is found under the same paths and reads as before. */
  ghost predicate Frame(v: Nodes, w: Nodes, changed: set<int>) {
    forall q :: FileAt(v, q).Some? && FileAt(v, q).value !in changed ==> ReadsAlike(v, w, q)
  }

  lemma GainedFrame(v: Nodes, w: Nodes, d: nat, i: nat, name: Name, node: Node)
    requires WellFormed(v) && WellFormed(w) && Gained(v, w, d, i, name, node) && d < |v| && v[d].Dir?
    ensures Frame(v, w, {})
  {
    FilesKept(v, w, {});
  }

  /** Making a directory: on success the name leads to a new directory with sixteen empty
      slots, and every file keeps its paths and its contents. */
  lemma MkdirInEffect(vol: Volume, d: nat, name: Name)
    requires WellFormed(vol.nodes) && NameOk(name)
    ensures var r := MkdirIn(vol, d, name);
      && WellFormed(r.1.nodes)
      && (r.0 <==> Lookup(vol.nodes, d, name, DirKind).None? && HasRoom(vol, d))
      && (r.0 ==> Gained(vol.nodes, r.1.nodes, d, FreeNode(vol).value, name, Dir(EmptySlots()))
                  && Frame(vol.nodes, r.1.nodes, {}))
  {
    if Lookup(vol.nodes, d, name, DirKind).None? {
      AddNamed(vol, d, name, Dir(EmptySlots()));
      if HasRoom(vol, d) {
        GainedFrame(vol.nodes, MkdirIn(vol, d, name).1.nodes, d, FreeNode(vol).value, name, Dir(EmptySlots()));
      }
    }
  }

  /** The place a path denotes can receive a new node of this kind under a proper name. */
  predicate CanAdd(vol: Volume, p: Place, kind: Kind) {
    NameOk(p.name) && Lookup(vol.nodes, p.dir, p.name, kind).None? && HasRoom(vol, p.dir)
  }

  /** A path whose name is a single component, proper and new among the directories of a place
      with room gets a directory there; every other path gets nothing. */
  lemma MkdirTheorem(vol: Volume, path: seq<byte>)
    requires WellFormed(vol.nodes)
    ensures var (ok, w) := MkdirSpec(vol, path);
      && WellFormed(w.nodes) && Frame(vol.nodes, w.nodes, {}) && NamesKept(vol.nodes, w.nodes, {})
      && (ok <==> Locate(vol.nodes, path).Some? && SLASH !in Locate(vol.nodes, path).value.name
                  && CanAdd(vol, Locate(vol.nodes, path).value, DirKind))
      && (ok ==> var p := Locate(vol.nodes, path).value;
                 Locate(vol.nodes, path).Some?
                 && Lookup(vol.nodes, p.dir, p.name, DirKind).None?
                 && Lookup(w.nodes, p.dir, p.name, DirKind) == Some(FreeNode(vol).value)
                 && w.nodes[FreeNode(vol).value] == Dir(EmptySlots())
                 && |UsedSet(w.nodes)| == |UsedSet(vol.nodes)| + 1)
      && (!ok ==> w == vol)
  {
    hide Lookup, DistinctNames;
    if path != [] {
      if !HasSep(path) {
        if |path| < NAME_SIZE {
          MkdirInEffect(vol, 0, path);
        }
      } else if FilePart(path) != [] && |FilePart(path)| < NAME_SIZE
                && Lookup(vol.nodes, 0, DirPart(path), DirKind).Some? {
        MkdirInEffect(vol, Lookup(vol.nodes, 0, DirPart(path), DirKind).value, FilePart(path));
      }
    }
  }

  /** Creating an empty file in the root. */
  lemma CreateTheorem(vol: Volume, name: Name)
    requires WellFormed(vol.nodes)
    ensures var (ok, w) := CreateSpec(vol, name);
      && WellFormed(w.nodes) && Frame(vol.nodes, w.nodes, {}) && NamesKept(vol.nodes, w.nodes, {})
      && (ok <==> NameOk(name) && Lookup(vol.nodes, 0, name, FileKind).None? && HasRoom(vol, 0))
      && (ok ==> Lookup(w.nodes, 0, name, FileKind) == Some(FreeNode(vol).value)
                 && w.nodes[FreeNode(vol).value] == File([]))
      && (!ok ==> w == vol)
  {
    if NameOk(name) && Lookup(vol.nodes, 0, name, FileKind).None? {
      AddNamed(vol, 0, name, File([]));
      if HasRoom(vol, 0) {
        GainedFrame(vol.nodes, CreateSpec(vol, name).1.nodes, 0, FreeNode(vol).value, name, File([]));
      }
    }
  }

  // ----- writing and copying -----

  /** The inode a file write goes to: the named file, or else the lowest free inode. */
  function PutTarget(vol: Volume, d: nat, name: Name): nat {
    match Lookup(vol.nodes, d, name, FileKind)
    case Some(i) => i
    case None => if FreeNode(vol).Some? then FreeNode(vol).value else 0
  }

  /** From `v` to `w`, file `f`, named so in `d`, received this content; no other file changed. */
  ghost predicate Put(v: Nodes, w: Nodes, d: nat, name: Name, f: nat, content: seq<byte>) {
    && Lookup(w, d, name, FileKind) == Some(f) && w[f] == File(content)
    && Frame(v, w, {f})
    && NamesKept(v, w, {})
  }

  lemma OverwriteEffect(v: Nodes, d: nat, name: Name, content: seq<byte>)
    requires WellFormed(v) && Lookup(v, d, name, FileKind).Some?
    ensures var f := Lookup(v, d, name, FileKind).value;
            WellFormed(v[f := File(content)]) && Put(v, v[f := File(content)], d, name, f, content)
  {
    var f := Lookup(v, d, name, FileKind).value;
    SetContentKeeps(v, f, content);
    OverwriteNames(v, f, content);
    LookupKept(v, v[f := File(content)], {}, d, name, FileKind);
    FilesKept(v, v[f := File(content)], {});
  }

  lemma OverwriteNames(v: Nodes, f: nat, content: seq<byte>)
    requires f < |v| && v[f].File?
    ensures NamesKept(v, v[f := File(content)], {})
  {
  }

  lemma AddFileEffect(vol: Volume, d: nat, name: Name, content: seq<byte>)
    requires WellFormed(vol.nodes) && Lookup(vol.nodes, d, name, FileKind).None? && HasRoom(vol, d) && NameOk(name)
    ensures var w := Add(vol, d, name, File(content)).1.nodes;
            WellFormed(w) && Put(vol.nodes, w, d, name, FreeNode(vol).value, content)
  {
    AddNamed(vol, d, name, File(content));
    GainedFrame(vol.nodes, Add(vol, d, name, File(content)).1.nodes, d, FreeNode(vol).value, name, File(content));
  }

  /** A file write that does not create an overlong name changes the one file it goes to. */
  lemma PutFileEffect(vol: Volume, d: nat, name: Name, content: seq<byte>)
    requires WellFormed(vol.nodes)
    requires Lookup(vol.nodes, d, name, FileKind).None? && HasRoom(vol, d) ==> NameOk(name)
    ensures WellFormed(PutFile(vol, d, name, content).1.nodes)
    ensures PutFile(vol, d, name, content).0 <==> Lookup(vol.nodes, d, name, FileKind).Some? || HasRoom(vol, d)
    ensures PutFile(vol, d, name, content).0 ==>
              Put(vol.nodes, PutFile(vol, d, name, content).1.nodes, d, name, PutTarget(vol, d, name), content)
  {
    if Lookup(vol.nodes, d, name, FileKind).Some? {
      OverwriteEffect(vol.nodes, d, name, content);
    } else if HasRoom(vol, d) {
      AddFileEffect(vol, d, name, content);
    }
  }

  /** A well-formed volume holds no empty and no overlong name. */
  lemma ImproperIsNew(v: Nodes, d: nat, name: Name, kind: Kind)
    requires WellFormed(v)
    ensures !NameOk(name) ==> Lookup(v, d, name, kind).None?
  {
    if Lookup(v, d, name, kind).Some? {
      var k := LookupNames(v, d, name, kind);
    }
  }

  /** After a successful write the path reads back what was written, up to one block and the
      reader's limit, and every other file reads as before. */
  lemma WriteReadRoundTrip(vol: Volume, path: seq<byte>, data: seq<byte>, maxlen: nat)
    requires WellFormed(vol.nodes) && !WriteOverflows(vol, path)
    ensures var (ok, w) := WriteSpec(vol, path, data);
      && WellFormed(w.nodes) && NamesKept(vol.nodes, w.nodes, {})
      && (ok <==> FileAt(vol.nodes, path).Some?
                  || (Locate(vol.nodes, path).Some? && CanAdd(vol, Locate(vol.nodes, path).value, FileKind)))
      && (ok ==> FileAt(w.nodes, path).Some?
                 && ReadSpec(w.nodes, path, maxlen) == Some(data[..Min(Min(|data|, BLOCK_SIZE), maxlen)])
                 && Frame(vol.nodes, w.nodes, {FileAt(w.nodes, path).value})
                 && (FileAt(vol.nodes, path).Some? ==> FileAt(w.nodes, path) == FileAt(vol.nodes, path)))
      && (!ok ==> w == vol)
  {
    hide WellFormed, NamesKept, Frame;
    var v := vol.nodes;
    NamesSame(v);
    if Locate(v, path).Some? {
      ImproperIsNew(v, Locate(v, path).value.dir, Locate(v, path).value.name, FileKind);
    }
    if Locate(v, path).Some? && !(!HasSep(path) && |path| >= NAME_SIZE) {
      var p := Locate(v, path).value;
      PutFileEffect(vol, p.dir, p.name, Clip(data));
      if PutFile(vol, p.dir, p.name, Clip(data)).0 {
        PutAtPath(v, PutFile(vol, p.dir, p.name, Clip(data)).1.nodes, path, PutTarget(vol, p.dir, p.name), Clip(data));
        var n := Min(|Clip(data)|, maxlen);
        assert Clip(data)[..n] == data[..n];
      }
    }
  }

  /** A directory that takes in an improper name is not well formed any more. */
  lemma ImproperBreaks(vol: Volume, d: nat, name: Name, node: Node)
    requires HasRoom(vol, d) && !NameOk(name)
    ensures !WellFormed(Add(vol, d, name, node).1.nodes)
  {
    var w := Add(vol, d, name, node).1.nodes;
    assert Names(w, d, FirstEmpty(vol.nodes, d).value, FreeNode(vol).value);
  }

  /** A write keeps the tree if and only if it does not create a file under an overlong name. */
  lemma WriteKeepsTreeIff(vol: Volume, path: seq<byte>, data: seq<byte>)
    requires WellFormed(vol.nodes)
    ensures WellFormed(WriteSpec(vol, path, data).1.nodes) <==> !WriteOverflows(vol, path)
    ensures WriteOverflows(vol, path) ==> WriteSpec(vol, path, data).0
  {
    hide WellFormed;
    if WriteOverflows(vol, path) {
      var p := Locate(vol.nodes, path).value;
      ImproperIsNew(vol.nodes, p.dir, p.name, FileKind);
      ImproperBreaks(vol, p.dir, p.name, File(Clip(data)));
    } else {
      WriteReadRoundTrip(vol, path, data, 0);
    }
  }

  lemma PutAtPath(v: Nodes, w: Nodes, path: seq<byte>, f: nat, content: seq<byte>)
    requires WellFormed(v) && WellFormed(w) && Locate(v, path).Some?
    requires Put(v, w, Locate(v, path).value.dir, Locate(v, path).value.name, f, content)
    ensures FileAt(w, path) == Some(f)
  {
    if HasSep(path) {
      LookupKept(v, w, {}, 0, DirPart(path), DirKind);
    }
  }

  /** A successful copy makes the target read as the source did, leaves the source as it was,
      also when both paths lead to the same file, and changes no other file. */
  lemma CopyTheorem(vol: Volume, src: seq<byte>, dst: seq<byte>)
    requires WellFormed(vol.nodes)
    ensures var (ok, w) := CopySpec(vol, src, dst);
      && WellFormed(w.nodes) && NamesKept(vol.nodes, w.nodes, {})
      && (ok <==> FileAt(vol.nodes, src).Some? && CopyTarget(vol.nodes, src, dst).Some? &&
                  var t := CopyTarget(vol.nodes, src, dst).value;
                  Lookup(vol.nodes, t.dir, t.name, FileKind).Some? || CanAdd(vol, t, FileKind))
      && (ok ==> FileAt(vol.nodes, src).Some? && CopyTarget(vol.nodes, src, dst).Some? &&
                 var t := CopyTarget(vol.nodes, src, dst).value;
                 Copied(vol.nodes, w.nodes, src, dst, t, PutTarget(vol, t.dir, t.name)))
      && (!ok ==> w == vol)
  {
    hide Lookup;
    var v := vol.nodes;
    ImproperIsNew(v, 0, [], DirKind);
    ImproperIsNew(v, 0, [], FileKind);
    if src != [] && dst != [] && FileAt(v, src).Some? && CopyTarget(v, src, dst).Some? {
      var t := CopyTarget(v, src, dst).value;
      var c := v[FileAt(v, src).value].content;
      ImproperIsNew(v, t.dir, t.name, FileKind);
      if NameOk(t.name) {
        PutFileEffect(vol, t.dir, t.name, c);
        if PutFile(vol, t.dir, t.name, c).0 {
          CopyEffect(v, PutFile(vol, t.dir, t.name, c).1.nodes, src, dst, t, PutTarget(vol, t.dir, t.name));
        }
      }
    }
  }

  /** `g`, named by the target, reads as the source `src` did and does; no other file changed;
      when the destination path denotes the target itself it leads to `g`. */
  ghost predicate Copied(v: Nodes, w: Nodes, src: seq<byte>, dst: seq<byte>, t: Place, g: nat)
    requires FileAt(v, src).Some?
  {
    var f := FileAt(v, src).value;
    && Lookup(w, t.dir, t.name, FileKind) == Some(g)
    && f < |w| && w[g] == v[f] == w[f]
    && Frame(v, w, {g})
    && (Locate(v, dst) == Some(t) ==> FileAt(w, dst) == Some(g))
  }

  lemma CopyEffect(v: Nodes, w: Nodes, src: seq<byte>, dst: seq<byte>, t: Place, g: nat)
    requires WellFormed(v) && WellFormed(w) && FileAt(v, src).Some?
    requires Put(v, w, t.dir, t.name, g, v[FileAt(v, src).value].content)
    ensures Copied(v, w, src, dst, t, g)
  {
    assert FileAt(v, src).value != g ==> ReadsAlike(v, w, src);
    if Locate(v, dst) == Some(t) {
      PutAtPath(v, w, dst, g, v[FileAt(v, src).value].content);
    }
  }

  // ----- renaming -----

  lemma PlanFacts(v: Nodes, src: seq<byte>, dst: seq<byte>)
    requires WellFormed(v) && PlanRename(v, src, dst).Some?
    ensures var p := PlanRename(v, src, dst).value;
      && (p.to == 0 || Child(v, 0, p.to))
      && NameOk(p.name)
      && v[p.inode].Is(p.kind) && p.kind == KindOf(v[p.inode])
      && p.from != p.inode
      && (p.to == p.inode ==> p.kind == DirKind)
  {
    hide WellFormed;
    var p := PlanRename(v, src, dst).value;
    var s := RenameSource(v, src).value;
    var t := RenameTarget(v, s.name, dst).value;
    if t.0.dir != 0 {
      var k := LookupNames(v, 0, if HasSep(dst) then DirPart(dst) else dst, DirKind);
    }
    ParentNotBelow(v, p.from, p.slot, p.inode);
  }

  /** An empty path resolves to nothing. */
  lemma EmptyPaths(vol: Volume, src: seq<byte>, dst: seq<byte>)
    ensures src == [] || dst == [] ==>
              RenameSpec(vol, src, dst) == (false, vol) && !MovesIntoItself(vol.nodes, src, dst)
  {
  }

  /** A rename keeps the tree if and only if it does not move a directory into itself. */
  lemma RenameKeepsTreeIff(vol: Volume, src: seq<byte>, dst: seq<byte>)
    requires WellFormed(vol.nodes)
    ensures WellFormed(RenameSpec(vol, src, dst).1.nodes) <==> !MovesIntoItself(vol.nodes, src, dst)
  {
    var v := vol.nodes;
    if PlanRename(v, src, dst).Some? {
      var p := PlanRename(v, src, dst).value;
      PlanFacts(v, src, dst);
      if !RenameIsNoop(v, p) && Find(v, p.to, p.name, p.kind).None? {
        LookupNone(v, p.to, p.name, p.kind);
        if p.to == p.from {
          RenameKeeps(v, p.from, p.slot, p.inode, p.name);
        } else if FirstEmpty(v, p.to).Some? {
          var k := FirstEmpty(v, p.to).value;
          if p.to == p.inode {
            MoveIntoItselfBreaks(v, p.from, p.slot, k, p.inode, p.name);
          } else {
            MoveKeeps(v, p.from, p.slot, p.to, k, p.inode, p.name);
          }
        }
      }
    }
  }

  /** What a carried-out rename that is not a no-op does: the new name leads to the node, the
      old name leads nowhere, every other name is kept. */
  ghost predicate Renamed(v: Nodes, w: Nodes, p: Plan)
    requires Names(v, p.from, p.slot, p.inode)
  {
    && Lookup(w, p.to, p.name, p.kind) == Some(p.inode)
    && Lookup(w, p.from, v[p.from].slots[p.slot].name, p.kind) == None
    && NamesKept(v, w, {p.inode})
  }

  lemma RenameTheorem(vol: Volume, src: seq<byte>, dst: seq<byte>)
    requires WellFormed(vol.nodes) && !MovesIntoItself(vol.nodes, src, dst)
    ensures var (ok, w) := RenameSpec(vol, src, dst);
      && (!ok ==> w == vol)
      && (ok <==> PlanRename(vol.nodes, src, dst).Some? && var p := PlanRename(vol.nodes, src, dst).value;
                  RenameIsNoop(vol.nodes, p)
                  || (Lookup(vol.nodes, p.to, p.name, p.kind).None?
                      && (p.to == p.from || FirstEmpty(vol.nodes, p.to).Some?)))
      && (ok ==> PlanRename(vol.nodes, src, dst).Some? && var p := PlanRename(vol.nodes, src, dst).value;
                 if RenameIsNoop(vol.nodes, p) then w == vol else Renamed(vol.nodes, w.nodes, p))
  {
    var v := vol.nodes;
    var (ok, w) := RenameSpec(vol, src, dst);
    if ok && !RenameIsNoop(v, PlanRename(v, src, dst).value) {
      var p := PlanRename(v, src, dst).value;
      RenameKeepsTreeIff(vol, src, dst);
      if p.to == p.from {
        RelabelEffect(v, p.from, p.slot, p.inode, p.name, p.kind);
      } else {
        MoveEffect(v, p.from, p.slot, p.to, FirstEmpty(v, p.to).value, p.inode, p.name, p.kind);
      }
    }
  }

  /** No rename, not even one that breaks the tree, touches the contents of a file or changes
      which inodes are in use. */
  lemma RenameKeepsContents(vol: Volume, src: seq<byte>, dst: seq<byte>)
    ensures var w := RenameSpec(vol, src, dst).1.nodes;
      && |w| == |vol.nodes|
      && (forall i :: 0 <= i < |w| && !vol.nodes[i].Dir? ==> w[i] == vol.nodes[i])
      && UsedSet(w) == UsedSet(vol.nodes)
  {
    hide PlanRename, Find, RenameIsNoop;
    var w := RenameSpec(vol, src, dst).1.nodes;
    assert forall i :: 0 <= i < |w| ==> w[i].Free? == vol.nodes[i].Free?;
  }

  lemma RelabelEffect(v: Nodes, d: nat, k: nat, i: nat, name: Name, kind: Kind)
    requires WellFormed(v) && Names(v, d, k, i) && v[i].Is(kind) && v[d].slots[k].name != name
    requires WellFormed(SetSlot(v, d, k, Named(i, name)))
    ensures var w := SetSlot(v, d, k, Named(i, name));
      && Lookup(w, d, name, kind) == Some(i)
      && Lookup(w, d, v[d].slots[k].name, kind) == None
      && NamesKept(v, w, {i})
  {
    hide Lookup, DistinctNames;
    var w := SetSlot(v, d, k, Named(i, name));
    RenameNames(v, d, k, i, name);
    LookupIs(w, d, k, i, name, kind);
    OldNameGone(v, w, d, k, i, kind);
  }

  lemma MoveEffect(v: Nodes, sd: nat, sk: nat, dd: nat, dk: nat, i: nat, name: Name, kind: Kind)
    requires WellFormed(v) && Names(v, sd, sk, i) && sd != dd && EmptySlot(v, dd, dk) && v[i].Is(kind)
    requires WellFormed(MoveEntry(v, sd, sk, dd, dk, name))
    ensures var w := MoveEntry(v, sd, sk, dd, dk, name);
      && Lookup(w, dd, name, kind) == Some(i)
      && Lookup(w, sd, v[sd].slots[sk].name, kind) == None
      && NamesKept(v, w, {i})
  {
    MoveArrives(v, sd, sk, dd, dk, i, name, kind);
    MoveLeaves(v, sd, sk, dd, dk, i, name, kind);
    MoveKept(v, sd, sk, dd, dk, i, name);
  }

  lemma MoveArrives(v: Nodes, sd: nat, sk: nat, dd: nat, dk: nat, i: nat, name: Name, kind: Kind)
    requires Names(v, sd, sk, i) && sd != dd && EmptySlot(v, dd, dk) && 0 <= i < |v| && v[i].Is(kind)
    requires WellFormed(MoveEntry(v, sd, sk, dd, dk, name))
    ensures Lookup(MoveEntry(v, sd, sk, dd, dk, name), dd, name, kind) == Some(i)
  {
    LookupIs(MoveEntry(v, sd, sk, dd, dk, name), dd, dk, i, name, kind);
  }

  lemma MoveLeaves(v: Nodes, sd: nat, sk: nat, dd: nat, dk: nat, i: nat, name: Name, kind: Kind)
    requires WellFormed(v) && Names(v, sd, sk, i) && sd != dd && EmptySlot(v, dd, dk) && v[i].Is(kind)
    ensures Lookup(MoveEntry(v, sd, sk, dd, dk, name), sd, v[sd].slots[sk].name, kind) == None
  {
    MoveNames(v, sd, sk, dd, dk, i, name);
    OldNameGone(v, MoveEntry(v, sd, sk, dd, dk, name), sd, sk, i, kind);
  }

  lemma MoveKept(v: Nodes, sd: nat, sk: nat, dd: nat, dk: nat, i: nat, name: Name)
    requires WellFormed(v) && Names(v, sd, sk, i) && sd != dd && EmptySlot(v, dd, dk)
    ensures NamesKept(v, MoveEntry(v, sd, sk, dd, dk, name), {i})
  {
    var w := MoveEntry(v, sd, sk, dd, dk, name);
    MoveNames(v, sd, sk, dd, dk, i, name);
    forall e, m, j | Names(v, e, m, j) && j != i
      ensures Names(w, e, m, j) && w[e].slots[m] == v[e].slots[m]
    {
      assert Names(w, e, m, j);
    }
  }

  lemma OldNameGone(v: Nodes, w: Nodes, d: nat, k: nat, i: nat, kind: Kind)
    requires WellFormed(v) && Names(v, d, k, i) && v[i].Is(kind) && |w| == |v|
    requires forall j :: 0 <= j < |v| ==> w[j].Free? == v[j].Free? && w[j].Dir? == v[j].Dir?
    requires forall m, j :: Names(w, d, m, j) && w[d].slots[m].name == v[d].slots[k].name ==>
               Names(v, d, m, j) && m != k && w[d].slots[m] == v[d].slots[m]
    ensures Lookup(w, d, v[d].slots[k].name, kind) == None
  {
    var name := v[d].slots[k].name;
    if Find(w, d, name, kind).Some? {
      var m := Find(w, d, name, kind).value;
      var j := w[d].slots[m].inode;
      assert Names(w, d, m, j);
      LookupIs(v, d, m, j, name, kind);
      LookupIs(v, d, k, i, name, kind);
    }
  }

  // ----- removing -----

  lemma {:induction false} FileHasNoDescent(v: Nodes, i: nat, j: int, n: nat)
    requires i < |v| && v[i].File? && Descends(v, i, j, n)
    ensures j == i
    decreases n
  {
    assert !Child(v, i, j);
    if n != 0 {
      var d :| Child(v, d, j) && Descends(v, i, d, n - 1);
      FileHasNoDescent(v, i, d, n - 1);
    }
  }

  /** The subtree of a file is the file alone. */
  lemma FileSubtree(v: Nodes, i: nat)
    requires i < |v| && v[i].File?
    ensures Subtree(v, i) == {i}
  {
    assert Descends(v, i, i, 0);
    forall j | j in Subtree(v, i)
      ensures j == i
    {
      var n: nat :| Descends(v, i, j, n);
      FileHasNoDescent(v, i, j, n);
    }
  }

  /** Pruning frees exactly the subtree, empties its name, and leaves everything outside it
      named and reading as before. */
  lemma PruneEffect(v: Nodes, d: nat, k: nat, i: nat)
    requires WellFormed(v) && Names(v, d, k, i)
    ensures var w := Prune(v, d, k, Subtree(v, i));
      && WellFormed(w)
      && UsedSet(w) == UsedSet(v) - Subtree(v, i)
      && Frame(v, w, Subtree(v, i))
      && NamesKept(v, w, Subtree(v, i))
      && Lookup(w, d, v[d].slots[k].name, KindOf(v[i])) == None
  {
    PruneKeeps(v, d, k, i);
    PruneKept(v, d, k, i);
    PruneFrame(v, d, k, i);
    ParentNotBelow(v, d, k, i);
    PruneUsed(v, d, k, i);
    PruneForgets(v, d, k, i);
  }

  lemma PruneUsed(v: Nodes, d: nat, k: nat, i: nat)
    requires Names(v, d, k, i) && d !in Subtree(v, i)
    ensures UsedSet(Prune(v, d, k, Subtree(v, i))) == UsedSet(v) - Subtree(v, i)
  {
  }

  lemma PruneFrame(v: Nodes, d: nat, k: nat, i: nat)
    requires WellFormed(v) && Names(v, d, k, i)
    requires WellFormed(Prune(v, d, k, Subtree(v, i)))
    requires NamesKept(v, Prune(v, d, k, Subtree(v, i)), Subtree(v, i))
    ensures Frame(v, Prune(v, d, k, Subtree(v, i)), Subtree(v, i))
  {
    forall e, m, j | Names(v, e, m, j) && e in Subtree(v, i)
      ensures j in Subtree(v, i)
    {
      SubtreeClosed(v, i, e, m, j);
    }
    FilesKept(v, Prune(v, d, k, Subtree(v, i)), Subtree(v, i));
  }

  lemma PruneKept(v: Nodes, d: nat, k: nat, i: nat)
    requires WellFormed(v) && Names(v, d, k, i)
    ensures NamesKept(v, Prune(v, d, k, Subtree(v, i)), Subtree(v, i))
  {
    PruneNames(v, d, k, i);
    ParentNotBelow(v, d, k, i);
    var w := Prune(v, d, k, Subtree(v, i));
    forall e, m, j | Names(v, e, m, j) && j !in Subtree(v, i)
      ensures Names(w, e, m, j) && w[e].slots[m] == v[e].slots[m]
    {
      assert Names(w, e, m, j);
    }
  }

  lemma PruneForgets(v: Nodes, d: nat, k: nat, i: nat)
    requires WellFormed(v) && Names(v, d, k, i)
    ensures Lookup(Prune(v, d, k, Subtree(v, i)), d, v[d].slots[k].name, KindOf(v[i])) == None
  {
    var name := v[d].slots[k].name;
    var kind := KindOf(v[i]);
    var w := Prune(v, d, k, Subtree(v, i));
    ParentNotBelow(v, d, k, i);
    PruneNames(v, d, k, i);
    if Find(w, d, name, kind).Some? {
      var m := Find(w, d, name, kind).value;
      var j := w[d].slots[m].inode;
      assert Names(w, d, m, j);
      LookupIs(v, d, m, j, name, kind);
      LookupIs(v, d, k, i, name, kind);
    }
  }

  /** Removing a file succeeds exactly when the path leads to one (and, in the root, its name
      is short enough to exist); it frees that one node and no other file is touched. */
  lemma RemoveTheorem(vol: Volume, path: seq<byte>)
    requires WellFormed(vol.nodes)
    ensures var (ok, w) := RemoveSpec(vol, path);
      && WellFormed(w.nodes)
      && (ok <==> FileAt(vol.nodes, path).Some?)
      && (ok ==> var f := FileAt(vol.nodes, path).value; var p := Locate(vol.nodes, path).value;
                 && Lookup(w.nodes, p.dir, p.name, FileKind) == None
                 && UsedSet(w.nodes) == UsedSet(vol.nodes) - {f}
                 && Frame(vol.nodes, w.nodes, {f}) && NamesKept(vol.nodes, w.nodes, {f}))
      && (!ok ==> w == vol)
  {
    var v := vol.nodes;
    if FileAt(v, path).Some? {
      var p := Locate(v, path).value;
      var k := LookupNames(v, p.dir, p.name, FileKind);
      FileSubtree(v, FileAt(v, path).value);
      PruneEffect(v, p.dir, k, FileAt(v, path).value);
    }
  }

  /** The whole subtree of `t`, and nothing else, is gone, and so is its name. */
  ghost predicate Pruned(v: Nodes, w: Nodes, p: Place, kind: Kind, t: nat) {
    && UsedSet(w) == UsedSet(v) - Subtree(v, t)
    && Frame(v, w, Subtree(v, t))
    && NamesKept(v, w, Subtree(v, t))
    && Lookup(w, p.dir, p.name, kind) == None
  }

  /** Removing recursively frees exactly the inodes of the subtree of the target, which is the
      directory of that name if there is one and else the file; every file outside the subtree
      keeps its paths and its contents. */
  lemma RemoveTreeTheorem(vol: Volume, path: seq<byte>)
    requires WellFormed(vol.nodes)
    ensures var (ok, w) := RemoveTreeSpec(vol, path);
      && WellFormed(w.nodes)
      && (ok <==> Locate(vol.nodes, path).Some? && var p := Locate(vol.nodes, path).value;
                  Lookup(vol.nodes, p.dir, p.name, DirKind).Some? || Lookup(vol.nodes, p.dir, p.name, FileKind).Some?)
      && (ok ==> Locate(vol.nodes, path).Some? && var p := Locate(vol.nodes, path).value;
                 match Lookup(vol.nodes, p.dir, p.name, DirKind)
                 case Some(t) => Pruned(vol.nodes, w.nodes, p, DirKind, t)
                 case None => Lookup(vol.nodes, p.dir, p.name, FileKind).Some?
                              && Pruned(vol.nodes, w.nodes, p, FileKind, Lookup(vol.nodes, p.dir, p.name, FileKind).value))
      && (!ok ==> w == vol)
  {
    hide WellFormed;
    var v := vol.nodes;
    if Locate(v, path).Some? {
      var p := Locate(v, path).value;
      if DoomedSlot(v, p.dir, p.name).Some? {
        var k := DoomedSlot(v, p.dir, p.name).value;
        assert Names(v, p.dir, k, v[p.dir].slots[k].inode);
        PruneEffect(v, p.dir, k, v[p.dir].slots[k].inode);
      }
    }
  }

  // ----- the system files -----

  /** A safe system write that succeeds reads back, changes no other file and keeps the tree;
      one that fails changes nothing. */
  lemma SysWriteTheorem(vol: Volume, filename: Name, content: seq<byte>, maxlen: nat)
    requires WellFormed(vol.nodes) && NameOk(filename) && SysWriteSafe(vol, filename)
    ensures var (ok, w) := SysWriteSpec(vol, filename, content);
      && WellFormed(w.nodes)
      && (ok <==> match Lookup(vol.nodes, 0, SYS, DirKind)
                  case Some(d) => Lookup(vol.nodes, d, filename, FileKind).Some? || HasRoom(vol, d)
                  case None => HasRoom(vol, 0))
      && NamesKept(vol.nodes, w.nodes, {})
      && (ok ==> SysFileAt(w.nodes, filename).Some?
                 && SysReadSpec(w.nodes, filename, maxlen) == Some(content[..Min(|content|, maxlen)])
                 && Frame(vol.nodes, w.nodes, {SysFileAt(w.nodes, filename).value}))
      && (!ok ==> w == vol)
  {
    var v := vol.nodes;
    if Lookup(v, 0, SYS, DirKind).Some? {
      var d := Lookup(v, 0, SYS, DirKind).value;
      PutFileEffect(vol, d, filename, content);
      if PutFile(vol, d, filename, content).0 {
        SysStillThere(v, PutFile(vol, d, filename, content).1.nodes, d, filename, PutTarget(vol, d, filename), content);
      }
    } else {
      MkdirInEffect(vol, 0, SYS);
      if HasRoom(vol, 0) {
        SysCreated(vol, filename, content);
      }
    }
  }

  lemma SysStillThere(v: Nodes, w: Nodes, d: nat, filename: Name, f: nat, content: seq<byte>)
    requires WellFormed(v) && WellFormed(w) && Lookup(v, 0, SYS, DirKind) == Some(d)
    requires Put(v, w, d, filename, f, content)
    ensures Lookup(w, 0, SYS, DirKind) == Some(d)
  {
    LookupKept(v, w, {}, 0, SYS, DirKind);
  }

  /** When `sys` is missing and there is room, it is created and so is the file in it. */
  lemma SysCreated(vol: Volume, filename: Name, content: seq<byte>)
    requires WellFormed(vol.nodes) && NameOk(filename) && SysWriteSafe(vol, filename)
    requires Lookup(vol.nodes, 0, SYS, DirKind).None? && HasRoom(vol, 0)
    ensures var (ok, w) := SysWriteSpec(vol, filename, content); var d := FreeNode(vol).value;
      && ok && WellFormed(w.nodes) && NamesKept(vol.nodes, w.nodes, {})
      && Lookup(w.nodes, 0, SYS, DirKind) == Some(d)
      && SysFileAt(w.nodes, filename).Some? && var f := SysFileAt(w.nodes, filename).value;
         w.nodes[f] == File(content) && Frame(vol.nodes, w.nodes, {f})
  {
    var d := FreeNode(vol).value;
    var made := MkdirIn(vol, 0, SYS).1;
    MkdirInEffect(vol, 0, SYS);
    assert EmptySlot(made.nodes, d, 0);
    FreshDirLacks(made.nodes, d, filename);
    PutFileEffect(made, d, filename, content);
    var f := PutTarget(made, d, filename);
    var w := PutFile(made, d, filename, content).1.nodes;
    SysStillThere(made.nodes, w, d, filename, f, content);
    FrameTrans(vol.nodes, made.nodes, w, f);
    NamesTrans(vol.nodes, made.nodes, w);
  }

  lemma NamesTrans(u: Nodes, v: Nodes, w: Nodes)
    requires NamesKept(u, v, {}) && NamesKept(v, w, {})
    ensures NamesKept(u, w, {})
  {
    forall d, k, i | Names(u, d, k, i)
      ensures Names(w, d, k, i) && w[d].slots[k].name == u[d].slots[k].name
    {
      assert Names(v, d, k, i);
    }
  }

  /** A system write that succeeds did not run out half way. */
  lemma SysSuccessIsSafe(vol: Volume, filename: Name, content: seq<byte>)
    requires WellFormed(vol.nodes) && SysWriteSpec(vol, filename, content).0
    ensures SysWriteSafe(vol, filename)
  {
    if Lookup(vol.nodes, 0, SYS, DirKind).None? {
      MkdirInEffect(vol, 0, SYS);
      FreshDirLacks(MkdirIn(vol, 0, SYS).1.nodes, FreeNode(vol).value, filename);
    }
  }

  lemma FreshDirLacks(v: Nodes, d: nat, name: Name)
    requires d < |v| && v[d] == Dir(EmptySlots())
    ensures Lookup(v, d, name, FileKind).None? && FirstEmpty(v, d).Some?
  {
  }

  lemma FrameTrans(u: Nodes, v: Nodes, w: Nodes, f: nat)
    requires Frame(u, v, {}) && Frame(v, w, {f})
    ensures Frame(u, w, {f})
  {
    forall q | FileAt(u, q).Some? && FileAt(u, q).value !in {f}
      ensures ReadsAlike(u, w, q)
    {
      assert ReadsAlike(u, v, q) && ReadsAlike(v, w, q);
    }
  }

  /** After a successful write of a password hash, that hash is what is read. */
  lemma PasswdRoundTrip(vol: Volume, hash: u32)
    requires WellFormed(vol.nodes) && SysWriteSpec(vol, PASSWD, Put32(hash)).0
    ensures PasswdSpec(SysWriteSpec(vol, PASSWD, Put32(hash)).1.nodes) == Some(hash)
  {
    SysSuccessIsSafe(vol, PASSWD, Put32(hash));
    SysWriteTheorem(vol, PASSWD, Put32(hash), 4);
    assert Put32(hash)[..4] == Put32(hash);
  }
}

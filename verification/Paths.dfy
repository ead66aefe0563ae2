/** What paths mean, said of the names in the directories alone. */
module Paths {
  import opened Basics
  import opened Bytes
  import opened DirBlock
  import opened Tree
  import opened VolumeSpec
  import opened VolumeTheorems

  // ----- entries -----

  /** Directory `d` names inode `i`, which is of this kind, so. */
  ghost predicate Entry(v: Nodes, d: int, name: Name, kind: Kind, i: int) {
    exists k :: Names(v, d, k, i) && v[d].slots[k].name == name && 0 <= i < |v| && v[i].Is(kind)
  }

  lemma EntryIsNode(v: Nodes, d: int, name: Name, kind: Kind)
    ensures forall i :: Entry(v, d, name, kind, i) ==> 0 <= d < |v| && 0 <= i < |v| && v[i].Is(kind)
  {
  }

  /** A lookup finds exactly the inode that is named so. */
  lemma LookupIff(v: Nodes, d: nat, name: Name, kind: Kind, i: nat)
    requires WellFormed(v)
    ensures Lookup(v, d, name, kind) == Some(i) <==> Entry(v, d, name, kind, i)
  {
    if Lookup(v, d, name, kind) == Some(i) {
      var k := LookupNames(v, d, name, kind);
    }
    if Entry(v, d, name, kind, i) {
      var k :| Names(v, d, k, i) && v[d].slots[k].name == name && 0 <= i < |v| && v[i].Is(kind);
      LookupIs(v, d, k, i, name, kind);
    }
  }

  lemma EntryExists(v: Nodes, d: nat, name: Name, kind: Kind)
    requires WellFormed(v)
    ensures Lookup(v, d, name, kind).Some? <==> exists i :: Entry(v, d, name, kind, i)
  {
    hide WellFormed, Lookup;
    if Lookup(v, d, name, kind).Some? {
      LookupIff(v, d, name, kind, Lookup(v, d, name, kind).value);
    }
    if i :| Entry(v, d, name, kind, i) {
      LookupIff(v, d, name, kind, i);
    }
  }

  // ----- paths -----

  /** The 29 bytes of a directory name that are looked at. */
  function Shortened(name: Name): Name { if |name| < NAME_SIZE then name else name[..29] }

  /** A path `dir`/`rest` whose directory is inode `d`, a directory named in the root. */
  ghost predicate Through(v: Nodes, path: seq<byte>, dir: Name, d: nat, rest: seq<byte>) {
    path == dir + [SLASH] + rest && SLASH !in dir && Entry(v, 0, Shortened(dir), DirKind, d)
  }

  /** A path denotes a name in a directory: a path without a slash itself in the root, a path dir/rest
      the rest in the directory. */
  ghost predicate Denotes(v: Nodes, path: seq<byte>, d: nat, name: Name) {
    name != [] && if SLASH !in path then d == 0 && path == name else exists dir :: Through(v, path, dir, d, name)
  }

  lemma {:induction false} SepOf(path: seq<byte>, n: nat)
    requires n < |path| && path[n] == SLASH && forall i :: 0 <= i < n ==> path[i] != SLASH
    ensures Sep(path) == n
    decreases n
  {
    if n > 0 {
      SepOf(path[1..], n - 1);
    }
  }

  lemma NoSlash(path: seq<byte>)
    requires SLASH !in path
    ensures !HasSep(path)
  {
  }

  /** A path with a slash, cut at the first one. */
  lemma Parts(dir: Name, rest: seq<byte>)
    requires SLASH !in dir
    ensures var path := dir + [SLASH] + rest;
            HasSep(path) && Sep(path) == |dir| && DirPart(path) == Shortened(dir) && FilePart(path) == rest
  {
    var path := dir + [SLASH] + rest;
    forall i | 0 <= i < |dir|
      ensures path[i] != SLASH
    {
      assert path[i] in dir;
    }
    SepOf(path, |dir|);
  }

  lemma Cut(path: seq<byte>) returns (dir: Name, rest: seq<byte>)
    requires SLASH in path
    ensures path == dir + [SLASH] + rest && SLASH !in dir
    ensures HasSep(path) && DirPart(path) == Shortened(dir) && FilePart(path) == rest && Sep(path) == |dir|
  {
    var n := Sep(path);
    assert path[..|path|] == path;
    dir, rest := path[..n], path[n + 1..];
    assert path == dir + [SLASH] + rest;
    Parts(dir, rest);
  }

  lemma CutUnique(a: Name, r: seq<byte>, b: Name, s: seq<byte>)
    requires SLASH !in a && SLASH !in b && a + [SLASH] + r == b + [SLASH] + s
    ensures a == b && r == s
  {
    Parts(a, r);
    Parts(b, s);
    var path := a + [SLASH] + r;
    assert path[..|a|] == a && path[..|b|] == b;
  }

  /** In a well-formed volume the place that a path is resolved to is the one it denotes. */
  lemma LocateIff(v: Nodes, path: seq<byte>, d: nat, name: Name)
    requires WellFormed(v)
    ensures Locate(v, path) == Some(Place(d, name)) <==> Denotes(v, path, d, name)
  {
    hide WellFormed, Lookup, DirPart, FilePart, Sep;
    if SLASH !in path {
      NoSlash(path);
    } else {
      var dir, rest := Cut(path);
      LookupIff(v, 0, Shortened(dir), DirKind, d);
      if Locate(v, path) == Some(Place(d, name)) {
        assert Through(v, path, dir, d, name);
      }
      if Denotes(v, path, d, name) {
        var other :| Through(v, path, other, d, name);
        CutUnique(dir, rest, other, name);
      }
    }
  }

  /** A path leads to a file: the directory it denotes names that file so. */
  ghost predicate Leads(v: Nodes, path: seq<byte>, f: nat) {
    exists d: nat, name :: Denotes(v, path, d, name) && Entry(v, d, name, FileKind, f)
  }

  lemma FileAtIff(v: Nodes, path: seq<byte>, f: nat)
    requires WellFormed(v)
    ensures FileAt(v, path) == Some(f) <==> Leads(v, path, f)
  {
    hide WellFormed, Locate, Lookup, Denotes, Entry;
    if FileAt(v, path) == Some(f) {
      var p := Locate(v, path).value;
      LocateIff(v, path, p.dir, p.name);
      LookupIff(v, p.dir, p.name, FileKind, f);
      assert Denotes(v, path, p.dir, p.name) && Entry(v, p.dir, p.name, FileKind, f);
    }
    if d: nat, name :| Denotes(v, path, d, name) && Entry(v, d, name, FileKind, f) {
      LocateIff(v, path, d, name);
      LookupIff(v, d, name, FileKind, f);
    }
  }

  // ----- the shapes of a path -----

  /** A path dir/name denotes the name in the directory that the root names so, and leads to the file
      that this directory names so. */
  lemma InDirectory(v: Nodes, k: nat, d: nat, dir: Name, name: Name)
    requires WellFormed(v) && Names(v, 0, k, d) && v[d].Dir? && v[0].slots[k].name == dir && SLASH !in dir && name != []
    ensures Locate(v, dir + [SLASH] + name) == Some(Place(d, name))
    ensures forall m, f: nat :: Names(v, d, m, f) && v[f].File? && v[d].slots[m].name == name ==>
              FileAt(v, dir + [SLASH] + name) == Some(f)
  {
    var path := dir + [SLASH] + name;
    assert |dir| < NAME_SIZE && Entry(v, 0, dir, DirKind, d);
    assert SLASH in path by { assert path[|dir|] == SLASH; }
    assert Through(v, path, dir, d, name);
    LocateIff(v, path, d, name);
    forall m, f: nat | Names(v, d, m, f) && v[f].File? && v[d].slots[m].name == name
      ensures FileAt(v, path) == Some(f)
    {
      LookupIs(v, d, m, f, name, FileKind);
    }
  }

  /** A path dir/rest denotes nothing when the root names no directory so, or nothing follows. */
  lemma NoDirectory(v: Nodes, dir: Name, rest: seq<byte>)
    requires WellFormed(v) && SLASH !in dir && |dir| < NAME_SIZE
    requires rest == [] || forall d :: !Entry(v, 0, dir, DirKind, d)
    ensures Locate(v, dir + [SLASH] + rest) == None && FileAt(v, dir + [SLASH] + rest) == None
  {
    hide WellFormed, Lookup, Entry;
    var path := dir + [SLASH] + rest;
    Parts(dir, rest);
    if Lookup(v, 0, dir, DirKind).Some? {
      LookupIff(v, 0, dir, DirKind, Lookup(v, 0, dir, DirKind).value);
    }
  }

  /** Of a directory name of thirty bytes or more the first 29 count. */
  lemma LongDirectory(v: Nodes, dir: Name, rest: seq<byte>)
    requires SLASH !in dir && |dir| >= NAME_SIZE
    ensures Locate(v, dir + [SLASH] + rest) == Locate(v, dir[..29] + [SLASH] + rest)
  {
    assert SLASH !in dir[..29];
    Parts(dir, rest);
    Parts(dir[..29], rest);
  }

  /** A path without a slash denotes itself in the root, and leads to the file that the root names so. */
  lemma InRoot(v: Nodes, name: Name)
    requires WellFormed(v) && name != [] && SLASH !in name
    ensures Locate(v, name) == Some(Place(0, name))
    ensures forall k, f: nat :: Names(v, 0, k, f) && v[f].File? && v[0].slots[k].name == name ==> FileAt(v, name) == Some(f)
  {
    NoSlash(name);
    forall k, f: nat | Names(v, 0, k, f) && v[f].File? && v[0].slots[k].name == name
      ensures FileAt(v, name) == Some(f)
    {
      LookupIs(v, 0, k, f, name, FileKind);
    }
  }

  // ----- the end of a path -----

  predicate IsCut(path: seq<byte>, dir: Name, rest: seq<byte>) {
    path == dir + [SLASH] + rest && SLASH !in dir
  }

  /** The name that a path ends in: what follows its first slash, or the whole path. */
  ghost predicate EndsIn(path: seq<byte>, name: Name) {
    if SLASH !in path then path == name else exists dir :: IsCut(path, dir, name)
  }

  lemma EndsInIff(path: seq<byte>, name: Name)
    ensures EndsIn(path, name) <==> name == if HasSep(path) then FilePart(path) else path
  {
    hide Sep;
    if SLASH !in path {
      NoSlash(path);
    } else {
      var dir, rest := Cut(path);
      assert IsCut(path, dir, rest);
      if other :| IsCut(path, other, name) {
        CutUnique(dir, rest, other, name);
      }
    }
  }

  lemma EndsInLast(path: seq<byte>, dir: Name, name: Name)
    requires SLASH !in dir && SLASH !in name && (path == name || path == dir + [SLASH] + name)
    ensures EndsIn(path, name)
  {
    if path != name {
      assert path[|dir|] == SLASH && IsCut(path, dir, name);
    }
  }

  // ----- room -----

  /** There is room for a node in a directory exactly when it has an empty slot, an inode below the
      limit but the root's is free, and a block is left besides block 0 and those of the used nodes. */
  lemma HasRoomIff(vol: Volume, d: nat)
    ensures HasRoom(vol, d) <==>
      && (exists k :: EmptySlot(vol.nodes, d, k))
      && (exists i :: 1 <= i < |vol.nodes| && (vol.inodeCount == 0 || vol.inodeCount > |vol.nodes| || i < vol.inodeCount)
                      && vol.nodes[i].Free?)
      && |set i | 0 <= i < |vol.nodes| && !vol.nodes[i].Free?| + 1 < vol.blockCount
  {
    if HasRoom(vol, d) {
      assert EmptySlot(vol.nodes, d, FirstEmpty(vol.nodes, d).value);
      assert vol.nodes[FreeNode(vol).value].Free?;
    }
  }
}

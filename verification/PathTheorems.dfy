/** What reading, copying, renaming and removing do, with every path read as a relation between names
    and nodes: none of the functions by which the operations resolve their paths occurs in a statement. */
module PathTheorems {
  import opened Basics
  import opened Bytes
  import opened DirBlock
  import opened Tree
  import opened VolumeSpec
  import opened VolumeTheorems
  import opened Paths
  import opened Storage
  import opened RawDisk

  // ----- reading -----

  /** A path that leads to a file reads the first bytes of that file, up to the limit; any other path
      reads nothing. */
  lemma ReadIff(v: Nodes, path: seq<byte>, maxlen: nat)
    requires WellFormed(v)
    ensures forall f: nat :: Leads(v, path, f) && f < |v| && v[f].File? ==>
              ReadSpec(v, path, maxlen) ==
              Some(if |v[f].content| <= maxlen then v[f].content else v[f].content[..maxlen])
    ensures ReadSpec(v, path, maxlen).Some? ==> exists f: nat :: f < |v| && v[f].File? && Leads(v, path, f)
  {
    hide WellFormed, FileAt, Leads;
    forall f: nat
      ensures FileAt(v, path) == Some(f) <==> Leads(v, path, f)
    {
      FileAtIff(v, path, f);
    }
    assert forall c: seq<byte> :: c[..|c|] == c;
  }

  /** File `f` is called so in the directory sys of the root. */
  ghost predicate SysFile(v: Nodes, name: Name, f: nat) {
    exists d: nat :: Entry(v, 0, [115, 121, 115], DirKind, d) && Entry(v, d, name, FileKind, f)
  }

  lemma SysFileAtIff(v: Nodes, name: Name, f: nat)
    requires WellFormed(v)
    ensures SysFileAt(v, name) == Some(f) <==> SysFile(v, name, f)
  {
    hide WellFormed, Lookup, Entry;
    assert SYS == [115, 121, 115];
    if SysFileAt(v, name) == Some(f) {
      var d := Lookup(v, 0, SYS, DirKind).value;
      LookupIff(v, 0, SYS, DirKind, d);
      LookupIff(v, d, name, FileKind, f);
    }
    if d: nat :| Entry(v, 0, SYS, DirKind, d) && Entry(v, d, name, FileKind, f) {
      LookupIff(v, 0, SYS, DirKind, d);
      LookupIff(v, d, name, FileKind, f);
    }
  }

  /** A system file reads its first bytes, up to the limit; a name that is none reads nothing. */
  lemma SysReadIff(v: Nodes, name: Name, maxlen: nat)
    requires WellFormed(v)
    ensures forall f: nat :: SysFile(v, name, f) && f < |v| && v[f].File? ==>
              SysReadSpec(v, name, maxlen) ==
              Some(if |v[f].content| <= maxlen then v[f].content else v[f].content[..maxlen])
    ensures SysReadSpec(v, name, maxlen).Some? ==> exists f: nat :: f < |v| && v[f].File? && SysFile(v, name, f)
  {
    hide WellFormed, SysFileAt, SysFile;
    forall f: nat
      ensures SysFileAt(v, name) == Some(f) <==> SysFile(v, name, f)
    {
      SysFileAtIff(v, name, f);
    }
    assert forall c: seq<byte> :: c[..|c|] == c;
  }

  /** The stored password hash is what the first four bytes of sys/passwd give, low byte first; without
      such a file of four bytes there is none. */
  lemma PasswdIff(v: Nodes, hash: u32)
    requires WellFormed(v)
    ensures PasswdSpec(v) == Some(hash) <==> exists f: nat ::
              SysFile(v, [112, 97, 115, 115, 119, 100], f) && StartsWith(v, f, Put32(hash))
  {
    hide WellFormed, SysFileAt, SysFile, Put32, Get32;
    assert PASSWD == [112, 97, 115, 115, 119, 100];
    forall f: nat
      ensures SysFileAt(v, PASSWD) == Some(f) <==> SysFile(v, PASSWD, f)
    {
      SysFileAtIff(v, PASSWD, f);
    }
    if SysFileAt(v, PASSWD).Some? {
      FirstFour(v[SysFileAt(v, PASSWD).value].content, hash);
    }
  }

  lemma FirstFour(c: seq<byte>, hash: u32)
    ensures Put32(hash) <= c <==> |c| >= 4 && Get32(c[..4]) == hash
  {
    hide Put32, Get32;
    if |c| >= 4 {
      GetPut(c[..4]);
      assert Put32(hash) <= c <==> c[..4] == Put32(hash);
    }
  }

  /** The disk of a consistent file system is taken for formatted exactly when sys/status is there and
      its block begins with the flag. */
  lemma FormattedIff(s: Fs)
    requires Inv(s)
    ensures FlagOnDisk(s.disk) <==> exists f: nat ::
              SysFile(View(s), [115, 116, 97, 116, 117, 115], f) && FlagAt(s, f)
  {
    hide WellFormed, SysFileAt, SysFile, FlagOnDisk, DecodeSuper;
    var v := View(s);
    assert STATUS == [115, 116, 97, 116, 117, 115];
    FlagOnDiskIff(s);
    forall f: nat
      ensures SysFileAt(v, STATUS) == Some(f) <==> SysFile(v, STATUS, f)
    {
      SysFileAtIff(v, STATUS, f);
    }
  }

  predicate FlagAt(s: Fs, f: nat) {
    f < |s.inodes| && 145 + s.inodes[f].block < |s.disk| && s.disk[145 + s.inodes[f].block][0] == 0xFF
  }

  predicate StartsWith(v: Nodes, f: nat, bytes: seq<byte>) {
    f < |v| && v[f].File? && bytes <= v[f].content
  }

  // ----- making, writing, removing -----

  /** `mkdir` of a path that denotes a name in a directory. */
  lemma MkdirIff(vol: Volume, path: seq<byte>, d: nat, name: Name)
    requires WellFormed(vol.nodes) && Denotes(vol.nodes, path, d, name)
    ensures var (ok, w) := MkdirSpec(vol, path);
      && (ok <==> SLASH !in name && |name| < NAME_SIZE && HasRoom(vol, d)
                  && forall i :: !Entry(vol.nodes, d, name, DirKind, i))
      && (ok ==> exists i: nat :: Entry(w.nodes, d, name, DirKind, i) && EmptyDir(w.nodes, i))
      && (!ok ==> w == vol)
  {
    hide WellFormed, Locate, Lookup, Denotes, Entry, HasRoom, Frame, NamesKept, UsedSet, MkdirSpec;
    LocateIff(vol.nodes, path, d, name);
    ProperName(vol.nodes, path, d, name);
    EntryExists(vol.nodes, d, name, DirKind);
    MkdirTheorem(vol, path);
    if MkdirSpec(vol, path).0 {
      var w := MkdirSpec(vol, path).1.nodes;
      LookupIff(w, d, name, DirKind, Lookup(w, d, name, DirKind).value);
    }
  }

  lemma ProperName(v: Nodes, path: seq<byte>, d: nat, name: Name)
    requires Denotes(v, path, d, name)
    ensures name != []
  {
  }

  predicate EmptyDir(v: Nodes, i: nat) {
    i < |v| && v[i].Dir? && |v[i].slots| == 16 && forall k :: 0 <= k < 16 ==> v[i].slots[k].Empty?
  }

  /** A write to a path that denotes a name of at most 29 bytes in a directory. */
  lemma WriteIff(vol: Volume, path: seq<byte>, data: seq<byte>, d: nat, name: Name)
    requires WellFormed(vol.nodes) && Denotes(vol.nodes, path, d, name) && |name| < NAME_SIZE
    ensures var (ok, w) := WriteSpec(vol, path, data);
      && (ok <==> HasRoom(vol, d) || exists f :: Entry(vol.nodes, d, name, FileKind, f))
      && (ok ==> exists f: nat :: Entry(w.nodes, d, name, FileKind, f) && Leads(w.nodes, path, f)
                                  && Holds(w.nodes, f, if |data| <= 512 then data else data[..512])
                                  && Frame(vol.nodes, w.nodes, {f}))
      && (!ok ==> w == vol)
  {
    hide WellFormed, Locate, Lookup, Denotes, Entry, HasRoom, Frame, NamesKept, Leads;
    var v := vol.nodes;
    LocateIff(v, path, d, name);
    ProperName(v, path, d, name);
    PlainName(v, path, d, name);
    EntryExists(v, d, name, FileKind);
    PutFileEffect(vol, d, name, Clip(data));
    assert data[..|data|] == data;
    if WriteSpec(vol, path, data).0 {
      var w, f := WriteSpec(vol, path, data).1.nodes, PutTarget(vol, d, name);
      PutAtPath(v, w, path, f, Clip(data));
      LookupIff(w, d, name, FileKind, f);
      FileAtIff(w, path, f);
    }
  }

  /** A write to a longer name fails in the root, and in a directory that has no room; in one that has
      room it succeeds and breaks the tree. */
  lemma WriteLong(vol: Volume, path: seq<byte>, data: seq<byte>, d: nat, name: Name)
    requires WellFormed(vol.nodes) && Denotes(vol.nodes, path, d, name) && |name| >= NAME_SIZE
    ensures var (ok, w) := WriteSpec(vol, path, data);
            (ok <==> SLASH in path && HasRoom(vol, d)) && (WellFormed(w.nodes) <==> !ok) && (!ok ==> w == vol)
  {
    hide WellFormed, Locate, Lookup, Denotes, HasRoom, Sep;
    LocateIff(vol.nodes, path, d, name);
    PlainName(vol.nodes, path, d, name);
    ImproperIsNew(vol.nodes, d, name, FileKind);
    WriteKeepsTreeIff(vol, path, data);
    if SLASH in path {
      var dir, rest := Cut(path);
      SlashedName(vol.nodes, path, d, name);
    } else {
      NoSlash(path);
    }
  }

  lemma SlashedName(v: Nodes, path: seq<byte>, d: nat, name: Name)
    requires Denotes(v, path, d, name) && SLASH in path
    ensures HasSep(path) && FilePart(path) == name
  {
    hide Sep;
    var dir :| Through(v, path, dir, d, name);
    Parts(dir, name);
  }

  lemma PlainName(v: Nodes, path: seq<byte>, d: nat, name: Name)
    requires Denotes(v, path, d, name)
    ensures !HasSep(path) ==> path == name
  {
    if SLASH in path {
      var dir, rest := Cut(path);
    }
  }

  predicate Holds(v: Nodes, f: nat, content: seq<byte>) {
    f < |v| && v[f] == File(content)
  }

  /** Exactly these inodes are free now, the name is gone, all other names and files stayed. */
  ghost predicate Gone(v: Nodes, w: Nodes, d: nat, name: Name, kind: Kind, freed: set<int>) {
    && |w| == |v| && (forall i :: 0 <= i < |w| ==> (w[i].Free? <==> v[i].Free? || i in freed))
    && (forall i :: !Entry(w, d, name, kind, i))
    && Frame(v, w, freed) && NamesKept(v, w, freed)
  }

  lemma GoneIs(v: Nodes, w: Nodes, d: nat, name: Name, kind: Kind, freed: set<int>)
    requires WellFormed(w) && UsedSet(w) == UsedSet(v) - freed && Lookup(w, d, name, kind) == None
    requires Frame(v, w, freed) && NamesKept(v, w, freed)
    ensures Gone(v, w, d, name, kind, freed)
  {
    hide WellFormed, Lookup, Entry, Frame;
    EntryExists(w, d, name, kind);
    forall i | 0 <= i < |w|
      ensures w[i].Free? <==> v[i].Free? || i in freed
    {
      assert i in UsedSet(w) <==> !w[i].Free?;
      assert i in UsedSet(v) <==> !v[i].Free?;
    }
  }

  /** `rm` of a path that denotes a name in a directory: a file of that name goes, a directory stays. */
  lemma RemoveIff(vol: Volume, path: seq<byte>, d: nat, name: Name)
    requires WellFormed(vol.nodes) && Denotes(vol.nodes, path, d, name)
    ensures var (ok, w) := RemoveSpec(vol, path);
      && (ok <==> exists f :: Entry(vol.nodes, d, name, FileKind, f))
      && (ok ==> exists f: nat :: Entry(vol.nodes, d, name, FileKind, f) && Gone(vol.nodes, w.nodes, d, name, FileKind, {f}))
      && (!ok ==> w == vol)
  {
    hide WellFormed, Locate, Lookup, Denotes, Entry, Frame, NamesKept, UsedSet, RemoveSpec, Gone;
    RemoveTheorem(vol, path);
    LocateIff(vol.nodes, path, d, name);
    EntryExists(vol.nodes, d, name, FileKind);
    if RemoveSpec(vol, path).0 {
      var f := FileAt(vol.nodes, path).value;
      LookupIff(vol.nodes, d, name, FileKind, f);
      GoneIs(vol.nodes, RemoveSpec(vol, path).1.nodes, d, name, FileKind, {f});
    }
  }

  /** `rm -r` of a path that denotes a name in a directory: the directory of that name goes with all that
      is below it, or else the file. */
  lemma RemoveTreeIff(vol: Volume, path: seq<byte>, d: nat, name: Name)
    requires WellFormed(vol.nodes) && Denotes(vol.nodes, path, d, name)
    ensures var (ok, w) := RemoveTreeSpec(vol, path);
      && (ok <==> (exists i :: Entry(vol.nodes, d, name, DirKind, i)) || exists i :: Entry(vol.nodes, d, name, FileKind, i))
      && (ok ==> exists kind, i: nat ::
            Entry(vol.nodes, d, name, kind, i) && Gone(vol.nodes, w.nodes, d, name, kind, Subtree(vol.nodes, i))
            && (kind == FileKind ==> forall j :: !Entry(vol.nodes, d, name, DirKind, j)))
      && (!ok ==> w == vol)
  {
    hide WellFormed, Locate, Lookup, Denotes, Entry, Frame, NamesKept, UsedSet, RemoveTreeSpec, Gone, Subtree;
    RemoveTreeTheorem(vol, path);
    LocateIff(vol.nodes, path, d, name);
    EntryExists(vol.nodes, d, name, DirKind);
    EntryExists(vol.nodes, d, name, FileKind);
    if RemoveTreeSpec(vol, path).0 {
      var kind := if Lookup(vol.nodes, d, name, DirKind).Some? then DirKind else FileKind;
      var i := Lookup(vol.nodes, d, name, kind).value;
      LookupIff(vol.nodes, d, name, kind, i);
      GoneIs(vol.nodes, RemoveTreeSpec(vol, path).1.nodes, d, name, kind, Subtree(vol.nodes, i));
    }
  }

  /** A path that denotes nothing leads every operation to a failure that changes nothing. */
  lemma NothingDenoted(vol: Volume, path: seq<byte>, data: seq<byte>)
    requires WellFormed(vol.nodes) && forall d: nat, name :: !Denotes(vol.nodes, path, d, name)
    ensures MkdirSpec(vol, path) == (false, vol) && WriteSpec(vol, path, data) == (false, vol)
    ensures RemoveSpec(vol, path) == (false, vol) && RemoveTreeSpec(vol, path) == (false, vol)
  {
    hide WellFormed, Denotes, Locate, MkdirSpec, Frame, NamesKept;
    if Locate(vol.nodes, path).Some? {
      var p := Locate(vol.nodes, path).value;
      LocateIff(vol.nodes, path, p.dir, p.name);
    }
    MkdirTheorem(vol, path);
  }

  // ----- copying -----

  /** A copy from `src` to `dst` goes to the name `x` in directory `d`: into the directory that the root
      names `dst`, under the source's own name; without such a directory to `dst` itself. */
  ghost predicate CopyLands(v: Nodes, src: seq<byte>, dst: seq<byte>, d: nat, x: Name) {
    if SLASH in dst then Denotes(v, dst, d, x)
    else if exists e :: Entry(v, 0, dst, DirKind, e) then Entry(v, 0, dst, DirKind, d) && EndsIn(src, x)
    else d == 0 && x == dst
  }

  lemma CopyTargetIff(v: Nodes, src: seq<byte>, dst: seq<byte>, d: nat, x: Name)
    requires WellFormed(v)
    ensures CopyTarget(v, src, dst) == Some(Place(d, x)) <==> CopyLands(v, src, dst, d, x)
  {
    hide WellFormed, Locate, Lookup, Denotes, Entry, Sep;
    if SLASH in dst {
      var dir, rest := Cut(dst);
      LocateIff(v, dst, d, x);
    } else {
      NoSlash(dst);
      forall e: nat
        ensures Lookup(v, 0, dst, DirKind) == Some(e) <==> Entry(v, 0, dst, DirKind, e)
      {
        LookupIff(v, 0, dst, DirKind, e);
      }
      EntryIsNode(v, 0, dst, DirKind);
      EndsInIff(src, x);
    }
  }

  predicate SameFile(v: Nodes, f: nat, w: Nodes, g: nat) {
    f < |v| && g < |w| && v[f].File? && w[g] == v[f]
  }

  /** A copy whose source leads to a file and that lands at a name succeeds exactly when that name is
      proper and a file already or one can be made there; then it leads to a file with the content that
      the source had and still has, and every other file reads as before. */
  lemma CopyIff(vol: Volume, src: seq<byte>, dst: seq<byte>, f: nat, d: nat, x: Name)
    requires WellFormed(vol.nodes) && Leads(vol.nodes, src, f) && CopyLands(vol.nodes, src, dst, d, x)
    ensures var (ok, w) := CopySpec(vol, src, dst);
      && (ok <==> NameOk(x) && ((exists g :: Entry(vol.nodes, d, x, FileKind, g)) || HasRoom(vol, d)))
      && (ok ==> exists g: nat :: Entry(w.nodes, d, x, FileKind, g) && SameFile(vol.nodes, f, w.nodes, g)
                                  && SameFile(vol.nodes, f, w.nodes, f) && Frame(vol.nodes, w.nodes, {g})
                                  && (Denotes(vol.nodes, dst, d, x) ==> Leads(w.nodes, dst, g)))
  {
    hide WellFormed, Locate, Lookup, Denotes, Entry, HasRoom, Frame;
    var v, w := vol.nodes, CopySpec(vol, src, dst).1.nodes;
    FileAtIff(v, src, f);
    CopyTargetIff(v, src, dst, d, x);
    CopyTheorem(vol, src, dst);
    EntryExists(v, d, x, FileKind);
    ImproperIsNew(v, d, x, FileKind);
    if CopySpec(vol, src, dst).0 {
      var g := PutTarget(vol, d, x);
      LookupIff(w, d, x, FileKind, g);
      LocateIff(v, dst, d, x);
      FileAtIff(w, dst, g);
    }
  }

  /** A copy without a source file or a place to land fails and changes nothing. */
  lemma CopyFails(vol: Volume, src: seq<byte>, dst: seq<byte>)
    requires WellFormed(vol.nodes)
    requires (forall f :: !Leads(vol.nodes, src, f)) || (forall d, x :: !CopyLands(vol.nodes, src, dst, d, x))
    ensures CopySpec(vol, src, dst) == (false, vol)
  {
    hide WellFormed, CopyTarget, FileAt, CopyLands, Leads;
    if FileAt(vol.nodes, src).Some? {
      FileAtIff(vol.nodes, src, FileAt(vol.nodes, src).value);
    }
    if CopyTarget(vol.nodes, src, dst).Some? {
      var t := CopyTarget(vol.nodes, src, dst).value;
      CopyTargetIff(vol.nodes, src, dst, t.dir, t.name);
    }
  }

  /** `cp src dst` with a plain name that the root gives to a directory puts the file into that
      directory, under the last name of its source path. */
  lemma CopyInto(vol: Volume, src: seq<byte>, dst: Name, e: Name, b: Name, d: nat)
    requires WellFormed(vol.nodes) && SLASH !in dst && SLASH !in e && SLASH !in b
    requires src == b || src == e + [SLASH] + b
    requires Lookup(vol.nodes, 0, dst, DirKind) == Some(d) && CopySpec(vol, src, dst).0
    ensures FileAt(vol.nodes, src).Some?
    ensures var w := CopySpec(vol, src, dst).1.nodes;
            Lookup(w, d, b, FileKind).Some?
            && SameFile(vol.nodes, FileAt(vol.nodes, src).value, w, Lookup(w, d, b, FileKind).value)
  {
    hide WellFormed, Lookup, FileAt, Frame, Entry, Denotes, EndsIn, CopySpec;
    CopyTheorem(vol, src, dst);
    var f := FileAt(vol.nodes, src).value;
    FileAtIff(vol.nodes, src, f);
    LookupIff(vol.nodes, 0, dst, DirKind, d);
    EndsInLast(src, e, b);
    CopyIff(vol, src, dst, f, d, b);
    var w := CopySpec(vol, src, dst).1.nodes;
    var g: nat :| Entry(w, d, b, FileKind, g) && SameFile(vol.nodes, f, w, g);
    LookupIff(w, d, b, FileKind, g);
  }

  /** To a path with a slash, and to a plain name that is no directory's, the copy goes as it stands: after
      a success `dst` leads to a file with the content of the source. */
  lemma CopyTo(vol: Volume, src: seq<byte>, dst: seq<byte>)
    requires WellFormed(vol.nodes) && CopySpec(vol, src, dst).0
    requires SLASH in dst || forall d :: !Entry(vol.nodes, 0, dst, DirKind, d)
    ensures var w := CopySpec(vol, src, dst).1.nodes;
            FileAt(vol.nodes, src).Some? && FileAt(w, dst).Some?
            && SameFile(vol.nodes, FileAt(vol.nodes, src).value, w, FileAt(w, dst).value)
            && (SLASH !in dst ==> Lookup(w, 0, dst, FileKind) == FileAt(w, dst))
  {
    hide WellFormed, Lookup, FileAt, Frame, Entry, Through, CopySpec, CopyTarget;
    CopyTheorem(vol, src, dst);
    var f, t := FileAt(vol.nodes, src).value, CopyTarget(vol.nodes, src, dst).value;
    FileAtIff(vol.nodes, src, f);
    CopyTargetIff(vol.nodes, src, dst, t.dir, t.name);
    CopyIff(vol, src, dst, f, t.dir, t.name);
    var w := CopySpec(vol, src, dst).1.nodes;
    var g: nat :| Entry(w, t.dir, t.name, FileKind, g) && SameFile(vol.nodes, f, w, g) && Leads(w, dst, g);
    FileAtIff(w, dst, g);
    LookupIff(w, t.dir, t.name, FileKind, g);
  }

  // ----- renaming -----

  /** A rename to `dst` of something called `n` puts the name `x` into directory `d`; it goes `inside`
      when `dst` is the plain name of a directory, or such a name with nothing behind its slash. */
  ghost predicate Arrives(v: Nodes, n: Name, dst: seq<byte>, d: nat, x: Name, inside: bool) {
    if SLASH in dst then exists dir, rest :: Through(v, dst, dir, d, rest) && inside == (rest == [])
                                             && x == if inside then n else rest
    else if exists e :: Entry(v, 0, dst, DirKind, e) then Entry(v, 0, dst, DirKind, d) && inside && x == n
    else dst != [] && d == 0 && !inside && x == dst
  }

  lemma TargetIff(v: Nodes, n: Name, dst: seq<byte>, d: nat, x: Name, inside: bool)
    requires WellFormed(v)
    ensures RenameTarget(v, n, dst) == Some((Place(d, x), inside)) <==> Arrives(v, n, dst, d, x, inside)
  {
    hide WellFormed, Lookup, Entry, Sep;
    if SLASH in dst {
      var dir, rest := Cut(dst);
      NoEmptyName(v, 0, DirKind);
      LookupIff(v, 0, Shortened(dir), DirKind, d);
      if RenameTarget(v, n, dst) == Some((Place(d, x), inside)) {
        assert Through(v, dst, dir, d, rest);
      }
      if other, tail :| Through(v, dst, other, d, tail) && inside == (tail == []) && x == if inside then n else tail {
        CutUnique(dir, rest, other, tail);
      }
    } else {
      NoSlash(dst);
      NoEmptyName(v, 0, DirKind);
      EntryExists(v, 0, dst, DirKind);
      LookupIff(v, 0, dst, DirKind, d);
    }
  }

  lemma NoEmptyName(v: Nodes, d: nat, kind: Kind)
    requires WellFormed(v)
    ensures Lookup(v, d, [], kind).None? && forall i :: !Entry(v, d, [], kind, i)
  {
    ImproperIsNew(v, d, [], kind);
    EntryExists(v, d, [], kind);
  }

  /** What a rename of `src` takes hold of: inode `i`, named `n` in directory `e`; a file of that name
      goes before a directory. */
  ghost predicate Taken(v: Nodes, src: seq<byte>, e: nat, n: Name, kind: Kind, i: nat) {
    Denotes(v, src, e, n) && Entry(v, e, n, kind, i) && (kind == DirKind ==> forall j :: !Entry(v, e, n, FileKind, j))
  }

  lemma SourceIff(v: Nodes, src: seq<byte>, e: nat, n: Name)
    requires WellFormed(v)
    ensures RenameSource(v, src) == Some(Place(e, n)) <==> Denotes(v, src, e, n) && |n| < NAME_SIZE
  {
    hide WellFormed, Lookup, Denotes, DirPart, Sep;
    LocateIff(v, src, e, n);
    NoEmptyName(v, 0, DirKind);
    if SLASH in src {
      var dir, rest := Cut(src);
    } else {
      NoSlash(src);
    }
  }

  lemma EntryOfIff(v: Nodes, e: nat, n: Name, kind: Kind, i: nat)
    requires WellFormed(v)
    ensures (match RenameEntryOf(v, e, n)
             case None => false
             case Some(found) => found.1 == kind && Names(v, e, found.0, i)) <==>
            Entry(v, e, n, kind, i) && (kind == DirKind ==> forall j :: !Entry(v, e, n, FileKind, j))
  {
    hide WellFormed, Entry;
    EntryExists(v, e, n, FileKind);
    LookupIff(v, e, n, kind, i);
  }

  lemma EntryNames(v: Nodes, d: nat, n: Name, kind: Kind, i: nat)
    requires WellFormed(v) && Entry(v, d, n, kind, i)
    ensures |n| < NAME_SIZE && i != 0
  {
  }

  /** The entry taken and the place of arrival make up the resolved rename. */
  lemma PlanIs(v: Nodes, src: seq<byte>, dst: seq<byte>, e: nat, n: Name, kind: Kind, i: nat, d: nat, x: Name, inside: bool)
    requires WellFormed(v) && Taken(v, src, e, n, kind, i) && Arrives(v, n, dst, d, x, inside)
    ensures PlanRename(v, src, dst).Some? <==> |x| < NAME_SIZE
    ensures |x| < NAME_SIZE ==>
              exists k: nat :: PlanRename(v, src, dst) == Some(Plan(e, k, i, kind, d, x, inside))
                               && Names(v, e, k, i) && v[e].slots[k].name == n
  {
    hide WellFormed, Denotes, Entry, Arrives, RenameSource, RenameTarget;
    SourceIff(v, src, e, n);
    EntryNames(v, e, n, kind, i);
    EntryOfIff(v, e, n, kind, i);
    TargetIff(v, n, dst, d, x, inside);
  }

  /** A rename with nothing to do: the new place and name are the old ones, or the destination is the
      moved directory itself. */
  predicate NothingToDo(e: nat, n: Name, kind: Kind, i: nat, d: nat, x: Name, inside: bool) {
    (d == e && x == n) || (inside && kind == DirKind && d == i)
  }

  lemma CanArrive(v: Nodes, d: nat)
    ensures FirstEmpty(v, d).Some? <==> exists k :: EmptySlot(v, d, k)
  {
  }

  /** A rename of what `src` takes hold of to where `dst` arrives succeeds exactly when the new name is
      short enough and there is nothing to do, or the name is free there for the kind and, across
      directories, a slot is. Nothing changes exactly when there is nothing to do; else the new name
      leads to the node, the old one leads nowhere, and all other names stay, unless the node is moved
      into itself, which breaks the tree. */
  lemma RenameIff(vol: Volume, src: seq<byte>, dst: seq<byte>, e: nat, n: Name, kind: Kind, i: nat,
                  d: nat, x: Name, inside: bool)
    requires WellFormed(vol.nodes) && Taken(vol.nodes, src, e, n, kind, i) && Arrives(vol.nodes, n, dst, d, x, inside)
    ensures var (ok, w) := RenameSpec(vol, src, dst); var idle := NothingToDo(e, n, kind, i, d, x, inside);
      && (ok <==> |x| < NAME_SIZE
                  && (idle || ((forall j :: !Entry(vol.nodes, d, x, kind, j))
                               && (d == e || exists k :: EmptySlot(vol.nodes, d, k)))))
      && (ok ==> (w == vol <==> idle))
      && (ok && !idle && d != i ==>
            && WellFormed(w.nodes) && NamesKept(vol.nodes, w.nodes, {i})
            && Entry(w.nodes, d, x, kind, i) && forall j :: !Entry(w.nodes, e, n, kind, j))
      && (ok && !idle && d == i ==> !WellFormed(w.nodes))
  {
    hide WellFormed, Taken, Arrives, Entry, NamesKept, PlanRename, FirstEmpty, Find;
    var v, w := vol.nodes, RenameSpec(vol, src, dst).1.nodes;
    PlanIs(v, src, dst, e, n, kind, i, d, x, inside);
    CanArrive(v, d);
    EntryExists(v, d, x, kind);
    if RenameSpec(vol, src, dst).0 && !NothingToDo(e, n, kind, i, d, x, inside) {
      PlanFacts(v, src, dst);
      RenameKeepsTreeIff(vol, src, dst);
      if d != i {
        RenameTheorem(vol, src, dst);
        LookupIff(w, d, x, kind, i);
        EntryExists(w, e, n, kind);
        OldEntry(v, src, e, n, kind, i);
      }
    }
  }

  lemma OldEntry(v: Nodes, src: seq<byte>, e: nat, n: Name, kind: Kind, i: nat)
    requires Taken(v, src, e, n, kind, i)
    ensures Entry(v, e, n, kind, i)
  {
  }

  lemma PlanResolves(v: Nodes, src: seq<byte>, dst: seq<byte>) returns (n: Name)
    requires WellFormed(v) && PlanRename(v, src, dst).Some?
    ensures var p := PlanRename(v, src, dst).value;
            Taken(v, src, p.from, n, p.kind, p.inode) && Arrives(v, n, dst, p.to, p.name, p.inside)
  {
    hide WellFormed, Arrives, Denotes, Entry, RenameSource, RenameTarget, RenameEntryOf;
    var p := PlanRename(v, src, dst).value;
    n := RenameSource(v, src).value.name;
    SourceIff(v, src, p.from, n);
    EntryOfIff(v, p.from, n, p.kind, p.inode);
    TargetIff(v, n, dst, p.to, p.name, p.inside);
  }

  /** A rename that takes hold of nothing or arrives nowhere fails and changes nothing. */
  lemma RenameFails(vol: Volume, src: seq<byte>, dst: seq<byte>)
    requires WellFormed(vol.nodes)
    requires (forall e, n, kind, i :: !Taken(vol.nodes, src, e, n, kind, i))
             || (forall n, d, x, inside :: !Arrives(vol.nodes, n, dst, d, x, inside))
    ensures RenameSpec(vol, src, dst) == (false, vol)
  {
    hide WellFormed, Taken, Arrives, PlanRename;
    if PlanRename(vol.nodes, src, dst).Some? {
      var n := PlanResolves(vol.nodes, src, dst);
    }
  }

  /** `mv src dn`, `mv src dn/` and `mv src dn/x`: a node of the root or of a directory in it moves into
      the directory `d` that the root names `dn`, given that `d` has a slot and lacks the name. */
  lemma MoveInto(vol: Volume, src: seq<byte>, dn: Name, e: nat, n: Name, kind: Kind, i: nat, d: nat, x: Name, dst: seq<byte>)
    requires WellFormed(vol.nodes) && Taken(vol.nodes, src, e, n, kind, i)
    requires Lookup(vol.nodes, 0, dn, DirKind) == Some(d) && SLASH !in dn && d != e && d != i
    requires NameOk(x) && Lookup(vol.nodes, d, x, kind).None? && exists k :: EmptySlot(vol.nodes, d, k)
    requires dst == dn + [SLASH] + x || (x == n && (dst == dn || dst == dn + [SLASH]))
    ensures var (ok, w) := RenameSpec(vol, src, dst);
            ok && Lookup(w.nodes, d, x, kind) == Some(i) && Lookup(w.nodes, e, n, kind) == None
  {
    hide WellFormed, Taken, Lookup, Entry, RenameSpec;
    var v, w := vol.nodes, RenameSpec(vol, src, dst).1.nodes;
    LookupIff(v, 0, dn, DirKind, d);
    EntryNames(v, 0, dn, DirKind, d);
    EntryExists(v, d, x, kind);
    var inside := dst != dn + [SLASH] + x;
    if dst != dn {
      assert dst[|dn|] == SLASH;
      assert dst == dn + [SLASH] + if inside then [] else x;
      assert Through(v, dst, dn, d, if inside then [] else x);
    }
    assert Arrives(v, n, dst, d, x, inside);
    RenameIff(vol, src, dst, e, n, kind, i, d, x, inside);
    LookupIff(w, d, x, kind, i);
    EntryExists(w, e, n, kind);
  }

  /** `mv src x` with a plain name that is no directory's: the node comes to be called so in the root. */
  lemma MoveToRoot(vol: Volume, src: seq<byte>, e: nat, n: Name, kind: Kind, i: nat, x: Name)
    requires WellFormed(vol.nodes) && Taken(vol.nodes, src, e, n, kind, i)
    requires NameOk(x) && SLASH !in x && Lookup(vol.nodes, 0, x, DirKind).None? && Lookup(vol.nodes, 0, x, kind).None?
    requires e == 0 || exists k :: EmptySlot(vol.nodes, 0, k)
    ensures var (ok, w) := RenameSpec(vol, src, x);
            ok && Lookup(w.nodes, 0, x, kind) == Some(i) && Lookup(w.nodes, e, n, kind) == None
  {
    hide WellFormed, Taken, Lookup, Entry, RenameSpec;
    var v, w := vol.nodes, RenameSpec(vol, src, x).1.nodes;
    EntryExists(v, 0, x, DirKind);
    EntryExists(v, 0, x, kind);
    OldEntry(v, src, e, n, kind, i);
    EntryNames(v, e, n, kind, i);
    RenameIff(vol, src, x, e, n, kind, i, 0, x, false);
    LookupIff(w, 0, x, kind, i);
    EntryExists(w, e, n, kind);
  }
}

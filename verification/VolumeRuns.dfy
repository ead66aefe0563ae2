/** Whole runs of operations, and the situations in which an operation does not keep its promises. */
module VolumeRuns {
  import opened Basics
  import opened Bytes
  import opened DirBlock
  import opened Tree
  import opened TreeEdits
  import opened VolumeSpec
  import opened VolumeTheorems

  // ----- runs -----

  datatype Op =
    | Mkdir(path: seq<byte>)
    | Create(name: Name)
    | Write(path: seq<byte>, data: seq<byte>)
    | Copy(src: seq<byte>, dst: seq<byte>)
    | Rename(src: seq<byte>, dst: seq<byte>)
    | Remove(path: seq<byte>)
    | RemoveTree(path: seq<byte>)
    | SysWrite(filename: Name, content: seq<byte>)

  /** Arguments are C strings; the system files are the fixed short ones. */
  predicate OpOk(op: Op) {
    match op
    case Mkdir(path) => IsCString(path)
    case Create(name) => IsCString(name)
    case Write(path, _) => IsCString(path)
    case Copy(src, dst) => IsCString(src) && IsCString(dst)
    case Rename(src, dst) => IsCString(src) && IsCString(dst)
    case Remove(path) => IsCString(path)
    case RemoveTree(path) => IsCString(path)
    case SysWrite(filename, content) => NameOk(filename) && IsCString(filename) && |content| <= BLOCK_SIZE
  }

  ghost function Step(vol: Volume, op: Op): (bool, Volume) {
    match op
    case Mkdir(path) => MkdirSpec(vol, path)
    case Create(name) => CreateSpec(vol, name)
    case Write(path, data) => WriteSpec(vol, path, data)
    case Copy(src, dst) => CopySpec(vol, src, dst)
    case Rename(src, dst) => RenameSpec(vol, src, dst)
    case Remove(path) => RemoveSpec(vol, path)
    case RemoveTree(path) => RemoveTreeSpec(vol, path)
    case SysWrite(filename, content) => SysWriteSpec(vol, filename, content)
  }

  /** The three situations in which an operation does not keep the promises of the file system. */
  predicate Hazard(vol: Volume, op: Op) {
    match op
    case Write(path, _) => WriteOverflows(vol, path)
    case Rename(src, dst) => MovesIntoItself(vol.nodes, src, dst)
    case SysWrite(filename, _) => !NameOk(filename) || !SysWriteSafe(vol, filename)
    case _ => false
  }

  ghost function Run(vol: Volume, ops: seq<Op>): Volume
    decreases |ops|
  {
    if ops == [] then vol else Run(Step(vol, ops[0]).1, ops[1..])
  }

  ghost predicate NoHazard(vol: Volume, ops: seq<Op>)
    decreases |ops|
  {
    ops == [] || (!Hazard(vol, ops[0]) && NoHazard(Step(vol, ops[0]).1, ops[1..]))
  }

  /** Every operation keeps the tree invariant, and one that fails changes nothing. */
  lemma StepKeeps(vol: Volume, op: Op)
    requires WellFormed(vol.nodes) && !Hazard(vol, op)
    ensures WellFormed(Step(vol, op).1.nodes)
    ensures !Step(vol, op).0 ==> Step(vol, op).1 == vol
  {
    match op
    case Mkdir(path) => MkdirTheorem(vol, path);
    case Create(name) => CreateTheorem(vol, name);
    case Write(path, data) => WriteReadRoundTrip(vol, path, data, 0);
    case Copy(src, dst) => CopyTheorem(vol, src, dst);
    case Rename(src, dst) => RenameKeepsTreeIff(vol, src, dst);
    case Remove(path) => RemoveTheorem(vol, path);
    case RemoveTree(path) => RemoveTreeTheorem(vol, path);
    case SysWrite(filename, content) => SysWriteTheorem(vol, filename, content, 0);
  }

  /** In every state of every run the directory graph is a tree. */
  lemma {:induction false} RunKeepsTree(vol: Volume, ops: seq<Op>)
    requires WellFormed(vol.nodes) && NoHazard(vol, ops)
    ensures WellFormed(Run(vol, ops).nodes)
    decreases |ops|
  {
    if ops != [] {
      StepKeeps(vol, ops[0]);
      RunKeepsTree(Step(vol, ops[0]).1, ops[1..]);
    }
  }

  // ----- what a run leaves alone -----

  /** The inodes whose contents an operation may change or free. */
  ghost function Touched(vol: Volume, op: Op): set<int> {
    match op
    case Mkdir(_) => {}
    case Create(_) => {}
    case Rename(_, _) => {}
    case Write(path, _) =>
      (match Locate(vol.nodes, path) case None => {} case Some(p) => {PutTarget(vol, p.dir, p.name)})
    case Copy(src, dst) =>
      (match CopyTarget(vol.nodes, src, dst) case None => {} case Some(t) => {PutTarget(vol, t.dir, t.name)})
    case Remove(path) =>
      (match FileAt(vol.nodes, path) case None => {} case Some(f) => {f})
    case RemoveTree(path) =>
      (match Locate(vol.nodes, path)
       case None => {}
       case Some(p) =>
         match DoomedSlot(vol.nodes, p.dir, p.name)
         case None => {}
         case Some(k) => Subtree(vol.nodes, vol.nodes[p.dir].slots[k].inode))
    case SysWrite(filename, _) =>
      (match Lookup(vol.nodes, 0, SYS, DirKind) case None => {} case Some(d) => {PutTarget(vol, d, filename)})
  }

  /** From `v` to `w` every file outside `touched`, however deep it lies, is the same. */
  ghost predicate FilesSame(v: Nodes, w: Nodes, touched: set<int>) {
    |w| == |v| && forall i :: 0 <= i < |v| && v[i].File? && i !in touched ==> w[i] == v[i]
  }

  lemma AddSame(vol: Volume, d: nat, name: Name, node: Node)
    ensures FilesSame(vol.nodes, Add(vol, d, name, node).1.nodes, {})
    ensures NamesKept(vol.nodes, Add(vol, d, name, node).1.nodes, {})
  {
    NamesSame(vol.nodes);
    if HasRoom(vol, d) {
      AddChildKept(vol.nodes, d, FirstEmpty(vol.nodes, d).value, FreeNode(vol).value, name, node);
    }
  }

  lemma PutSame(vol: Volume, d: nat, name: Name, content: seq<byte>)
    ensures FilesSame(vol.nodes, PutFile(vol, d, name, content).1.nodes, {PutTarget(vol, d, name)})
    ensures NamesKept(vol.nodes, PutFile(vol, d, name, content).1.nodes, {})
  {
    AddSame(vol, d, name, File(content));
    if Lookup(vol.nodes, d, name, FileKind).Some? {
      OverwriteNames(vol.nodes, Lookup(vol.nodes, d, name, FileKind).value, content);
    }
  }

  lemma SysWriteSame(vol: Volume, filename: Name, content: seq<byte>)
    requires WellFormed(vol.nodes)
    ensures FilesSame(vol.nodes, SysWriteSpec(vol, filename, content).1.nodes,
                      Touched(vol, SysWrite(filename, content)))
    ensures NamesKept(vol.nodes, SysWriteSpec(vol, filename, content).1.nodes, {})
  {
    match Lookup(vol.nodes, 0, SYS, DirKind)
    case Some(d) => PutSame(vol, d, filename, content);
    case None =>
      AddSame(vol, 0, SYS, Dir(EmptySlots()));
      var made := MkdirIn(vol, 0, SYS);
      if made.0 {
        MkdirInEffect(vol, 0, SYS);
        FreshDirLacks(made.1.nodes, FreeNode(vol).value, filename);
        AddSame(made.1, FreeNode(vol).value, filename, File(content));
        PutSame(made.1, FreeNode(vol).value, filename, content);
        NamesTrans(vol.nodes, made.1.nodes, SysWriteSpec(vol, filename, content).1.nodes);
      }
  }

  /** The inodes whose name or place an operation may change: what it renames or frees. */
  ghost function Unnamed(vol: Volume, op: Op): set<int> {
    match op
    case Rename(src, dst) =>
      (match PlanRename(vol.nodes, src, dst) case None => {} case Some(p) => {p.inode})
    case Remove(_) => Touched(vol, op)
    case RemoveTree(_) => Touched(vol, op)
    case _ => {}
  }

  /** Outside the three departures an operation changes no file but the ones it touches, and no name
      but those it takes away: not those at other paths, and not those nested too deep for any path. */
  lemma StepTouches(vol: Volume, op: Op)
    requires WellFormed(vol.nodes) && !Hazard(vol, op)
    ensures FilesSame(vol.nodes, Step(vol, op).1.nodes, Touched(vol, op))
    ensures NamesKept(vol.nodes, Step(vol, op).1.nodes, Unnamed(vol, op))
  {
    hide WellFormed, FilesSame, NamesKept;
    NothingTouched(vol.nodes);
    match op
    case Mkdir(path) =>
      AddSame(vol, 0, path, Dir(EmptySlots()));
      if path != [] && HasSep(path) {
        match Lookup(vol.nodes, 0, DirPart(path), DirKind)
        case None =>
        case Some(d) => AddSame(vol, d, FilePart(path), Dir(EmptySlots()));
      }
    case Create(name) => AddSame(vol, 0, name, File([]));
    case Write(path, data) =>
      if Locate(vol.nodes, path).Some? {
        var p := Locate(vol.nodes, path).value;
        PutSame(vol, p.dir, p.name, Clip(data));
      }
    case Copy(src, dst) =>
      if FileAt(vol.nodes, src).Some? && CopyTarget(vol.nodes, src, dst).Some? {
        var t := CopyTarget(vol.nodes, src, dst).value;
        PutSame(vol, t.dir, t.name, vol.nodes[FileAt(vol.nodes, src).value].content);
      }
    case Rename(src, dst) => RenameTouches(vol, src, dst);
    case Remove(path) => RemoveTouches(vol, path);
    case RemoveTree(path) => RemoveTreeTouches(vol, path);
    case SysWrite(filename, content) => SysWriteSame(vol, filename, content);
  }

  lemma NothingTouched(v: Nodes)
    ensures forall gone :: FilesSame(v, v, gone) && NamesKept(v, v, gone)
    ensures forall w, gone :: FilesSame(v, w, {}) ==> FilesSame(v, w, gone)
  {
  }

  /** A rename, also one that moves a directory into itself, changes no file and no other name. */
  lemma RenameTouches(vol: Volume, src: seq<byte>, dst: seq<byte>)
    requires WellFormed(vol.nodes)
    ensures FilesSame(vol.nodes, RenameSpec(vol, src, dst).1.nodes, {})
    ensures NamesKept(vol.nodes, RenameSpec(vol, src, dst).1.nodes, Unnamed(vol, Rename(src, dst)))
  {
    hide WellFormed, NamesKept, PlanRename;
    var v := vol.nodes;
    NothingTouched(v);
    RenameKeepsContents(vol, src, dst);
    if PlanRename(v, src, dst).Some? {
      var p := PlanRename(v, src, dst).value;
      if !RenameIsNoop(v, p) && Find(v, p.to, p.name, p.kind).None? {
        if p.to == p.from {
          RelabelKept(v, p.from, p.slot, p.inode, p.name);
        } else if FirstEmpty(v, p.to).Some? {
          MoveKept(v, p.from, p.slot, p.to, FirstEmpty(v, p.to).value, p.inode, p.name);
        }
      }
    }
  }

  lemma RelabelKept(v: Nodes, d: nat, k: nat, i: nat, name: Name)
    requires WellFormed(v) && Names(v, d, k, i)
    ensures NamesKept(v, SetSlot(v, d, k, Named(i, name)), {i})
  {
    RenameNames(v, d, k, i, name);
  }

  lemma PruneSame(v: Nodes, d: nat, k: nat, gone: set<int>)
    requires d < |v| && v[d].Dir? && k < |v[d].slots|
    ensures FilesSame(v, Prune(v, d, k, gone), gone)
  {
  }

  lemma RemoveTouches(vol: Volume, path: seq<byte>)
    requires WellFormed(vol.nodes)
    ensures FilesSame(vol.nodes, RemoveSpec(vol, path).1.nodes, Touched(vol, Remove(path)))
    ensures NamesKept(vol.nodes, RemoveSpec(vol, path).1.nodes, Touched(vol, Remove(path)))
  {
    hide WellFormed, NamesKept, FilesSame;
    NothingTouched(vol.nodes);
    RemoveTheorem(vol, path);
    if FileAt(vol.nodes, path).Some? {
      var p := Locate(vol.nodes, path).value;
      PruneSame(vol.nodes, p.dir, Find(vol.nodes, p.dir, p.name, FileKind).value, {FileAt(vol.nodes, path).value});
    }
  }

  lemma RemoveTreeTouches(vol: Volume, path: seq<byte>)
    requires WellFormed(vol.nodes)
    ensures FilesSame(vol.nodes, RemoveTreeSpec(vol, path).1.nodes, Touched(vol, RemoveTree(path)))
    ensures NamesKept(vol.nodes, RemoveTreeSpec(vol, path).1.nodes, Touched(vol, RemoveTree(path)))
  {
    hide WellFormed, NamesKept, FilesSame;
    NothingTouched(vol.nodes);
    RemoveTreeTheorem(vol, path);
    if RemoveTreeSpec(vol, path).0 {
      var p := Locate(vol.nodes, path).value;
      var k := DoomedSlot(vol.nodes, p.dir, p.name).value;
      PruneSame(vol.nodes, p.dir, k, Subtree(vol.nodes, vol.nodes[p.dir].slots[k].inode));
    }
  }

  /** No operation of the run touches inode `f`. */
  ghost predicate NeverTouched(vol: Volume, ops: seq<Op>, f: int)
    decreases |ops|
  {
    ops == [] || (f !in Touched(vol, ops[0]) && NeverTouched(Step(vol, ops[0]).1, ops[1..], f))
  }

  /** A file keeps its contents through every run that does not touch it. */
  lemma {:induction false} FileSurvivesRun(vol: Volume, ops: seq<Op>, f: nat)
    requires WellFormed(vol.nodes) && NoHazard(vol, ops) && NeverTouched(vol, ops, f)
    requires f < |vol.nodes| && vol.nodes[f].File?
    ensures |Run(vol, ops).nodes| == |vol.nodes| && Run(vol, ops).nodes[f] == vol.nodes[f]
    decreases |ops|
  {
    if ops != [] {
      StepKeeps(vol, ops[0]);
      StepTouches(vol, ops[0]);
      FileSurvivesRun(Step(vol, ops[0]).1, ops[1..], f);
    }
  }

  /** No operation of the run renames, moves or frees inode `i`. */
  ghost predicate NeverUnnamed(vol: Volume, ops: seq<Op>, i: int)
    decreases |ops|
  {
    ops == [] || (i !in Unnamed(vol, ops[0]) && NeverUnnamed(Step(vol, ops[0]).1, ops[1..], i))
  }

  /** A file or directory keeps its name, and its slot in its directory, through every run that does
      not rename, move or free it. */
  lemma {:induction false} NameSurvivesRun(vol: Volume, ops: seq<Op>, d: nat, k: nat, i: nat)
    requires WellFormed(vol.nodes) && NoHazard(vol, ops) && NeverUnnamed(vol, ops, i) && Names(vol.nodes, d, k, i)
    ensures var w := Run(vol, ops).nodes;
            Names(w, d, k, i) && w[d].slots[k].name == vol.nodes[d].slots[k].name
            && i < |w| == |vol.nodes| && w[i].Dir? == vol.nodes[i].Dir?
    decreases |ops|
  {
    if ops != [] {
      StepKeeps(vol, ops[0]);
      StepTouches(vol, ops[0]);
      NameSurvivesRun(Step(vol, ops[0]).1, ops[1..], d, k, i);
    }
  }

  /** A path to a file reads the same after every run that neither touches the file nor takes the
      name of the file or of the directory it stands in. */
  lemma ReadSurvivesRun(vol: Volume, ops: seq<Op>, path: seq<byte>, maxlen: nat)
    requires WellFormed(vol.nodes) && NoHazard(vol, ops) && FileAt(vol.nodes, path).Some?
    requires var f, d := FileAt(vol.nodes, path).value, Locate(vol.nodes, path).value.dir;
             NeverTouched(vol, ops, f) && NeverUnnamed(vol, ops, f) && (HasSep(path) ==> NeverUnnamed(vol, ops, d))
    ensures FileAt(Run(vol, ops).nodes, path) == FileAt(vol.nodes, path)
    ensures ReadSpec(Run(vol, ops).nodes, path, maxlen) == ReadSpec(vol.nodes, path, maxlen)
  {
    hide WellFormed, NeverTouched, NeverUnnamed, NoHazard, Run;
    var v, w := vol.nodes, Run(vol, ops).nodes;
    var p := Locate(v, path).value;
    RunKeepsTree(vol, ops);
    FileSurvivesRun(vol, ops, FileAt(v, path).value);
    if HasSep(path) {
      LookupSurvivesRun(vol, ops, 0, DirPart(path), DirKind);
    }
    LookupSurvivesRun(vol, ops, p.dir, p.name, FileKind);
  }

  /** A name leads to the same inode after every run that does not take it away. */
  lemma LookupSurvivesRun(vol: Volume, ops: seq<Op>, d: nat, name: Name, kind: Kind)
    requires WellFormed(vol.nodes) && NoHazard(vol, ops) && Lookup(vol.nodes, d, name, kind).Some?
    requires NeverUnnamed(vol, ops, Lookup(vol.nodes, d, name, kind).value)
    requires kind == FileKind ==> NeverTouched(vol, ops, Lookup(vol.nodes, d, name, kind).value)
    ensures Lookup(Run(vol, ops).nodes, d, name, kind) == Lookup(vol.nodes, d, name, kind)
  {
    hide NeverTouched, NeverUnnamed, NoHazard, Run;
    var i := Lookup(vol.nodes, d, name, kind).value;
    var k := LookupNames(vol.nodes, d, name, kind);
    RunKeepsTree(vol, ops);
    NameSurvivesRun(vol, ops, d, k, i);
    if kind == FileKind {
      FileSurvivesRun(vol, ops, i);
    }
    LookupIs(Run(vol, ops).nodes, d, k, i, name, kind);
  }
}

/** What each file-system operation does, stated on the node table: no blocks, no bitmap,
    no sectors. A failing operation returns the volume it was given. */
module VolumeSpec {
  import opened Basics
  import opened Bytes
  import opened DirBlock
  import opened Tree
  import opened TreeEdits

  /** The node table with the two limits the allocators obey. */
  datatype Volume = Volume(nodes: Nodes, inodeCount: nat, blockCount: nat)

  const SLASH: byte := 47
  const SYS: Name := [115, 121, 115]
  const STATUS: Name := [115, 116, 97, 116, 117, 115]
  const PASSWD: Name := [112, 97, 115, 115, 119, 100]

  function EmptySlots(): (s: seq<Slot>)
    ensures |s| == SLOTS && forall k :: 0 <= k < SLOTS ==> s[k].Empty?
  {
    seq(SLOTS, _ => Empty)
  }

  // ----- allocation -----

  function UsedSet(v: Nodes): set<int> {
    set i | 0 <= i < |v| && !v[i].Free?
  }

  /** Block 0 is never handed out and every used node owns one block. */
  predicate HasFreeBlock(vol: Volume) {
    |UsedSet(vol.nodes)| + 1 < vol.blockCount
  }

  function InodeLimit(vol: Volume): nat {
    if vol.inodeCount == 0 || vol.inodeCount > |vol.nodes| then |vol.nodes| else vol.inodeCount
  }

  function FreeNodeFrom(v: Nodes, i: nat, limit: nat): (r: Option<nat>)
    requires limit <= |v|
    ensures r.Some? ==> i <= r.value < limit && v[r.value].Free?
    ensures forall j :: i <= j < (if r.Some? then r.value else limit) ==> !v[j].Free?
    decreases limit - i
  {
    if i >= limit then None else if v[i].Free? then Some(i) else FreeNodeFrom(v, i + 1, limit)
  }

  /** The lowest free inode from 1 up. */
  function FreeNode(vol: Volume): Option<nat> {
    FreeNodeFrom(vol.nodes, 1, InodeLimit(vol))
  }

  // ----- directories -----

  predicate Matches(v: Nodes, s: Slot, name: Name, kind: Kind) {
    s.Named? && s.name == name && s.inode < |v| && v[s.inode].Is(kind)
  }

  function FindFrom(v: Nodes, slots: seq<Slot>, name: Name, kind: Kind, k: nat): (r: Option<nat>)
    ensures r.Some? ==> k <= r.value < |slots| && Matches(v, slots[r.value], name, kind)
    ensures forall m :: k <= m < (if r.Some? then r.value else |slots|) ==> !Matches(v, slots[m], name, kind)
    decreases |slots| - k
  {
    if k >= |slots| then None
    else if Matches(v, slots[k], name, kind) then Some(k)
    else FindFrom(v, slots, name, kind, k + 1)
  }

  function FirstEmptyFrom(slots: seq<Slot>, k: nat): (r: Option<nat>)
    ensures r.Some? ==> k <= r.value < |slots| && slots[r.value].Empty?
    ensures forall m :: k <= m < (if r.Some? then r.value else |slots|) ==> slots[m].Named?
    decreases |slots| - k
  {
    if k >= |slots| then None else if slots[k].Empty? then Some(k) else FirstEmptyFrom(slots, k + 1)
  }

  /** The first slot of directory `d` that names a node of this kind by this name. */
  function Find(v: Nodes, d: nat, name: Name, kind: Kind): (r: Option<nat>)
    ensures r.Some? ==> d < |v| && v[d].Dir? && r.value < |v[d].slots| && Matches(v, v[d].slots[r.value], name, kind)
  {
    if d < |v| && v[d].Dir? then FindFrom(v, v[d].slots, name, kind, 0) else None
  }

  function FirstEmpty(v: Nodes, d: nat): (r: Option<nat>)
    ensures r.Some? ==> EmptySlot(v, d, r.value)
  {
    if d < |v| && v[d].Dir? then FirstEmptyFrom(v[d].slots, 0) else None
  }

  /** The inode that directory `d` names so. */
  function Lookup(v: Nodes, d: nat, name: Name, kind: Kind): (r: Option<nat>)
    ensures r.Some? ==> r.value < |v| && v[r.value].Is(kind)
  {
    match Find(v, d, name, kind)
    case None => None
    case Some(k) => Some(v[d].slots[k].inode)
  }

  // ----- paths: at most one directory component is looked at -----

  function Sep(path: seq<byte>): (n: nat)
    ensures n <= |path| && SLASH !in path[..n]
    ensures n < |path| ==> path[n] == SLASH
  {
    if path == [] || path[0] == SLASH then 0 else 1 + Sep(path[1..])
  }

  predicate HasSep(path: seq<byte>) { Sep(path) < |path| }

  /** The directory name, cut to the 29 bytes its buffer holds. */
  function DirPart(path: seq<byte>): Name { path[..Min(Sep(path), NAME_SIZE - 1)] }

  function FilePart(path: seq<byte>): Name
    requires HasSep(path)
  {
    path[Sep(path) + 1..]
  }

  datatype Place = Place(dir: nat, name: Name)

  /** The directory and the name inside it that a path denotes. */
  function Locate(v: Nodes, path: seq<byte>): Option<Place> {
    if path == [] then None
    else if !HasSep(path) then Some(Place(0, path))
    else if FilePart(path) == [] then None
    else match Lookup(v, 0, DirPart(path), DirKind)
      case None => None
      case Some(d) => Some(Place(d, FilePart(path)))
  }

  function FileAt(v: Nodes, path: seq<byte>): (r: Option<nat>)
    ensures r.Some? ==> r.value < |v| && v[r.value].File?
  {
    match Locate(v, path)
    case None => None
    case Some(p) => Lookup(v, p.dir, p.name, FileKind)
  }

  // ----- operations -----

  function Clip(data: seq<byte>): seq<byte> { data[..Min(|data|, BLOCK_SIZE)] }

  function ReadSpec(v: Nodes, path: seq<byte>, maxlen: nat): Option<seq<byte>> {
    match FileAt(v, path)
    case None => None
    case Some(f) => Some(v[f].content[..Min(|v[f].content|, maxlen)])
  }

  /** Whether a new node can be named in directory `d`: slot, inode and block are all there. */
  predicate HasRoom(vol: Volume, d: nat) {
    FirstEmpty(vol.nodes, d).Some? && FreeNode(vol).Some? && HasFreeBlock(vol)
  }

  function Add(vol: Volume, d: nat, name: Name, node: Node): (r: (bool, Volume))
  {
    if !HasRoom(vol, d) then (false, vol)
    else (true, vol.(nodes := AddChild(vol.nodes, d, FirstEmpty(vol.nodes, d).value, FreeNode(vol).value, name, node)))
  }

  function MkdirIn(vol: Volume, d: nat, name: Name): (bool, Volume) {
    if Lookup(vol.nodes, d, name, DirKind).Some? then (false, vol) else Add(vol, d, name, Dir(EmptySlots()))
  }

  function MkdirSpec(vol: Volume, path: seq<byte>): (bool, Volume) {
    if path == [] then (false, vol)
    else if !HasSep(path) then (if |path| >= NAME_SIZE then (false, vol) else MkdirIn(vol, 0, path))
    else if FilePart(path) == [] || SLASH in FilePart(path) || |FilePart(path)| >= NAME_SIZE then (false, vol)
    else match Lookup(vol.nodes, 0, DirPart(path), DirKind)
      case None => (false, vol)
      case Some(d) => MkdirIn(vol, d, FilePart(path))
  }

  function CreateSpec(vol: Volume, name: Name): (bool, Volume) {
    if name == [] || |name| >= NAME_SIZE || Lookup(vol.nodes, 0, name, FileKind).Some? then (false, vol)
    else Add(vol, 0, name, File([]))
  }

  /** Give the named file this content, creating it when the directory does not have it. */
  function PutFile(vol: Volume, d: nat, name: Name, content: seq<byte>): (bool, Volume) {
    match Lookup(vol.nodes, d, name, FileKind)
    case Some(i) => (true, vol.(nodes := vol.nodes[i := File(content)]))
    case None => Add(vol, d, name, File(content))
  }

  function WriteSpec(vol: Volume, path: seq<byte>, data: seq<byte>): (bool, Volume) {
    match Locate(vol.nodes, path)
    case None => (false, vol)
    case Some(p) =>
      if !HasSep(path) && |path| >= NAME_SIZE then (false, vol) else PutFile(vol, p.dir, p.name, Clip(data))
  }

  /** A write that creates a file inside a directory under a name of 30 bytes or more. */
  predicate WriteOverflows(vol: Volume, path: seq<byte>) {
    HasSep(path) && |FilePart(path)| >= NAME_SIZE && Locate(vol.nodes, path).Some?
    && HasRoom(vol, Locate(vol.nodes, path).value.dir)
  }

  /** Where a copy lands: inside the destination if it is a directory, else under its own name. */
  function CopyTarget(v: Nodes, src: seq<byte>, dst: seq<byte>): Option<Place> {
    if HasSep(dst) then Locate(v, dst)
    else match Lookup(v, 0, dst, DirKind)
      case Some(d) => Some(Place(d, if HasSep(src) then FilePart(src) else src))
      case None => Some(Place(0, dst))
  }

  function CopySpec(vol: Volume, src: seq<byte>, dst: seq<byte>): (bool, Volume) {
    if src == [] || dst == [] || FileAt(vol.nodes, src).None? then (false, vol)
    else match CopyTarget(vol.nodes, src, dst)
      case None => (false, vol)
      case Some(t) =>
        if t.name == [] || |t.name| >= NAME_SIZE then (false, vol)
        else PutFile(vol, t.dir, t.name, vol.nodes[FileAt(vol.nodes, src).value].content)
  }

  /** A resolved rename: the entry in slot `slot` of `from` is to be called `name` in `to`;
      `inside` when the destination path denotes a directory to move into. */
  datatype Plan = Plan(from: nat, slot: nat, inode: nat, kind: Kind, to: nat, name: Name, inside: bool)

  function RenameSource(v: Nodes, src: seq<byte>): Option<Place> {
    match (if HasSep(src) && Sep(src) == 0 then None else Locate(v, src))
    case None => None
    case Some(p) => if |p.name| >= NAME_SIZE then None else Some(p)
  }

  /** Files are looked for before directories. */
  function RenameEntryOf(v: Nodes, d: nat, name: Name): Option<(nat, Kind)> {
    match Find(v, d, name, FileKind)
    case Some(k) => Some((k, FileKind))
    case None =>
      match Find(v, d, name, DirKind)
      case Some(k) => Some((k, DirKind))
      case None => None
  }

  function RenameTarget(v: Nodes, srcName: Name, dst: seq<byte>): Option<(Place, bool)> {
    if dst == [] then None
    else if HasSep(dst) then
      if Sep(dst) == 0 then None
      else match Lookup(v, 0, DirPart(dst), DirKind)
        case None => None
        case Some(d) =>
          if FilePart(dst) == [] then Some((Place(d, srcName), true)) else Some((Place(d, FilePart(dst)), false))
    else match Lookup(v, 0, dst, DirKind)
      case Some(d) => Some((Place(d, srcName), true))
      case None => Some((Place(0, dst), false))
  }

  function PlanRename(v: Nodes, src: seq<byte>, dst: seq<byte>): (r: Option<Plan>)
    ensures r.Some? ==> var p := r.value;
            Names(v, p.from, p.slot, p.inode) && p.inode < |v| && v[p.inode].Is(p.kind) && |p.name| < NAME_SIZE
  {
    match RenameSource(v, src)
    case None => None
    case Some(s) =>
      match RenameEntryOf(v, s.dir, s.name)
      case None => None
      case Some(e) =>
        match RenameTarget(v, s.name, dst)
        case None => None
        case Some(t) =>
          if |t.0.name| >= NAME_SIZE then None
          else Some(Plan(s.dir, e.0, v[s.dir].slots[e.0].inode, e.1, t.0.dir, t.0.name, t.1))
  }

  /** Nothing to do: a directory into itself, or a name to itself. */
  predicate RenameIsNoop(v: Nodes, p: Plan)
    requires Names(v, p.from, p.slot, p.inode)
  {
    (p.inside && p.kind == DirKind && p.to == p.inode) || (p.to == p.from && p.name == v[p.from].slots[p.slot].name)
  }

  function Perform(vol: Volume, p: Plan): (bool, Volume)
    requires Names(vol.nodes, p.from, p.slot, p.inode)
  {
    var v := vol.nodes;
    if RenameIsNoop(v, p) then (true, vol)
    else if Find(v, p.to, p.name, p.kind).Some? then (false, vol)
    else if p.to == p.from then (true, vol.(nodes := SetSlot(v, p.from, p.slot, Named(p.inode, p.name))))
    else if FirstEmpty(v, p.to).None? then (false, vol)
    else (true, vol.(nodes := MoveEntry(v, p.from, p.slot, p.to, FirstEmpty(v, p.to).value, p.name)))
  }

  function RenameSpec(vol: Volume, src: seq<byte>, dst: seq<byte>): (bool, Volume) {
    match PlanRename(vol.nodes, src, dst)
    case None => (false, vol)
    case Some(p) => Perform(vol, p)
  }

  /** The rename is really carried out, and moves a directory under a new name into itself. */
  predicate MovesIntoItself(v: Nodes, src: seq<byte>, dst: seq<byte>) {
    match PlanRename(v, src, dst)
    case None => false
    case Some(p) =>
      p.kind == DirKind && p.to == p.inode && !p.inside
      && Find(v, p.to, p.name, DirKind).None? && FirstEmpty(v, p.to).Some?
  }

  /** Removing a file frees the entry and the one inode. */
  function RemoveSpec(vol: Volume, path: seq<byte>): (bool, Volume) {
    match Locate(vol.nodes, path)
    case None => (false, vol)
    case Some(p) =>
      if !HasSep(path) && |path| >= NAME_SIZE then (false, vol)
      else match Find(vol.nodes, p.dir, p.name, FileKind)
        case None => (false, vol)
        case Some(k) => (true, vol.(nodes := Prune(vol.nodes, p.dir, k, {vol.nodes[p.dir].slots[k].inode})))
  }

  /** Directories are looked for before files. */
  function DoomedSlot(v: Nodes, d: nat, name: Name): (r: Option<nat>)
    ensures r.Some? ==> d < |v| && v[d].Dir? && r.value < |v[d].slots| && v[d].slots[r.value].Named?
  {
    if Find(v, d, name, DirKind).Some? then Find(v, d, name, DirKind) else Find(v, d, name, FileKind)
  }

  /** Removing recursively frees the entry and everything below it. */
  ghost function RemoveTreeSpec(vol: Volume, path: seq<byte>): (bool, Volume) {
    match Locate(vol.nodes, path)
    case None => (false, vol)
    case Some(p) =>
      match DoomedSlot(vol.nodes, p.dir, p.name)
      case None => (false, vol)
      case Some(k) =>
        (true, vol.(nodes := Prune(vol.nodes, p.dir, k, Subtree(vol.nodes, vol.nodes[p.dir].slots[k].inode))))
  }

  /** Write a file of the `sys` directory, creating the directory first when it is missing. */
  function SysWriteSpec(vol: Volume, filename: Name, content: seq<byte>): (bool, Volume) {
    match Lookup(vol.nodes, 0, SYS, DirKind)
    case Some(d) => PutFile(vol, d, filename, content)
    case None =>
      var made := MkdirIn(vol, 0, SYS);
      if made.0 then PutFile(made.1, FreeNode(vol).value, filename, content) else made
  }

  /** The system write does not run out of slots, inodes or blocks half way: whatever it
      claims it can also name, and when it creates `sys` it can create the file too. */
  predicate SysWriteSafe(vol: Volume, filename: Name) {
    match Lookup(vol.nodes, 0, SYS, DirKind)
    case Some(d) =>
      Lookup(vol.nodes, d, filename, FileKind).Some? || FreeNode(vol).None? || !HasFreeBlock(vol)
      || FirstEmpty(vol.nodes, d).Some?
    case None =>
      FreeNode(vol).None? || !HasFreeBlock(vol)
      || (FirstEmpty(vol.nodes, 0).Some? &&
          var w := MkdirIn(vol, 0, SYS).1; FreeNode(w).Some? && HasFreeBlock(w))
  }

  /** The inode of a file of the `sys` directory. */
  function SysFileAt(v: Nodes, filename: Name): (r: Option<nat>)
    ensures r.Some? ==> r.value < |v| && v[r.value].File?
  {
    match Lookup(v, 0, SYS, DirKind)
    case None => None
    case Some(d) => Lookup(v, d, filename, FileKind)
  }

  function SysReadSpec(v: Nodes, filename: Name, maxlen: nat): Option<seq<byte>> {
    match SysFileAt(v, filename)
    case None => None
    case Some(f) => Some(v[f].content[..Min(|v[f].content|, maxlen)])
  }

  /** The stored password hash, if there is one of four bytes. */
  function PasswdSpec(v: Nodes): Option<u32> {
    match SysReadSpec(v, PASSWD, 4)
    case None => None
    case Some(bytes) => if |bytes| < 4 then None else Some(Get32(bytes))
  }
}

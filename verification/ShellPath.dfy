/** How the shell turns what was typed into a path: the current directory, leading `..` components,
    joining and truncation. */
module ShellPath {
  import opened Basics
  import opened Bytes

  type Str = seq<char>

  const UP: Str := ".."
  /** The room in the buffer for the current directory. */
  const CWD_MAX := 63

  // ----- what is computed -----

  function AfterSlash(root: Str): Str {
    if root == [] then [] else if root[0] == '/' then root[1..] else AfterSlash(root[1..])
  }

  /** The current directory, without the volume prefix. */
  function Cwd(root: Str): Str {
    AfterSlash(root)[..Min(|AfterSlash(root)|, CWD_MAX)]
  }

  /** Where the last slash is, or -1. */
  function LastSlash(s: Str): (i: int)
    ensures -1 <= i < |s| && (i >= 0 ==> s[i] == '/') && forall j :: i < j < |s| ==> s[j] != '/'
  {
    if s == [] then -1
    else if s[|s| - 1] == '/' then |s| - 1
    else LastSlash(s[..|s| - 1])
  }

  lemma LastSlashIs(s: Str, i: int)
    requires -1 <= i < |s| && (i >= 0 ==> s[i] == '/') && forall j :: i < j < |s| ==> s[j] != '/'
    ensures LastSlash(s) == i
  {
  }

  /** The directory without its last component. */
  function Parent(cwd: Str): Str {
    if LastSlash(cwd) >= 0 then cwd[..LastSlash(cwd)] else []
  }

  predicate StartsUp(input: Str) {
    |input| >= 2 && input[0] == '.' && input[1] == '.' && (|input| == 2 || input[2] == '/')
  }

  /** Strip the leading `..` components, each dropping one component of the directory. */
  function Strip(cwd: Str, input: Str): (Str, Str)
    decreases |input|
  {
    if !StartsUp(input) then (cwd, input)
    else if |input| > 2 then Strip(Parent(cwd), input[3..])
    else (Parent(cwd), [])
  }

  function Joined(cwd: Str, input: Str): Str {
    if '/' !in input && cwd != [] then cwd + (if input != [] then "/" else "") + input else input
  }

  /** The room the buffer leaves for characters; a buffer of none is taken for the largest. */
  function Room(maxLen: u32): nat {
    (maxLen + WORD - 1) % WORD
  }

  function Resolved(root: Str, input: Str, maxLen: u32): Str {
    var (cwd, rest) := Strip(Cwd(root), input);
    Joined(cwd, rest)[..Min(|Joined(cwd, rest)|, Room(maxLen))]
  }

  // ----- the loops -----

  method FindLastSlash(cwd: array<char>, len: nat) returns (last: int)
    requires len <= cwd.Length
    ensures last == LastSlash(cwd[..len])
  {
    last := -1;
    for i := 0 to len
      invariant -1 <= last < i && (last >= 0 ==> cwd[last] == '/')
      invariant forall j :: last < j < i ==> cwd[j] != '/'
    {
      if cwd[i] == '/' {
        last := i;
      }
    }
    LastSlashIs(cwd[..len], last);
  }

  method SkipVolume(root: Str) returns (k: nat)
    ensures k <= |root| && AfterSlash(root) == root[k..]
  {
    k := 0;
    while k < |root| && root[k] != '/'
      invariant k <= |root| && AfterSlash(root) == AfterSlash(root[k..])
    {
      assert root[k..][1..] == root[k + 1..];
      k := k + 1;
    }
    if k < |root| {
      assert root[k..][1..] == root[k + 1..];
      k := k + 1;
    }
  }

  /** Copy the part of the root behind its first slash into the buffer. */
  method LoadCwd(root: Str, cwd: array<char>) returns (len: nat)
    requires cwd.Length == CWD_MAX + 1
    modifies cwd
    ensures len <= CWD_MAX && cwd[..len] == Cwd(root)
  {
    hide AfterSlash;
    var k := SkipVolume(root);
    ghost var start := k;
    len := 0;
    while k < |root| && len < CWD_MAX
      invariant len <= CWD_MAX && k <= |root| && k == start + len
      invariant forall j :: 0 <= j < len ==> cwd[j] == root[start + j]
    {
      cwd[len] := root[k];
      len := len + 1;
      k := k + 1;
    }
    assert cwd[..len] == root[start..][..len];
  }

  method StripUps(input: Str, cwd: array<char>, cwdLen: nat) returns (len: nat, rest: Str)
    requires cwdLen <= cwd.Length
    ensures len <= cwdLen && (cwd[..len], rest) == Strip(cwd[..cwdLen], input)
  {
    len, rest := cwdLen, input;
    while StartsUp(rest)
      invariant len <= cwdLen && Strip(cwd[..len], rest) == Strip(cwd[..cwdLen], input)
      decreases |rest|
    {
      if len > 0 {
        var last := FindLastSlash(cwd, len);
        ghost var was := cwd[..len];
        len := if last >= 0 then last else 0;
        assert cwd[..len] == Parent(was);
      } else {
        assert Parent(cwd[..0]) == cwd[..0];
      }
      if |rest| > 2 {
        rest := rest[3..];
      } else {
        rest := [];
        break;
      }
    }
  }

  method Resolve(root: Str, input: Str, maxLen: u32) returns (out: Str)
    ensures out == Resolved(root, input, maxLen)
  {
    var cwd := new char[CWD_MAX + 1];
    var cwdLen := LoadCwd(root, cwd);
    var len, rest := StripUps(input, cwd, cwdLen);
    var room := Room(maxLen);
    out := [];
    ghost var whole := Joined(cwd[..len], rest);
    var hasSep := '/' in rest;
    if !hasSep && len > 0 {
      out := AppendCut(out, cwd[..len], room);
      if rest != [] && |out| < room {
        out := out + ['/'];
      }
    }
    out := AppendCut(out, rest, room);
    assert out == whole[..Min(|whole|, room)];
  }

  /** Append characters one by one as long as there is room. */
  method AppendCut(out: Str, s: Str, room: nat) returns (r: Str)
    requires |out| <= room
    ensures r == out + s[..Min(|s|, room - |out|)]
  {
    r := out;
    var i := 0;
    while i < |s| && |r| < room
      invariant i <= |s| && |r| <= room && r == out + s[..i]
    {
      r := r + [s[i]];
      i := i + 1;
    }
  }

  // ----- what it means -----

  /** A directory path from its components. */
  function JoinPath(comps: seq<Str>): Str {
    if comps == [] then []
    else if |comps| == 1 then comps[0]
    else JoinPath(comps[..|comps| - 1]) + "/" + comps[|comps| - 1]
  }

  predicate SlashFree(comps: seq<Str>) {
    forall i :: 0 <= i < |comps| ==> '/' !in comps[i]
  }

  /** What the slashes of a path separate. */
  function Pieces(path: Str): (comps: seq<Str>)
    ensures |comps| > 0
    decreases |path|
  {
    var k := LastSlash(path);
    (if k < 0 then [] else Pieces(path[..k])) + [path[k + 1..]]
  }

  /** The components of a path; the empty path has none. */
  function Components(path: Str): seq<Str> {
    if path == [] then [] else Pieces(path)
  }

  lemma JoinAppend(comps: seq<Str>, last: Str)
    requires comps != []
    ensures JoinPath(comps + [last]) == JoinPath(comps) + "/" + last
  {
    assert (comps + [last])[..|comps|] == comps;
  }

  /** The components joined again are the path. */
  lemma {:induction false} PiecesJoin(path: Str)
    ensures SlashFree(Pieces(path)) && JoinPath(Pieces(path)) == path
    decreases |path|
  {
    hide JoinPath, LastSlash;
    var k := LastSlash(path);
    var last := path[k + 1..];
    if k < 0 {
      assert Pieces(path) == [path];
      JoinOne(path);
    } else {
      PiecesJoin(path[..k]);
      JoinAppend(Pieces(path[..k]), last);
      assert path == path[..k] + "/" + last;
    }
  }

  lemma JoinOne(path: Str)
    ensures JoinPath([path]) == path
  {
  }

  lemma ComponentsJoin(path: Str)
    ensures SlashFree(Components(path)) && JoinPath(Components(path)) == path
  {
    if path != [] {
      hide Pieces, LastSlash;
      PiecesJoin(path);
    }
  }

  /** `..` typed `n` times, each with its slash. */
  function Ups(n: nat): Str {
    if n == 0 then [] else "../" + Ups(n - 1)
  }

  lemma LastSlashAfter(s: Str, t: Str)
    requires '/' !in t
    ensures LastSlash(s + "/" + t) == |s|
  {
    hide LastSlash;
    var u := s + "/" + t;
    NoSlash(t);
    assert u[|s|] == '/';
    LastSlashIs(u, |s|);
  }

  lemma NoSlash(t: Str)
    requires '/' !in t
    ensures forall j :: 0 <= j < |t| ==> t[j] != '/'
  {
  }

  /** Dropping the last component of a joined path. */
  lemma ParentJoin(comps: seq<Str>)
    requires SlashFree(comps)
    ensures Parent(JoinPath(comps)) == JoinPath(comps[..if |comps| == 0 then 0 else |comps| - 1])
  {
    if |comps| > 1 {
      LastSlashAfter(JoinPath(comps[..|comps| - 1]), comps[|comps| - 1]);
    }
  }

  /** Each `..` in front drops one component. */
  lemma StripUp(cwd: Str, k: nat, rest: Str)
    requires k > 0
    ensures Strip(cwd, Ups(k) + rest) == Strip(Parent(cwd), Ups(k - 1) + rest)
  {
    hide Parent;
    assert (Ups(k) + rest)[3..] == Ups(k - 1) + rest;
  }

  /** `k` leading `..` drop the last min(k, depth) components. */
  lemma {:induction false} StripUpsDrops(comps: seq<Str>, k: nat, rest: Str)
    requires SlashFree(comps) && !StartsUp(rest)
    ensures Strip(JoinPath(comps), Ups(k) + rest) == (JoinPath(comps[..|comps| - Min(k, |comps|)]), rest)
    decreases k
  {
    if k == 0 {
      assert Ups(0) + rest == rest && comps[..|comps|] == comps;
    } else {
      StripUp(JoinPath(comps), k, rest);
      hide JoinPath, Parent, Strip, Ups;
      ParentJoin(comps);
      var fewer := comps[..if |comps| == 0 then 0 else |comps| - 1];
      StripUpsDrops(fewer, k - 1, rest);
      assert fewer[..|fewer| - Min(k - 1, |fewer|)] == comps[..|comps| - Min(k, |comps|)];
    }
  }

  /** Of a root like "7:/a/b" the part behind the volume's slash is the current directory, up to 63
      characters of it; a root without a slash has none. */
  lemma CwdIs(volume: Str, dir: Str)
    requires '/' !in volume
    ensures Cwd(volume + "/" + dir) == dir[..Min(|dir|, 63)] && Cwd(volume) == []
  {
    AfterSlashIs(volume, dir);
  }

  lemma {:induction false} AfterSlashIs(volume: Str, dir: Str)
    requires '/' !in volume
    ensures AfterSlash(volume + "/" + dir) == dir && AfterSlash(volume) == []
    decreases |volume|
  {
    var root := volume + "/" + dir;
    if volume == [] {
      assert root[1..] == dir;
    } else {
      assert root[1..] == volume[1..] + "/" + dir && volume[0] in volume;
      AfterSlashIs(volume[1..], dir);
    }
  }

  /** The components of the current directory that `k` leading `..` leave. */
  function Kept(root: Str, k: nat): seq<Str> {
    var comps := Components(Cwd(root));
    comps[..|comps| - Min(k, |comps|)]
  }

  lemma RoomIs(maxLen: u32)
    ensures Room(maxLen) == if maxLen == 0 then 0xFFFF_FFFF else maxLen - 1
  {
  }

  /** A slash-free name after `k` times `..` resolves, whatever the current directory is, to that
      directory without its last min(k, depth) components, joined with the name unless the one or
      the other is empty, and cut to the buffer. */
  lemma NameResolves(root: Str, k: nat, name: Str, maxLen: u32)
    requires '/' !in name && name != UP
    ensures var kept := JoinPath(Kept(root, k));
            var whole := if kept == [] then name else if name == [] then kept else kept + "/" + name;
            Resolved(root, Ups(k) + name, maxLen) == whole[..Min(|whole|, if maxLen == 0 then 0xFFFF_FFFF else maxLen - 1)]
  {
    hide Room, Strip, Cwd, Components;
    RoomIs(maxLen);
    NotUp(name);
    ComponentsJoin(Cwd(root));
    StripUpsDrops(Components(Cwd(root)), k, name);
  }

  lemma NotUp(name: Str)
    requires '/' !in name && name != UP
    ensures !StartsUp(name)
  {
    if |name| > 2 {
      assert name[2] in name;
    } else if |name| == 2 {
      assert name == [name[0], name[1]];
    }
  }

  /** What is left after the `..` components, if it still has a slash, is the result itself: the
      current directory is ignored. */
  lemma SlashedResolves(root: Str, k: nat, rest: Str, maxLen: u32)
    requires '/' in rest && !StartsUp(rest)
    ensures Resolved(root, Ups(k) + rest, maxLen) == rest[..Min(|rest|, if maxLen == 0 then 0xFFFF_FFFF else maxLen - 1)]
  {
    hide Room, Strip, Cwd, Components;
    RoomIs(maxLen);
    ComponentsJoin(Cwd(root));
    StripUpsDrops(Components(Cwd(root)), k, rest);
  }

  /** A final `..` without a slash counts like one with a slash. */
  lemma {:induction false} FinalUp(cwd: Str, k: nat)
    ensures Strip(cwd, Ups(k) + UP) == Strip(cwd, Ups(k + 1))
    decreases k
  {
    if k == 0 {
      assert Ups(0) + UP == UP && Ups(1) == "../" && Ups(1)[3..] == [];
    } else {
      StripUp(cwd, k, UP);
      StripUp(cwd, k + 1, []);
      assert Ups(k + 1) + [] == Ups(k + 1) && Ups(k) + [] == Ups(k);
      hide Ups, Strip, Parent;
      FinalUp(Parent(cwd), k - 1);
    }
  }
}

/** Bytes, disk blocks and the little-endian and C-string encodings the file
    system stores in them. */
module Bytes {
  import opened Basics

  type byte = x: int | 0 <= x < 256
  type u16 = x: int | 0 <= x < 0x1_0000
  type u32 = x: int | 0 <= x < WORD

  const BLOCK_SIZE := 512

  /** The contents of one 512-byte disk sector. */
  type Block = b: seq<byte> | |b| == 512 witness seq(512, _ => 0)

  function Zeros(n: nat): (z: seq<byte>)
    ensures |z| == n && forall i :: 0 <= i < n ==> z[i] == 0
  {
    seq(n, _ => 0)
  }

  const ZERO_BLOCK: Block := Zeros(512)

  /** A C string: the terminating NUL is not part of the sequence, so no element is NUL. */
  predicate IsCString(s: seq<byte>) {
    0 !in s
  }

  /** The C string held in a field: everything before the first NUL. */
  function CStr(field: seq<byte>): (s: seq<byte>)
    ensures |s| <= |field| && s == field[..|s|] && IsCString(s)
    ensures |s| < |field| ==> field[|s|] == 0
  {
    if field == [] || field[0] == 0 then [] else [field[0]] + CStr(field[1..])
  }

  lemma CStrUnique(field: seq<byte>, s: seq<byte>)
    requires |s| < |field| && s == field[..|s|] && IsCString(s) && field[|s|] == 0
    ensures CStr(field) == s
  {
    var c := CStr(field);
    assert forall j :: 0 <= j < |s| ==> field[j] in s;
    assert forall j :: 0 <= j < |c| ==> field[j] in c;
  }

  /** memcpy of `src` to offset `at` of a block. Bytes that would land behind the
      block are not part of this model. */
  function Poke(b: Block, at: nat, src: seq<byte>): (r: Block)
    ensures forall j {:trigger r[j]} :: 0 <= j < 512 ==> r[j] == if at <= j < at + |src| then src[j - at] else b[j]
  {
    seq(512, j requires 0 <= j < 512 => if at <= j < at + |src| then src[j - at] else b[j])
  }

  function Put16(x: u16): (s: seq<byte>)
    ensures |s| == 2 && Get16(s) == x
  {
    [x % 256, x / 256]
  }

  function Get16(s: seq<byte>): u16
    requires |s| == 2
  {
    s[0] as int + 256 * s[1] as int
  }

  function Put32(x: u32): (s: seq<byte>)
    ensures |s| == 4 && Get32(s) == x
  {
    var y := x / 256;
    var z := y / 256;
    [x % 256, y % 256, z % 256, z / 256]
  }

  function Get32(s: seq<byte>): u32
    requires |s| == 4
  {
    s[0] as int + 256 * s[1] as int + 65536 * s[2] as int + 16777216 * s[3] as int
  }

  /** Four bytes are those of the number they give. */
  lemma GetPut(s: seq<byte>)
    requires |s| == 4
    ensures Put32(Get32(s)) == s
  {
    var x := Get32(s);
    var y := x / 256;
    var z := y / 256;
    assert y == s[1] as int + 256 * s[2] as int + 65536 * s[3] as int && x % 256 == s[0];
    assert z == s[2] as int + 256 * s[3] as int && y % 256 == s[1];
    assert z / 256 == s[3] && z % 256 == s[2];
  }

  /** Numbers are stored low byte first. */
  lemma LittleEndian(a: byte, b: byte, c: byte, d: byte)
    ensures Put32(a + 0x100 * b + 0x1_0000 * c + 0x100_0000 * d) == [a, b, c, d]
  {
    hide Put32;
    GetPut([a, b, c, d]);
  }
}

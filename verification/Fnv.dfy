/** The 32-bit FNV-1a hash of a C string. */
module Fnv {
  import opened Basics
  import opened Bytes
  import opened Bitmap

  const OFFSET_BASIS: u32 := 2166136261
  const PRIME := 16777619

  /** Bitwise exclusive or. */
  function Xor(a: nat, b: nat): nat
    decreases a + b
  {
    if a == 0 && b == 0 then 0 else 2 * Xor(a / 2, b / 2) + (a + b) % 2
  }

  lemma {:induction false} XorBound(a: nat, b: nat, n: nat)
    requires a < Pow2(n) && b < Pow2(n)
    ensures Xor(a, b) < Pow2(n)
  {
    if n > 0 && (a != 0 || b != 0) {
      XorBound(a / 2, b / 2, n - 1);
    }
  }

  lemma XorStep(a: nat, b: nat)
    ensures Xor(a, b) == 2 * Xor(a / 2, b / 2) + (a + b) % 2
  {
  }

  /** A bit of the exclusive or is set exactly when it is set in one of the two numbers only. */
  lemma {:induction false} XorBits(a: nat, b: nat, k: nat)
    ensures BitOf(Xor(a, b), k) <==> BitOf(a, k) != BitOf(b, k)
    decreases k
  {
    hide Xor;
    XorStep(a, b);
    assert Xor(a, b) % 2 == (a + b) % 2 && Xor(a, b) / 2 == Xor(a / 2, b / 2);
    if k > 0 {
      XorBits(a / 2, b / 2, k - 1);
    }
  }

  function Absorb(h: u32, c: byte): u32 {
    XorWord(h, c) * PRIME % WORD
  }

  function XorWord(h: u32, c: byte): u32 {
    assert Pow2(32) == WORD by { Pow2Word(); }
    XorBound(h, c, 32);
    Xor(h, c)
  }

  lemma Pow2Word()
    ensures Pow2(32) == WORD
  {
    assert Pow2(8) == 256;
    assert Pow2(16) == 65536;
    assert Pow2(24) == 16777216;
  }

  function HashFrom(h: u32, s: seq<byte>): u32
    decreases |s|
  {
    if s == [] then h else HashFrom(Absorb(h, s[0]), s[1..])
  }

  function Hash(s: seq<byte>): u32 {
    HashFrom(OFFSET_BASIS, s)
  }

  method ComputeHash(s: seq<byte>) returns (hash: u32)
    ensures hash == Hash(s)
  {
    hash := OFFSET_BASIS;
    var i := 0;
    while i < |s|
      invariant 0 <= i <= |s|
      invariant HashFrom(hash, s[i..]) == Hash(s)
    {
      assert s[i..][1..] == s[i + 1..];
      hash := XorWord(hash, s[i]);
      hash := hash * PRIME % WORD;
      i := i + 1;
    }
  }

  /** Multiplying by the prime modulo 2^32 can be undone: 16777619 * 899433627 is 1 modulo 2^32. */
  lemma MultiplyInjective(a: u32, b: u32)
    requires a * PRIME % WORD == b * PRIME % WORD
    ensures a == b
  {
    var inverse := 899433627;
    var p, q := a * PRIME / WORD, b * PRIME / WORD;
    assert (a - b) * PRIME == WORD * (p - q);
    assert PRIME * inverse == WORD * 3513497 + 1;
    assert a - b == WORD * ((p - q) * inverse - 3513497 * (a - b));
  }

  lemma {:induction false} XorCommutes(a: nat, b: nat)
    ensures Xor(a, b) == Xor(b, a)
    decreases a + b
  {
    if a != 0 || b != 0 {
      XorCommutes(a / 2, b / 2);
    }
  }

  lemma {:induction false} XorInjective(a: nat, b: nat, c: nat)
    requires Xor(a, c) == Xor(b, c)
    ensures a == b
    decreases a + b
  {
    hide Xor;
    if a != 0 || b != 0 {
      XorStep(a, c);
      XorStep(b, c);
      XorInjective(a / 2, b / 2, c / 2);
    }
  }

  lemma AbsorbInjective(a: u32, b: u32, c: byte, d: byte)
    requires Absorb(a, c) == Absorb(b, d)
    ensures c == d ==> a == b
    ensures a == b ==> c == d
  {
    MultiplyInjective(XorWord(a, c), XorWord(b, d));
    if c == d {
      XorInjective(a, b, c);
    }
    if a == b {
      XorCommutes(a, c);
      XorCommutes(b, d);
      XorInjective(c, d, a);
    }
  }

  /** For a fixed tail the final hash determines the state before it. */
  lemma {:induction false} TailInjective(a: u32, b: u32, s: seq<byte>)
    requires HashFrom(a, s) == HashFrom(b, s)
    ensures a == b
    decreases |s|
  {
    if s != [] {
      TailInjective(Absorb(a, s[0]), Absorb(b, s[0]), s[1..]);
      AbsorbInjective(a, b, s[0], s[0]);
    }
  }

  lemma {:induction false} HashSplit(h: u32, s: seq<byte>, t: seq<byte>)
    ensures HashFrom(h, s + t) == HashFrom(HashFrom(h, s), t)
    decreases |s|
  {
    if s == [] {
      assert s + t == t;
    } else {
      HashSplit(Absorb(h, s[0]), s[1..], t);
      assert (s + t)[1..] == s[1..] + t;
    }
  }

  /** Two strings of equal length that differ in exactly one byte never collide. */
  lemma OneByteNeverCollides(s: seq<byte>, t: seq<byte>, k: nat)
    requires |s| == |t| && k < |s|
    requires s[..k] == t[..k] && s[k] != t[k] && s[k + 1..] == t[k + 1..]
    ensures Hash(s) != Hash(t)
  {
    var h := HashFrom(OFFSET_BASIS, s[..k]);
    assert s == s[..k] + s[k..] && t == t[..k] + t[k..];
    HashSplit(OFFSET_BASIS, s[..k], s[k..]);
    HashSplit(OFFSET_BASIS, t[..k], t[k..]);
    assert s[k..][1..] == s[k + 1..] && t[k..][1..] == t[k + 1..];
    if Hash(s) == Hash(t) {
      TailInjective(Absorb(h, s[k]), Absorb(h, t[k]), s[k + 1..]);
      AbsorbInjective(h, h, s[k], t[k]);
    }
  }

  lemma {:induction false} XorZero(a: nat)
    ensures Xor(a, 0) == a
  {
    if a != 0 {
      XorZero(a / 2);
    }
  }

  lemma XorAnswer()
    ensures Xor(0x811C9DC5, 97) == 0x811C9DA4
  {
    hide Xor;
    XorZero(0x102393B);
    assert Xor(0x2047277, 1) == 0x2047276 by { XorStep(0x2047277, 1); }
    assert Xor(0x408E4EE, 3) == 0x408E4ED by { XorStep(0x408E4EE, 3); }
    assert Xor(0x811C9DC, 6) == 0x811C9DA by { XorStep(0x811C9DC, 6); }
    assert Xor(0x102393B8, 12) == 0x102393B4 by { XorStep(0x102393B8, 12); }
    assert Xor(0x20472771, 24) == 0x20472769 by { XorStep(0x20472771, 24); }
    assert Xor(0x408E4EE2, 48) == 0x408E4ED2 by { XorStep(0x408E4EE2, 48); }
    XorStep(0x811C9DC5, 97);
  }

  /** The published values for the empty string and for "a". */
  lemma KnownAnswers()
    ensures Hash([]) == 0x811C9DC5 && Hash([97]) == 0xE40C292C
  {
    hide Xor;
    XorAnswer();
    assert [97][1..] == [];
  }
}

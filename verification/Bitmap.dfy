/** The free-block bitmap: one bit a block, eight bits a byte, low bit first. */
module Bitmap {
  import opened Basics
  import opened Bytes

  /** (x & (1 << k)) != 0 */
  predicate BitOf(x: nat, k: nat)
  {
    if k == 0 then x % 2 == 1 else BitOf(x / 2, k - 1)
  }

  /** x | (1 << k) */
  function OrBit(x: nat, k: nat): (r: nat)
    ensures forall j: nat :: BitOf(r, j) <==> (j == k || BitOf(x, j))
  {
    if k == 0 then (if x % 2 == 1 then x else x + 1)
    else 2 * OrBit(x / 2, k - 1) + x % 2
  }

  /** x & ~(1 << k) */
  function ClearBit(x: nat, k: nat): (r: nat)
    ensures r <= x
    ensures forall j: nat :: BitOf(r, j) <==> (j != k && BitOf(x, j))
  {
    if k == 0 then x - x % 2
    else 2 * ClearBit(x / 2, k - 1) + x % 2
  }

  /** Setting bit `k` of an n-bit number, k < n, gives an n-bit number. */
  lemma {:induction false} OrBitBound(x: nat, k: nat, n: nat)
    requires k < n && x < Pow2(n)
    ensures OrBit(x, k) < Pow2(n)
  {
    assert Pow2(n) == 2 * Pow2(n - 1);
    if k != 0 {
      OrBitBound(x / 2, k - 1, n - 1);
    }
  }

  predicate Bit(bm: seq<byte>, i: nat)
  {
    i / 8 < |bm| && BitOf(bm[i / 8], i % 8)
  }

  function Mark(bm: seq<byte>, i: nat): (r: seq<byte>)
    requires i / 8 < |bm|
    ensures |r| == |bm|
    ensures forall j: nat {:trigger Bit(r, j)} :: Bit(r, j) <==> (j == i || Bit(bm, j))
  {
    OrBitBound(bm[i / 8], i % 8, 8);
    bm[i / 8 := OrBit(bm[i / 8], i % 8)]
  }

  function Unmark(bm: seq<byte>, i: nat): (r: seq<byte>)
    requires i / 8 < |bm|
    ensures |r| == |bm|
    ensures forall j: nat {:trigger Bit(r, j)} :: Bit(r, j) <==> (j != i && Bit(bm, j))
  {
    bm[i / 8 := ClearBit(bm[i / 8], i % 8)]
  }

  /** Block `i` has the bit of weight 2^(i % 8) in byte i / 8. */
  lemma BitIs(bm: seq<byte>, i: nat)
    requires i / 8 < |bm|
    ensures Bit(bm, i) <==> bm[i / 8] as int / Pow2(i % 8) % 2 == 1
  {
    BitOfIs(bm[i / 8], i % 8);
  }

  lemma {:induction false} BitOfIs(x: nat, k: nat)
    ensures BitOf(x, k) <==> x / Pow2(k) % 2 == 1
    decreases k
  {
    if k > 0 {
      BitOfIs(x / 2, k - 1);
      HalfDivided(x, Pow2(k - 1));
    }
  }

  lemma HalfDivided(x: nat, p: nat)
    requires p > 0
    ensures x / 2 / p == x / (2 * p)
  {
    var q, r := x / 2 / p, x / 2 % p;
    assert x == 2 * p * q + (2 * r + x % 2) && 2 * r + x % 2 < 2 * p;
    Quotient(x, 2 * p, q, 2 * r + x % 2);
  }

  lemma Quotient(x: nat, d: nat, q: nat, r: nat)
    requires x == d * q + r && r < d
    ensures x / d == q
  {
    var z, m := x / d, x % d;
    if z > q {
      AtLeast(d, z, q);
    } else if z < q {
      AtLeast(d, q, z);
    }
  }

  lemma {:induction false} AtLeast(d: nat, m: nat, n: nat)
    requires m > n
    ensures d * m >= d * n + d
    decreases m
  {
    assert d * m == d * (m - 1) + d;
    if m > n + 1 {
      AtLeast(d, m - 1, n);
    }
  }

  /** A zeroed bitmap has no bit set. */
  lemma ClearBits(bm: seq<byte>)
    requires forall j :: 0 <= j < |bm| ==> bm[j] == 0
    ensures forall b: nat :: !Bit(bm, b)
  {
    forall b: nat
      ensures !Bit(bm, b)
    {
      if b / 8 < |bm| {
        ZeroByte(b % 8);
      }
    }
  }

  lemma {:induction false} ZeroByte(k: nat)
    ensures !BitOf(0, k)
  {
    if k != 0 {
      ZeroByte(k - 1);
    }
  }
}

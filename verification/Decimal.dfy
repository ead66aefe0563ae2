/** Decimal printing of 32-bit integers: the digit loop that is reversed in place and the one that
    emits its digits backwards. */
module Decimal {
  import opened Basics

  type int32 = x: int | -0x8000_0000 <= x < 0x8000_0000

  const LEAST: int32 := -0x8000_0000

  /** Negation of a machine integer: the least one is its own negation. */
  function Negate(n: int32): int32 { if n == LEAST then LEAST else -n }

  /** Division and remainder truncate toward zero. */
  function Quotient(n: int32): int32 {
    var m: int := n;
    if m >= 0 then m / 10 else -(-m / 10)
  }

  function Remainder(n: int32): (r: int)
    ensures -10 < r < 10
  {
    var m: int := n;
    if m >= 0 then m % 10 else -(-m % 10)
  }

  function DigitChar(n: int32): char { ('0' as int + Remainder(n)) as char }

  /** The characters the digit loop stores, least significant first. */
  function Digits(n: int32): (s: seq<char>)
    decreases if n >= 0 then n as int else -(n as int)
  {
    if n == 0 then [] else [DigitChar(n)] + Digits(Quotient(n))
  }

  function Reverse(s: seq<char>): (r: seq<char>)
    ensures |r| == |s| && forall i :: 0 <= i < |s| ==> r[i] == s[|s| - 1 - i]
  {
    if s == [] then [] else Reverse(s[1..]) + [s[0]]
  }

  /** What `int_to_str` leaves in the buffer before the NUL. */
  function Text(n: int32): seq<char> {
    if n == 0 then "0"
    else if n > 0 then Reverse(Digits(n))
    else Reverse(Digits(Negate(n)) + "-")
  }

  /** What `toString` returns: nothing at all for a negative number. */
  function PlainText(x: int32): seq<char> {
    if x == 0 then "0" else Reverse(PlainDigits(x))
  }

  /** The characters its digit loop stores. */
  function PlainDigits(x: int32): seq<char> {
    if x > 0 then Digits(x) else []
  }

  /** How far the digit loop still has to go. */
  function Distance(n: int32): nat { if n >= 0 then n as int else -(n as int) }

  /** One round of the digit loop. */
  lemma DigitsStep(n: int32)
    requires n != 0
    ensures Digits(n) == [DigitChar(n)] + Digits(Quotient(n)) && Distance(Quotient(n)) < Distance(n)
    ensures n > 0 ==> PlainDigits(n) == [DigitChar(n)] + PlainDigits(Quotient(n))
  {
  }

  // ----- the two loops -----

  /** The first `len` characters with the outer `k` pairs swapped. */
  function Swapped(s: seq<char>, len: nat, k: nat): (r: seq<char>)
    requires len <= |s|
    ensures |r| == |s|
  {
    seq(|s|, i requires 0 <= i < |s| => if i < len && (i < k || i >= len - k) then s[len - 1 - i] else s[i])
  }

  lemma SwapStep(s: seq<char>, len: nat, k: nat)
    requires len <= |s| && k < len - 1 - k
    ensures var r := Swapped(s, len, k); var e := len - 1 - k;
            r[k := r[e]][e := r[k]] == Swapped(s, len, k + 1)
  {
  }

  lemma SwapEnds(s: seq<char>, len: nat, k: nat)
    requires len <= |s|
    ensures Swapped(s, len, 0) == s
    ensures k >= len - 1 - k ==> Swapped(s, len, k) == Reverse(s[..len]) + s[len..]
  {
  }

  /** Reverse the first `len` characters in place. */
  method ReverseInPlace(str: array<char>, len: nat)
    requires len <= str.Length
    modifies str
    ensures str[..len] == Reverse(old(str[..len])) && str[len..] == old(str[len..])
  {
    hide Swapped;
    ghost var was := str[..];
    var start, end := 0, len - 1;
    SwapEnds(was, len, 0);
    while start < end
      invariant 0 <= start && end == len - 1 - start && str[..] == Swapped(was, len, start)
    {
      SwapStep(was, len, start);
      var temp := str[start];
      str[start] := str[end];
      str[end] := temp;
      start := start + 1;
      end := end - 1;
    }
    SwapEnds(was, len, start);
  }

  /** The digit loop: least significant digit first, from the start of the buffer. */
  method StoreDigits(n: int32, str: array<char>) returns (i: nat)
    requires |Digits(n)| <= str.Length
    modifies str
    ensures i == |Digits(n)| <= 10 && str[..i] == Digits(n)
  {
    hide Digits, Quotient, Distance, DigitChar;
    i := 0;
    var m := n;
    DigitsBound(n);
    while m != 0
      invariant 0 <= i <= |Digits(n)| && str[..i] + Digits(m) == Digits(n)
      decreases Distance(m)
    {
      DigitsStep(m);
      ghost var before := str[..i];
      str[i] := DigitChar(m);
      i := i + 1;
      assert str[..i] == before + [DigitChar(m)];
      m := Quotient(m);
    }
    NoDigits();
  }

  method IntToStr(n: int32, str: array<char>) returns (ghost len: nat)
    requires |Text(n)| < str.Length
    modifies str
    ensures len == |Text(n)| <= 11 && str[..len] == Text(n) && str[len] == '\0'
  {
    if n == 0 {
      str[0] := '0';
      str[1] := '\0';
      assert str[..1] == "0";
      return 1;
    }
    hide Digits, Reverse;
    var i := StoreDigits(if n < 0 then Negate(n) else n, str);
    if n < 0 {
      str[i] := '-';
      assert str[..i + 1] == str[..i] + "-";
      i := i + 1;
    }
    EndAndReverse(str, i);
    len := i;
  }

  /** Put the NUL behind the first `i` characters and reverse them. */
  method EndAndReverse(str: array<char>, i: nat)
    requires i < str.Length
    modifies str
    ensures str[..i] == Reverse(old(str[..i])) && str[i] == '\0'
  {
    ghost var raw := str[..i];
    str[i] := '\0';
    assert str[..i] == raw;
    ReverseInPlace(str, i);
    assert str[i] == str[i..][0];
  }

  /** The same loop with another guard: nothing is stored for a negative number. */
  method StorePlainDigits(x: int32, buf: array<char>) returns (i: nat)
    requires |PlainDigits(x)| <= buf.Length
    modifies buf
    ensures i == |PlainDigits(x)| && buf[..i] == PlainDigits(x)
  {
    hide PlainDigits, Quotient, Distance, DigitChar;
    i := 0;
    var m := x;
    while m > 0
      invariant 0 <= i <= |PlainDigits(x)| && buf[..i] + PlainDigits(m) == PlainDigits(x)
      decreases Distance(m)
    {
      DigitsStep(m);
      ghost var before := buf[..i];
      buf[i] := DigitChar(m);
      i := i + 1;
      assert buf[..i] == before + [DigitChar(m)];
      m := Quotient(m);
    }
    NoDigits();
  }

  method ToString(x: int32) returns (s: seq<char>)
    ensures s == PlainText(x)
  {
    if x == 0 {
      return "0";
    }
    var buf := new char[16];
    DigitsBound(x);
    var i := StorePlainDigits(x, buf);
    s := EmitBackwards(buf, i);
  }

  /** Append the first `i` characters to an empty string, the last one first. */
  method EmitBackwards(buf: array<char>, i: nat) returns (s: seq<char>)
    requires i <= buf.Length
    ensures s == Reverse(buf[..i])
  {
    s := "";
    var j := i - 1;
    while j >= 0
      invariant -1 <= j < i && |s| == i - 1 - j
      invariant forall k :: 0 <= k < |s| ==> s[k] == buf[i - 1 - k]
    {
      s := s + [buf[j]];
      j := j - 1;
    }
  }

  function Pow10(k: nat): nat { if k == 0 then 1 else 10 * Pow10(k - 1) }

  lemma {:induction false} FewDigits(n: int32, k: nat)
    requires -(Pow10(k) as int) < n < Pow10(k)
    ensures |Digits(n)| <= k
    decreases k
  {
    if n != 0 {
      FewDigits(Quotient(n), k - 1);
    }
  }

  lemma NoDigits()
    ensures Digits(0) == [] && forall n: int32 :: n <= 0 ==> PlainDigits(n) == []
  {
  }

  lemma DigitsBound(n: int32)
    ensures |Digits(n)| <= 10
  {
    assert Pow10(5) == 100000;
    assert Pow10(10) == 100000 * Pow10(5);
    FewDigits(n, 10);
  }

  // ----- reading the text back -----

  predicate IsDigit(c: char) { '0' <= c <= '9' }

  function ParseNat(s: seq<char>): Option<nat> {
    if s == [] then None else ParseFrom(0, s)
  }

  /** Horner's rule from the left. */
  function ParseFrom(acc: nat, s: seq<char>): Option<nat>
    decreases |s|
  {
    if s == [] then Some(acc)
    else if !IsDigit(s[0]) then None
    else ParseFrom(10 * acc + (s[0] as int - '0' as int), s[1..])
  }

  function Parse(s: seq<char>): Option<int> {
    if s != [] && s[0] == '-' then
      match ParseNat(s[1..])
      case None => None
      case Some(v) => Some(-(v as int))
    else
      match ParseNat(s)
      case None => None
      case Some(v) => Some(v)
  }

  lemma {:induction false} ParseSplit(acc: nat, s: seq<char>, c: char)
    ensures ParseFrom(acc, s + [c]) ==
            match ParseFrom(acc, s)
            case None => None
            case Some(v) => if IsDigit(c) then Some(10 * v + (c as int - '0' as int)) else None
    decreases |s|
  {
    if s == [] {
      assert s + [c] == [c];
      assert ParseFrom(10 * acc + if IsDigit(c) then c as int - '0' as int else 0, []).Some?;
    } else {
      assert (s + [c])[1..] == s[1..] + [c];
      if IsDigit(s[0]) {
        ParseSplit(10 * acc + (s[0] as int - '0' as int), s[1..], c);
      }
    }
  }

  /** The digits of a non-negative number, read back from the most significant one. */
  lemma {:induction false} DigitsParse(n: int32)
    requires n >= 0
    ensures ParseFrom(0, Reverse(Digits(n))) == Some(n)
    decreases n
  {
    if n != 0 {
      DigitsParse(Quotient(n));
      DigitsStep(n);
      assert DigitChar(n) as int - '0' as int == Remainder(n) >= 0 && 10 * Quotient(n) + Remainder(n) == n;
      hide Digits, Quotient, DigitChar;
      ParseSplit(0, Reverse(Digits(Quotient(n))), DigitChar(n));
      assert Digits(n)[1..] == Digits(Quotient(n));
    }
  }

  lemma {:induction false} DigitsAreDigits(n: int32)
    requires n > 0
    ensures Digits(n) != [] && forall i :: 0 <= i < |Digits(n)| ==> IsDigit(Digits(n)[i])
    ensures Digits(n)[|Digits(n)| - 1] != '0'
    decreases n
  {
    if Quotient(n) != 0 {
      DigitsAreDigits(Quotient(n));
    }
  }

  lemma PositiveRoundTrip(n: int32)
    requires n > 0
    ensures Parse(Text(n)) == Some(n as int) && ParseNat(Reverse(Digits(n))) == Some(n as nat)
  {
    DigitsAreDigits(n);
    DigitsParse(n);
    assert IsDigit(Text(n)[0]);
  }

  lemma NegativeText(n: int32)
    requires n < 0
    ensures Text(n) == "-" + Reverse(Digits(Negate(n))) && Text(n)[1..] == Reverse(Digits(Negate(n)))
  {
    ReverseLast(Digits(Negate(n)), '-');
  }

  /** The digits of the least integer come out negative: its last character is not even a digit. */
  lemma LeastUnreadable()
    ensures Parse(Text(LEAST)) == None
  {
    NegativeText(LEAST);
    var d := Digits(LEAST);
    assert d == [DigitChar(LEAST)] + Digits(Quotient(LEAST));
    assert d[1..] == Digits(Quotient(LEAST)) && d[0] == '(';
    assert Reverse(d) == Reverse(d[1..]) + [d[0]];
    ParseSplit(0, Reverse(d[1..]), d[0]);
  }

  lemma DigitIs(n: int32, q: int32, c: char, rest: seq<char>)
    requires n != 0 && q == Quotient(n) && c == DigitChar(n) && Digits(q) == rest
    ensures Digits(n) == [c] + rest
  {
  }

  /** The text of the least integer: all its digits are stored as characters below '0'. */
  lemma LeastText()
    ensures Text(LEAST) == "-./,),(-*,("
  {
    hide Digits, Reverse;
    NoDigits();
    DigitIs(-2, 0, '.', "");
    DigitIs(-21, -2, '/', ".");
    DigitIs(-214, -21, ',', "/.");
    DigitIs(-2147, -214, ')', ",/.");
    DigitIs(-21474, -2147, ',', "),/.");
    DigitIs(-214748, -21474, '(', ",),/.");
    DigitIs(-2147483, -214748, '-', "(,),/.");
    DigitIs(-21474836, -2147483, '*', "-(,),/.");
    DigitIs(-214748364, -21474836, ',', "*-(,),/.");
    DigitIs(LEAST, -214748364, '(', ",*-(,),/.");
    NegativeText(LEAST);
    assert Reverse("(,*-(,),/.") == "./,),(-*,(";
  }

  /** Printing and parsing gives the number back for every integer but the least. */
  lemma RoundTripIff(n: int32)
    ensures Parse(Text(n)) == Some(n as int) <==> n != LEAST
  {
    if n == LEAST {
      LeastUnreadable();
    } else if n < 0 {
      NegativeText(n);
      PositiveRoundTrip(-n);
    } else if n == 0 {
      assert "0"[1..] == "";
      assert ParseFrom(0, "0") == ParseFrom(0, "");
    } else {
      PositiveRoundTrip(n);
    }
  }

  lemma {:induction false} ReverseLast(s: seq<char>, c: char)
    ensures Reverse(s + [c]) == [c] + Reverse(s)
  {
    var r := Reverse(s + [c]);
    assert forall i :: 0 <= i < |r| ==> r[i] == ([c] + Reverse(s))[i];
  }

  /** No leading zeros, at most eleven characters. */
  lemma TextShape(n: int32)
    ensures 1 <= |Text(n)| <= 11
    ensures n > 0 ==> Text(n)[0] != '0'
    ensures n < 0 && n != LEAST ==> Text(n)[0] == '-' && Text(n)[1] != '0'
  {
    DigitsBound(n);
    DigitsBound(Negate(n));
    if n > 0 {
      DigitsAreDigits(n);
    } else if n < 0 && n != LEAST {
      DigitsAreDigits(-n);
      ReverseLast(Digits(-n), '-');
    }
  }

  /** Both ways of printing agree exactly on the non-negative numbers; of a negative one toString
      makes nothing. */
  lemma SameTextIff(x: int32)
    ensures PlainText(x) == Text(x) <==> x >= 0
    ensures x < 0 ==> PlainText(x) == ""
  {
    TextShape(x);
  }
}

/** Splitting a string at a delimiter, into a list that grows by doubling. */
module Strings {

  const NUL := '\0'

  /** The growable array: elements in a buffer of which the first `len` places are used. */
  class ArrayList<T(0)> {
    var data: array?<T>
    var len: nat
    var cap: nat

    ghost predicate Valid()
      reads this
    {
      len <= cap && (data == null ==> cap == 0) && (data != null ==> data.Length == cap)
    }

    ghost function Contents(): seq<T>
      requires Valid()
      reads this, data
    {
      if data == null then [] else data[..len]
    }

    constructor ()
      ensures Valid() && Contents() == [] && data == null
    {
      data, len, cap := null, 0, 0;
    }

    /** Move the elements into a larger buffer. */
    method Grow(newCap: nat)
      requires Valid() && len <= newCap && newCap > 0
      modifies this
      ensures Valid() && Contents() == old(Contents()) && cap == newCap && len == old(len)
      ensures data != null && fresh(data)
    {
      var newData := new T[newCap];
      for i := 0 to len
        invariant unchanged(this) && (data != null ==> unchanged(data))
        invariant forall j :: 0 <= j < i ==> newData[j] == old(Contents())[j]
      {
        newData[i] := data[i];
      }
      data := newData;
      cap := newCap;
      assert data[..len] == old(Contents());
    }

    /** Append, doubling the buffer when it is full; what was there stays in place. */
    method PushBack(value: T)
      requires Valid()
      modifies this, data
      ensures Valid() && Contents() == old(Contents()) + [value]
      ensures data != null && (data == old(data) || fresh(data))
      ensures cap == if old(len) < old(cap) then old(cap) else if old(cap) == 0 then 4 else 2 * old(cap)
    {
      if len + 1 > cap {
        Grow(if cap == 0 then 4 else cap * 2);
      }
      data[len] := value;
      len := len + 1;
      assert data[..len] == old(Contents()) + [value];
    }
  }

  // ----- the runs of a text -----

  /** The length of the longest prefix without the delimiter. */
  function RunLength(text: seq<char>, c: char): (n: nat)
    ensures n <= |text| && c !in text[..n] && (n < |text| ==> text[n] == c)
  {
    if text == [] || text[0] == c then 0 else 1 + RunLength(text[1..], c)
  }

  /** The maximal delimiter-free runs, in order. */
  function Runs(text: seq<char>, c: char): seq<seq<char>>
    decreases |text|
  {
    if text == [] then []
    else if text[0] == c then Runs(text[1..], c)
    else [text[..RunLength(text, c)]] + Runs(text[RunLength(text, c)..], c)
  }

  /** The C string at the start of a text. */
  function CutAtNul(s: seq<char>): seq<char> {
    s[..RunLength(s, NUL)]
  }

  function CutAll(runs: seq<seq<char>>): (r: seq<seq<char>>)
    ensures |r| == |runs| && forall i :: 0 <= i < |runs| ==> r[i] == CutAtNul(runs[i])
  {
    if runs == [] then [] else [CutAtNul(runs[0])] + CutAll(runs[1..])
  }

  lemma RunLengthIs(text: seq<char>, c: char, n: nat)
    requires n <= |text| && c !in text[..n] && (n < |text| ==> text[n] == c)
    ensures RunLength(text, c) == n
  {
    var m := RunLength(text, c);
    assert forall j :: 0 <= j < n ==> text[j] in text[..n];
    assert forall j :: 0 <= j < m ==> text[j] in text[..m];
  }

  /** The runs of the rest of a text, when a run that ends at `i` began at `start`. */
  lemma RunEnds(text: seq<char>, c: char, start: nat, i: nat)
    requires start <= i <= |text| && c !in text[start..i] && (i == |text| || text[i] == c)
    ensures Runs(text[start..], c) == (if i == start then [] else [text[start..i]])
                                      + (if i == |text| then [] else Runs(text[i + 1..], c))
  {
    var rest := text[start..];
    assert rest[..i - start] == text[start..i] && rest[i - start..] == text[i..];
    RunLengthIs(rest, c, i - start);
    if i < |text| {
      assert text[i..][1..] == text[i + 1..];
    }
    if i > start {
      assert rest[0] in text[start..i];
    }
  }

  /** The loop has come to `i`, the current run began at `start`, the runs before it are done. */
  ghost predicate Scanned(text: seq<char>, c: char, start: nat, i: nat, done: seq<seq<char>>) {
    if start <= |text| then
      start <= i <= |text| && c !in text[start..i] && Runs(text, c) == done + Runs(text[start..], c)
    else i == start == |text| + 1 && Runs(text, c) == done
  }

  lemma ScanOn(text: seq<char>, c: char, start: nat, i: nat, done: seq<seq<char>>)
    requires Scanned(text, c, start, i, done) && i < |text| && text[i] != c
    ensures Scanned(text, c, start, i + 1, done)
  {
    assert text[start..i + 1] == text[start..i] + [text[i]];
  }

  lemma ScanBreak(text: seq<char>, c: char, start: nat, i: nat, done: seq<seq<char>>)
    requires Scanned(text, c, start, i, done) && i <= |text| && (i == |text| || text[i] == c)
    ensures start <= i && Scanned(text, c, i + 1, i + 1, if i > start then done + [text[start..i]] else done)
  {
    hide Runs;
    RunEnds(text, c, start, i);
    if i < |text| {
      assert text[i + 1..i + 1] == [];
    }
  }

  /** `split`: every run becomes a string of its own, cut at the first NUL it holds. */
  method Split(text: seq<char>, delimiter: char) returns (parts: ArrayList<seq<char>>)
    ensures fresh(parts) && parts.Valid() && parts.Contents() == CutAll(Runs(text, delimiter))
  {
    hide Runs, CutAll, Scanned, CutAtNul, RunLength;
    parts := new ArrayList();
    var start, i := 0, 0;
    ghost var done: seq<seq<char>> := [];
    ScanStart(text, delimiter);
    while i <= |text|
      invariant fresh(parts) && parts.Valid() && (parts.data != null ==> fresh(parts.data))
      invariant start <= i <= |text| + 1
      invariant Scanned(text, delimiter, start, i, done)
      invariant parts.Contents() == CutAll(done)
    {
      if i == |text| || text[i] == delimiter {
        ScanBreak(text, delimiter, start, i, done);
        var segLen := i - start;
        if segLen > 0 {
          CutAppend(done, text[start..i]);
          done := done + [text[start..i]];
          parts.PushBack(CutAtNul(text[start..i]));
        }
        start := i + 1;
      } else {
        ScanOn(text, delimiter, start, i, done);
      }
      i := i + 1;
    }
    ScanEnd(text, delimiter, start, i, done);
  }

  lemma ScanStart(text: seq<char>, c: char)
    ensures Scanned(text, c, 0, 0, []) && CutAll([]) == []
  {
    assert text[0..] == text;
  }

  lemma ScanEnd(text: seq<char>, c: char, start: nat, i: nat, done: seq<seq<char>>)
    requires Scanned(text, c, start, i, done) && i == |text| + 1
    ensures Runs(text, c) == done
  {
  }

  lemma {:induction false} CutAppend(runs: seq<seq<char>>, run: seq<char>)
    ensures CutAll(runs + [run]) == CutAll(runs) + [CutAtNul(run)]
  {
    if runs != [] {
      CutAppend(runs[1..], run);
      assert (runs + [run])[1..] == runs[1..] + [run];
    }
  }

  // ----- what the runs are -----

  function Flatten(runs: seq<seq<char>>): seq<char> {
    if runs == [] then [] else runs[0] + Flatten(runs[1..])
  }

  /** The text without the delimiter. */
  function Without(text: seq<char>, c: char): seq<char> {
    if text == [] then [] else (if text[0] == c then [] else [text[0]]) + Without(text[1..], c)
  }

  /** The stretches of delimiters before, between and after the runs. */
  function Gaps(text: seq<char>, c: char): (gaps: seq<nat>)
    ensures |gaps| >= 1
    decreases |text|
  {
    if text == [] then [0]
    else if text[0] == c then var g := Gaps(text[1..], c); [g[0] + 1] + g[1..]
    else [0] + Gaps(text[RunLength(text, c)..], c)
  }

  function Repeat(c: char, n: nat): seq<char> { seq(n, _ => c) }

  /** Gap, run, gap, run, ..., gap. */
  function Interleave(gaps: seq<nat>, runs: seq<seq<char>>, c: char): seq<char>
    requires |gaps| == |runs| + 1
  {
    if runs == [] then Repeat(c, gaps[0])
    else Repeat(c, gaps[0]) + runs[0] + Interleave(gaps[1..], runs[1..], c)
  }

  lemma {:induction false} GapShape(text: seq<char>, c: char)
    ensures |Gaps(text, c)| == |Runs(text, c)| + 1
    ensures forall i :: 0 < i < |Runs(text, c)| ==> Gaps(text, c)[i] > 0
    ensures forall i :: 0 <= i < |Runs(text, c)| ==> Runs(text, c)[i] != [] && c !in Runs(text, c)[i]
    ensures text != [] && text[0] == c ==> Gaps(text, c)[0] > 0
    decreases |text|
  {
    if text == [] {
    } else if text[0] == c {
      GapShape(text[1..], c);
    } else {
      assert RunLength(text, c) > 0;
      GapShape(text[RunLength(text, c)..], c);
    }
  }

  /** The text is its runs with gaps of delimiters around them, and a gap between two runs is
      never empty: so the runs are maximal, and in order. */
  lemma {:induction false} RunsAreMaximal(text: seq<char>, c: char)
    ensures |Gaps(text, c)| == |Runs(text, c)| + 1
    ensures Interleave(Gaps(text, c), Runs(text, c), c) == text
    ensures forall i :: 0 < i < |Runs(text, c)| ==> Gaps(text, c)[i] > 0
    ensures forall i :: 0 <= i < |Runs(text, c)| ==> Runs(text, c)[i] != [] && c !in Runs(text, c)[i]
    decreases |text|
  {
    GapShape(text, c);
    if text == [] {
    } else if text[0] == c {
      RunsAreMaximal(text[1..], c);
      InterleaveGap(Gaps(text[1..], c), Runs(text[1..], c), c);
    } else {
      assert RunLength(text, c) > 0;
      RunsAreMaximal(text[RunLength(text, c)..], c);
      RunsUnfold(text, c);
      var n := RunLength(text, c);
      InterleaveCons(Gaps(text[n..], c), text[..n], Runs(text[n..], c), c);
      Halves(text, n);
    }
  }

  lemma Halves(text: seq<char>, n: nat)
    requires n <= |text|
    ensures text[..n] + text[n..] == text
  {
  }

  lemma RunsUnfold(text: seq<char>, c: char)
    requires text != [] && text[0] != c
    ensures var rest := text[RunLength(text, c)..];
            Gaps(text, c) == [0] + Gaps(rest, c) && Runs(text, c) == [text[..RunLength(text, c)]] + Runs(rest, c)
  {
  }

  lemma InterleaveCons(gaps: seq<nat>, run: seq<char>, runs: seq<seq<char>>, c: char)
    requires |gaps| == |runs| + 1
    ensures Interleave([0] + gaps, [run] + runs, c) == run + Interleave(gaps, runs, c)
  {
    assert ([0] + gaps)[1..] == gaps && ([run] + runs)[1..] == runs;
    assert Repeat(c, 0) + run == run;
  }

  lemma Prepend(c: char, x: seq<char>, y: seq<char>, z: seq<char>)
    ensures ([c] + x) + y + z == [c] + (x + y + z)
  {
  }

  lemma InterleaveGap(gaps: seq<nat>, runs: seq<seq<char>>, c: char)
    requires |gaps| == |runs| + 1
    ensures Interleave([gaps[0] + 1] + gaps[1..], runs, c) == [c] + Interleave(gaps, runs, c)
  {
    var more := [gaps[0] + 1] + gaps[1..];
    assert more[1..] == gaps[1..];
    assert Repeat(c, gaps[0] + 1) == [c] + Repeat(c, gaps[0]);
    if runs != [] {
      Prepend(c, Repeat(c, gaps[0]), runs[0], Interleave(gaps[1..], runs[1..], c));
    }
  }

  lemma {:induction false} WithoutRun(text: seq<char>, c: char, n: nat)
    requires n <= |text| && c !in text[..n]
    ensures Without(text, c) == text[..n] + Without(text[n..], c)
    decreases n
  {
    if n > 0 {
      assert text[0] in text[..n];
      assert forall x :: x in text[1..][..n - 1] ==> x in text[..n];
      WithoutRun(text[1..], c, n - 1);
      assert text[1..][n - 1..] == text[n..];
      assert text[..n] == [text[0]] + text[1..][..n - 1];
    }
  }

  /** The runs put together are the text with every delimiter removed. */
  lemma {:induction false} RunsFlatten(text: seq<char>, c: char)
    ensures Flatten(Runs(text, c)) == Without(text, c)
    decreases |text|
  {
    if text == [] {
    } else if text[0] == c {
      RunsFlatten(text[1..], c);
    } else {
      var n := RunLength(text, c);
      assert n > 0;
      RunsFlatten(text[n..], c);
      WithoutRun(text, c, n);
      assert Runs(text, c)[1..] == Runs(text[n..], c);
    }
  }

  /** The parts are the runs themselves exactly when no run holds a NUL: when the delimiter is
      NUL, or the text has none. */
  lemma PartsAreRunsIff(text: seq<char>, c: char)
    ensures CutAll(Runs(text, c)) == Runs(text, c) <==> c == NUL || NUL !in text
  {
    var runs := Runs(text, c);
    RunsAreMaximal(text, c);
    RunsFlatten(text, c);
    if c == NUL || NUL !in text {
      forall i | 0 <= i < |runs|
        ensures CutAtNul(runs[i]) == runs[i]
      {
        RunInText(text, c, i);
        RunLengthIs(runs[i], NUL, |runs[i]|);
      }
    } else {
      NulInRun(text, c);
      var i :| 0 <= i < |runs| && NUL in runs[i];
      assert CutAll(runs)[i] == CutAtNul(runs[i]);
      assert NUL !in CutAtNul(runs[i]);
    }
  }

  /** The text a NUL b is one run, and its one part is a alone. */
  lemma SplitCutsHappens()
    ensures var text := ['a', NUL, 'b'];
            Runs(text, ' ') == [text] && CutAll(Runs(text, ' ')) == ["a"]
  {
    var text := ['a', NUL, 'b'];
    RunLengthIs(text, ' ', 3);
    assert text[..3] == text && text[3..] == [];
    RunLengthIs(text, NUL, 1);
    assert CutAtNul(text) == "a";
  }

  lemma {:induction false} RunInText(text: seq<char>, c: char, i: nat)
    requires i < |Runs(text, c)|
    ensures forall x :: x in Runs(text, c)[i] ==> x in text && x != c
    decreases |text|
  {
    if text[0] == c {
      RunInText(text[1..], c, i);
    } else {
      var n := RunLength(text, c);
      assert n > 0;
      if i > 0 {
        RunInText(text[n..], c, i - 1);
      }
    }
  }

  lemma {:induction false} NulInRun(text: seq<char>, c: char)
    requires NUL in text && c != NUL
    ensures exists i :: 0 <= i < |Runs(text, c)| && NUL in Runs(text, c)[i]
    decreases |text|
  {
    if text[0] == c {
      assert text == [c] + text[1..];
      NulInRun(text[1..], c);
      var i :| 0 <= i < |Runs(text[1..], c)| && NUL in Runs(text[1..], c)[i];
      assert NUL in Runs(text, c)[i];
    } else {
      var n := RunLength(text, c);
      assert n > 0 && text == text[..n] + text[n..];
      if NUL in text[..n] {
        assert NUL in Runs(text, c)[0];
      } else {
        NulInRun(text[n..], c);
        var i :| 0 <= i < |Runs(text[n..], c)| && NUL in Runs(text[n..], c)[i];
        assert NUL in Runs(text, c)[i + 1];
      }
    }
  }
}

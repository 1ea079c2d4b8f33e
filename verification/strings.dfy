/** The two Python `str` operations the digit reader relies on: `strip()`
    with no argument, and `split(sep)` with a one-character separator. */
module Strings {

  /** Python's `str.isspace`: the characters that `strip()` removes.
      Dafny's `char` is a Unicode scalar value, so the non-ASCII spaces
      Python recognises are listed too. */
  predicate IsSpace(c: char) {
    || ('\t' <= c <= '\r')              // tab, line feed, vertical tab, form feed, carriage return
    || ('\U{1C}' <= c <= ' ')           // file, group, record and unit separators, space
    || c == '\U{85}' || c == '\U{A0}' || c == '\U{1680}'
    || ('\U{2000}' <= c <= '\U{200A}')
    || c == '\U{2028}' || c == '\U{2029}' || c == '\U{202F}' || c == '\U{205F}' || c == '\U{3000}'
  }

  /** Every character of `s[lo..hi]` is whitespace. */
  predicate SpaceIn(s: string, lo: nat, hi: nat)
    requires hi <= |s|
  {
    forall k | lo <= k < hi :: IsSpace(s[k])
  }

  /** Neither end of `s` is whitespace. */
  predicate Trimmed(s: string) {
    |s| == 0 || (!IsSpace(s[0]) && !IsSpace(s[|s| - 1]))
  }

  /** The number of leading whitespace characters of `s`. */
  function StartOf(s: string): (i: nat)
    ensures i <= |s|
    ensures SpaceIn(s, 0, i)
    ensures i < |s| ==> !IsSpace(s[i])
  {
    if |s| > 0 && IsSpace(s[0]) then 1 + StartOf(s[1..]) else 0
  }

  /** The length of `s` without its trailing whitespace. */
  function EndOf(s: string): (j: nat)
    ensures j <= |s|
    ensures SpaceIn(s, j, |s|)
    ensures j > 0 ==> !IsSpace(s[j - 1])
  {
    if |s| > 0 && IsSpace(s[|s| - 1]) then EndOf(s[..|s| - 1]) else |s|
  }

  /** `s.strip()`: a contiguous slice of `s`, trimmed at both ends, with only
      whitespace cut away on either side. */
  function Strip(s: string): (r: string)
    ensures Trimmed(r)
    ensures StartOf(s) + |r| <= |s|
    ensures r == s[StartOf(s)..StartOf(s) + |r|]
    ensures SpaceIn(s, 0, StartOf(s)) && SpaceIn(s, StartOf(s) + |r|, |s|)
  {
    var i, j := StartOf(s), EndOf(s);
    if j <= i then [] else s[i..j]
  }

  /** Any cut of `s` into whitespace, a trimmed middle and whitespace has
      `Strip(s)` as its middle: the contract of `Strip` determines it. */
  lemma StripUnique(s: string, i: nat, j: nat)
    requires i <= j <= |s|
    requires SpaceIn(s, 0, i) && SpaceIn(s, j, |s|) && Trimmed(s[i..j])
    ensures Strip(s) == s[i..j]
  {
    if i < j {
      assert !IsSpace(s[i]) by { assert s[i] == s[i..j][0]; }
      assert !IsSpace(s[j - 1]) by { assert s[j - 1] == s[i..j][j - i - 1]; }
    }
  }

  /** Stripping twice is the same as stripping once. */
  lemma StripIdempotent(s: string)
    ensures Strip(Strip(s)) == Strip(s)
  {
    var r := Strip(s);
    assert r[0..|r|] == r;
    StripUnique(r, 0, |r|);
  }

  /** Index of the first occurrence of `c` in `s` at or after `from`, or
      `|s|` when there is none. */
  function FindFrom(s: string, c: char, from: nat): (k: nat)
    requires from <= |s|
    ensures from <= k <= |s|
    ensures k < |s| ==> s[k] == c
    ensures forall j | from <= j < k :: s[j] != c
    decreases |s| - from
  {
    if from == |s| || s[from] == c then from else FindFrom(s, c, from + 1)
  }

  /** Index of the first occurrence of `c` in `s`, or `|s|` when there is none. */
  function Find(s: string, c: char): (k: nat)
    ensures k <= |s|
    ensures k < |s| ==> s[k] == c
    ensures forall j | 0 <= j < k :: s[j] != c
  {
    FindFrom(s, c, 0)
  }

  /** `s.split(sep)`: the pieces of `s` between occurrences of `sep`. */
  function Split(s: string, sep: char): (parts: seq<string>)
    ensures |parts| >= 1
    decreases |s|
  {
    var k := Find(s, sep);
    if k == |s| then
      assert s[..k] == s;
      [s]
    else
      [s[..k]] + Split(s[k + 1..], sep)
  }

  /** The second piece of a split is the text after the first separator,
      up to the next separator or the end. */
  lemma SplitSecond(s: string, sep: char)
    requires sep in s
    ensures var t := s[Find(s, sep) + 1..];
      Split(s, sep)[1] == t[..Find(t, sep)]
  {
    var k := Find(s, sep);
    var t := s[k + 1..];
    assert Split(s, sep) == [s[..k]] + Split(t, sep);
    if Find(t, sep) == |t| {
      assert t[..|t|] == t;
    }
  }

  /** No piece holds the separator, and there is more than one piece
      exactly when the separator occurs. */
  lemma {:induction false} SplitPieces(s: string, sep: char)
    ensures forall j | 0 <= j < |Split(s, sep)| :: sep !in Split(s, sep)[j]
    ensures |Split(s, sep)| == 1 <==> sep !in s
    decreases |s|
  {
    var k := Find(s, sep);
    assert sep !in s[..k];
    if k < |s| {
      var t := s[k + 1..];
      SplitUnfold(s, sep);
      SplitPieces(t, sep);
    } else {
      assert s[..k] == s;
    }
  }

  /** `sep.join(parts)`. */
  function Join(parts: seq<string>, sep: char): (s: string)
  {
    if |parts| == 0 then ""
    else if |parts| == 1 then parts[0]
    else parts[0] + [sep] + Join(parts[1..], sep)
  }

  /** Joining the pieces back with the separator restores the string. */
  lemma {:induction false} JoinSplit(s: string, sep: char)
    ensures Join(Split(s, sep), sep) == s
    decreases |s|
  {
    var k := Find(s, sep);
    if k == |s| {
      JoinSplitBase(s, sep);
    } else {
      JoinSplit(s[k + 1..], sep);
      JoinSplitStep(s, sep);
    }
  }

  lemma JoinSplitBase(s: string, sep: char)
    requires Find(s, sep) == |s|
    ensures Join(Split(s, sep), sep) == s
  {
    assert s[..|s|] == s;
  }

  /** The inductive step of `JoinSplit`: the first piece, the separator,
      and the join of the remaining pieces. */
  lemma JoinSplitStep(s: string, sep: char)
    requires Find(s, sep) < |s|
    requires var t := s[Find(s, sep) + 1..]; Join(Split(t, sep), sep) == t
    ensures Join(Split(s, sep), sep) == s
  {
    var k := Find(s, sep);
    var head, tail := s[..k], s[k + 1..];
    var rest := Split(tail, sep);
    calc {
      Join(Split(s, sep), sep);
      { SplitUnfold(s, sep); }
      Join([head] + rest, sep);
      { JoinCons(head, rest, sep); }
      head + [sep] + Join(rest, sep);
      head + [sep] + tail;
      { assert s == head + [sep] + tail; }
      s;
    }
  }

  lemma SplitUnfold(s: string, sep: char)
    requires Find(s, sep) < |s|
    ensures Split(s, sep) == [s[..Find(s, sep)]] + Split(s[Find(s, sep) + 1..], sep)
  {
  }

  /** Splitting a join of separator-free pieces gives the pieces back. */
  lemma {:induction false} SplitJoin(parts: seq<string>, sep: char)
    requires |parts| >= 1
    requires forall p | p in parts :: sep !in p
    ensures Split(Join(parts, sep), sep) == parts
    decreases |parts|
  {
    var s := Join(parts, sep);
    var p := parts[0];
    if |parts| == 1 {
      assert sep !in p;
      FindAbsent(p, sep);
      assert p[..|p|] == p;
    } else {
      var rest := Join(parts[1..], sep);
      assert s == p + [sep] + rest;
      FindAfter(p, sep, rest);
      assert s[..|p|] == p;
      assert s[|p| + 1..] == rest;
      SplitJoin(parts[1..], sep);
      assert parts == [p] + parts[1..];
    }
  }

  lemma JoinCons(p: string, rest: seq<string>, sep: char)
    requires |rest| >= 1
    ensures Join([p] + rest, sep) == p + [sep] + Join(rest, sep)
  {
    assert ([p] + rest)[1..] == rest;
  }

  lemma FindAbsent(s: string, c: char)
    requires c !in s
    ensures Find(s, c) == |s|
  {
  }

  lemma FindAfter(p: string, c: char, rest: string)
    requires c !in p
    ensures Find(p + [c] + rest, c) == |p|
  {
    var s := p + [c] + rest;
    var k := Find(s, c);
    assert s[|p|] == c;
  }
}

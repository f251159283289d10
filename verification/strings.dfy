/** The Python 2 `str` methods the core relies on, over byte strings:
    `lower`, `strip`/`rstrip`, `split(sep)`, `join`, `startswith`, `in` and
    `replace`. */
module Strings {
  import opened Chars

  /** `s.lower()`. */
  function LowerStr(s: string): (r: string)
    ensures |r| == |s|
    ensures forall i :: 0 <= i < |r| ==> r[i] == Lower(s[i])
  {
    seq(|s|, i requires 0 <= i < |s| => Lower(s[i]))
  }

  /** Lowering twice is lowering once. */
  lemma LowerStrIdempotent(s: string)
    ensures LowerStr(LowerStr(s)) == LowerStr(s)
  {
  }

  predicate AllSpace(s: string) {
    forall i :: 0 <= i < |s| ==> IsSpace(s[i])
  }

  /** Number of leading whitespace bytes. */
  function LeadLen(s: string): (n: nat)
    ensures n <= |s|
    ensures AllSpace(s[..n])
    ensures n < |s| ==> !IsSpace(s[n])
    decreases |s|
  {
    if |s| == 0 || !IsSpace(s[0]) then 0
    else
      var m := LeadLen(s[1..]);
      var p := s[..m + 1];
      assert AllSpace(p) by {
        forall i | 0 <= i < |p| ensures IsSpace(p[i]) {
          if i > 0 {
            assert p[i] == s[1..][..m][i - 1];
          }
        }
      }
      1 + m
  }

  /** Number of trailing whitespace bytes. */
  function TrailLen(s: string): (n: nat)
    ensures n <= |s|
    ensures AllSpace(s[|s| - n..])
    ensures n < |s| ==> !IsSpace(s[|s| - n - 1])
    decreases |s|
  {
    if |s| == 0 || !IsSpace(s[|s| - 1]) then 0
    else
      var m := TrailLen(s[..|s| - 1]);
      var k := |s| - 1 - m;
      assert AllSpace(s[k..]) by {
        forall i | 0 <= i < |s[k..]| ensures IsSpace(s[k..][i]) {
          if i < m {
            assert s[k..][i] == s[..|s| - 1][k..][i];
          }
        }
      }
      1 + m
  }

  /** `s.rstrip()`: drops trailing whitespace and nothing else. */
  function RStrip(s: string): (r: string)
    ensures |r| <= |s| && s[..|r|] == r
    ensures AllSpace(s[|r|..])
    ensures |r| == 0 || !IsSpace(r[|r| - 1])
  {
    s[..|s| - TrailLen(s)]
  }

  /** `s.strip()`: the result is the middle of `s` with only whitespace around it,
      and it neither starts nor ends with whitespace. */
  function Strip(s: string): (r: string)
    ensures LeadLen(s) + |r| <= |s|
    ensures s[LeadLen(s)..LeadLen(s) + |r|] == r
    ensures AllSpace(s[..LeadLen(s)]) && AllSpace(s[LeadLen(s) + |r|..])
    ensures |r| == 0 || (!IsSpace(r[0]) && !IsSpace(r[|r| - 1]))
  {
    RStrip(s[LeadLen(s)..])
  }

  /** A string strips to the empty string exactly when it is all whitespace;
      this is Python's `if not line.strip()` test for a blank line. */
  lemma StripEmptyIffAllSpace(s: string)
    ensures Strip(s) == "" <==> AllSpace(s)
  {
    var k := LeadLen(s);
    if k < |s| {
      var t := s[k..];
      assert !IsSpace(t[0]);
      TrailLenShort(t);
      assert !IsSpace(s[k]);
    } else {
      assert s[..k] == s;
    }
  }

  /** A string that starts with a non-space byte is not all trailing whitespace. */
  lemma {:induction false} TrailLenShort(t: string)
    requires |t| > 0 && !IsSpace(t[0])
    ensures TrailLen(t) < |t|
    decreases |t|
  {
    if |t| > 1 && IsSpace(t[|t| - 1]) {
      TrailLenShort(t[..|t| - 1]);
    }
  }

  /** Position of the first `c` in `s`, or `|s|` when there is none. */
  function IndexOf(s: string, c: char): (i: nat)
    ensures i <= |s|
    ensures c !in s[..i]
    ensures i < |s| ==> s[i] == c
    decreases |s|
  {
    if |s| == 0 then 0
    else if s[0] == c then 0
    else
      var j := IndexOf(s[1..], c);
      assert s[..j + 1] == [s[0]] + s[1..][..j];
      1 + j
  }

  /** `s.split(c)` with an explicit one-character separator: the pieces
      between occurrences of `c`; there is always one more piece than there
      are separators, and empty pieces are kept. */
  function SplitOn(s: string, c: char): (parts: seq<string>)
    ensures |parts| == multiset(s)[c] + 1
    ensures forall i :: 0 <= i < |parts| ==> c !in parts[i]
    decreases |s|
  {
    var i := IndexOf(s, c);
    if i == |s| then [s]
    else
      assert s == s[..i] + [c] + s[i + 1..];
      assert multiset(s)[c] == multiset(s[..i])[c] + 1 + multiset(s[i + 1..])[c];
      [s[..i]] + SplitOn(s[i + 1..], c)
  }

  /** A string without the separator is one piece. */
  lemma SplitOnNone(s: string, c: char)
    requires c !in s
    ensures SplitOn(s, c) == [s]
  {
    assert s[..IndexOf(s, c)] == s;
  }

  /** The first separator, at `i`, ends the first piece. */
  lemma SplitOnAt(s: string, c: char, i: nat)
    requires i < |s| && s[i] == c && c !in s[..i]
    ensures SplitOn(s, c) == [s[..i]] + SplitOn(s[i + 1..], c)
  {
    assert IndexOf(s, c) == i;
  }

  /** `c.join(parts)`. */
  function JoinOn(parts: seq<string>, c: char): string
  {
    if |parts| == 0 then ""
    else if |parts| == 1 then parts[0]
    else parts[0] + [c] + JoinOn(parts[1..], c)
  }

  /** Joining the pieces back with the separator gives the original string. */
  lemma {:induction false} JoinSplitOn(s: string, c: char)
    ensures JoinOn(SplitOn(s, c), c) == s
    decreases |s|
  {
    var i := IndexOf(s, c);
    if i < |s| {
      var rest := s[i + 1..];
      var tail := SplitOn(rest, c);
      var parts := SplitOn(s, c);
      assert parts == [s[..i]] + tail;
      JoinSplitOn(rest, c);
      assert |tail| >= 1 && parts[1..] == tail;
      assert JoinOn(parts, c) == s[..i] + [c] + JoinOn(tail, c);
      assert s == s[..i] + [c] + rest;
    } else {
      assert SplitOn(s, c) == [s];
    }
  }

  /** Splitting separator-free pieces after joining them gives the pieces back. */
  lemma {:induction false} SplitJoinOn(parts: seq<string>, c: char)
    requires |parts| >= 1
    requires forall i :: 0 <= i < |parts| ==> c !in parts[i]
    ensures SplitOn(JoinOn(parts, c), c) == parts
    decreases |parts|
  {
    if |parts| == 1 {
      SplitOnNone(parts[0], c);
    } else {
      var p := parts[0];
      var rest := JoinOn(parts[1..], c);
      var s := JoinOn(parts, c);
      assert s == p + [c] + rest;
      assert s[..|p|] == p && s[|p|] == c && s[|p| + 1..] == rest;
      SplitOnAt(s, c, |p|);
      SplitJoinOn(parts[1..], c);
      ConsTail(parts);
    }
  }

  lemma ConsTail(xs: seq<string>)
    requires |xs| > 0
    ensures xs == [xs[0]] + xs[1..]
  {
  }

  lemma {:induction false} IndexOfAfter(p: string, rest: string, c: char)
    requires c !in p
    requires |rest| > 0 && rest[0] == c
    ensures IndexOf(p + rest, c) == |p|
    decreases |p|
  {
    if |p| > 0 {
      assert (p + rest)[1..] == p[1..] + rest;
      IndexOfAfter(p[1..], rest, c);
    }
  }

  /** `s.startswith(prefix)`. */
  predicate StartsWith(s: string, prefix: string) {
    |prefix| <= |s| && s[..|prefix|] == prefix
  }

  /** `line.startswith('#')`: the input readers skip such lines. */
  predicate IsComment(line: string) {
    StartsWith(line, "#")
  }

  /** `sub in s`: some position of `s` starts an occurrence of `sub`. */
  predicate Contains(s: string, sub: string)
    decreases |s|
  {
    StartsWith(s, sub) || (|s| > 0 && Contains(s[1..], sub))
  }

  /** `s.replace(pat, rep)`: every non-overlapping occurrence of a non-empty
      `pat`, scanning left to right, becomes `rep`; an empty `pat` matches
      before every byte and at the end, so `rep` is inserted there. */
  function ReplaceAll(s: string, pat: string, rep: string): (r: string)
    ensures |pat| > 0 && |rep| == |pat| ==> |r| == |s|
    ensures |pat| > 0 && |rep| <= |pat| ==> |r| <= |s|
    ensures |pat| == 0 ==> |r| == |s| + (|s| + 1) * |rep|
    decreases |s|
  {
    if |pat| == 0 then
      if |s| == 0 then rep else rep + [s[0]] + ReplaceAll(s[1..], pat, rep)
    else if |s| < |pat| then s
    else if s[..|pat|] == pat then rep + ReplaceAll(s[|pat|..], pat, rep)
    else [s[0]] + ReplaceAll(s[1..], pat, rep)
  }

  /** Replacing a string that never occurs changes nothing. */
  lemma {:induction false} ReplaceAbsent(s: string, pat: string, rep: string)
    requires |pat| > 0 && !Contains(s, pat)
    ensures ReplaceAll(s, pat, rep) == s
    decreases |s|
  {
    if |s| >= |pat| {
      ReplaceAbsent(s[1..], pat, rep);
    }
  }

  /** An occurrence at the front is replaced and the scan resumes after it. */
  lemma ReplaceFront(pat: string, rest: string, rep: string)
    requires |pat| > 0
    ensures ReplaceAll(pat + rest, pat, rep) == rep + ReplaceAll(rest, pat, rep)
  {
    var s := pat + rest;
    assert s[..|pat|] == pat;
    assert s[|pat|..] == rest;
  }

  /** `pat` occurs in `s` starting at `i`. */
  predicate OccursAt(s: string, i: nat, pat: string) {
    i + |pat| <= |s| && s[i..i + |pat|] == pat
  }

  /** When the pattern occurs only at the very end, only that occurrence is
      replaced. */
  lemma {:induction false} ReplaceTail(a: string, pat: string, rep: string)
    requires |pat| > 0
    requires forall i :: 0 <= i < |a| ==> !OccursAt(a + pat, i, pat)
    ensures ReplaceAll(a + pat, pat, rep) == a + rep
    decreases |a|
  {
    if |a| == 0 {
      assert a + pat == pat;
      ReplaceWhole(pat, rep);
    } else {
      var s := a + pat;
      ReplaceSkip(s, pat, rep);
      assert s[1..] == a[1..] + pat;
      NoOccurShift(a, pat);
      ReplaceTail(a[1..], pat, rep);
      assert a == [a[0]] + a[1..];
    }
  }

  /** Without an occurrence at the front, the first byte is copied. */
  lemma ReplaceSkip(s: string, pat: string, rep: string)
    requires |pat| > 0 && |s| >= |pat| && !OccursAt(s, 0, pat)
    ensures ReplaceAll(s, pat, rep) == [s[0]] + ReplaceAll(s[1..], pat, rep)
  {
    assert s[..|pat|] == s[0..0 + |pat|];
  }

  lemma NoOccurShift(a: string, pat: string)
    requires |a| > 0
    requires forall i :: 0 <= i < |a| ==> !OccursAt(a + pat, i, pat)
    ensures forall i :: 0 <= i < |a[1..]| ==> !OccursAt(a[1..] + pat, i, pat)
  {
    var s := a + pat;
    forall i | 0 <= i < |a[1..]| ensures !OccursAt(a[1..] + pat, i, pat) {
      assert !OccursAt(s, i + 1, pat);
      assert (a[1..] + pat)[i..i + |pat|] == s[i + 1..i + 1 + |pat|];
    }
  }

  lemma LowerStrAppend(a: string, b: string)
    ensures LowerStr(a + b) == LowerStr(a) + LowerStr(b)
  {
  }

  /** Replacing the whole string by `rep` gives `rep`, also for the empty string. */
  lemma ReplaceWhole(s: string, rep: string)
    ensures ReplaceAll(s, s, rep) == rep
  {
    if |s| > 0 {
      assert s[|s|..] == "";
    }
  }

  /** `s` with every byte that `drop` selects deleted, the rest kept in order. */
  function Without(s: string, drop: char -> bool): (r: string)
    ensures forall i :: 0 <= i < |r| ==> !drop(r[i])
    decreases |s|
  {
    if |s| == 0 then ""
    else (if drop(s[0]) then "" else [s[0]]) + Without(s[1..], drop)
  }

  /** Deleting the selected bytes keeps the count of every other byte. */
  lemma {:induction false} WithoutCounts(s: string, drop: char -> bool)
    ensures forall c :: multiset(Without(s, drop))[c] == if drop(c) then 0 else multiset(s)[c]
    decreases |s|
  {
    if |s| > 0 {
      WithoutCounts(s[1..], drop);
      assert s == [s[0]] + s[1..];
    }
  }

  /** Deleting bytes never introduces a byte of a class that was absent. */
  lemma {:induction false} WithoutKeepsAbsence(s: string, drop: char -> bool, bad: char -> bool)
    requires forall i :: 0 <= i < |s| ==> !bad(s[i])
    ensures forall i :: 0 <= i < |Without(s, drop)| ==> !bad(Without(s, drop)[i])
    decreases |s|
  {
    if |s| > 0 {
      WithoutKeepsAbsence(s[1..], drop, bad);
    }
  }

  lemma {:induction false} WithoutAppend(a: string, b: string, drop: char -> bool)
    ensures Without(a + b, drop) == Without(a, drop) + Without(b, drop)
    decreases |a|
  {
    if |a| == 0 {
      assert a + b == b;
    } else {
      assert (a + b)[1..] == a[1..] + b;
      WithoutAppend(a[1..], b, drop);
    }
  }

  lemma {:induction false} WithoutNone(s: string, drop: char -> bool)
    requires forall i :: 0 <= i < |s| ==> !drop(s[i])
    ensures Without(s, drop) == s
    decreases |s|
  {
    if |s| > 0 {
      WithoutNone(s[1..], drop);
    }
  }

  lemma {:induction false} WithoutAll(s: string, drop: char -> bool)
    requires forall i :: 0 <= i < |s| ==> drop(s[i])
    ensures Without(s, drop) == ""
    decreases |s|
  {
    if |s| > 0 {
      WithoutAll(s[1..], drop);
    }
  }
}

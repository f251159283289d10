/** Maximal runs of bytes of one class, and the two uses the core makes of
    them: Python's no-argument `str.split()` (runs of non-whitespace) and the
    word runs that `\b` delimits in a regular expression (runs of `\w`). */
module Tokens {
  import opened Chars
  import opened Strings

  predicate AllIn(w: string, member: char -> bool) {
    forall i :: 0 <= i < |w| ==> member(w[i])
  }

  /** A run is a non-empty string all of whose bytes belong to the class. */
  predicate IsRun(w: string, member: char -> bool) {
    |w| > 0 && AllIn(w, member)
  }

  /** Length of the run of class members at the start of `s`. */
  function RunLen(s: string, member: char -> bool): (n: nat)
    ensures n <= |s|
    ensures AllIn(s[..n], member)
    ensures n < |s| ==> !member(s[n])
    decreases |s|
  {
    if |s| == 0 || !member(s[0]) then 0
    else
      var m := RunLen(s[1..], member);
      assert s[..m + 1] == [s[0]] + s[1..][..m];
      1 + m
  }

  /** The maximal runs of class members in `s`, left to right. */
  function Runs(s: string, member: char -> bool): (rs: seq<string>)
    ensures forall i :: 0 <= i < |rs| ==> IsRun(rs[i], member)
    decreases |s|
  {
    if |s| == 0 then []
    else if !member(s[0]) then Runs(s[1..], member)
    else
      var n := RunLen(s, member);
      [s[..n]] + Runs(s[n..], member)
  }

  lemma {:induction false} RunLenAppend(w: string, x: string, member: char -> bool)
    requires AllIn(w, member)
    ensures RunLen(w + x, member) == |w| + RunLen(x, member)
    decreases |w|
  {
    if |w| == 0 {
      assert w + x == x;
    } else {
      assert (w + x)[1..] == w[1..] + x;
      RunLenAppend(w[1..], x, member);
    }
  }

  lemma {:induction false} RunLenPrefix(a: string, b: string, member: char -> bool)
    requires RunLen(a, member) < |a|
    ensures RunLen(a + b, member) == RunLen(a, member)
    decreases |a|
  {
    if member(a[0]) {
      assert (a + b)[1..] == a[1..] + b;
      RunLenPrefix(a[1..], b, member);
    }
  }

  /** A non-member byte in front adds no run. */
  lemma RunsSkip(c: char, x: string, member: char -> bool)
    requires !member(c)
    ensures Runs([c] + x, member) == Runs(x, member)
  {
    assert ([c] + x)[1..] == x;
  }

  /** A run followed by a non-member (or nothing) is a run of its own. */
  lemma RunsRun(w: string, x: string, member: char -> bool)
    requires IsRun(w, member)
    requires |x| == 0 || !member(x[0])
    ensures Runs(w + x, member) == [w] + Runs(x, member)
  {
    RunLenAppend(w, x, member);
    var s := w + x;
    assert s[..|w|] == w;
    assert s[|w|..] == x;
  }

  /** A run followed directly by more members merges with the first run of the rest. */
  lemma RunsMerge(w: string, x: string, member: char -> bool)
    requires IsRun(w, member)
    requires |x| > 0 && member(x[0])
    ensures |Runs(x, member)| > 0
    ensures Runs(w + x, member) == [w + Runs(x, member)[0]] + Runs(x, member)[1..]
  {
    RunLenAppend(w, x, member);
    var n := RunLen(x, member);
    var s := w + x;
    assert s[..|w| + n] == w + x[..n];
    assert s[|w| + n..] == x[n..];
  }

  /** Runs of a concatenation are the runs of the parts when a non-member
      (or an end) sits at the seam. */
  lemma {:induction false} RunsAppend(a: string, b: string, member: char -> bool)
    requires |a| == 0 || !member(a[|a| - 1]) || |b| == 0 || !member(b[0])
    ensures Runs(a + b, member) == Runs(a, member) + Runs(b, member)
    decreases |a|
  {
    if |a| == 0 {
      assert a + b == b;
    } else if !member(a[0]) {
      assert (a + b)[1..] == a[1..] + b;
      RunsAppend(a[1..], b, member);
    } else {
      var n := RunLen(a, member);
      if n < |a| {
        RunsFirstInner(a, b, member);
        RunsAppend(a[n..], b, member);
        AppendAssoc([a[..n]], Runs(a[n..], member), Runs(b, member));
      } else {
        assert a[..n] == a;
        RunsRun(a, b, member);
        RunsRun(a, "", member);
        assert a + "" == a;
      }
    }
  }

  /** A first run that ends inside `a` is the first run of `a + b` too. */
  lemma RunsFirstInner(a: string, b: string, member: char -> bool)
    requires |a| > 0 && member(a[0]) && RunLen(a, member) < |a|
    ensures var n := RunLen(a, member);
      && Runs(a, member) == [a[..n]] + Runs(a[n..], member)
      && Runs(a + b, member) == [a[..n]] + Runs(a[n..] + b, member)
  {
    var n := RunLen(a, member);
    RunLenPrefix(a, b, member);
    assert (a + b)[..n] == a[..n];
    assert (a + b)[n..] == a[n..] + b;
  }

  lemma AppendAssoc(x: seq<string>, y: seq<string>, z: seq<string>)
    ensures (x + y) + z == x + (y + z)
  {
  }


  /** A string without members has no runs. */
  lemma {:induction false} RunsNone(s: string, member: char -> bool)
    requires forall i :: 0 <= i < |s| ==> !member(s[i])
    ensures Runs(s, member) == []
    decreases |s|
  {
    if |s| > 0 {
      RunsNone(s[1..], member);
    }
  }

  /** A token as `str.split()` yields it: non-empty, no whitespace. */
  predicate IsToken(t: string) {
    IsRun(t, NotSpace)
  }

  predicate AllTokens(ts: seq<string>) {
    forall i :: 0 <= i < |ts| ==> IsToken(ts[i])
  }

  /** `s.split()`: the maximal whitespace-free runs of `s`. */
  function Split(s: string): (ts: seq<string>)
    ensures AllTokens(ts)
  {
    Runs(s, NotSpace)
  }

  /** `' '.join(ts)`. */
  function Join(ts: seq<string>): string
  {
    if |ts| == 0 then ""
    else if |ts| == 1 then ts[0]
    else ts[0] + " " + Join(ts[1..])
  }

  /** The string `''.join(' ' + t for t in ts)` that `stemWords` and the
      single-character filter build: every token preceded by one space. */
  function Prefixed(ts: seq<string>): string
  {
    if |ts| == 0 then "" else " " + ts[0] + Prefixed(ts[1..])
  }

  /** Splitting a space-joined token list gives the list back. */
  lemma {:induction false} SplitJoin(ts: seq<string>)
    requires AllTokens(ts)
    ensures Split(Join(ts)) == ts
    decreases |ts|
  {
    if |ts| == 1 {
      RunsRun(ts[0], "", NotSpace);
      assert ts[0] + "" == ts[0];
    } else if |ts| > 1 {
      var rest := Join(ts[1..]);
      assert ts[0] + " " + rest == ts[0] + ([' '] + rest);
      RunsRun(ts[0], [' '] + rest, NotSpace);
      RunsSkip(' ', rest, NotSpace);
      SplitJoin(ts[1..]);
    }
  }

  /** A space-joined token list has no whitespace at either end, and is empty
      only for the empty list. */
  lemma {:induction false} JoinEdges(ts: seq<string>)
    requires AllTokens(ts)
    ensures Join(ts) == "" <==> ts == []
    ensures |Join(ts)| > 0 ==> NotSpace(Join(ts)[0]) && NotSpace(Join(ts)[|Join(ts)| - 1])
    decreases |ts|
  {
    if |ts| > 1 {
      JoinEdges(ts[1..]);
      var r := Join(ts);
      assert r == ts[0] + (" " + Join(ts[1..]));
      assert r[0] == ts[0][0];
      assert r[|r| - 1] == Join(ts[1..])[|Join(ts[1..])| - 1];
    }
  }

  /** Splitting a string of space-prefixed tokens gives the tokens back. */
  lemma {:induction false} SplitPrefixed(ts: seq<string>)
    requires AllTokens(ts)
    ensures Split(Prefixed(ts)) == ts
    decreases |ts|
  {
    if |ts| > 0 {
      var rest := Prefixed(ts[1..]);
      assert Prefixed(ts) == [' '] + (ts[0] + rest);
      RunsSkip(' ', ts[0] + rest, NotSpace);
      assert |rest| == 0 || rest[0] == ' ';
      RunsRun(ts[0], rest, NotSpace);
      SplitPrefixed(ts[1..]);
    }
  }

  /** `str.strip()` never changes the tokens of a line. */
  lemma SplitStrip(s: string)
    ensures Split(Strip(s)) == Split(s)
  {
    var k := LeadLen(s);
    var r := Strip(s);
    var j := k + |r|;
    var lead := s[..k];
    var trail := s[j..];
    assert s[k..j] == r;
    assert s == lead + (r + trail) by {
      assert s == s[..k] + s[k..];
      assert s[k..] == s[k..j] + s[j..];
    }
    SpaceOnlyNoTokens(lead);
    SpaceOnlyNoTokens(trail);
    RunsAppend(lead, r + trail, NotSpace);
    RunsAppend(r, trail, NotSpace);
  }

  lemma SpaceOnlyNoTokens(s: string)
    requires AllSpace(s)
    ensures Runs(s, NotSpace) == []
  {
    RunsNone(s, NotSpace);
  }

  /** Tokens of a text followed by a space and more text are the tokens of
      the two parts. */
  lemma SplitSpaced(a: string, b: string)
    ensures Split(a + " " + b) == Split(a) + Split(b)
  {
    assert a + " " + b == a + ([' '] + b);
    RunsAppend(a, [' '] + b, NotSpace);
    RunsSkip(' ', b, NotSpace);
  }

  /** Appending a stripped line and one space to a text that is empty or
      ends in a space adds exactly the line's tokens. */
  lemma SplitTerminated(text: string, line: string)
    requires |text| == 0 || text[|text| - 1] == ' '
    ensures Split(text + Strip(line) + " ") == Split(text) + Split(line)
  {
    var t := Strip(line);
    assert text + t + " " == text + (t + " ");
    RunsAppend(text, t + " ", NotSpace);
    SplitSpaceAfter(t);
    SplitStrip(line);
  }

  /** A trailing space adds no token. */
  lemma SplitSpaceAfter(t: string)
    ensures Split(t + " ") == Split(t)
  {
    RunsAppend(t, " ", NotSpace);
    RunsNone(" ", NotSpace);
    assert Split(t) + [] == Split(t);
  }
}

/** The h-index helper `hindex` (PACMan.py:377-380): the number of an
    author's papers that have at least as many citations as that number.
    The function as written walks the citation counts in descending order and
    stops one place too late; `HIndex` is the intended computation. */
module HIndex {
  import opened Results

  /** Descending order: every earlier count is at least every later one. */
  predicate SortedDesc(s: seq<int>) {
    forall i, j :: 0 <= i < j < |s| ==> s[i] >= s[j]
  }

  /** Inserts `x` before the first element it is not below. */
  function InsertDesc(x: int, s: seq<int>): (r: seq<int>)
    requires SortedDesc(s)
    ensures SortedDesc(r)
    ensures multiset(r) == multiset(s) + multiset{x}
    decreases |s|
  {
    if |s| == 0 then [x]
    else if x >= s[0] then [x] + s
    else
      var rest := InsertDesc(x, s[1..]);
      assert s == [s[0]] + s[1..];
      HeadAboveInserted(x, s, rest);
      [s[0]] + rest
  }

  /** The head of a descending list is at least every element of its tail
      with a smaller `x` added. */
  lemma HeadAboveInserted(x: int, s: seq<int>, rest: seq<int>)
    requires SortedDesc(s) && |s| > 0 && x < s[0]
    requires multiset(rest) == multiset(s[1..]) + multiset{x}
    ensures forall j :: 0 <= j < |rest| ==> s[0] >= rest[j]
  {
    forall j | 0 <= j < |rest| ensures s[0] >= rest[j] {
      assert rest[j] in multiset(rest);
      if rest[j] != x {
        assert rest[j] in multiset(s[1..]);
        var k :| 0 <= k < |s[1..]| && s[1..][k] == rest[j];
        assert s[k + 1] == rest[j];
      }
    }
  }

  /** `sorted(list, reverse=True)`. */
  function SortDesc(s: seq<int>): (r: seq<int>)
    ensures SortedDesc(r)
    ensures multiset(r) == multiset(s)
    ensures |r| == |s|
    decreases |s|
  {
    if |s| == 0 then []
    else
      assert s == [s[0]] + s[1..];
      var r := InsertDesc(s[0], SortDesc(s[1..]));
      assert |r| == |multiset(r)|;
      r
  }

  /** `hindex([])` never binds its loop variable and raises. */
  datatype HIndexError = EmptyList

  /** The loop of `hindex` from position `i`: the first position whose
      index exceeds its count, or the last position when there is none. */
  function BreakIndex(s: seq<int>, i: nat): (b: nat)
    requires i < |s|
    ensures i <= b < |s|
    ensures forall k :: i <= k < b ==> k <= s[k]
    ensures b > s[b] || b == |s| - 1
    decreases |s| - i
  {
    if i > s[i] || i == |s| - 1 then i else BreakIndex(s, i + 1)
  }

  /** `hindex` as written: one more than the position the loop stops at. */
  function HIndexAsWritten(cites: seq<int>): (r: Result<nat, HIndexError>)
    ensures r.Err? <==> |cites| == 0
    ensures r.Ok? ==> 1 <= r.value <= |cites|
  {
    if |cites| == 0 then Err(EmptyList)
    else Ok(BreakIndex(SortDesc(cites), 0) + 1)
  }

  /** How many papers have at least `h` citations. */
  function CountAtLeast(cites: seq<int>, h: int): (c: nat)
    ensures c <= |cites|
    decreases |cites|
  {
    if |cites| == 0 then 0
    else
      var n := |cites| - 1;
      CountAtLeast(cites[..n], h) + (if cites[n] >= h then 1 else 0)
  }

  /** `h` is the h-index: `h` papers have at least `h` citations, and for
      no larger number is that so. */
  ghost predicate IsHIndex(cites: seq<int>, h: nat) {
    CountAtLeast(cites, h) >= h && forall g: nat :: h < g ==> CountAtLeast(cites, g) < g
  }

  /** The h-index is well defined. */
  lemma HIndexUnique(cites: seq<int>, h1: nat, h2: nat)
    requires IsHIndex(cites, h1) && IsHIndex(cites, h2)
    ensures h1 == h2
  {
  }

  /** The intended h-index, found by lowering a candidate from the number
      of papers until enough papers reach it. An empty list has h-index 0. */
  method HIndex(cites: seq<int>) returns (h: nat)
    ensures h <= |cites|
    ensures IsHIndex(cites, h)
  {
    h := |cites|;
    while CountAtLeast(cites, h) < h
      invariant h <= |cites|
      invariant forall g: nat :: h < g ==> CountAtLeast(cites, g) < g
      decreases h
    {
      h := h - 1;
    }
  }

  /** Three papers cited once each: the h-index is 1, but `hindex` never
      stops early (no position exceeds its count before the last) and
      returns 3, a value that fails the definition. */
  lemma HIndexAsWrittenOvercounts()
    ensures HIndexAsWritten([1, 1, 1]) == Ok(3)
    ensures IsHIndex([1, 1, 1], 1)
    ensures !IsHIndex([1, 1, 1], 3)
  {
    OnesSorted();
    OnesCounted();
    var c := [1, 1, 1];
    assert BreakIndex(c, 0) == 2;
  }

  lemma OnesSorted()
    ensures SortDesc([1, 1, 1]) == [1, 1, 1]
  {
    var c := [1, 1, 1];
    assert c[1..] == [1, 1];
    assert c[1..][1..] == [1];
    assert SortDesc([1]) == [1];
    assert SortDesc([1, 1]) == [1, 1];
  }

  lemma OnesCounted()
    ensures CountAtLeast([1, 1, 1], 1) == 3
    ensures forall g: nat :: 1 < g ==> CountAtLeast([1, 1, 1], g) == 0
  {
    var c := [1, 1, 1];
    assert c[..2] == [1, 1];
    assert c[..2][..1] == [1];
    assert c[..2][..1][..0] == [];
  }

  /** Counting over two lists read one after the other. */
  lemma {:induction false} CountAppend(a: seq<int>, b: seq<int>, v: int)
    ensures CountAtLeast(a + b, v) == CountAtLeast(a, v) + CountAtLeast(b, v)
    decreases |b|
  {
    if |b| == 0 {
      assert a + b == a;
    } else {
      var n := |b| - 1;
      CountAppend(a, b[..n], v);
      assert (a + b)[..|a + b| - 1] == a + b[..n];
    }
  }

  /** Taking one element out of a list lowers the count by that element's share. */
  lemma CountRemove(b: seq<int>, k: nat, v: int)
    requires k < |b|
    ensures CountAtLeast(b, v) ==
      CountAtLeast(b[..k] + b[k + 1..], v) + (if b[k] >= v then 1 else 0)
  {
    assert b == b[..k] + ([b[k]] + b[k + 1..]);
    CountAppend(b[..k], [b[k]] + b[k + 1..], v);
    CountAppend([b[k]], b[k + 1..], v);
    CountAppend(b[..k], b[k + 1..], v);
    assert [b[k]][..0] == [];
  }

  /** The count depends only on the counts, not on their order. */
  lemma {:induction false} CountPermutation(a: seq<int>, b: seq<int>, v: int)
    requires multiset(a) == multiset(b)
    ensures CountAtLeast(a, v) == CountAtLeast(b, v)
    decreases |a|
  {
    if |a| > 0 {
      var n := |a| - 1;
      var x := a[n];
      assert x in multiset(b) by {
        assert a == a[..n] + [x];
        assert x in multiset(a);
      }
      var k :| 0 <= k < |b| && b[k] == x;
      var rest := b[..k] + b[k + 1..];
      assert b == b[..k] + [x] + b[k + 1..];
      assert multiset(rest) == multiset(b) - multiset{x};
      assert a == a[..n] + [x];
      assert multiset(a[..n]) == multiset(a) - multiset{x};
      CountPermutation(a[..n], rest, v);
      CountRemove(b, k, v);
    }
  }

  /** When every count from position `m` on is below `v`, at most `m`
      papers reach `v`. */
  lemma {:induction false} CountBelowFrom(s: seq<int>, m: nat, v: int)
    requires forall i :: m <= i < |s| ==> s[i] < v
    ensures CountAtLeast(s, v) <= m
    decreases |s|
  {
    if |s| > m {
      var n := |s| - 1;
      CountBelowFrom(s[..n], m, v);
    }
  }

  /** `hindex` as written never undercounts: for every non-empty list its
      answer is at least the h-index, so its errors are all overcounts. */
  lemma HIndexAsWrittenAtLeast(cites: seq<int>, h: nat)
    requires |cites| > 0 && IsHIndex(cites, h)
    ensures HIndexAsWritten(cites).Ok? && h <= HIndexAsWritten(cites).value
  {
    var s := SortDesc(cites);
    var b := BreakIndex(s, 0);
    CountPermutation(cites, s, h);
    if b + 1 < h {
      assert b > s[b];
      forall i | b <= i < |s| ensures s[i] < h {
        if i > b {
          assert s[b] >= s[i];
        }
      }
      CountBelowFrom(s, b, h);
    }
  }
}

/** Python 2's ordering of byte strings and `list.sort()` on a list of them. */
module Order {

  /** `a <= b` for byte strings: compare byte by byte; a proper prefix is smaller. */
  predicate LessEq(a: string, b: string)
    decreases |a|
  {
    |a| == 0 || (|b| > 0 && (a[0] < b[0] || (a[0] == b[0] && LessEq(a[1..], b[1..]))))
  }

  lemma {:induction false} LessEqRefl(a: string)
    ensures LessEq(a, a)
    decreases |a|
  {
    if |a| > 0 {
      LessEqRefl(a[1..]);
    }
  }

  lemma {:induction false} LessEqTotal(a: string, b: string)
    ensures LessEq(a, b) || LessEq(b, a)
    decreases |a|
  {
    if |a| > 0 && |b| > 0 && a[0] == b[0] {
      LessEqTotal(a[1..], b[1..]);
    }
  }

  lemma {:induction false} LessEqTrans(a: string, b: string, c: string)
    requires LessEq(a, b) && LessEq(b, c)
    ensures LessEq(a, c)
    decreases |a|
  {
    if |a| > 0 && a[0] == b[0] && b[0] == c[0] {
      LessEqTrans(a[1..], b[1..], c[1..]);
    }
  }

  lemma {:induction false} LessEqAntisym(a: string, b: string)
    requires LessEq(a, b) && LessEq(b, a)
    ensures a == b
    decreases |a|
  {
    if |a| > 0 {
      LessEqAntisym(a[1..], b[1..]);
      assert a == [a[0]] + a[1..];
      assert b == [b[0]] + b[1..];
    }
  }

  /** Ascending order: every earlier element is at most every later one. */
  predicate Sorted(ts: seq<string>) {
    forall i, j :: 0 <= i < j < |ts| ==> LessEq(ts[i], ts[j])
  }

  /** Inserts `x` before the first element it does not exceed. */
  function Insert(x: string, ts: seq<string>): (r: seq<string>)
    requires Sorted(ts)
    ensures Sorted(r)
    ensures multiset(r) == multiset(ts) + multiset{x}
    decreases |ts|
  {
    if |ts| == 0 then [x]
    else if LessEq(x, ts[0]) then
      BelowSorted(x, ts);
      ConsSorted(x, ts);
      [x] + ts
    else
      var rest := Insert(x, ts[1..]);
      assert ts == [ts[0]] + ts[1..];
      LessEqTotal(x, ts[0]);
      HeadBelowInserted(x, ts, rest);
      ConsSorted(ts[0], rest);
      [ts[0]] + rest
  }

  /** A sorted list stays sorted under a new head that is at most all of it. */
  lemma ConsSorted(h: string, ts: seq<string>)
    requires Sorted(ts)
    requires forall j :: 0 <= j < |ts| ==> LessEq(h, ts[j])
    ensures Sorted([h] + ts)
  {
    var r := [h] + ts;
    forall i, j | 0 <= i < j < |r| ensures LessEq(r[i], r[j]) {
      assert r[j] == ts[j - 1];
      if i > 0 {
        assert r[i] == ts[i - 1];
      }
    }
  }

  /** Whatever is at most the head of a sorted list is at most all of it. */
  lemma BelowSorted(x: string, ts: seq<string>)
    requires Sorted(ts) && |ts| > 0 && LessEq(x, ts[0])
    ensures forall j :: 0 <= j < |ts| ==> LessEq(x, ts[j])
  {
    forall j | 0 <= j < |ts| ensures LessEq(x, ts[j]) {
      if j > 0 { LessEqTrans(x, ts[0], ts[j]); }
    }
  }

  /** The head of a sorted list is at most every element of its tail with
      a larger `x` added. */
  lemma HeadBelowInserted(x: string, ts: seq<string>, rest: seq<string>)
    requires Sorted(ts) && |ts| > 0 && LessEq(ts[0], x)
    requires multiset(rest) == multiset(ts[1..]) + multiset{x}
    ensures forall j :: 0 <= j < |rest| ==> LessEq(ts[0], rest[j])
  {
    forall j | 0 <= j < |rest| ensures LessEq(ts[0], rest[j]) {
      assert rest[j] in multiset(rest);
      if rest[j] != x {
        assert rest[j] in multiset(ts[1..]);
        var k :| 0 <= k < |ts[1..]| && ts[1..][k] == rest[j];
        assert ts[k + 1] == rest[j];
      }
    }
  }

  /** `list.sort()`: insertion sort into ascending order. */
  function Sort(ts: seq<string>): (r: seq<string>)
    ensures Sorted(r)
    ensures multiset(r) == multiset(ts)
    ensures |r| == |ts|
    decreases |ts|
  {
    if |ts| == 0 then []
    else
      assert ts == [ts[0]] + ts[1..];
      var r := Insert(ts[0], Sort(ts[1..]));
      assert |r| == |multiset(r)|;
      r
  }

  /** Sorting a list that is already in order leaves it unchanged. */
  lemma {:induction false} SortSorted(ts: seq<string>)
    requires Sorted(ts)
    ensures Sort(ts) == ts
    decreases |ts|
  {
    if |ts| > 0 {
      SortSorted(ts[1..]);
      assert ts == [ts[0]] + ts[1..];
      if |ts| > 1 {
        assert LessEq(ts[0], ts[1]);
      }
    }
  }

  /** There is only one sorted arrangement of a multiset of strings, so the
      result of `list.sort()` does not depend on the order it was given. */
  lemma {:induction false} SortedUnique(a: seq<string>, b: seq<string>)
    requires Sorted(a) && Sorted(b) && multiset(a) == multiset(b)
    ensures a == b
    decreases |a|
  {
    if |a| > 0 {
      assert |b| == |multiset(b)| == |multiset(a)| == |a|;
      assert a[0] in multiset(b);
      assert b[0] in multiset(a);
      var i :| 0 <= i < |b| && b[i] == a[0];
      var j :| 0 <= j < |a| && a[j] == b[0];
      assert LessEq(b[0], a[0]) by { if i > 0 { assert LessEq(b[0], b[i]); } else { LessEqRefl(a[0]); } }
      assert LessEq(a[0], b[0]) by { if j > 0 { assert LessEq(a[0], a[j]); } else { LessEqRefl(a[0]); } }
      LessEqAntisym(a[0], b[0]);
      assert a == [a[0]] + a[1..];
      assert b == [b[0]] + b[1..];
      assert multiset(a[1..]) == multiset(a) - multiset{a[0]};
      assert multiset(b[1..]) == multiset(b) - multiset{b[0]};
      SortedUnique(a[1..], b[1..]);
    }
  }
}

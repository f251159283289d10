/** Result calibration: `normalize_result` (PACMan.py:319-326) and
    `return_most_probable` (PACMan.py:328-338). A classification result is a
    list of (category, score) pairs; scores are modelled as exact reals. */
module Calibration {
  import opened Results

  type Scored = (string, real)

  /** The coverage `return_most_probable` stops at. */
  const Coverage: real := 0.6

  /** Sum of the scores, accumulated left to right as the Python loop does. */
  function Total(rs: seq<Scored>): real
    decreases |rs|
  {
    if |rs| == 0 then 0.0 else Total(rs[..|rs| - 1]) + rs[|rs| - 1].1
  }

  /** Dividing by a zero total raises `ZeroDivisionError`. */
  datatype CalibrationError = ZeroTotal

  /** `normalize_result`: same categories in the same order, each score
      divided by the total. An empty list comes back empty without dividing;
      a non-empty list whose scores sum to zero fails. */
  function NormalizeResult(rs: seq<Scored>): (r: Result<seq<Scored>, CalibrationError>)
    ensures r.Ok? <==> |rs| == 0 || Total(rs) != 0.0
    ensures r.Ok? ==> |r.value| == |rs|
    ensures r.Ok? ==> forall i :: 0 <= i < |rs| ==> r.value[i].0 == rs[i].0
    ensures r.Ok? ==> forall i :: 0 <= i < |rs| ==> r.value[i].1 == rs[i].1 / Total(rs)
  {
    var tot := Total(rs);
    if |rs| == 0 then Ok([])
    else if tot == 0.0 then Err(ZeroTotal)
    else Ok(Scale(rs, tot))
  }

  /** Every score divided by `d`. */
  function Scale(rs: seq<Scored>, d: real): (r: seq<Scored>)
    requires d != 0.0
    ensures |r| == |rs|
    ensures forall i :: 0 <= i < |rs| ==> r[i].0 == rs[i].0 && r[i].1 == rs[i].1 / d
  {
    seq(|rs|, i requires 0 <= i < |rs| => (rs[i].0, rs[i].1 / d))
  }

  lemma {:induction false} TotalScale(rs: seq<Scored>, d: real)
    requires d != 0.0
    ensures Total(Scale(rs, d)) == Total(rs) / d
    decreases |rs|
  {
    if |rs| > 0 {
      var n := |rs| - 1;
      assert Scale(rs, d)[..n] == Scale(rs[..n], d);
      TotalScale(rs[..n], d);
    }
  }

  lemma DivMul(a: real, t: real)
    requires t != 0.0
    ensures a / t * t == a
  {
  }

  lemma DivSelf(t: real)
    requires t != 0.0
    ensures t / t == 1.0
  {
  }

  /** Dividing by a positive number keeps the order, both ways. */
  lemma DivMonotone(a: real, b: real, t: real)
    requires t > 0.0
    ensures a <= b <==> a / t <= b / t
  {
    DivMul(a, t);
    DivMul(b, t);
    var x, y := a / t, b / t;
    assert a == x * t && b == y * t;
    assert x <= y ==> x * t <= y * t;
    assert x > y ==> x * t > y * t;
  }

  /** A normalised non-empty result sums to exactly one. */
  lemma NormalizeSumsToOne(rs: seq<Scored>)
    requires |rs| > 0 && Total(rs) != 0.0
    ensures NormalizeResult(rs).Ok?
    ensures Total(NormalizeResult(rs).value) == 1.0
  {
    var tot := Total(rs);
    var out := NormalizeResult(rs).value;
    assert out == Scale(rs, tot);
    TotalScale(rs, tot);
    assert Total(out) == tot / tot;
    DivSelf(tot);
  }

  /** With a positive total, normalising keeps the ranking of the scores and,
      for non-negative scores, lands every score in [0, 1]. */
  lemma NormalizeKeepsRanking(rs: seq<Scored>, i: nat, j: nat)
    requires i < |rs| && j < |rs| && Total(rs) > 0.0
    ensures NormalizeResult(rs).Ok?
    ensures rs[i].1 <= rs[j].1 <==> NormalizeResult(rs).value[i].1 <= NormalizeResult(rs).value[j].1
  {
    var tot := Total(rs);
    var out := NormalizeResult(rs).value;
    assert out[i].1 == rs[i].1 / tot;
    assert out[j].1 == rs[j].1 / tot;
    DivMonotone(rs[i].1, rs[j].1, tot);
  }

  /** Non-negative scores with a positive total normalise into [0, 1]. */
  lemma NormalizeInUnitRange(rs: seq<Scored>, i: nat)
    requires i < |rs| && Total(rs) > 0.0
    requires forall k :: 0 <= k < |rs| ==> rs[k].1 >= 0.0
    ensures NormalizeResult(rs).Ok?
    ensures 0.0 <= NormalizeResult(rs).value[i].1 <= 1.0
  {
    var tot := Total(rs);
    TotalBounds(rs, i);
    assert NormalizeResult(rs).value[i].1 == rs[i].1 / tot;
    DivUnit(rs[i].1, tot);
  }

  lemma DivUnit(a: real, t: real)
    requires 0.0 <= a <= t && t > 0.0
    ensures 0.0 <= a / t <= 1.0
  {
    DivMonotone(a, t, t);
    DivMonotone(0.0, a, t);
    assert t / t == 1.0;
  }

  /** With non-negative scores, each score is at most the total. */
  lemma {:induction false} TotalBounds(rs: seq<Scored>, i: nat)
    requires i < |rs|
    requires forall k :: 0 <= k < |rs| ==> rs[k].1 >= 0.0
    ensures rs[i].1 <= Total(rs)
    decreases |rs|
  {
    var n := |rs| - 1;
    TotalNonNegative(rs[..n]);
    if i < n {
      TotalBounds(rs[..n], i);
    }
  }

  lemma {:induction false} TotalNonNegative(rs: seq<Scored>)
    requires forall k :: 0 <= k < |rs| ==> rs[k].1 >= 0.0
    ensures Total(rs) >= 0.0
    decreases |rs|
  {
    if |rs| > 0 {
      TotalNonNegative(rs[..|rs| - 1]);
    }
  }

  /** The number of entries `return_most_probable` keeps for `n` categories:
      at most `n - 1` (none when `n <= 1`), and the first count at which the
      kept scores reach the coverage, if one comes earlier. */
  ghost predicate IsCutoff(result: seq<Scored>, n: nat, k: nat) {
    var cap := if n >= 1 then n - 1 else 0;
    && k <= cap && k <= |result|
    && (k == cap || Total(result[..k]) >= Coverage)
    && forall j :: 0 <= j < k ==> Total(result[..j]) < Coverage
  }

  /** The cut-off is determined by the scores and the category count. */
  lemma CutoffUnique(result: seq<Scored>, n: nat, k1: nat, k2: nat)
    requires IsCutoff(result, n, k1) && IsCutoff(result, n, k2)
    ensures k1 == k2
  {
  }

  /** `return_most_probable(result, categories)` with `n` categories: the
      prefix of the list as given (it is not sorted here) up to the cut-off.
      The loop indexes `result[cnt]` until the cap or the coverage stops it,
      so the caller must pass at least `n - 1` entries or a list some prefix
      of which reaches the coverage; the source drops into the debugger
      otherwise. */
  method ReturnMostProbable(result: seq<Scored>, n: nat) returns (top: seq<Scored>)
    requires n <= |result| + 1 || exists k :: 0 <= k <= |result| && Total(result[..k]) >= Coverage
    ensures |top| <= |result| && top == result[..|top|]
    ensures IsCutoff(result, n, |top|)
    ensures n >= 2 ==> |top| >= 1
    ensures n <= 1 ==> top == []
  {
    var tprob := 0.0;
    var cnt := 0;
    while tprob < Coverage && cnt <= n - 2
      invariant cnt <= |result|
      invariant n >= 1 ==> cnt <= n - 1
      invariant n <= 1 ==> cnt == 0
      invariant tprob == Total(result[..cnt])
      invariant forall j :: 0 <= j < cnt ==> Total(result[..j]) < Coverage
      invariant cnt == |result| ==> tprob >= Coverage || cnt > n - 2
      decreases n - cnt
    {
      assert result[..cnt + 1][..cnt] == result[..cnt];
      tprob := tprob + result[cnt].1;
      cnt := cnt + 1;
    }
    top := result[..cnt];
  }

  /** Scores 0.5, 0.3, 0.2 over three categories: the first two are kept
      (0.8 reaches the coverage). */
  lemma CoverageExampleFirstTwo(k: nat)
    requires IsCutoff([("A", 0.5), ("B", 0.3), ("C", 0.2)], 3, k)
    ensures k == 2
  {
    var r: seq<Scored> := [("A", 0.5), ("B", 0.3), ("C", 0.2)];
    assert r[..0] == [];
    assert r[..1][..0] == r[..0];
    assert Total(r[..1]) == 0.5;
    assert r[..2][..1] == r[..1];
    assert Total(r[..2]) == 0.8;
    assert IsCutoff(r, 3, 2);
    CutoffUnique(r, 3, k, 2);
  }

  /** One score 0.9 over five categories: the list is shorter than `n - 1`,
      but its first entry already reaches the coverage, so it is kept. */
  lemma CoverageExampleShortList(k: nat)
    requires IsCutoff([("A", 0.9)], 5, k)
    ensures k == 1
  {
    var r: seq<Scored> := [("A", 0.9)];
    assert r[..0] == [];
    assert r[..1] == r;
    assert Total(r[..1]) == 0.9;
    assert IsCutoff(r, 5, 1);
    CutoffUnique(r, 5, k, 1);
  }

  /** Scores 0.34, 0.33, 0.33 over three categories: two are kept. The loop
      never takes more than `n - 1` entries, and 0.67 already reaches the
      coverage. */
  lemma CoverageExampleNearlyEven(k: nat)
    requires IsCutoff([("A", 0.34), ("B", 0.33), ("C", 0.33)], 3, k)
    ensures k == 2
  {
    var r: seq<Scored> := [("A", 0.34), ("B", 0.33), ("C", 0.33)];
    assert r[..0] == [];
    assert r[..1][..0] == r[..0];
    assert Total(r[..1]) == 0.34;
    assert r[..2][..1] == r[..1];
    assert Total(r[..2]) == 0.67;
    assert IsCutoff(r, 3, 2);
    CutoffUnique(r, 3, k, 2);
  }
}

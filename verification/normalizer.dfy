/** The token pipeline of `work_string` (PACMan.py:348-373) and the helpers
    it calls: `filterStopwords` (PACMan.py:225-240), `stemWords`
    (PACMan.py:205-211), the fixed stem-level stop list `add_stops`
    (PACMan.py:221-223) and the words `load_stopwords` adds to the stop-word
    file (PACMan.py:213-219).

    The Porter2 stemmer is a library call whose code is not part of this
    model; it is a parameter `stem`. Where a property depends on the
    stemmer returning a single non-empty, whitespace-free word, the lemma
    says so with `requires StemWellFormed(stem)`: that is an assumption
    about the library, not something proved here. */
module Normalizer {
  import opened Chars
  import opened Strings
  import opened Tokens
  import opened Order
  import opened Cleanup

  /** `add_stops`: the second, stem-level stop list ("target" is listed twice,
      as in the source). */
  const AddStops: seq<string> :=
    ["imag", "observ", "use", "measur", "format", "studi", "coi", "sourc", "target",
     "propos", "orbit", "target", "result", "object", "provid", "fig"]

  /** The words `load_stopwords` appends to the words of the stop-word file. */
  const ExtraStopwords: seq<string> :=
    ["understand", "trend", "measure", "sample", "use", "test", "perform", "format",
     "abstract", "scientific", "justification", "proposal", "figure", "program",
     "observe", "image", "data", "model", "time", "orbit", "source", "target",
     "apj", "hst", "nasa", "aj", "mnras"]

  /** `load_stopwords` given the text of the stop-word file: the file's
      whitespace-separated words, then the fixed extra words. */
  function PrimaryStopwords(fileText: string): (stop: seq<string>)
    ensures |stop| == |Split(fileText)| + |ExtraStopwords|
    ensures stop[..|Split(fileText)|] == Split(fileText)
    ensures forall w :: w in ExtraStopwords ==> w in stop
    ensures forall w :: w in stop <==> w in Split(fileText) || w in ExtraStopwords
  {
    Split(fileText) + ExtraStopwords
  }

  /** The list `filterStopwords` builds before sorting: each token lowered,
      dropped when its lowered form is in the stop list. */
  function Marked(ts: seq<string>, stop: seq<string>): (r: seq<string>)
    ensures AllTokens(ts) ==> AllTokens(r)
    ensures forall i :: 0 <= i < |r| ==> r[i] !in stop && LowerStr(r[i]) == r[i]
    ensures forall u :: u in r <==> Survives(u, ts, stop)
    decreases |ts|
  {
    if |ts| == 0 then []
    else
      var rest := Marked(ts[1..], stop);
      var u := LowerStr(ts[0]);
      LowerStrIdempotent(ts[0]);
      assert ts == [ts[0]] + ts[1..];
      assert forall v :: Survives(v, ts, stop) <==> (v == u && u !in stop) || Survives(v, ts[1..], stop) by {
        forall v ensures Survives(v, ts, stop) <==> (v == u && u !in stop) || Survives(v, ts[1..], stop) {
          if Survives(v, ts, stop) {
            var t :| t in ts && LowerStr(t) == v;
            if t != ts[0] { assert t in ts[1..]; }
          }
          if Survives(v, ts[1..], stop) {
            var t :| t in ts[1..] && LowerStr(t) == v;
            assert t in ts;
          }
        }
      }
      (if u in stop then [] else [u]) + rest
  }

  /** One token is lowered and kept, or dropped when it is a stop word. */
  lemma MarkedOne(t: string, stop: seq<string>)
    ensures Marked([t], stop) == if LowerStr(t) in stop then [] else [LowerStr(t)]
  {
    assert [t][1..] == [];
  }

  /** `Marked` works token by token: the kept words of a concatenation are
      the kept words of each part, in order, duplicates included. */
  lemma {:induction false} MarkedAppend(a: seq<string>, b: seq<string>, stop: seq<string>)
    ensures Marked(a + b, stop) == Marked(a, stop) + Marked(b, stop)
    decreases |a|
  {
    if |a| == 0 {
      assert a + b == b;
    } else {
      assert (a + b)[0] == a[0];
      assert (a + b)[1..] == a[1..] + b;
      MarkedAppend(a[1..], b, stop);
    }
  }

  /** `u` is the lowered form of some token of `ts` and not a stop word. */
  ghost predicate Survives(u: string, ts: seq<string>, stop: seq<string>) {
    u !in stop && exists t :: t in ts && LowerStr(t) == u
  }

  /** `filterStopwords(s, stop)`: the single-space-joined, ascending list of
      the lowered tokens of `s` whose lowered form is not a stop word,
      duplicates kept. */
  function FilterStopwords(s: string, stop: seq<string>): (r: string)
    ensures Sorted(Split(r))
    ensures r == Join(Split(r))
    ensures multiset(Split(r)) == multiset(Marked(Split(s), stop))
    ensures forall u :: u in Split(r) <==> Survives(u, Split(s), stop)
    ensures forall i :: 0 <= i < |Split(r)| ==> Split(r)[i] !in stop
  {
    var m := Marked(Split(s), stop);
    var ts := Sort(m);
    SortKeepsTokens(m);
    SplitJoin(ts);
    assert forall u :: u in ts <==> u in m by {
      forall u ensures u in ts <==> u in m {
        assert u in ts <==> u in multiset(ts);
        assert u in m <==> u in multiset(m);
      }
    }
    forall i | 0 <= i < |ts| ensures ts[i] !in stop {
      assert ts[i] in m;
      var j :| 0 <= j < |m| && m[j] == ts[i];
    }
    Join(ts)
  }

  /** The exact token list of `filterStopwords`: the output splits back into
      the sorted marked list. */
  lemma FilterStopwordsTokens(s: string, stop: seq<string>)
    ensures Split(FilterStopwords(s, stop)) == Sort(Marked(Split(s), stop))
  {
    SortKeepsTokens(Marked(Split(s), stop));
    SplitJoin(Sort(Marked(Split(s), stop)));
  }

  lemma SortKeepsTokens(ts: seq<string>)
    requires AllTokens(ts)
    ensures AllTokens(Sort(ts))
  {
    var r := Sort(ts);
    forall i | 0 <= i < |r| ensures IsToken(r[i]) {
      assert r[i] in multiset(ts);
      var j :| 0 <= j < |ts| && ts[j] == r[i];
    }
  }

  /** Running `filterStopwords` a second time with the same list changes nothing. */
  lemma FilterStopwordsIdempotent(s: string, stop: seq<string>)
    ensures FilterStopwords(FilterStopwords(s, stop), stop) == FilterStopwords(s, stop)
  {
    var once := FilterStopwords(s, stop);
    var ts := Split(once);
    var m := Marked(Split(s), stop);
    FilterStopwordsTokens(s, stop);
    assert ts == Sort(m);
    forall i | 0 <= i < |ts| ensures ts[i] !in stop && LowerStr(ts[i]) == ts[i] {
      assert ts[i] in multiset(m);
      var j :| 0 <= j < |m| && m[j] == ts[i];
    }
    MarkedFixed(ts, stop);
    SortSorted(ts);
    assert FilterStopwords(once, stop) == Join(Sort(Marked(ts, stop)));
  }

  /** Tokens that are already lowered and not stop words pass `Marked` unchanged. */
  lemma {:induction false} MarkedFixed(ts: seq<string>, stop: seq<string>)
    requires forall i :: 0 <= i < |ts| ==> ts[i] !in stop && LowerStr(ts[i]) == ts[i]
    ensures Marked(ts, stop) == ts
    decreases |ts|
  {
    if |ts| > 0 {
      MarkedFixed(ts[1..], stop);
      assert ts == [ts[0]] + ts[1..];
    }
  }

  /** `a` is `b` with some elements left out, order kept. */
  predicate IsSubsequence(a: seq<string>, b: seq<string>)
    decreases |b|
  {
    if |a| == 0 then true
    else if |b| == 0 then false
    else (a[0] == b[0] && IsSubsequence(a[1..], b[1..])) || IsSubsequence(a, b[1..])
  }

  /** The single-character filter (PACMan.py:362-367): the tokens longer
      than one byte. */
  function LongTokens(ts: seq<string>): (r: seq<string>)
    ensures forall i :: 0 <= i < |r| ==> |r[i]| > 1
    ensures AllTokens(ts) ==> AllTokens(r)
    decreases |ts|
  {
    if |ts| == 0 then []
    else if |ts[0]| > 1 then [ts[0]] + LongTokens(ts[1..])
    else LongTokens(ts[1..])
  }

  /** The filter keeps exactly the tokens longer than one byte, each as
      often as it occurs, and nothing else. */
  lemma {:induction false} LongTokensCounts(ts: seq<string>)
    ensures forall t :: multiset(LongTokens(ts))[t] == if |t| > 1 then multiset(ts)[t] else 0
    decreases |ts|
  {
    if |ts| > 0 {
      LongTokensCounts(ts[1..]);
      assert ts == [ts[0]] + ts[1..];
    }
  }

  /** The filter keeps the original order. */
  lemma {:induction false} LongTokensInOrder(ts: seq<string>)
    ensures IsSubsequence(LongTokens(ts), ts)
    decreases |ts|
  {
    if |ts| > 0 {
      LongTokensInOrder(ts[1..]);
      var rest := LongTokens(ts[1..]);
      if |ts[0]| > 1 {
        assert ([ts[0]] + rest)[1..] == rest;
      } else if |rest| > 0 {
        assert IsSubsequence(rest, ts[1..]);
      }
    }
  }

  /** PACMan.py:362-367: a space before each token longer than one byte. */
  function DropSingleChars(s: string): (r: string)
    ensures Split(r) == LongTokens(Split(s))
  {
    SplitPrefixed(LongTokens(Split(s)));
    Prefixed(LongTokens(Split(s)))
  }

  /** The library stemmer's assumed contract: one non-empty word without whitespace. */
  ghost predicate StemWellFormed(stem: string -> string) {
    forall w :: IsToken(stem(w))
  }

  function StemAll(ts: seq<string>, stem: string -> string): (r: seq<string>)
    ensures |r| == |ts|
    ensures forall i :: 0 <= i < |ts| ==> r[i] == stem(ts[i])
  {
    seq(|ts|, i requires 0 <= i < |ts| => stem(ts[i]))
  }

  /** `stemWords`: every token stemmed, each preceded by a space. */
  function StemWords(s: string, stem: string -> string): (r: string)
    ensures StemWellFormed(stem) ==> Split(r) == StemAll(Split(s), stem)
  {
    StemsSplit(Split(s), stem);
    Prefixed(StemAll(Split(s), stem))
  }

  /** With a well-formed stemmer, the `' ' + stem` accumulation splits back
      into the stems, one for one and in order. */
  lemma StemsSplit(ts: seq<string>, stem: string -> string)
    ensures StemWellFormed(stem) ==> Split(Prefixed(StemAll(ts, stem))) == StemAll(ts, stem)
  {
    if StemWellFormed(stem) {
      SplitPrefixed(StemAll(ts, stem));
    }
  }

  /** `work_string(s, stop)`: cleanup, stop words, single characters, stems,
      stem-level stop words. Whatever the stemmer returns, the result is a
      single-space-joined ascending token list with no `add_stops` word. */
  function WorkString(s: string, stop: seq<string>, stem: string -> string): (r: string)
    ensures Sorted(Split(r))
    ensures r == Join(Split(r))
    ensures forall i :: 0 <= i < |Split(r)| ==> Split(r)[i] !in AddStops
  {
    var cleaned := CleanText(s);
    var filtered := FilterStopwords(cleaned, stop);
    var long := DropSingleChars(filtered);
    var stemmed := StemWords(long, stem);
    FilterStopwords(stemmed, AddStops)
  }

  /** With a well-formed stemmer, an output token is exactly the lowered stem
      of a lowered token of the cleaned text that is longer than one byte
      and not a stop word, when that lowered stem is not in `add_stops`. */
  lemma WorkStringTokens(s: string, stop: seq<string>, stem: string -> string)
    requires StemWellFormed(stem)
    ensures forall u :: u in Split(WorkString(s, stop, stem)) <==> ComesFrom(u, s, stop, stem)
  {
    forall u ensures u in Split(WorkString(s, stop, stem)) <==> ComesFrom(u, s, stop, stem) {
      if u in Split(WorkString(s, stop, stem)) {
        OutputComesFrom(s, stop, stem, u);
      }
      if ComesFrom(u, s, stop, stem) {
        var t :| t in Split(CleanText(s)) && IsKeptWord(t, stop) && u == LowerStr(stem(LowerStr(t)));
        SourceReachesOutput(s, stop, stem, u, t);
      }
    }
  }

  /** `u` is what the pipeline makes of some token `t` of the cleaned text
      that passes the first two filters, and `add_stops` does not hold it. */
  ghost predicate ComesFrom(u: string, s: string, stop: seq<string>, stem: string -> string) {
    u !in AddStops &&
    exists t :: t in Split(CleanText(s)) && IsKeptWord(t, stop) && u == LowerStr(stem(LowerStr(t)))
  }

  /** The three intermediate token lists of `work_string`. */
  lemma Stages(s: string, stop: seq<string>, stem: string -> string)
    requires StemWellFormed(stem)
    ensures var filtered := FilterStopwords(CleanText(s), stop);
            var long := DropSingleChars(filtered);
            && Split(long) == LongTokens(Split(filtered))
            && Split(StemWords(long, stem)) == StemAll(Split(long), stem)
            && WorkString(s, stop, stem) == FilterStopwords(StemWords(long, stem), AddStops)
  {
  }

  lemma LongTokensMember(ts: seq<string>, b: string)
    ensures b in LongTokens(ts) <==> b in ts && |b| > 1
  {
    LongTokensCounts(ts);
    assert b in LongTokens(ts) <==> b in multiset(LongTokens(ts));
    assert b in ts <==> b in multiset(ts);
  }

  lemma OutputComesFrom(s: string, stop: seq<string>, stem: string -> string, u: string)
    requires StemWellFormed(stem)
    requires u in Split(WorkString(s, stop, stem))
    ensures ComesFrom(u, s, stop, stem)
  {
    var b := OutputStem(s, stop, stem, u);
    var t := LongFromSource(s, stop, b);
    assert u == LowerStr(stem(LowerStr(t)));
  }

  /** An output token is the lowered stem of a token that survived the
      single-character filter. */
  lemma OutputStem(s: string, stop: seq<string>, stem: string -> string, u: string)
    returns (b: string)
    requires StemWellFormed(stem)
    requires u in Split(WorkString(s, stop, stem))
    ensures u !in AddStops
    ensures b in Split(DropSingleChars(FilterStopwords(CleanText(s), stop)))
    ensures u == LowerStr(stem(b))
  {
    Stages(s, stop, stem);
    var long := DropSingleChars(FilterStopwords(CleanText(s), stop));
    var D := Split(StemWords(long, stem));
    assert Survives(u, D, AddStops);
    var d :| d in D && LowerStr(d) == u;
    var i :| 0 <= i < |D| && D[i] == d;
    b := Split(long)[i];
    assert d == stem(b);
  }

  /** A token that survived the single-character filter is the lowered form
      of a kept token of the cleaned text. */
  lemma LongFromSource(s: string, stop: seq<string>, b: string) returns (t: string)
    requires b in Split(DropSingleChars(FilterStopwords(CleanText(s), stop)))
    ensures t in Split(CleanText(s)) && IsKeptWord(t, stop) && LowerStr(t) == b
  {
    var filtered := FilterStopwords(CleanText(s), stop);
    LongTokensMember(Split(filtered), b);
    assert Survives(b, Split(CleanText(s)), stop);
    t :| t in Split(CleanText(s)) && LowerStr(t) == b;
  }

  lemma SourceReachesOutput(s: string, stop: seq<string>, stem: string -> string, u: string, t: string)
    requires StemWellFormed(stem)
    requires u !in AddStops && t in Split(CleanText(s)) && IsKeptWord(t, stop)
    requires u == LowerStr(stem(LowerStr(t)))
    ensures u in Split(WorkString(s, stop, stem))
  {
    Stages(s, stop, stem);
    var filtered := FilterStopwords(CleanText(s), stop);
    var long := DropSingleChars(filtered);
    var b := LowerStr(t);
    assert Survives(b, Split(CleanText(s)), stop);
    LongTokensMember(Split(filtered), b);
    var B := Split(long);
    var i :| 0 <= i < |B| && B[i] == b;
    var D := Split(StemWords(long, stem));
    assert D[i] == stem(b);
    assert Survives(u, D, AddStops);
  }

  lemma {:induction false} MarkedAllStopped(ts: seq<string>, stop: seq<string>)
    requires forall t :: t in ts ==> LowerStr(t) in stop
    ensures Marked(ts, stop) == []
    decreases |ts|
  {
    if |ts| > 0 {
      assert ts[0] in ts;
      MarkedAllStopped(ts[1..], stop);
    }
  }

  /** A token survives the first two filters: its lowered form is longer than
      one byte and not a primary stop word. */
  predicate IsKeptWord(t: string, stop: seq<string>) {
    |LowerStr(t)| > 1 && LowerStr(t) !in stop
  }

  /** `work_string` on empty text returns the empty string, without any
      assumption about the stemmer. */
  lemma WorkStringEmpty(stop: seq<string>, stem: string -> string)
    ensures WorkString("", stop, stem) == ""
  {
    assert Split("") == [];
    assert CleanText("") == "" by {
      assert StripPunct("") == "";
      assert StripNumbers("") == "";
    }
    assert FilterStopwords("", stop) == "";
    assert DropSingleChars("") == "";
    assert StemWords("", stem) == "";
  }

  /** When every token of the cleaned text is a stop word, `work_string`
      returns the empty string, without any assumption about the stemmer. */
  lemma WorkStringAllStopwords(s: string, stop: seq<string>, stem: string -> string)
    requires forall t :: t in Split(CleanText(s)) ==> LowerStr(t) in stop
    ensures WorkString(s, stop, stem) == ""
  {
    var filtered := FilterStopwords(CleanText(s), stop);
    MarkedAllStopped(Split(CleanText(s)), stop);
    FilterStopwordsTokens(CleanText(s), stop);
    assert filtered == "";
    assert DropSingleChars("") == "";
    assert StemWords("", stem) == "";
  }
}

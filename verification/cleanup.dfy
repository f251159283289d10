/** The three character-level cleanup steps at the head of `work_string`
    (PACMan.py:350-355): delete `string.punctuation`, delete numbers that
    stand as whole words (`re.sub('\b[0-9]+\b', '', s)`), delete six
    conversion-artifact bytes. */
module Cleanup {
  import opened Chars
  import opened Strings
  import opened Tokens

  /** `nopunk.sub('', s)` (PACMan.py:342-345, 351): no punctuation is left,
      and every other byte keeps its number of occurrences. */
  function StripPunct(s: string): (r: string)
    ensures forall i :: 0 <= i < |r| ==> !IsPunct(r[i])
    ensures forall c :: !IsPunct(c) ==> multiset(r)[c] == multiset(s)[c]
  {
    WithoutCounts(s, IsPunct);
    Without(s, IsPunct)
  }

  /** `re.sub('[\xc2\xe2\xbc\xbd\xef\xb2]', '', s)` (PACMan.py:355): no
      artifact byte is left, and every other byte keeps its number of occurrences. */
  function StripArtifacts(s: string): (r: string)
    ensures forall i :: 0 <= i < |r| ==> !IsArtifact(r[i])
    ensures forall c :: !IsArtifact(c) ==> multiset(r)[c] == multiset(s)[c]
  {
    WithoutCounts(s, IsArtifact);
    Without(s, IsArtifact)
  }

  /** The maximal runs of `\w` bytes: the words `\b` delimits. */
  function WordRuns(s: string): seq<string>
  {
    Runs(s, IsWordChar)
  }

  /** The bytes of `s` that are not word characters, in order. */
  function NonWord(s: string): string
  {
    Without(s, IsWordChar)
  }

  predicate AllDigits(w: string) {
    forall i :: 0 <= i < |w| ==> IsDigit(w[i])
  }

  /** No maximal word run consists only of digits: no digit run has a
      non-word byte (or an end of the string) on both sides. */
  predicate NoBareNumbers(s: string) {
    forall i :: 0 <= i < |WordRuns(s)| ==> !AllDigits(WordRuns(s)[i])
  }

  /** The words that are not pure digit strings, in order. */
  function DropNumbers(ws: seq<string>): (r: seq<string>)
    ensures forall i :: 0 <= i < |r| ==> !AllDigits(r[i])
  {
    if |ws| == 0 then []
    else (if AllDigits(ws[0]) then [] else [ws[0]]) + DropNumbers(ws[1..])
  }

  /** Number of leading digits of `s`. */
  function DigitLen(s: string): (n: nat)
    ensures n <= |s|
    ensures forall i :: 0 <= i < n ==> IsDigit(s[i])
    ensures n < |s| ==> !IsDigit(s[n])
    decreases |s|
  {
    if |s| == 0 || !IsDigit(s[0]) then 0 else 1 + DigitLen(s[1..])
  }

  /** `re.sub('\b[0-9]+\b', '', s)` in the word-run view: every maximal word
      run made only of digits is deleted, every other word run and every
      non-word byte is kept. A non-word byte at the front stays at the front. */
  function StripNumbers(s: string): (r: string)
    ensures |s| > 0 && !IsWordChar(s[0]) ==> |r| > 0 && r[0] == s[0]
    decreases |s|
  {
    if |s| == 0 then ""
    else if !IsWordChar(s[0]) then [s[0]] + StripNumbers(s[1..])
    else
      var n := RunLen(s, IsWordChar);
      (if AllDigits(s[..n]) then "" else s[..n]) + StripNumbers(s[n..])
  }

  /** The numbers step deletes exactly the all-digit word runs: the word runs
      of the result are those of the input minus the pure numbers, and the
      non-word bytes are untouched. */
  lemma {:induction false} StripNumbersSpec(s: string)
    ensures WordRuns(StripNumbers(s)) == DropNumbers(WordRuns(s))
    ensures NonWord(StripNumbers(s)) == NonWord(s)
    decreases |s|
  {
    if |s| > 0 {
      if !IsWordChar(s[0]) {
        StripNumbersSpec(s[1..]);
        StripNumbersSkip(s);
      } else {
        var n := RunLen(s, IsWordChar);
        StripNumbersSpec(s[n..]);
        StripNumbersWord(s, n);
      }
    }
  }

  lemma StripNumbersSkip(s: string)
    requires |s| > 0 && !IsWordChar(s[0])
    requires WordRuns(StripNumbers(s[1..])) == DropNumbers(WordRuns(s[1..]))
    requires NonWord(StripNumbers(s[1..])) == NonWord(s[1..])
    ensures WordRuns(StripNumbers(s)) == DropNumbers(WordRuns(s))
    ensures NonWord(StripNumbers(s)) == NonWord(s)
  {
    var rest := StripNumbers(s[1..]);
    assert StripNumbers(s) == [s[0]] + rest;
    RunsSkip(s[0], rest, IsWordChar);
    assert ([s[0]] + rest)[1..] == rest;
  }

  lemma StripNumbersWord(s: string, n: nat)
    requires |s| > 0 && IsWordChar(s[0]) && n == RunLen(s, IsWordChar)
    requires WordRuns(StripNumbers(s[n..])) == DropNumbers(WordRuns(s[n..]))
    requires NonWord(StripNumbers(s[n..])) == NonWord(s[n..])
    ensures WordRuns(StripNumbers(s)) == DropNumbers(WordRuns(s))
    ensures NonWord(StripNumbers(s)) == NonWord(s)
  {
    var w := s[..n];
    var x := s[n..];
    var rest := StripNumbers(x);
    assert WordRuns(s) == [w] + WordRuns(x);
    NonWordOfWord(s, n);
    if AllDigits(w) {
      assert StripNumbers(s) == rest;
      assert DropNumbers([w] + WordRuns(x)) == DropNumbers(WordRuns(x)) by {
        assert ([w] + WordRuns(x))[1..] == WordRuns(x);
      }
    } else {
      assert StripNumbers(s) == w + rest;
      assert DropNumbers([w] + WordRuns(x)) == [w] + DropNumbers(WordRuns(x)) by {
        assert ([w] + WordRuns(x))[1..] == WordRuns(x);
      }
      assert IsRun(w, IsWordChar);
      assert |rest| == 0 || !IsWordChar(rest[0]);
      RunsRun(w, rest, IsWordChar);
      NonWordAppendWord(w, rest);
    }
  }

  lemma NonWordOfWord(s: string, n: nat)
    requires n == RunLen(s, IsWordChar)
    ensures NonWord(s) == NonWord(s[n..])
  {
    assert s == s[..n] + s[n..];
    NonWordAppendWord(s[..n], s[n..]);
  }

  lemma NonWordAppendWord(w: string, x: string)
    requires AllIn(w, IsWordChar)
    ensures NonWord(w + x) == NonWord(x)
  {
    WithoutAppend(w, x, IsWordChar);
    WithoutAll(w, IsWordChar);
    assert "" + NonWord(x) == NonWord(x);
  }

  /** The numbers step leaves no bare number behind. */
  lemma StripNumbersLeavesNoBareNumber(s: string)
    ensures NoBareNumbers(StripNumbers(s))
  {
    StripNumbersSpec(s);
  }

  /** Deleting whole words never introduces a byte of a class that was absent. */
  lemma {:induction false} StripNumbersKeepsAbsence(s: string, bad: char -> bool)
    requires forall i :: 0 <= i < |s| ==> !bad(s[i])
    ensures forall i :: 0 <= i < |StripNumbers(s)| ==> !bad(StripNumbers(s)[i])
    decreases |s|
  {
    if |s| > 0 {
      if !IsWordChar(s[0]) {
        StripNumbersKeepsAbsence(s[1..], bad);
      } else {
        var n := RunLen(s, IsWordChar);
        StripNumbersKeepsAbsence(s[n..], bad);
      }
    }
  }

  /** The regular-expression engine's view of `re.sub('\b[0-9]+\b', '', s)`:
      scanning left to right, a match starts at a digit whose left neighbour
      in the original string is not a word byte (`prevWord` false), takes the
      whole digit run, and succeeds only if the run is followed by a non-word
      byte or the end; otherwise the byte is kept and the scan moves on. */
  function RegexStripNumbers(s: string, prevWord: bool): (r: string)
    ensures |r| <= |s|
    decreases |s|
  {
    if |s| == 0 then ""
    else
      var d := DigitLen(s);
      if !prevWord && IsDigit(s[0]) && (d == |s| || !IsWordChar(s[d])) then
        RegexStripNumbers(s[d..], true)
      else
        [s[0]] + RegexStripNumbers(s[1..], IsWordChar(s[0]))
  }

  lemma RegexNonDigitHead(s: string, prevWord: bool)
    requires |s| == 0 || !IsDigit(s[0])
    ensures RegexStripNumbers(s, prevWord) == RegexStripNumbers(s, false)
  {
  }

  /** Inside a word the scan cannot match, so it copies the word. */
  lemma {:induction false} RegexCopiesWord(s: string, n: nat)
    requires n <= |s|
    requires forall i :: 0 <= i < n ==> IsWordChar(s[i])
    ensures RegexStripNumbers(s, true) == s[..n] + RegexStripNumbers(s[n..], true)
    decreases n
  {
    if n > 0 {
      RegexCopiesWord(s[1..], n - 1);
      assert s[1..][n - 1..] == s[n..];
      assert s[..n] == [s[0]] + s[1..][..n - 1];
    }
  }

  /** The left-to-right regular-expression scan and the word-run description
      delete exactly the same bytes. */
  lemma {:induction false} RegexAgrees(s: string)
    ensures RegexStripNumbers(s, false) == StripNumbers(s)
    decreases |s|
  {
    if |s| > 0 {
      if !IsWordChar(s[0]) {
        RegexAgrees(s[1..]);
      } else {
        var n := RunLen(s, IsWordChar);
        RegexAgrees(s[n..]);
        if AllDigits(s[..n]) {
          RegexDropsNumber(s, n);
        } else {
          RegexKeepsWord(s, n);
        }
      }
    }
  }

  /** A word run made of digits alone is one match, and it is deleted. */
  lemma RegexDropsNumber(s: string, n: nat)
    requires |s| > 0 && IsWordChar(s[0]) && n == RunLen(s, IsWordChar)
    requires AllDigits(s[..n])
    ensures RegexStripNumbers(s, false) == RegexStripNumbers(s[n..], false)
  {
    WordRunEnd(s, n);
    DigitLenOfNumber(s, n);
    assert IsDigit(s[0]);
    assert RegexStripNumbers(s, false) == RegexStripNumbers(s[n..], true);
    RegexNonDigitHead(s[n..], true);
  }

  /** The word run at the front ends at the end of the string or before a
      non-word byte, and it is not empty when the string starts with a word byte. */
  lemma WordRunEnd(s: string, n: nat)
    requires |s| > 0 && IsWordChar(s[0]) && n == RunLen(s, IsWordChar)
    ensures 0 < n <= |s|
    ensures n == |s| || !IsWordChar(s[n])
    ensures forall i :: 0 <= i < n ==> IsWordChar(s[i])
  {
    forall i | 0 <= i < n ensures IsWordChar(s[i]) {
      assert s[..n][i] == s[i];
    }
  }

  /** A prefix of digits followed by a non-digit (or the end) is the digit run. */
  lemma DigitLenOfNumber(s: string, n: nat)
    requires n <= |s| && AllDigits(s[..n])
    requires n == |s| || !IsWordChar(s[n])
    ensures DigitLen(s) == n
  {
    forall i | 0 <= i < n ensures IsDigit(s[i]) {
      assert s[..n][i] == s[i];
    }
  }

  /** A word run with a non-digit in it never matches and is kept whole. */
  lemma RegexKeepsWord(s: string, n: nat)
    requires |s| > 0 && IsWordChar(s[0]) && n == RunLen(s, IsWordChar)
    requires !AllDigits(s[..n])
    ensures RegexStripNumbers(s, false) == s[..n] + RegexStripNumbers(s[n..], false)
  {
    WordRunEnd(s, n);
    RegexWordFront(s, n);
    RegexWordTail(s, n);
    ConsPrefix(s, n);
    Regroup(RegexStripNumbers(s, false), s[0], s[1..][..n - 1], RegexStripNumbers(s[n..], false), s[..n]);
  }

  lemma ConsPrefix(s: string, n: nat)
    requires 0 < n <= |s|
    ensures s[..n] == [s[0]] + s[1..][..n - 1]
  {
  }

  lemma Regroup(x: string, c: char, a: string, r: string, w: string)
    requires x == [c] + (a + r) && w == [c] + a
    ensures x == w + r
  {
  }

  lemma RegexWordFront(s: string, n: nat)
    requires |s| > 0 && IsWordChar(s[0]) && n == RunLen(s, IsWordChar)
    requires !AllDigits(s[..n])
    ensures RegexStripNumbers(s, false) == [s[0]] + RegexStripNumbers(s[1..], true)
  {
    WordRunEnd(s, n);
    var k :| 0 <= k < n && !IsDigit(s[..n][k]);
    assert s[..n][k] == s[k];
    RegexNoMatch(s, k);
  }

  /** After the first byte of a word run, the scan copies the rest of the
      run and resumes as at the start of a string. */
  lemma RegexWordTail(s: string, n: nat)
    requires |s| > 0 && IsWordChar(s[0]) && n == RunLen(s, IsWordChar)
    ensures RegexStripNumbers(s[1..], true) == s[1..][..n - 1] + RegexStripNumbers(s[n..], false)
  {
    WordRunEnd(s, n);
    RegexCopiesWord(s[1..], n - 1);
    assert s[1..][n - 1..] == s[n..];
    RegexNonDigitHead(s[n..], true);
  }

  /** When a word byte that is not a digit follows the leading digits, the
      scan cannot match at the front and keeps the first byte. */
  lemma RegexNoMatch(s: string, k: nat)
    requires k < |s| && IsWordChar(s[0]) && IsWordChar(s[k]) && !IsDigit(s[k])
    requires forall i :: 0 <= i < k ==> IsWordChar(s[i])
    ensures RegexStripNumbers(s, false) == [s[0]] + RegexStripNumbers(s[1..], true)
  {
    var d := DigitLen(s);
    assert d <= k;
    assert d < |s| && IsWordChar(s[d]);
  }

  /** Deleting artifact bytes (which are not word bytes) can only glue word
      runs together, and a glued run that contains a non-digit is still not
      a number: the property survives. */
  lemma {:induction false} StripArtifactsKeepsNoBareNumbers(s: string)
    requires NoBareNumbers(s)
    ensures NoBareNumbers(StripArtifacts(s))
    decreases |s|
  {
    if |s| > 0 {
      if !IsWordChar(s[0]) {
        assert WordRuns(s) == WordRuns(s[1..]);
        StripArtifactsKeepsNoBareNumbers(s[1..]);
        StripArtifactsNonWordHead(s);
      } else {
        var n := RunLen(s, IsWordChar);
        NoBareNumbersWordHead(s, n);
        StripArtifactsKeepsNoBareNumbers(s[n..]);
        StripArtifactsWord(s, n);
        GlueKeepsNoBareNumbers(s[..n], StripArtifacts(s[n..]));
      }
    }
  }

  /** A leading non-word byte is dropped or kept, and either way the word
      runs are those of the rest. */
  lemma StripArtifactsNonWordHead(s: string)
    requires |s| > 0 && !IsWordChar(s[0])
    requires NoBareNumbers(StripArtifacts(s[1..]))
    ensures NoBareNumbers(StripArtifacts(s))
  {
    var tail := StripArtifacts(s[1..]);
    if IsArtifact(s[0]) {
      assert StripArtifacts(s) == tail;
    } else {
      assert StripArtifacts(s) == [s[0]] + tail;
      RunsSkip(s[0], tail, IsWordChar);
      assert WordRuns([s[0]] + tail) == WordRuns(tail);
    }
  }

  /** The leading word of a text without bare numbers is not a number, and
      the text after it has none either. */
  lemma NoBareNumbersWordHead(s: string, n: nat)
    requires |s| > 0 && IsWordChar(s[0]) && n == RunLen(s, IsWordChar)
    requires NoBareNumbers(s)
    ensures IsRun(s[..n], IsWordChar) && !AllDigits(s[..n])
    ensures NoBareNumbers(s[n..])
  {
    WordRunEnd(s, n);
    WordRunsHead(s, n);
    NoBareNumbersDrop(s[..n], s[n..], WordRuns(s));
  }

  /** A text starting with a word byte has its leading word run first. */
  lemma WordRunsHead(s: string, n: nat)
    requires |s| > 0 && IsWordChar(s[0]) && n == RunLen(s, IsWordChar)
    ensures WordRuns(s) == [s[..n]] + WordRuns(s[n..])
  {
  }

  lemma NoBareNumbersDrop(w: string, x: string, rs: seq<string>)
    requires rs == [w] + WordRuns(x)
    requires forall i :: 0 <= i < |rs| ==> !AllDigits(rs[i])
    ensures !AllDigits(w) && NoBareNumbers(x)
  {
    assert rs[0] == w;
    forall i | 0 <= i < |WordRuns(x)| ensures !AllDigits(WordRuns(x)[i]) {
      assert WordRuns(x)[i] == rs[i + 1];
    }
  }

  /** A word run passes the artifact step untouched. */
  lemma StripArtifactsWord(s: string, n: nat)
    requires n == RunLen(s, IsWordChar)
    ensures StripArtifacts(s) == s[..n] + StripArtifacts(s[n..])
  {
    var w := s[..n];
    assert s == w + s[n..];
    WithoutAppend(w, s[n..], IsArtifact);
    forall i | 0 <= i < |w| ensures !IsArtifact(w[i]) {
      assert IsWordChar(w[i]);
    }
    WithoutNone(w, IsArtifact);
  }

  /** Putting a word that is not a number in front of a text without bare
      numbers, directly or glued to its first word, adds no bare number. */
  lemma GlueKeepsNoBareNumbers(w: string, tail: string)
    requires IsRun(w, IsWordChar) && !AllDigits(w)
    requires NoBareNumbers(tail)
    ensures NoBareNumbers(w + tail)
  {
    if |tail| == 0 || !IsWordChar(tail[0]) {
      RunsRun(w, tail, IsWordChar);
      forall i | 0 <= i < |WordRuns(w + tail)| ensures !AllDigits(WordRuns(w + tail)[i]) {
        if i > 0 {
          assert WordRuns(w + tail)[i] == WordRuns(tail)[i - 1];
        }
      }
    } else {
      RunsMerge(w, tail, IsWordChar);
      var glued := w + WordRuns(tail)[0];
      var k :| 0 <= k < |w| && !IsDigit(w[k]);
      assert glued[k] == w[k];
      forall i | 0 <= i < |WordRuns(w + tail)| ensures !AllDigits(WordRuns(w + tail)[i]) {
        if i > 0 {
          assert WordRuns(w + tail)[i] == WordRuns(tail)[i];
        }
      }
    }
  }

  /** The three cleanup steps of `work_string` in order (PACMan.py:351-355):
      afterwards no punctuation, no artifact byte and no bare number is left. */
  function CleanText(s: string): (r: string)
    ensures forall i :: 0 <= i < |r| ==> !IsPunct(r[i]) && !IsArtifact(r[i])
    ensures NoBareNumbers(r)
  {
    var a := StripPunct(s);
    var b := StripNumbers(a);
    StripNumbersLeavesNoBareNumber(a);
    StripNumbersKeepsAbsence(a, IsPunct);
    StripArtifactsKeepsNoBareNumbers(b);
    WithoutKeepsAbsence(b, IsArtifact, IsPunct);
    StripArtifacts(b)
  }
}

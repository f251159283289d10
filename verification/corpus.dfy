/** The inputs the driver (`run`, PACMan.py:123-201) turns into text
    to classify: a proposal file, a plain-text file, or an author list whose
    abstracts arrive from a literature service. It also covers the
    name of the cached author results and the filter on over-short abstracts
    (`cleanup_abstracts`, PACMan.py:312-317). */
module Corpus {
  import opened Chars
  import opened Strings
  import opened Tokens
  import opened Sections

  /** A line the plain-text and author readers skip: a comment or blank. */
  predicate Skipped(line: string) {
    IsComment(line) || IsBlank(line)
  }

  /** The plain-text reader (PACMan.py:147-155): every kept line stripped
      and followed by one space. */
  function CorpusText(lines: seq<string>): (text: string)
    ensures |text| == 0 || text[|text| - 1] == ' '
    decreases |lines|
  {
    if |lines| == 0 then ""
    else
      var n := |lines| - 1;
      var prev := CorpusText(lines[..n]);
      if Skipped(lines[n]) then prev else prev + Strip(lines[n]) + " "
  }

  /** Reference: the tokens of the kept lines, in order. */
  function ContentTokens(lines: seq<string>): seq<string>
    decreases |lines|
  {
    if |lines| == 0 then []
    else
      var n := |lines| - 1;
      ContentTokens(lines[..n]) + (if Skipped(lines[n]) then [] else Split(lines[n]))
  }

  /** The words of the plain-text reader's output are exactly the words of
      the lines it keeps. */
  lemma {:induction false} CorpusTokens(lines: seq<string>)
    ensures Split(CorpusText(lines)) == ContentTokens(lines)
    decreases |lines|
  {
    if |lines| > 0 {
      var n := |lines| - 1;
      CorpusTokens(lines[..n]);
      if !Skipped(lines[n]) {
        SplitTerminated(CorpusText(lines[..n]), lines[n]);
      }
    }
  }

  /** Comment lines contribute nothing, wherever they sit in the file. */
  lemma CorpusSkipsComment(lines: seq<string>, comment: string)
    requires IsComment(comment)
    ensures CorpusText(lines + [comment]) == CorpusText(lines)
  {
    assert (lines + [comment])[..|lines|] == lines;
  }

  /** The proposal reader (PACMan.py:142-145): a space, the abstract, then
      the scientific justification. */
  function ProposalText(lines: seq<string>): (text: string)
    ensures |text| > 0 && text[0] == ' '
  {
    " " + ParseSection(Abstract, lines) + ParseSection(Justification, lines)
  }

  /** The words of a proposal's text are the abstract's words followed by
      the justification's. */
  lemma ProposalTokens(lines: seq<string>)
    ensures Split(ProposalText(lines)) ==
      SectionTokens(Abstract, lines) + SectionTokens(Justification, lines)
  {
    var a := ParseSection(Abstract, lines);
    var j := ParseSection(Justification, lines);
    assert " " + a + j == " " + (a + j);
    RunsAppend(" ", a + j, NotSpace);
    RunsNone(" ", NotSpace);
    RunsAppend(a, j, NotSpace);
    SectionSplit(Abstract, lines);
    SectionSplit(Justification, lines);
  }

  /** `info[0]` for `info = line.rstrip().split("\t")`. */
  function FirstField(line: string): (f: string)
    ensures '\t' !in f
  {
    SplitOn(RStrip(line), '\t')[0]
  }

  predicate IsDoubleQuote(c: char) { c == '"' }
  predicate IsSingleQuote(c: char) { c == '\'' }

  /** An author name as recorded (PACMan.py:178): double quotes deleted,
      then single quotes deleted, then lower-cased. */
  function AuthorName(field: string): (name: string)
    ensures '"' !in name && '\'' !in name
    ensures '\t' in name <==> '\t' in field
    ensures forall i :: 0 <= i < |name| ==> !IsUpper(name[i])
  {
    var bare := Without(Without(field, IsDoubleQuote), IsSingleQuote);
    QuotesDeleted(field);
    LowerKeepsAbsent(bare, '\t');
    LowerKeepsAbsent(bare, '"');
    LowerKeepsAbsent(bare, '\'');
    LowerStr(bare)
  }

  /** Deleting both kinds of quote leaves none and keeps every tab. */
  lemma QuotesDeleted(field: string)
    ensures var bare := Without(Without(field, IsDoubleQuote), IsSingleQuote);
      '"' !in bare && '\'' !in bare && ('\t' in bare <==> '\t' in field)
  {
    var once := Without(field, IsDoubleQuote);
    var bare := Without(once, IsSingleQuote);
    WithoutCounts(field, IsDoubleQuote);
    WithoutCounts(once, IsSingleQuote);
    assert multiset(bare)['\t'] == multiset(field)['\t'];
    WithoutKeepsAbsence(once, IsSingleQuote, IsDoubleQuote);
  }

  /** Lower-casing neither creates nor removes a byte that is not a word byte. */
  lemma LowerKeepsAbsent(s: string, c: char)
    requires !IsWordChar(c)
    ensures c in LowerStr(s) <==> c in s
  {
    if c in LowerStr(s) {
      var i :| 0 <= i < |s| && LowerStr(s)[i] == c;
      assert s[i] == c;
    }
    if c in s {
      var i :| 0 <= i < |s| && s[i] == c;
      assert LowerStr(s)[i] == c;
    }
  }

  /** A name is cleaned byte by byte: the name of a concatenation is the
      concatenation of the names, so the kept bytes stay in order. */
  lemma AuthorNameAppend(a: string, b: string)
    ensures AuthorName(a + b) == AuthorName(a) + AuthorName(b)
  {
    var a1, b1 := Without(a, IsDoubleQuote), Without(b, IsDoubleQuote);
    WithoutAppend(a, b, IsDoubleQuote);
    WithoutAppend(a1, b1, IsSingleQuote);
    LowerStrAppend(Without(a1, IsSingleQuote), Without(b1, IsSingleQuote));
  }

  /** A single byte: a quote of either kind vanishes, anything else is lowered. */
  lemma AuthorNameOne(c: char)
    ensures AuthorName([c]) == if c == '"' || c == '\'' then "" else [Lower(c)]
  {
    var once := Without([c], IsDoubleQuote);
    assert [c][1..] == "";
    assert Without("", IsDoubleQuote) == "" && Without("", IsSingleQuote) == "";
    assert once == if c == '"' then "" else [c];
    assert Without(once, IsSingleQuote) == if c == '"' || c == '\'' then "" else [c];
  }

  /** The author-list reader (PACMan.py:172-178): for each line that is not
      a comment or blank and whose first field is not empty, the cleaned
      first field. */
  function AuthorRecords(lines: seq<string>): (records: seq<string>)
    ensures |records| <= |lines|
    ensures forall i :: 0 <= i < |records| ==>
      '"' !in records[i] && '\'' !in records[i] && '\t' !in records[i]
    decreases |lines|
  {
    if |lines| == 0 then []
    else
      var n := |lines| - 1;
      var prev := AuthorRecords(lines[..n]);
      if Skipped(lines[n]) || FirstField(lines[n]) == "" then prev
      else prev + [AuthorName(FirstField(lines[n]))]
  }

  /** The reader works line by line: the records of two files read one
      after the other are the records of each, in order. */
  lemma {:induction false} AuthorRecordsAppend(a: seq<string>, b: seq<string>)
    ensures AuthorRecords(a + b) == AuthorRecords(a) + AuthorRecords(b)
    decreases |b|
  {
    if |b| == 0 {
      assert a + b == a;
    } else {
      var n := |b| - 1;
      var ab := a + b;
      AuthorRecordsLast(ab);
      AuthorRecordsLast(b);
      assert ab[..|ab| - 1] == a + b[..n];
      assert ab[|ab| - 1] == b[n];
      AuthorRecordsAppend(a, b[..n]);
      AppendAssoc(AuthorRecords(a), AuthorRecords(b[..n]), RecordOf(b[n]));
    }
  }

  /** What one line adds to the author list: nothing, or its cleaned name. */
  function RecordOf(line: string): seq<string> {
    if Skipped(line) || FirstField(line) == "" then [] else [AuthorName(FirstField(line))]
  }

  lemma AuthorRecordsLast(lines: seq<string>)
    requires |lines| > 0
    ensures AuthorRecords(lines) == AuthorRecords(lines[..|lines| - 1]) + RecordOf(lines[|lines| - 1])
  {
  }

  /** The first field of a line that starts with a name and a tab is that
      name, whatever follows. */
  lemma FirstFieldOfTabbed(name: string, rest: string)
    requires |name| > 0 && !IsSpace(name[|name| - 1]) && '\t' !in name
    ensures FirstField(name + "\t" + rest) == name
  {
    var line := name + "\t" + rest;
    var r := RStrip(line);
    assert line[|name| - 1] == name[|name| - 1];
    SpaceTail(line, |r|, |name| - 1);
    assert r == line[..|r|];
    assert r[..|name|] == name;
    if |r| == |name| {
      assert r == name;
      assert IndexOf(r, '\t') == |r|;
    } else {
      assert r == name + r[|name|..];
      assert r[|name|..][0] == '\t';
      IndexOfAfter(name, r[|name|..], '\t');
    }
  }

  /** Every byte of an all-space tail is whitespace. */
  lemma SpaceTail(s: string, m: nat, k: nat)
    requires m <= |s| && k < |s| && AllSpace(s[m..])
    ensures m <= k ==> IsSpace(s[k])
  {
    if m <= k {
      assert s[k] == s[m..][k - m];
    }
  }

  /** A plain author line — a lower-case name without quotes, a tab, then
      anything — is recorded as exactly that name. */
  lemma AuthorRecordOfNameLine(name: string, rest: string)
    requires |name| > 0 && !IsSpace(name[0]) && !IsSpace(name[|name| - 1])
    requires '\t' !in name && name[0] != '#'
    requires '"' !in name && '\'' !in name && LowerStr(name) == name
    ensures AuthorRecords([name + "\t" + rest]) == [name]
  {
    var line := name + "\t" + rest;
    FirstFieldOfTabbed(name, rest);
    assert line[0] == name[0];
    assert !Skipped(line);
    WithoutNone(name, IsDoubleQuote);
    WithoutNone(name, IsSingleQuote);
    assert AuthorName(name) == name;
    AuthorRecordsLast([line]);
    assert [line][..0] == [];
  }

  /** The author text as written (PACMan.py:187-189): every abstract
      overwrites the text, so only the last one, after a space, is left. */
  function AuthorTextAsWritten(abstracts: seq<string>): (text: string)
    ensures |abstracts| == 0 ==> text == ""
    ensures |abstracts| > 0 ==> Split(text) == Split(abstracts[|abstracts| - 1])
  {
    if |abstracts| == 0 then ""
    else
      var last := abstracts[|abstracts| - 1];
      RunsSkip(' ', last, NotSpace);
      " " + last
  }

  /** The author text as intended: every abstract, each after a space. */
  function AuthorText(abstracts: seq<string>): (text: string)
    ensures |abstracts| > 0 ==> |text| > 0 && text[0] == ' '
    decreases |abstracts|
  {
    if |abstracts| == 0 then ""
    else AuthorText(abstracts[..|abstracts| - 1]) + " " + abstracts[|abstracts| - 1]
  }

  /** Reference: the words of every abstract, in order. */
  function AbstractTokens(abstracts: seq<string>): seq<string>
    decreases |abstracts|
  {
    if |abstracts| == 0 then []
    else AbstractTokens(abstracts[..|abstracts| - 1]) + Split(abstracts[|abstracts| - 1])
  }

  /** The intended author text carries the words of all the abstracts. */
  lemma {:induction false} AuthorTextTokens(abstracts: seq<string>)
    ensures Split(AuthorText(abstracts)) == AbstractTokens(abstracts)
    decreases |abstracts|
  {
    if |abstracts| > 0 {
      var n := |abstracts| - 1;
      AuthorTextTokens(abstracts[..n]);
      SplitSpaced(AuthorText(abstracts[..n]), abstracts[n]);
    }
  }

  /** Two abstracts, the first with at least one word: the text as
      written loses that word. */
  lemma AuthorTextLosesAbstracts(first: string, second: string)
    requires |Split(first)| > 0
    ensures Split(AuthorTextAsWritten([first, second])) == Split(second)
    ensures Split(AuthorText([first, second])) == Split(first) + Split(second)
    ensures Split(AuthorTextAsWritten([first, second])) != Split(AuthorText([first, second]))
  {
    var abs := [first, second];
    AuthorTextTokens(abs);
    assert abs[..1] == [first];
    assert abs[..1][..0] == [];
    assert AbstractTokens(abs[..1]) == Split(first);
  }

  /** The cached-results name as written (PACMan.py:167): every occurrence
      of the text after the last dot, or of the whole name when it has no
      dot, becomes "pkl". */
  function PickleNameAsWritten(corpus: string): (r: string)
    ensures '.' !in corpus ==> r == "pkl"
  {
    var parts := SplitOn(corpus, '.');
    Undotted(corpus);
    ReplaceAll(corpus, parts[|parts| - 1], "pkl")
  }

  /** A dot-less name is one piece, so it is replaced whole. */
  lemma Undotted(corpus: string)
    ensures '.' !in corpus ==> ReplaceAll(corpus, SplitOn(corpus, '.')[0], "pkl") == "pkl"
  {
    if '.' !in corpus {
      SplitOnNone(corpus, '.');
      ReplaceWhole(corpus, "pkl");
    }
  }

  /** A name whose stem repeats its extension loses the stem too: with
      `w` = "txt", "txt.txt" becomes "pkl.pkl". */
  lemma PickleNameAsWrittenRepeated(w: string)
    requires |w| > 0 && '.' !in w
    ensures PickleNameAsWritten(w + "." + w) == "pkl.pkl"
  {
    SplitRepeated(w);
    ReplaceRepeated(w);
  }

  /** The ordinary name `stem.ext`, whose extension does not occur in the
      stem, becomes `stem.pkl` as written, which is also the intended name:
      the two agree exactly outside the repeated and dot-less cases. */
  lemma PickleNameOnce(stem: string, ext: string)
    requires |ext| > 0 && '.' !in stem && '.' !in ext
    requires forall i :: 0 <= i <= |stem| - |ext| ==> !OccursAt(stem, i, ext)
    ensures PickleNameAsWritten(stem + "." + ext) == stem + ".pkl"
    ensures PickleName(stem + "." + ext) == stem + ".pkl"
  {
    PickleNameOnceAsWritten(stem, ext);
    PickleNameOnceIntended(stem, ext);
  }

  lemma PickleNameOnceAsWritten(stem: string, ext: string)
    requires |ext| > 0 && '.' !in stem && '.' !in ext
    requires forall i :: 0 <= i <= |stem| - |ext| ==> !OccursAt(stem, i, ext)
    ensures PickleNameAsWritten(stem + "." + ext) == stem + ".pkl"
  {
    var a := stem + ".";
    var name := a + ext;
    assert name == stem + "." + ext;
    SplitDotted(stem, ext);
    forall i | 0 <= i < |a| ensures !OccursAt(name, i, ext) {
      StemOnlyBeforeDot(stem, ext, i);
    }
    ReplaceTail(a, ext, "pkl");
    assert a + "pkl" == stem + ".pkl";
  }

  lemma PickleNameOnceIntended(stem: string, ext: string)
    requires '.' !in stem && '.' !in ext
    ensures PickleName(stem + "." + ext) == stem + ".pkl"
  {
    var name := stem + "." + ext;
    SplitDotted(stem, ext);
    assert name[|stem|] == '.';
    var r := PickleName(name);
    var parts := SplitOn(name, '.');
    assert parts[..|parts| - 1] == [stem];
    assert SplitOn(r, '.') == [stem] + ["pkl"];
    JoinSplitOn(r, '.');
    JoinTwo(stem, "pkl", '.');
    DotPkl(stem);
    assert r == JoinOn(SplitOn(r, '.'), '.');
  }

  lemma DotPkl(stem: string)
    ensures stem + ['.'] + "pkl" == stem + ".pkl"
  {
  }

  lemma JoinTwo(x: string, y: string, c: char)
    ensures JoinOn([x] + [y], c) == x + [c] + y
  {
    assert ([x] + [y])[1..] == [y];
  }

  /** An occurrence of the extension that starts in `stem.` would lie in
      the stem or cover the dot. */
  lemma StemOnlyBeforeDot(stem: string, ext: string, i: nat)
    requires |ext| > 0 && '.' !in ext && i <= |stem|
    requires forall i :: 0 <= i <= |stem| - |ext| ==> !OccursAt(stem, i, ext)
    ensures !OccursAt(stem + "." + ext, i, ext)
  {
    var name := stem + "." + ext;
    if i + |ext| <= |stem| {
      assert name[i..i + |ext|] == stem[i..i + |ext|];
      assert !OccursAt(stem, i, ext);
    } else if i + |ext| <= |name| {
      assert name[i..i + |ext|][|stem| - i] == '.';
    }
  }

  /** A name with one dot splits into its stem and its extension. */
  lemma SplitDotted(stem: string, ext: string)
    requires '.' !in stem && '.' !in ext
    ensures SplitOn(stem + "." + ext, '.') == [stem, ext]
  {
    var d := stem + ".";
    var s := d + ext;
    assert s == stem + "." + ext;
    assert s[..|stem|] == stem;
    assert s[|stem|] == '.';
    SplitOnAt(s, '.', |stem|);
    DropPrefix(d, ext);
    SplitOnNone(ext, '.');
    assert SplitOn(s, '.') == [stem] + [ext];
  }

  lemma ReplaceRepeated(w: string)
    requires |w| > 0 && '.' !in w
    ensures ReplaceAll(w + "." + w, w, "pkl") == "pkl.pkl"
  {
    ReplaceBothSides(w, "pkl");
    PklDotPkl();
  }

  lemma PklDotPkl()
    ensures "pkl" + "." + "pkl" == "pkl.pkl"
  {
  }

  /** Both copies of a dot-less `w` around one dot are replaced. */
  lemma ReplaceBothSides(w: string, rep: string)
    requires |w| > 0 && '.' !in w
    ensures ReplaceAll(w + "." + w, w, rep) == rep + "." + rep
  {
    var d := "." + w;
    ReplaceDotted(w, rep);
    assert w + "." + w == w + d;
    ReplaceFront(w, d, rep);
    assert rep + ("." + rep) == rep + "." + rep;
  }

  lemma ReplaceDotted(w: string, rep: string)
    requires |w| > 0 && '.' !in w
    ensures ReplaceAll("." + w, w, rep) == "." + rep
  {
    var d := "." + w;
    assert d[1..] == w;
    assert d[..|w|] != w by {
      assert d[..|w|][0] == '.';
      assert w[0] in w;
    }
    ReplaceWhole(w, rep);
  }

  /** The intended name keeps the stem: "txt.txt" becomes "txt.pkl". */
  lemma PickleNameRepeated(w: string)
    requires |w| > 0 && '.' !in w
    ensures PickleName(w + "." + w) == w + ".pkl"
  {
    var parts := SplitOn(w + "." + w, '.');
    SplitRepeated(w);
    assert parts[..|parts| - 1] == [w];
    JoinTwo(w, "pkl", '.');
    DotPkl(w);
  }

  lemma SplitRepeated(w: string)
    requires '.' !in w
    ensures SplitOn(w + "." + w, '.') == [w, w]
  {
    var s := w + "." + w;
    IndexOfAfter(w, "." + w, '.');
    assert s == w + ("." + w);
    assert s[|w| + 1..] == w;
    assert s[..|w|] == w;
    assert IndexOf(w, '.') == |w|;
    assert SplitOn(s, '.') == [s[..|w|]] + SplitOn(s[|w| + 1..], '.');
  }

  /** The cached-results name as intended: only the extension becomes
      "pkl", and a name without one gains ".pkl". */
  function PickleName(corpus: string): (r: string)
    ensures SplitOn(r, '.') ==
      (if '.' in corpus then SplitOn(corpus, '.')[..|SplitOn(corpus, '.')| - 1] else [corpus]) + ["pkl"]
  {
    var parts := SplitOn(corpus, '.');
    if |parts| == 1 then
      assert '.' !in corpus by {
        assert multiset(corpus)['.'] == 0;
      }
      PickleSuffix(corpus);
      corpus + ".pkl"
    else
      assert '.' in corpus by {
        assert multiset(corpus)['.'] > 0;
      }
      var kept := parts[..|parts| - 1] + ["pkl"];
      assert forall i :: 0 <= i < |kept| ==> '.' !in kept[i];
      SplitJoinOn(kept, '.');
      JoinOn(kept, '.')
  }

  lemma PickleSuffix(corpus: string)
    requires '.' !in corpus
    ensures SplitOn(corpus + ".pkl", '.') == [corpus, "pkl"]
  {
    assert '.' !in "pkl" by {
      assert "pkl" == ['p', 'k', 'l'];
    }
    SplitDotted(corpus, "pkl");
    DotPkl(corpus);
  }

  lemma DropPrefix(a: string, b: string)
    ensures (a + b)[|a|..] == b
  {
  }

  /** `cleanup_abstracts`: the abstracts of more than fifty words. */
  function CleanupAbstracts(abstracts: map<int, string>): (out: map<int, string>)
    ensures forall k :: k in out <==> k in abstracts && |Split(abstracts[k])| > 50
    ensures forall k :: k in out ==> out[k] == abstracts[k]
  {
    map k | k in abstracts && |Split(abstracts[k])| > 50 :: abstracts[k]
  }

  /** Filtering twice keeps what filtering once kept. */
  lemma CleanupIdempotent(abstracts: map<int, string>)
    ensures CleanupAbstracts(CleanupAbstracts(abstracts)) == CleanupAbstracts(abstracts)
  {
  }
}

/** Extraction of text from a proposal: the abstract
    (`parse_abstracts_proposals`, PACMan.py:258-272), the scientific
    justification (`parse_science_justification_proposals`, PACMan.py:274-288),
    and the comma-separated keyword and category fields
    (`parse_keywords_proposals`, `parse_category_proposals`,
    PACMan.py:291-309). A file is the list of its lines as `readlines`
    returns them. */
module Sections {
  import opened Chars
  import opened Strings
  import opened Tokens

  /** The two sections a proposal parser records. */
  datatype Section = Abstract | Justification

  /** `not line.strip()`: the parsers skip such lines altogether. A line
      strips to nothing exactly when it is whitespace only
      (`Strings.StripEmptyIffAllSpace`), which is the form used here. */
  predicate IsBlank(line: string) {
    AllSpace(line)
  }

  /** A line that switches recording on. */
  predicate Opens(sec: Section, line: string) {
    match sec
    case Abstract => LowerStr(Strip(line)) == "abstract"
    case Justification =>
      Contains(LowerStr(line), "scientific") && Contains(LowerStr(line), "justification")
  }

  /** A line that switches recording off; it is tested after `Opens`, so a
      line that does both leaves recording off. */
  predicate Closes(sec: Section, line: string) {
    match sec
    case Abstract =>
      Contains(LowerStr(line), "principal") && Contains(LowerStr(line), "investigator")
    case Justification =>
      Contains(LowerStr(line), "description") && Contains(LowerStr(line), "observations")
  }

  /** The parser's state after a prefix of the lines: the `record` flag and
      the text gathered so far. */
  datatype ScanState = ScanState(record: bool, text: string)

  /** The parser loop, one line at a time from the first. */
  function Scan(sec: Section, lines: seq<string>): (st: ScanState)
    ensures |st.text| == 0 || st.text[|st.text| - 1] == ' '
    decreases |lines|
  {
    if |lines| == 0 then ScanState(false, "")
    else Step(sec, Scan(sec, lines[..|lines| - 1]), lines[|lines| - 1])
  }

  /** One pass of the loop body: a blank line is skipped; otherwise the
      line sets `record` (closing wins over opening) and is kept, stripped
      and followed by a space, when `record` is on. */
  function Step(sec: Section, st: ScanState, line: string): (next: ScanState)
    requires |st.text| == 0 || st.text[|st.text| - 1] == ' '
    ensures |next.text| == 0 || next.text[|next.text| - 1] == ' '
  {
    if IsBlank(line) then st
    else
      var rec := !Closes(sec, line) && (Opens(sec, line) || st.record);
      ScanState(rec, if rec then st.text + Strip(line) + " " else st.text)
  }

  /** The text of section `sec`: each recorded line stripped and followed
      by one space. */
  function ParseSection(sec: Section, lines: seq<string>): (text: string)
    ensures |text| == 0 || text[|text| - 1] == ' '
  {
    Scan(sec, lines).text
  }

  /** Line `j` opens the section and no non-blank line from `j` to the end
      of `lines` closes it. */
  ghost predicate OpenedAt(sec: Section, lines: seq<string>, j: int) {
    && 0 <= j < |lines|
    && !IsBlank(lines[j]) && Opens(sec, lines[j])
    && forall k :: j <= k < |lines| && !IsBlank(lines[k]) ==> !Closes(sec, lines[k])
  }

  /** After `lines`, the section is open: some line opened it and nothing
      since has closed it. */
  ghost predicate IsOpen(sec: Section, lines: seq<string>) {
    exists j :: OpenedAt(sec, lines, j)
  }

  /** Line `i` belongs to the section: it is not blank and the section is
      open once it has been read. */
  ghost predicate InSection(sec: Section, lines: seq<string>, i: int)
    requires 0 <= i < |lines|
  {
    !IsBlank(lines[i]) && IsOpen(sec, lines[..i + 1])
  }

  /** Reference text of a section: the lines that belong to it, in order,
      each stripped and followed by a space. */
  ghost function SectionText(sec: Section, lines: seq<string>): string
    decreases |lines|
  {
    if |lines| == 0 then ""
    else
      var n := |lines| - 1;
      SectionText(sec, lines[..n]) + (if InSection(sec, lines, n) then Strip(lines[n]) + " " else "")
  }

  /** Dropping the last line keeps an opening that came before it. */
  lemma OpenedShrink(sec: Section, lines: seq<string>, j: int)
    requires 0 <= j < |lines| - 1 && OpenedAt(sec, lines, j)
    ensures OpenedAt(sec, lines[..|lines| - 1], j)
  {
    var p := lines[..|lines| - 1];
    assert p[j] == lines[j];
    forall k | j <= k < |p| && !IsBlank(p[k])
      ensures !Closes(sec, p[k])
    {
      assert p[k] == lines[k];
    }
  }

  /** An opening survives a last line that is blank or does not close. */
  lemma OpenedGrow(sec: Section, lines: seq<string>, j: int)
    requires |lines| > 0 && OpenedAt(sec, lines[..|lines| - 1], j)
    requires IsBlank(lines[|lines| - 1]) || !Closes(sec, lines[|lines| - 1])
    ensures OpenedAt(sec, lines, j)
  {
    var p := lines[..|lines| - 1];
    assert p[j] == lines[j];
    forall k | j <= k < |lines| && !IsBlank(lines[k])
      ensures !Closes(sec, lines[k])
    {
      StillQuiet(sec, lines, j, k);
    }
  }

  lemma StillQuiet(sec: Section, lines: seq<string>, j: int, k: int)
    requires |lines| > 0 && OpenedAt(sec, lines[..|lines| - 1], j)
    requires IsBlank(lines[|lines| - 1]) || !Closes(sec, lines[|lines| - 1])
    requires j <= k < |lines|
    ensures IsBlank(lines[k]) || !Closes(sec, lines[k])
  {
    var p := lines[..|lines| - 1];
    if k < |p| {
      OpenedAtQuiet(sec, p, j, k);
      assert p[k] == lines[k];
    }
  }

  lemma OpenedAtQuiet(sec: Section, lines: seq<string>, j: int, k: int)
    requires OpenedAt(sec, lines, j) && j <= k < |lines|
    ensures IsBlank(lines[k]) || !Closes(sec, lines[k])
  {
  }

  /** A blank last line neither opens nor closes. */
  lemma OpenBlank(sec: Section, lines: seq<string>)
    requires |lines| > 0 && IsBlank(lines[|lines| - 1])
    ensures IsOpen(sec, lines) <==> IsOpen(sec, lines[..|lines| - 1])
  {
    if IsOpen(sec, lines) {
      OpenBlankShrink(sec, lines);
    }
    if IsOpen(sec, lines[..|lines| - 1]) {
      OpenStays(sec, lines);
    }
  }

  lemma OpenBlankShrink(sec: Section, lines: seq<string>)
    requires |lines| > 0 && IsBlank(lines[|lines| - 1]) && IsOpen(sec, lines)
    ensures IsOpen(sec, lines[..|lines| - 1])
  {
    var j :| OpenedAt(sec, lines, j);
    OpenedBeforeBlank(sec, lines, j);
    OpenedShrink(sec, lines, j);
  }

  /** A blank line cannot be the one that opened the section. */
  lemma OpenedBeforeBlank(sec: Section, lines: seq<string>, j: int)
    requires OpenedAt(sec, lines, j) && IsBlank(lines[|lines| - 1])
    ensures j < |lines| - 1
  {
  }

  /** A non-blank last line closes the section if it closes, opens it if it
      opens and does not close, and otherwise leaves it as it was. */
  lemma OpenNonBlank(sec: Section, lines: seq<string>)
    requires |lines| > 0 && !IsBlank(lines[|lines| - 1])
    ensures IsOpen(sec, lines) <==>
      !Closes(sec, lines[|lines| - 1])
      && (Opens(sec, lines[|lines| - 1]) || IsOpen(sec, lines[..|lines| - 1]))
  {
    var n := |lines| - 1;
    var open := IsOpen(sec, lines);
    var kept := !Closes(sec, lines[n]) && (Opens(sec, lines[n]) || IsOpen(sec, lines[..n]));
    if open {
      OpenNonBlankOnlyIf(sec, lines);
    }
    if kept {
      OpenNonBlankIf(sec, lines);
    }
    assert open <==> kept;
  }

  lemma OpenNonBlankOnlyIf(sec: Section, lines: seq<string>)
    requires |lines| > 0 && IsOpen(sec, lines)
    ensures !IsBlank(lines[|lines| - 1]) ==> !Closes(sec, lines[|lines| - 1])
    ensures Opens(sec, lines[|lines| - 1]) || IsOpen(sec, lines[..|lines| - 1])
  {
    var n := |lines| - 1;
    var j :| OpenedAt(sec, lines, j);
    if !IsBlank(lines[n]) {
      assert j <= n < |lines|;
    }
    if j < n {
      OpenedShrink(sec, lines, j);
    } else {
      assert Opens(sec, lines[j]);
    }
  }

  lemma OpenNonBlankIf(sec: Section, lines: seq<string>)
    requires |lines| > 0 && !IsBlank(lines[|lines| - 1]) && !Closes(sec, lines[|lines| - 1])
    requires Opens(sec, lines[|lines| - 1]) || IsOpen(sec, lines[..|lines| - 1])
    ensures IsOpen(sec, lines)
  {
    if Opens(sec, lines[|lines| - 1]) {
      OpenedAtLast(sec, lines);
    } else {
      OpenStays(sec, lines);
    }
  }

  /** An open section stays open across a last line that does not close it. */
  lemma OpenStays(sec: Section, lines: seq<string>)
    requires |lines| > 0 && IsOpen(sec, lines[..|lines| - 1])
    requires IsBlank(lines[|lines| - 1]) || !Closes(sec, lines[|lines| - 1])
    ensures IsOpen(sec, lines)
  {
    var j :| OpenedAt(sec, lines[..|lines| - 1], j);
    OpenedGrow(sec, lines, j);
  }

  /** A last line that opens and does not close opens the section. */
  lemma OpenedAtLast(sec: Section, lines: seq<string>)
    requires |lines| > 0 && !IsBlank(lines[|lines| - 1])
    requires Opens(sec, lines[|lines| - 1]) && !Closes(sec, lines[|lines| - 1])
    ensures OpenedAt(sec, lines, |lines| - 1)
  {
    var n := |lines| - 1;
    forall k | n <= k < |lines| && !IsBlank(lines[k]) ensures !Closes(sec, lines[k]) {
      assert k == n;
    }
  }

  /** The `record` flag is exactly "the section is open". */
  lemma {:induction false} ScanRecordsOpen(sec: Section, lines: seq<string>)
    ensures Scan(sec, lines).record <==> IsOpen(sec, lines)
    decreases |lines|
  {
    if |lines| == 0 {
      assert !IsOpen(sec, lines);
    } else {
      var n := |lines| - 1;
      ScanRecordsOpen(sec, lines[..n]);
      if IsBlank(lines[n]) {
        OpenBlank(sec, lines);
      } else {
        OpenNonBlank(sec, lines);
      }
    }
  }

  /** The parser gathers exactly the lines that belong to the section. */
  lemma {:induction false} ParseSectionText(sec: Section, lines: seq<string>)
    ensures ParseSection(sec, lines) == SectionText(sec, lines)
    decreases |lines|
  {
    if |lines| > 0 {
      var n := |lines| - 1;
      ParseSectionText(sec, lines[..n]);
      ScanRecordsOpen(sec, lines);
      if !IsBlank(lines[n]) {
        StepText(sec, Scan(sec, lines[..n]), lines[n]);
      }
      assert lines[..n + 1] == lines;
    }
  }

  /** A non-blank line adds its stripped text and a space exactly when
      recording is on once it has been read. */
  lemma StepText(sec: Section, st: ScanState, line: string)
    requires |st.text| == 0 || st.text[|st.text| - 1] == ' '
    requires !IsBlank(line)
    ensures Step(sec, st, line).text ==
      st.text + (if Step(sec, st, line).record then Strip(line) + " " else "")
  {
    assert st.text + "" == st.text;
  }

  /** Reference tokens of a section: the tokens of the lines that belong
      to it, in order. */
  ghost function SectionTokens(sec: Section, lines: seq<string>): seq<string>
    decreases |lines|
  {
    if |lines| == 0 then []
    else
      var n := |lines| - 1;
      SectionTokens(sec, lines[..n]) + (if InSection(sec, lines, n) then Split(lines[n]) else [])
  }

  /** The words of a parsed section are the words of its lines: gluing the
      stripped lines with spaces neither merges nor splits a word. */
  lemma {:induction false} SectionSplit(sec: Section, lines: seq<string>)
    ensures Split(ParseSection(sec, lines)) == SectionTokens(sec, lines)
    decreases |lines|
  {
    ParseSectionText(sec, lines);
    if |lines| > 0 {
      var n := |lines| - 1;
      SectionSplit(sec, lines[..n]);
      ParseSectionText(sec, lines[..n]);
      if InSection(sec, lines, n) {
        SplitTerminated(ParseSection(sec, lines[..n]), lines[n]);
      }
    }
  }

  /** An abstract is recorded from its heading line onwards: a file whose
      lines are a heading "Abstract" followed by lines that never mention a
      principal investigator yields the heading and those lines. */
  lemma {:induction false} AbstractFromHeading(lines: seq<string>, i: nat)
    requires i < |lines| && !IsBlank(lines[i])
    requires Opens(Abstract, lines[0])
    requires forall k :: 0 <= k < |lines| ==> !Closes(Abstract, lines[k])
    ensures InSection(Abstract, lines, i)
  {
    assert !IsBlank(lines[0]) by {
      assert Strip(lines[0]) != "" by {
        assert |LowerStr(Strip(lines[0]))| == 8;
      }
    }
    assert OpenedAt(Abstract, lines[..i + 1], 0);
  }

  /** The label that marks the keyword line. */
  const KeywordsLabel: string := "scientific keywords"

  /** The label that marks the category line. */
  const CategoryLabel: string := "scientific category"

  /** The values on one labelled line: the line lower-cased, every
      occurrence of the field with its ": " removed, trailing whitespace
      dropped, then cut at each comma (empty pieces kept). */
  function FieldValues(line: string, field: string): (vals: seq<string>)
    ensures |vals| >= 1
    ensures forall i :: 0 <= i < |vals| ==> ',' !in vals[i]
  {
    SplitOn(RStrip(ReplaceAll(LowerStr(line), field + ": ", "")), ',')
  }

  /** The values one line contributes: its field values when it starts with
      the field, nothing otherwise. */
  function LineValues(line: string, field: string): (vals: seq<string>)
    ensures forall i :: 0 <= i < |vals| ==> ',' !in vals[i]
  {
    if StartsWith(LowerStr(line), field) then FieldValues(line, field) else []
  }

  /** The values of every line that starts, case-insensitively, with the
      field, concatenated in line order. */
  function ParseField(lines: seq<string>, field: string): (vals: seq<string>)
    ensures forall i :: 0 <= i < |vals| ==> ',' !in vals[i]
    decreases |lines|
  {
    if |lines| == 0 then []
    else
      var n := |lines| - 1;
      ParseField(lines[..n], field) + LineValues(lines[n], field)
  }

  /** `parse_keywords_proposals`. */
  function ParseKeywords(lines: seq<string>): (kwds: seq<string>)
    ensures forall i :: 0 <= i < |kwds| ==> ',' !in kwds[i]
  {
    ParseField(lines, KeywordsLabel)
  }

  /** `parse_category_proposals`. */
  function ParseCategory(lines: seq<string>): (cats: seq<string>)
    ensures forall i :: 0 <= i < |cats| ==> ',' !in cats[i]
  {
    ParseField(lines, CategoryLabel)
  }

  /** The field parsers read each line on its own: the values of two files
      read one after the other are the values of each, concatenated. */
  lemma {:induction false} ParseFieldAppend(a: seq<string>, b: seq<string>, field: string)
    ensures ParseField(a + b, field) == ParseField(a, field) + ParseField(b, field)
    decreases |b|
  {
    if |b| == 0 {
      assert a + b == a;
    } else {
      var n := |b| - 1;
      ParseFieldAppend(a, b[..n], field);
      var ab := a + b;
      assert ab[..|ab| - 1] == a + b[..n];
      assert ab[|ab| - 1] == b[n];
      ParseFieldLast(ab, field);
      ParseFieldLast(b, field);
      var last := LineValues(b[n], field);
      AppendAssoc(ParseField(a, field), ParseField(b[..n], field), last);
    }
  }

  lemma ParseFieldLast(lines: seq<string>, field: string)
    requires |lines| > 0
    ensures ParseField(lines, field) ==
      ParseField(lines[..|lines| - 1], field) + LineValues(lines[|lines| - 1], field)
  {
  }

  /** A line made of the field's label in any case, ": ", and a remainder
      that does not repeat them is read as a field line, and gives the
      comma-separated pieces of the remainder, lower-cased and right-stripped;
      joined back with commas they are that remainder. */
  lemma {:induction false} FieldOfLabelledLine(field: string, tag: string, rest: string)
    requires field == KeywordsLabel || field == CategoryLabel
    requires LowerStr(tag) == field
    requires !Contains(LowerStr(rest), field + ": ")
    ensures LineValues(tag + ": " + rest, field) == FieldValues(tag + ": " + rest, field)
    ensures FieldValues(tag + ": " + rest, field) == SplitOn(RStrip(LowerStr(rest)), ',')
    ensures JoinOn(FieldValues(tag + ": " + rest, field), ',') == RStrip(LowerStr(rest))
  {
    var pat := field + ": ";
    assert LowerStr(pat) == pat;
    LowerStrAppend(tag, ": ");
    LowerStrAppend(tag + ": ", rest);
    assert LowerStr(tag + ": " + rest) == pat + LowerStr(rest);
    var low := pat + LowerStr(rest);
    assert StartsWith(low, field);
    assert low[..|pat|] == pat;
    assert low[|pat|..] == LowerStr(rest);
    ReplaceAbsent(LowerStr(rest), pat, "");
    assert ReplaceAll(low, pat, "") == LowerStr(rest);
    JoinSplitOn(RStrip(LowerStr(rest)), ',');
  }
}

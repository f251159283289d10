/** Parsing the category-synonyms file inside `run` (PACMan.py:127-131):
    each line that does not start with `#` must read `KEY = alias1,alias2,...`;
    the key and the right-hand side are stripped and the right-hand side is
    split on commas. A later line with the same key replaces an earlier one. */
module Synonyms {
  import opened Chars
  import opened Strings
  import opened Results

  /** The index of the line whose `key, value = line.split('=')` raised. */
  datatype SynonymError = MalformedLine(index: nat)

  type Registry = map<string, seq<string>>

  /** `key, value = line.split('=')` succeeds only with exactly one `=`. */
  predicate WellFormed(line: string) {
    multiset(line)['='] == 1
  }

  /** One definition line: `Some((key, aliases))` exactly when it has one `=`;
      the key is the stripped left side, the aliases the stripped right side
      cut at every comma. */
  function ParseLine(line: string): (r: Option<(string, seq<string>)>)
    ensures r.Some? <==> WellFormed(line)
  {
    var parts := SplitOn(line, '=');
    if |parts| != 2 then None
    else Some((Strip(parts[0]), SplitOn(Strip(parts[1]), ',')))
  }

  /** What a definition line yields: a key with no `=` and no whitespace at
      either end, and at least one alias, none containing a comma, which
      joined with commas give back the stripped right side (empty aliases
      are kept, inner spaces are not trimmed). */
  lemma ParseLineSpec(line: string)
    requires WellFormed(line)
    ensures var (key, aliases) := ParseLine(line).value;
      && '=' !in key
      && (|key| == 0 || (NotSpace(key[0]) && NotSpace(key[|key| - 1])))
      && |aliases| >= 1
      && (forall i :: 0 <= i < |aliases| ==> ',' !in aliases[i])
      && JoinOn(aliases, ',') == Strip(SplitOn(line, '=')[1])
    ensures exists i :: (0 <= i < |line| && line[i] == '=' && '=' !in line[..i] && '=' !in line[i + 1..]
      && Key(line) == Strip(line[..i]) && JoinOn(Aliases(line), ',') == Strip(line[i + 1..]))
  {
    var parts := SplitOn(line, '=');
    JoinSplitOn(Strip(parts[1]), ',');
    StripNoEquals(parts[0]);
    var i := KeySide(line);
  }

  /** The key is the stripped text before the one `=`, and the aliases join
      back into the stripped text after it. */
  lemma KeySide(line: string) returns (i: nat)
    requires WellFormed(line)
    ensures i < |line| && line[i] == '=' && '=' !in line[..i] && '=' !in line[i + 1..]
    ensures Key(line) == Strip(line[..i]) && JoinOn(Aliases(line), ',') == Strip(line[i + 1..])
  {
    i := EqualsAt(line);
    JoinSplitOn(Strip(line[i + 1..]), ',');
  }

  /** The one `=` of a well-formed line, and the two sides it separates. */
  lemma EqualsAt(line: string) returns (i: nat)
    requires WellFormed(line)
    ensures i < |line| && line[i] == '=' && '=' !in line[..i] && '=' !in line[i + 1..]
    ensures SplitOn(line, '=') == [line[..i], line[i + 1..]]
  {
    i := IndexOf(line, '=');
    assert '=' in multiset(line);
    assert line == line[..i] + [line[i]] + line[i + 1..];
    assert multiset(line[..i])['='] == 0;
    assert multiset(line[i + 1..])['='] == 0;
    SplitOnAt(line, '=', i);
    SplitOnNone(line[i + 1..], '=');
  }

  lemma StripNoEquals(s: string)
    requires '=' !in s
    ensures '=' !in Strip(s)
  {
    var r := Strip(s);
    var k := LeadLen(s);
    forall i | 0 <= i < |r| ensures r[i] != '=' {
      assert r[i] == s[k + i];
    }
  }

  datatype Option<+T> = None | Some(value: T)

  /** The loop over the file's lines. `Ok` holds the key to aliases map;
      `Err` names the first non-comment line without exactly one `=` (a
      blank line is such a line). */
  function ParseSynonyms(lines: seq<string>): (r: Result<Registry, SynonymError>)
    ensures r.Ok? <==> forall i :: 0 <= i < |lines| && !IsComment(lines[i]) ==> WellFormed(lines[i])
    ensures r.Err? ==> FirstMalformed(lines, r.error.index)
    decreases |lines|
  {
    if |lines| == 0 then Ok(map[])
    else
      var n := |lines| - 1;
      var prefix := lines[..n];
      var line := lines[n];
      assert forall i :: 0 <= i < n ==> prefix[i] == lines[i];
      match ParseSynonyms(prefix)
      case Err(e) => Err(e)
      case Ok(m) =>
        if IsComment(line) then Ok(m)
        else match ParseLine(line)
          case None => Err(MalformedLine(n))
          case Some(entry) => Ok(m[entry.0 := entry.1])
  }

  /** Line `i` is the first non-comment line that is not well formed. */
  ghost predicate FirstMalformed(lines: seq<string>, i: nat) {
    && i < |lines|
    && !IsComment(lines[i]) && !WellFormed(lines[i])
    && forall j :: 0 <= j < i && !IsComment(lines[j]) ==> WellFormed(lines[j])
  }

  /** The key a well-formed definition line defines. */
  function Key(line: string): string
    requires WellFormed(line)
  {
    ParseLine(line).value.0
  }

  /** The aliases a well-formed definition line lists. */
  function Aliases(line: string): seq<string>
    requires WellFormed(line)
  {
    ParseLine(line).value.1
  }

  /** One step of the loop, for a file that parses. */
  lemma ParseSynonymsStep(lines: seq<string>)
    requires |lines| > 0 && ParseSynonyms(lines).Ok?
    ensures var n := |lines| - 1;
      && ParseSynonyms(lines[..n]).Ok?
      && ParseSynonyms(lines).value ==
           if IsComment(lines[n]) then ParseSynonyms(lines[..n]).value
           else ParseSynonyms(lines[..n]).value[Key(lines[n]) := Aliases(lines[n])]
  {
  }

  /** A parsed registry has exactly the keys of the definition lines. */
  lemma SynonymsKeys(lines: seq<string>)
    requires ParseSynonyms(lines).Ok?
    ensures forall k :: k in ParseSynonyms(lines).value <==> IsDefined(lines, k)
  {
    forall k ensures k in ParseSynonyms(lines).value <==> IsDefined(lines, k) {
      if k in ParseSynonyms(lines).value {
        KeysSound(lines, k);
      }
      if IsDefined(lines, k) {
        var i :| 0 <= i < |lines| && !IsComment(lines[i]) && Key(lines[i]) == k;
        KeysComplete(lines, i);
      }
    }
  }

  lemma {:induction false} KeysSound(lines: seq<string>, k: string)
    requires ParseSynonyms(lines).Ok?
    requires k in ParseSynonyms(lines).value
    ensures IsDefined(lines, k)
    decreases |lines|
  {
    var n := |lines| - 1;
    var prefix := lines[..n];
    ParseSynonymsStep(lines);
    if IsComment(lines[n]) || Key(lines[n]) != k {
      KeysSound(prefix, k);
      var i :| 0 <= i < n && !IsComment(prefix[i]) && Key(prefix[i]) == k;
      assert lines[i] == prefix[i];
    } else {
      assert !IsComment(lines[n]) && Key(lines[n]) == k;
    }
  }

  lemma {:induction false} KeysComplete(lines: seq<string>, i: nat)
    requires ParseSynonyms(lines).Ok?
    requires i < |lines| && !IsComment(lines[i])
    ensures Key(lines[i]) in ParseSynonyms(lines).value
    decreases |lines|
  {
    var n := |lines| - 1;
    var prefix := lines[..n];
    ParseSynonymsStep(lines);
    if i < n {
      assert prefix[i] == lines[i];
      KeysComplete(prefix, i);
    }
  }

  /** Some definition line of the file defines key `k`. */
  ghost predicate IsDefined(lines: seq<string>, k: string)
    requires forall i :: 0 <= i < |lines| && !IsComment(lines[i]) ==> WellFormed(lines[i])
  {
    exists i :: 0 <= i < |lines| && !IsComment(lines[i]) && Key(lines[i]) == k
  }

  /** The aliases stored for a key come from the last definition line of
      that key: a later duplicate overwrites an earlier one. */
  lemma {:induction false} SynonymsLastWins(lines: seq<string>, i: nat)
    requires ParseSynonyms(lines).Ok?
    requires i < |lines| && !IsComment(lines[i])
    requires forall j :: i < j < |lines| && !IsComment(lines[j]) ==> Key(lines[j]) != Key(lines[i])
    ensures Key(lines[i]) in ParseSynonyms(lines).value
    ensures ParseSynonyms(lines).value[Key(lines[i])] == Aliases(lines[i])
    decreases |lines|
  {
    var n := |lines| - 1;
    var prefix := lines[..n];
    ParseSynonymsStep(lines);
    if i < n {
      assert prefix[i] == lines[i];
      forall j | i < j < n && !IsComment(prefix[j]) ensures Key(prefix[j]) != Key(prefix[i]) {
        assert prefix[j] == lines[j];
      }
      SynonymsLastWins(prefix, i);
    }
  }

  /** Comment lines never matter: dropping or adding them changes nothing. */
  lemma {:induction false} SynonymsSkipComment(lines: seq<string>, comment: string)
    requires IsComment(comment)
    ensures ParseSynonyms(lines + [comment]) == ParseSynonyms(lines)
  {
    assert (lines + [comment])[..|lines|] == lines;
  }

  /** A line that is neither a comment nor well formed stops the parse there. */
  lemma MalformedLineFails(lines: seq<string>, line: string)
    requires ParseSynonyms(lines).Ok?
    requires !IsComment(line) && !WellFormed(line)
    ensures ParseSynonyms(lines + [line]) == Err(MalformedLine(|lines|))
  {
    assert (lines + [line])[..|lines|] == lines;
  }

  /** A blank line (whitespace only, such as "\n") is not a comment and has
      no `=`, so it makes parsing fail. */
  lemma BlankLineFails(lines: seq<string>, blank: string)
    requires ParseSynonyms(lines).Ok?
    requires AllSpace(blank)
    ensures ParseSynonyms(lines + [blank]) == Err(MalformedLine(|lines|))
  {
    BlankMalformed(blank);
    MalformedLineFails(lines, blank);
  }

  lemma BlankMalformed(blank: string)
    requires AllSpace(blank)
    ensures !IsComment(blank) && !WellFormed(blank)
  {
    assert '=' !in blank;
    assert multiset(blank)['='] == 0;
    if |blank| > 0 {
      assert IsSpace(blank[0]);
    }
  }
}

# PACMan text pipeline and helpers, in Dafny

PACMan sorts telescope proposals, and the publication records of the
people who review them, into science categories. It runs Naive Bayes over a
normalised bag of words. This project models the logic in `PACMan.py` that
can be checked on its own. That logic covers:

- **The token pipeline of `work_string`** (modules `Cleanup` and `Normalizer`).
  - It strips punctuation, whole-word digit runs, and six encoding-artifact bytes.
  - It applies `filterStopwords`: lowercase, drop stop words, sort, join with single spaces.
  - It drops one-character words.
  - It stems each word with Porter2.
  - It applies a second stop-word pass against the stem-level list `add_stops`.
- **Category-synonyms parsing** in `run` (module `Synonyms`): from `KEY = alias,alias` lines to a map.
- **Result calibration** (module `Calibration`).
  - `normalize_result` divides each score by the total.
  - `return_most_probable` keeps a prefix of the results until it covers 0.60 of the probability.
- **Input readers** (modules `Sections` and `Corpus`).
  - The abstract and scientific-justification section extractors. Each is a two-state record/skip machine over lines.
  - The keyword and category line parsers.
  - The plain-text corpus reader, and the proposal text built from the two sections.
  - The author-list reader, the name of the cached author results, and the author text.
  - `cleanup_abstracts`.
- **`hindex`** (module `HIndex`).

The supporting modules are as follows.

- `Chars`: byte classes.
- `Strings`: Python 2 `str` methods over byte strings.
- `Tokens`: `str.split()` as the maximal whitespace-free runs, and `' '.join`.
- `Order`: byte-string ordering and `list.sort()`.
- `Results`: the `Result` type.

## Modelling decisions

- **Byte strings.** Python 2 `str` values are byte strings. They are modelled as `string` with one `char` per byte.
  - Whitespace is `str.isspace` on bytes: space and `\t` to `\r`.
  - `lower()` changes only `A`–`Z`.
  - The word characters for the regex `\b` are `[A-Za-z0-9_]`.
  - `string.punctuation` is the four ASCII ranges `!`–`/`, `:`–`@`, `[`–`` ` ``, `{`–`~`.
- **The stemmer.** Porter2 `stem` is a library whose code is not part of this model. It is a function parameter `stem`.
  - Some properties need the stemmer to return one non-empty word without whitespace. Those lemmas state this with `requires StemWellFormed(stem)`.
  - That is an assumption about the library. It is not proved here.
- **Number stripping.** `re.sub('\b[0-9]+\b', '', s)` is modelled two ways, proved equal by `Cleanup.RegexAgrees`.
  - As a left-to-right scan, `RegexStripNumbers`.
  - As a run-based definition, `StripNumbers`: delete every maximal word run made only of digits.
- **Scores** are exact `real`s.
- **Files** are the list of lines `readlines` returns. The stop-word file is given as its text.
- **The pipeline's output.** A string's tokens are `Split`.
  - Sorting is insertion sort under Python 2's byte-string order.
  - `Order.SortedUnique` shows that the sort's result does not depend on the sorting algorithm.
- **Behaviour of the code worth noting.** Four behaviours of the code are easy to misread, and the model follows the code in each.
  - A blank line in the synonyms file is not ignored. `line.split('=')` finds no `=`, the unpacking raises, and the parse fails (`Synonyms.BlankLineFails`).
  - `return_most_probable` does not sort. It keeps at most `n - 1` entries for `n` categories, and it stops at the first prefix that reaches 0.60. So `[0.34, 0.33, 0.33]` over three categories keeps two entries, not three (`Calibration.CoverageExampleNearlyEven`).
  - `normalize_result([])` returns `[]` rather than failing. A non-empty list whose scores sum to zero raises `ZeroDivisionError`, modelled as `Err(ZeroTotal)`.
  - `filterStopwords` sorts in both stop-word passes, not once at the end.

## Model

| member | source | states |
|---|---|---|
| `Chars.Lower` | PACMan.py:231-234 | lowering one byte yields no upper-case letter, keeps whitespace and word characters in their classes, and leaves every non-upper-case byte unchanged |
| `Strings.LowerStrIdempotent` | PACMan.py:231-234 | lowering a lowered string changes nothing |
| `Strings.RStrip` | PACMan.py:175 | `rstrip()` is a prefix of its input followed only by whitespace, and ends in a non-space byte or is empty |
| `Strings.Strip` | PACMan.py:154 | `strip()` is the slice after the leading whitespace; only whitespace surrounds it, and both its ends are non-space |
| `Strings.StripEmptyIffAllSpace` | PACMan.py:153 | `not line.strip()` holds exactly when the line is all whitespace |
| `Strings.SplitOn` | PACMan.py:130-131 | `s.split(c)` has one more piece than `s` has separators, and no piece contains the separator |
| `Strings.JoinSplitOn` | PACMan.py:131 | joining the pieces of `s.split(c)` with `c` gives `s` back |
| `Strings.SplitJoinOn` | PACMan.py:131 | splitting separator-free pieces after joining them gives the pieces back |
| `Strings.ReplaceAll` | PACMan.py:298 | `str.replace`, used here and for the cached name at line 167: replacing with a string as long as the pattern keeps the length, a shorter one never lengthens, and an empty pattern inserts `rep` at each of the `|s| + 1` positions; `ReplaceAbsent`, `ReplaceWhole`, `ReplaceFront` and `ReplaceTail` fix the content for the inputs the core sees |
| `Strings.ReplaceTail` | PACMan.py:167 | when the pattern occurs only at the very end, only that occurrence is replaced |
| `Strings.ReplaceAbsent` | PACMan.py:298 | `replace` of a non-empty string that does not occur changes nothing |
| `Strings.ReplaceWhole` | PACMan.py:167 | replacing a whole string by `rep` yields `rep`, the empty string included |
| `Tokens.Split` | PACMan.py:228 | every token of `split()` is non-empty and has no whitespace |
| `Tokens.SplitJoin` | PACMan.py:238 | splitting a space-joined list of tokens gives the list back |
| `Tokens.JoinEdges` | PACMan.py:238 | a space-joined list of tokens is empty only for the empty list and has no leading or trailing whitespace |
| `Tokens.SplitPrefixed` | PACMan.py:205-211 | the tokens of the string built as `' ' + word` for each word are those words |
| `Tokens.SplitStrip` | PACMan.py:154 | `strip()` never changes the tokens of a line |
| `Tokens.SplitSpaced` | PACMan.py:189 | the tokens of `a + ' ' + b` are the tokens of `a` followed by those of `b` |
| `Tokens.SplitTerminated` | PACMan.py:154 | appending `line.strip() + ' '` to text that is empty or ends in a space adds exactly the line's tokens |
| `Order.LessEqTotal` | PACMan.py:237 | any two byte strings are ordered one way or the other |
| `Order.LessEqTrans` | PACMan.py:237 | the byte-string order is transitive |
| `Order.LessEqAntisym` | PACMan.py:237 | two strings each at most the other are equal |
| `Order.Insert` | PACMan.py:237 | inserting into a sorted list keeps it sorted and adds exactly the one element |
| `Order.Sort` | PACMan.py:237 | `list.sort()` yields an ascending permutation of its input |
| `Order.SortSorted` | PACMan.py:237 | sorting a sorted list leaves it unchanged |
| `Order.SortedUnique` | PACMan.py:237 | two sorted lists with the same elements are equal, so the sort is determined by the multiset |
| `Strings.Without` | PACMan.py:351-355 | deleting a byte class leaves none of its bytes |
| `Strings.WithoutCounts` | PACMan.py:351-355 | deleting a byte class keeps the count of every other byte and zeroes the deleted ones |
| `Strings.WithoutAppend` | PACMan.py:351-355 | deleting bytes from two strings read one after the other is deleting from each |
| `Cleanup.StripPunct` | PACMan.py:342-351 | after `nopunk.sub` no punctuation byte remains, and every other byte keeps its count |
| `Cleanup.StripArtifacts` | PACMan.py:355 | after the artifact substitution none of the six bytes remains, and every other byte keeps its count |
| `Cleanup.DropNumbers` | PACMan.py:353 | no all-digit word remains among the kept words |
| `Cleanup.StripNumbers` | PACMan.py:353 | a non-word byte at the front of the text stays at the front |
| `Cleanup.StripNumbersSpec` | PACMan.py:353 | the word runs after stripping are the old ones minus the all-digit ones, and the non-word bytes are unchanged, so `abc123` survives |
| `Cleanup.StripNumbersLeavesNoBareNumber` | PACMan.py:353 | after stripping no maximal word run is all digits |
| `Cleanup.StripNumbersKeepsAbsence` | PACMan.py:351-353 | stripping numbers cannot bring back a byte that was absent, such as punctuation |
| `Cleanup.RegexStripNumbers` | PACMan.py:353 | the scan only deletes, so its result is never longer than its input; `RegexAgrees` fixes what it deletes |
| `Cleanup.RegexAgrees` | PACMan.py:353 | the left-to-right regex scan for `\b[0-9]+\b` deletes exactly the all-digit word runs |
| `Cleanup.RegexDropsNumber` | PACMan.py:353 | a word run made only of digits is one match of `\b[0-9]+\b` and is deleted |
| `Cleanup.RegexKeepsWord` | PACMan.py:353 | a word run holding a non-digit never matches and is copied whole |
| `Cleanup.StripArtifactsKeepsNoBareNumbers` | PACMan.py:353-355 | removing artifact bytes, which may glue words together, never creates a bare number |
| `Cleanup.CleanText` | PACMan.py:350-355 | after the three cleanup steps no punctuation, no artifact byte and no bare digit word remains |
| `Normalizer.PrimaryStopwords` | PACMan.py:213-219 | the primary stop list is the file's words, in order, then the 27 fixed extra words |
| `Normalizer.Marked` | PACMan.py:228-234 | the kept words are lower-case, not stop words, and are exactly the lowered input words whose lowered form is not a stop word |
| `Normalizer.MarkedOne` | PACMan.py:230-234 | one word is kept lowered, or dropped when its lowered form is a stop word |
| `Normalizer.MarkedAppend` | PACMan.py:230-234 | the kept list of a concatenation is the kept lists of the parts in order, duplicates included, so with `MarkedOne` the loop's output is fixed word by word |
| `Normalizer.FilterStopwords` | PACMan.py:225-240 | the output's tokens are sorted, single-space joined with no edge spaces, and are a permutation of the kept words, duplicates included |
| `Normalizer.FilterStopwordsTokens` | PACMan.py:225-240 | the output's tokens are the sorted list of kept words |
| `Normalizer.FilterStopwordsIdempotent` | PACMan.py:225-240 | a second pass with the same stop list returns the same string |
| `Normalizer.MarkedFixed` | PACMan.py:230-234 | a list of lower-case non-stop words passes the filter unchanged |
| `Normalizer.MarkedAllStopped` | PACMan.py:230-234 | when every lowered word is a stop word nothing is kept |
| `Normalizer.LongTokens` | PACMan.py:362-367 | every kept token is longer than one byte |
| `Normalizer.LongTokensCounts` | PACMan.py:362-367 | the single-character filter keeps every longer token as often as it occurred and no shorter one |
| `Normalizer.LongTokensInOrder` | PACMan.py:362-367 | the kept tokens keep their original order |
| `Normalizer.LongTokensMember` | PACMan.py:362-367 | a token is kept exactly when it occurs and is longer than one byte |
| `Normalizer.DropSingleChars` | PACMan.py:362-367 | the tokens of the filtered string are exactly the input tokens longer than one byte, in order; `LongTokensCounts` and `LongTokensInOrder` pin that list down |
| `Normalizer.StemAll` | PACMan.py:205-211 | stemming maps each word to its stem, one for one |
| `Normalizer.StemWords` | PACMan.py:205-211 | with a well-formed stemmer the tokens of `stemWords` are the stems of the input tokens, one for one and in order |
| `Normalizer.WorkString` | PACMan.py:348-373 | the result is total, sorted, canonically spaced, and contains no `add_stops` token |
| `Normalizer.WorkStringTokens` | PACMan.py:348-373 | with a well-formed stemmer, a word is in the output exactly when it is the lowered stem of a cleaned, lowered, non-stop word longer than one byte and is not in `add_stops` |
| `Normalizer.OutputComesFrom` | PACMan.py:359-371 | every output word comes from such a source word |
| `Normalizer.SourceReachesOutput` | PACMan.py:359-371 | every such source word's stem that is not in `add_stops` reaches the output |
| `Normalizer.OutputStem` | PACMan.py:368-371 | every output word is outside `add_stops` and is the lowered stem of a word that passed the single-character filter |
| `Normalizer.LongFromSource` | PACMan.py:359-366 | every word that passes the single-character filter is the lowered form of a cleaned word longer than one byte that is not a stop word |
| `Normalizer.WorkStringEmpty` | PACMan.py:348-373 | the empty text yields the empty string, without failing |
| `Normalizer.WorkStringAllStopwords` | PACMan.py:348-373 | a text made only of stop words yields the empty string |
| `Synonyms.ParseLine` | PACMan.py:130-131 | a line unpacks into key and value exactly when it holds one `=` |
| `Synonyms.ParseLineSpec` | PACMan.py:130-131 | the key is the stripped text before the line's one `=`, so it is `=`-free with no edge whitespace; the aliases are at least one, comma-free, and join back with commas into the stripped text after the `=` |
| `Synonyms.ParseSynonyms` | PACMan.py:127-131 | parsing succeeds exactly when every non-comment line holds one `=`; on failure it names the first such line |
| `Synonyms.SynonymsKeys` | PACMan.py:127-131 | the keys of the map are exactly the keys of the non-comment lines |
| `Synonyms.SynonymsLastWins` | PACMan.py:131 | a key maps to the aliases of the last line that defines it |
| `Synonyms.SynonymsSkipComment` | PACMan.py:129 | a `#` line changes nothing |
| `Synonyms.BlankLineFails` | PACMan.py:130 | a blank line makes the parse fail at that line |
| `Calibration.NormalizeResult` | PACMan.py:319-326 | normalising fails exactly for a non-empty list with zero total; otherwise each entry keeps its category and position and its score becomes the score divided by the total |
| `Calibration.TotalScale` | PACMan.py:321-325 | dividing every score by `d` divides the total by `d` |
| `Calibration.NormalizeSumsToOne` | PACMan.py:319-326 | a non-empty list with a non-zero total normalises to scores summing to 1 |
| `Calibration.NormalizeKeepsRanking` | PACMan.py:319-326 | with a positive total, normalising keeps the order between any two scores, both ways |
| `Calibration.NormalizeInUnitRange` | PACMan.py:319-326 | non-negative scores with a positive total normalise into [0, 1] |
| `Calibration.DivMonotone` | PACMan.py:325 | helper for `NormalizeKeepsRanking`: dividing by a positive total keeps the order of two scores, both ways |
| `Calibration.TotalBounds` | PACMan.py:322-323 | with non-negative scores each score is at most the total |
| `Calibration.CutoffUnique` | PACMan.py:328-338 | the cut-off of `return_most_probable` is determined by the scores and the category count |
| `Calibration.ReturnMostProbable` | PACMan.py:328-338 | the result is the unsorted input's prefix, of length the first `k <= n-1` whose prefix reaches 0.60, else `n-1`; non-empty for `n >= 2`, empty for `n <= 1` |
| `Calibration.CoverageExampleFirstTwo` | PACMan.py:332 | scores 0.5, 0.3, 0.2 over three categories keep the first two |
| `Calibration.CoverageExampleNearlyEven` | PACMan.py:332 | scores 0.34, 0.33, 0.33 over three categories keep two, not three |
| `Calibration.CoverageExampleShortList` | PACMan.py:332-335 | one score 0.9 over five categories is kept although the list is shorter than `n - 1` |
| `Sections.Scan` | PACMan.py:262-271 | the gathered text is empty or ends in a space |
| `Sections.ScanRecordsOpen` | PACMan.py:264-270 | the record flag is on exactly when some non-blank line opened the section and no later non-blank line closed it |
| `Sections.OpenBlank` | PACMan.py:265 | a blank line leaves the section open or closed as it was |
| `Sections.OpenNonBlank` | PACMan.py:266-269 | a non-blank line that closes turns recording off, even when it also opens; one that opens turns it on; otherwise the flag is unchanged |
| `Sections.ParseSection` | PACMan.py:258-288 | the extracted text is empty or ends in one space; `ParseSectionText` fixes its content |
| `Sections.ParseSectionText` | PACMan.py:258-288 | the extracted text is the stripped lines that belong to the section, in order, each followed by one space |
| `Sections.SectionSplit` | PACMan.py:264-271 | the words of the extracted text are the words of the section's lines, in order |
| `Sections.AbstractFromHeading` | PACMan.py:266-270 | after an `abstract` heading, every non-blank line is recorded until a principal-investigator line |
| `Sections.FieldValues` | PACMan.py:298 | the values of a labelled line are at least one, and none contains a comma |
| `Sections.ParseFieldAppend` | PACMan.py:295-299 | the keyword or category values of two files read one after the other are those of each, concatenated |
| `Sections.FieldOfLabelledLine` | PACMan.py:297-298 | a line `tag: rest` whose tag lowers to the label, such as `Scientific Keywords: Stars`, is read as a field line; its values are the comma pieces of `rest` lowered and right-stripped, and they join back into it |
| `Sections.ParseField` | PACMan.py:291-309 | no value of a labelled line holds a comma; `FieldOfLabelledLine` and `ParseFieldAppend` fix the values |
| `Sections.ParseKeywords` | PACMan.py:291-299 | no keyword contains a comma |
| `Sections.ParseCategory` | PACMan.py:301-309 | no category contains a comma |
| `Corpus.CorpusText` | PACMan.py:150-155 | the plain-text reader's output is empty or ends in a space |
| `Corpus.CorpusTokens` | PACMan.py:150-155 | the words of that output are exactly the words of the lines that are neither comments nor blank, in order |
| `Corpus.CorpusSkipsComment` | PACMan.py:152 | a comment line contributes nothing |
| `Corpus.ProposalText` | PACMan.py:142-145 | the proposal text starts with a space |
| `Corpus.ProposalTokens` | PACMan.py:142-145 | the proposal text's words are the abstract's words followed by the justification's |
| `Corpus.FirstField` | PACMan.py:175 | the first field holds no tab |
| `Corpus.AuthorName` | PACMan.py:178 | a recorded name has no quote of either kind and no upper-case letter, and holds a tab exactly when its field did |
| `Corpus.AuthorNameAppend` | PACMan.py:178 | the name of a concatenation is the concatenation of the names, so the kept bytes stay in order |
| `Corpus.AuthorNameOne` | PACMan.py:178 | a single quote byte of either kind vanishes and any other byte is lowered |
| `Corpus.AuthorRecords` | PACMan.py:172-178 | there is at most one record per line, and none holds a quote or a tab |
| `Corpus.AuthorRecordsAppend` | PACMan.py:172-178 | the records of two files read one after the other are the records of each, in order, so with `AuthorRecordOfNameLine` the list is fixed line by line |
| `Corpus.FirstFieldOfTabbed` | PACMan.py:175 | a line that starts with a name that holds no tab and does not end in whitespace, then a tab, has that name as its first field, whatever follows; inner spaces are allowed |
| `Corpus.AuthorRecordOfNameLine` | PACMan.py:172-178 | a line made of a lower-case, quote-free name that does not start with `#` or whitespace or end in whitespace, then a tab and anything else, is recorded as exactly that name, inner spaces included |
| `Corpus.AuthorTextAsWritten` | PACMan.py:186-191 | as written, no abstracts give the empty text and otherwise only the last abstract's words reach the classifier |
| `Corpus.AuthorText` | PACMan.py:186-191 | the intended author text starts with a space when there is any abstract |
| `Corpus.AuthorTextTokens` | PACMan.py:186-191 | the intended author text carries the words of every abstract, in order |
| `Corpus.AuthorTextLosesAbstracts` | PACMan.py:186-191 | with two abstracts and a word in the first, the text as written differs from the intended one |
| `Corpus.PickleNameAsWritten` | PACMan.py:167 | as written, a name without a dot becomes `pkl` |
| `Corpus.PickleNameAsWrittenRepeated` | PACMan.py:167 | as written, `w.w` becomes `pkl.pkl` |
| `Corpus.PickleNameOnce` | PACMan.py:167 | for `stem.ext` with no other dot and the extension not occurring in the stem, the name as written and the intended name are both `stem.pkl` |
| `Corpus.PickleName` | PACMan.py:167 | the intended name's dot-separated pieces are the corpus's pieces minus the extension, or the whole dot-less name, then `pkl` |
| `Corpus.PickleNameRepeated` | PACMan.py:167 | the intended name for `w.w` is `w.pkl` |
| `Corpus.CleanupAbstracts` | PACMan.py:312-317 | exactly the abstracts of more than fifty words are kept, unchanged |
| `Corpus.CleanupIdempotent` | PACMan.py:312-317 | filtering twice keeps what filtering once kept |
| `HIndex.InsertDesc` | PACMan.py:378 | inserting into a descending list keeps it descending and adds exactly the one element |
| `HIndex.SortDesc` | PACMan.py:378 | `sorted(list, reverse=True)` is a descending permutation of its input |
| `HIndex.BreakIndex` | PACMan.py:378-379 | the loop stops at the first position whose index exceeds its count, or at the last position |
| `HIndex.HIndexAsWritten` | PACMan.py:377-380 | as written, an empty list fails, and otherwise the result lies between 1 and the number of papers |
| `HIndex.CountPermutation` | PACMan.py:378 | the number of papers reaching a count does not depend on their order |
| `HIndex.HIndexUnique` | PACMan.py:377-380 | the h-index is well defined |
| `HIndex.HIndex` | PACMan.py:377-380 | the intended h-index: `h` papers have at least `h` citations and no larger number has that property; 0 for an empty list |
| `HIndex.HIndexAsWrittenOvercounts` | PACMan.py:377-380 | three papers cited once: the h-index is 1 but the function as written returns 3 |
| `HIndex.HIndexAsWrittenAtLeast` | PACMan.py:377-380 | the function as written never returns less than the h-index, so all its errors are overcounts |

## Left out

- `main` and its `getopt` handling (PACMan.py:53-121) are command-line plumbing.
- Every `open`, `readlines` and `read` is left out. The readers take lines, and the stop-word file is given as its text.
- The Bayes classifier's `load` and `guess` (PACMan.py:136-137, 157, 192) are a library whose code is not part of this model.
  - The Bayes library's training and scoring are not in PACMan.py, so they are not modelled.
- The Porter2 stemmer's internals are not modelled. It is a parameter, and `StemWellFormed` is an assumption about it.
- The literature-service crawl, `pickle` persistence and `pylab.rec` (PACMan.py:163-199) are network, serialisation and library calls. The cached file's name, the author list and the author text are modelled.
- `parse_old_abstracts` (PACMan.py:242-256) is not modelled. Its error path drops into the debugger and can use an unbound `nkey`.
- `Calibration.ReturnMostProbable` requires at least `n - 1` results for `n` categories, or some prefix whose scores reach 0.60. Otherwise `result[cnt]` runs past the end and the source drops into the debugger (PACMan.py:333-336), which has no model.
- `Calibration.NormalizeResult` and `Calibration.ReturnMostProbable` use exact reals, so neither float rounding nor Python 2 integer division of integer scores is modelled. The threshold 0.60 is the exact rational.
- Only the regex character classes the source uses are modelled, not a regex engine. There is no Unicode semantics.
- `Normalizer.WorkStringTokens`, `Normalizer.StemWords`, `Normalizer.OutputComesFrom`, `Normalizer.OutputStem` and `Normalizer.SourceReachesOutput` hold only for a stemmer that returns one non-empty, whitespace-free word.
- `Cleanup.StripNumbers` states in its own contract only that a leading non-word byte stays in front. Its full behaviour is in `Cleanup.StripNumbersSpec` and `Cleanup.RegexAgrees`.
- `Cleanup.RegexStripNumbers` states in its own contract only that the result is no longer than the input. What it deletes is in `Cleanup.RegexAgrees`.
- `Sections.ParseSection` states in its own contract only that the text is empty or ends in a space. Its content is in `Sections.ParseSectionText` and `Sections.SectionSplit`.
- `Strings.ReplaceAll` states in its own contract only the length of the result. Its content is fixed by `Strings.ReplaceAbsent` (no occurrence), `Strings.ReplaceWhole` (the whole string), `Strings.ReplaceFront` (an occurrence at the front) and `Strings.ReplaceTail` (one occurrence at the end). A general occurrence in the middle is not characterised.
- `Corpus.PickleNameAsWritten`: the cached name as written is stated for a dot-less name, for `w.w`, and for `stem.ext` whose extension does not occur in the stem. A name with several dots, or whose extension occurs inside the stem other than as `w.w`, is not characterised.
- `Sections.ParseField`, `Sections.ParseKeywords` and `Sections.ParseCategory` state in their own contracts only that no value holds a comma. The content of the values is in `Sections.FieldOfLabelledLine` and `Sections.ParseFieldAppend`.
- `Corpus.AuthorRecords`: the reader does not promise non-empty names. A first field made only of quotes is recorded as the empty string, as in the source.

## Findings

| source | as written | input that shows it | evidently intended | confidence | as-written member | corrected member |
|---|---|---|---|---|---|---|
| PACMan.py:377-380 | `hindex` breaks at the first `i` with `i > sorted_desc[i]` and returns `i + 1`, or the length when there is no break; an empty list leaves `i` unbound and raises | `[1, 1, 1]` gives 3; the h-index is 1 | the largest `h` such that `h` papers have at least `h` citations, 0 for no papers | high, not executed | `HIndex.HIndexAsWrittenOvercounts` | `HIndex.HIndex` |
| PACMan.py:167 | `corpus.replace(corpus.split('.')[-1], 'pkl')` replaces every occurrence of the last dot-segment, or the whole name when there is no dot | `txt.txt` gives `pkl.pkl`; `authors` gives `pkl` | swap only the extension, or append `.pkl` when there is none | high, not executed | `Corpus.PickleNameAsWrittenRepeated` | `Corpus.PickleName` |
| PACMan.py:186-191 | `bayesString = ' '+abstract` overwrites the text for every abstract, so only the last one is classified | two abstracts `supernova` and `galaxy` classify only `galaxy` | concatenate every abstract of the author, each after a space | medium, not executed | `Corpus.AuthorTextLosesAbstracts` | `Corpus.AuthorTextTokens` |

# GPQA Diamond result analysis, modelled in Dafny

This project models the decision logic of the two analysis scripts of an
evaluation repository. The repository runs Llama 3.1 models (8B, 70B, 405B)
on GPQA Diamond and then compares their results. The model covers:

- **Record extraction from an HTML report, two ways.**
  - `parse_html_results` (analysis/deep_analysis.py) runs five `re.findall`s
    over the whole report. It zips the matches by position against the list
    of assistant responses, with defaults where a list is short.
  - `parse_html_report` (analysis/compare_models.py) splits the report on
    `<hr>` and keeps the sections that hold `Correct Answer:`. It reads one
    record from each kept section with `re.search`.
- **Failure classification.** `classify_failure` is a first-match-wins rule
  chain: correct, wrong answer, repetitive loop, truncation, hidden answer,
  the letter scan over A–D, and the fallback. Its result is a closed set of
  (category, subtype) pairs.
- **Cross-model analysis.**
  - `analyze_model_overlap` is the if/elif partition of per-index
    correctness triples, plus the separate scaling pattern.
  - The `load_results` counters: `total_questions` and `format_failures`.
  - `analyze_patterns`:
    - the per-model summary dicts;
    - the reference model, i.e. the first with the most records;
    - the position-by-position `per_question` rows;
    - the `all_correct`, `all_wrong` and `only_large_correct` lists.
  - The dictionary `export_comparison` writes.

Files, one module each:

| file | module | models |
|---|---|---|
| wrappers.dfy | Wrappers | `Option` and `Result` (Python exceptions become `Failure`) |
| text.dfy | Text | `str.find`, `split(sep)`, `count`, `split()`, `strip()`, `lower()`, slicing |
| seqs.dfy | Seqs | ascending index lists and the positions of a flag list |
| scan.dfy | Scan | the fixed regular expressions of both parsers as scanners with `re.search` / `re.findall` semantics |
| numbers.dfy | Numbers | `float()` on decimal text, as an exact rational |
| heuristics.dfy | Heuristics | the hidden-answer and explicit-letter regex families |
| deep_extract.dfy | DeepExtract | `parse_html_results` |
| classifier.dfy | Classifier | `classify_failure` |
| overlap.dfy | Overlap | `analyze_model_overlap` |
| report_parser.dfy | ReportParser | `parse_html_report` |
| result_sets.dfy | ResultSets | the counters of `load_results` |
| pattern_analysis.dfy | PatternAnalysis | `analyze_patterns` |
| export.dfy | Export | the `export_data` dict of `export_comparison` |

Modelling conventions:
- **Dicts.** A Python dict is a sequence of (key, value) pairs in insertion
  order. `all_results` is a sequence of `Entry` values with distinct model
  names; an entry holds `None` when `load_results` found no run.
- **Scores.** Scores are exact `real`s. The code only ever compares a score with `1.0`.
- **Regexes.** Each regex is modelled for its own fixed pattern. The field
  patterns are a marker followed by a capture class. The block patterns are
  `lead.*?<pre>(.*?)</pre>` under DOTALL, whose lazy stars take the first
  `<pre>` after the lead and then the first `</pre>` after that.
- **Heuristic patterns.** The hidden-answer and letter patterns are sequences
  of literals and `[:\s]+` gaps, matched case-insensitively.

Four behaviours of the code shape the model:
- **Alignment.** `analyze_patterns` aligns the models against the longest
  record list, the reference model, not the shortest. At each position it
  lists only the models that have a record there, and it warns about nothing.
- **Bad scores abort the parse.** In both parsers, `float()` raises
  `ValueError` on a bad score capture, which aborts the whole parse: `"."`
  for `[0-9.]+`, any non-numeric text for `[^<\n]+`. No partial record list
  is returned. The model returns a `Failure` naming the first such capture.
- **Fixed model names.** The code hardcodes the keys `8B`/`70B`/`405B` in the
  overlap analysis and `llama-405b`/`llama-8b` in `only_large_correct`, and
  so does the model.
- **Short lists in the overlap.** `analyze_model_overlap` raises `IndexError`
  when the 70B or 405B list is shorter than the 8B list. The model returns
  `Failure(IndexOutOfRange)` exactly then.

## Model

| member | source | states |
|---|---|---|
| Text.Split | analysis/compare_models.py:24 | Splitting on `<hr>` gives at least one piece. Joining the pieces with `<hr>` gives the report back, and no piece contains `<hr>`. |
| Text.Count | analysis/deep_analysis.py:88 | For a non-empty phrase, `str.count` is the number of occurrences the left-to-right non-overlapping scan counts (`CountedFrom`, described by CountedFromSpaced and CountedCoversAll). For the empty phrase it is length + 1. It is positive exactly when the phrase occurs, and count × length ≤ text length. |
| Text.CountedCoversAll | analysis/deep_analysis.py:88 | The left-to-right scan behind `str.count` misses nothing: every occurrence of the phrase overlaps a counted one. |
| Text.CountedFromSpaced | analysis/deep_analysis.py:88 | Every counted start is an occurrence, and each counted occurrence ends before the next starts, so the copies do not overlap. |
| Text.Words | analysis/deep_analysis.py:84 | `split()` yields non-empty whitespace-free words that, concatenated, are exactly the non-whitespace characters of the text, in order. |
| Text.WordsAreRuns | analysis/deep_analysis.py:84 | Word k is the maximal run of non-whitespace starting at the k-th word start, a non-whitespace character at the beginning or after whitespace. So `split()` yields one word per start and no word extends or stops short of its run. |
| Text.Strip | analysis/deep_analysis.py:47-48 | `strip()` returns a piece of the label with only whitespace around it, and the piece neither starts nor ends with whitespace. |
| Text.TakeLast | analysis/deep_analysis.py:83 | `response[-500:]` is the trailing piece of the response, of length min(500, length). |
| Text.Take | analysis/compare_models.py:146 | `question[:100]` is the prefix of length min(100, length). |
| Scan.SearchFrom | analysis/compare_models.py:39-49 | `re.search` finds the match with the leftmost start; no earlier position matches. |
| Scan.CapturedText | analysis/compare_models.py:39-49 | What a field pattern captures is a single letter A–D, `None`, a non-empty run of `[0-9.]`, or a non-empty run of `[^<\n]`, according to its group. |
| Scan.FindAll | analysis/deep_analysis.py:32-40 | Every element `re.findall` returns for a field pattern is something its capture group can capture. |
| Scan.Visit | analysis/deep_analysis.py:36-40 | The matches `re.findall` visits come in document order, each starts where its search started or later, and each starts after the capture, plus the gap, of every earlier one ends: they do not overlap. |
| Scan.VisitTextsSpans | analysis/deep_analysis.py:36-40 | The list `re.findall` returns has one element per visited match, in the same order, and element k is the text of the k-th match's capture. |
| Scan.VisitedAreFound | analysis/deep_analysis.py:36-40 | Every visited match is what `re.search` finds when started at some position at or after the start of the scan. |
| Scan.VisitCovers | analysis/deep_analysis.py:36-40 | The visit skips nothing: if every search started at or before `p` finds a match starting at or before `p`, some visited match reaches from at or before `p` to past it. |
| Scan.MatchesFrom | analysis/deep_analysis.py:32-40 | The field matches `re.findall` visits are in document order and do not overlap. |
| Scan.MatchesAreMatches | analysis/deep_analysis.py:32-40 | Every visited span is a match of the field pattern at its own start. |
| Scan.FindAllSpans | analysis/deep_analysis.py:32-40 | `re.findall` for a field pattern returns the captures of exactly the visited matches, one per match and in order. |
| Scan.MatchesCoverAll | analysis/deep_analysis.py:32-40 | Every match of the field pattern at or after the scan start begins inside one of the visited matches. |
| Scan.Blocks | analysis/deep_analysis.py:30-37 | No captured `<pre>` block contains `</pre>`: the lazy group stops at the first closing tag. |
| Scan.BlockFrom | analysis/deep_analysis.py:30-31 | The block search takes the first lead at or after the start. The capture begins right after a `<pre>` with no `<pre>` between the lead and it, and ends at a `</pre>` with no `</pre>` inside it: both lazy stars take the shortest match. |
| Scan.FirstPreAfterLead | analysis/deep_analysis.py:30-31 | A worked example of BlockFrom, whose lazy-`.*?` and first-lead clauses state the property for every input: on `L<pre>X<pre>Y</pre>` the block led by `L` captures `X<pre>Y`, not `Y`. |
| Scan.BlockSpansFrom | analysis/deep_analysis.py:30-37 | The block matches `re.findall` visits are in document order, and each starts after the closing tag of the one before. |
| Scan.BlockSpansAreMatches | analysis/deep_analysis.py:30-37 | Every visited block match has the lead at its start, then the first `<pre>` after the lead right before its capture, and a `</pre>` right after the capture. |
| Scan.BlocksSpans | analysis/deep_analysis.py:30-37 | The blocks are the captures of exactly the visited block matches, one per match and in order. |
| Scan.BlocksCoverAll | analysis/deep_analysis.py:30-37 | No block is skipped: every position where a lead is followed by some `<pre>` and then some `</pre>` lies inside one of the visited matches, from its lead to the end of its closing tag. |
| Scan.FirstBlock | analysis/compare_models.py:31-36 | `re.search` for the first `<pre>` block succeeds exactly when `re.findall` finds one, and returns the first block `re.findall` returns. |
| Numbers.ParseUnsigned | analysis/compare_models.py:50 | `float()` of a `[0-9.]+` capture succeeds exactly on decimal syntax: at least one digit and at most one point. The value is the digits read with the point removed, divided by ten to the number of digits after the point, so it is never negative. |
| Numbers.PointValue | analysis/compare_models.py:50 | For digits around a single point, removing the point gives the digits of both sides joined, and the fraction length is the length of the right side. |
| Numbers.ReadsAsOne | analysis/compare_models.py:50 | A capture reads as exactly 1.0 when it has decimal syntax and its digits, with the point removed, spell ten to the number of fraction digits: `1`, `1.0` and `01.00` read as 1.0, and `0.10` does not. |
| Numbers.PointRejected | analysis/compare_models.py:49-50 | A lone `.`, a second point, or a non-digit on either side of the first point is rejected. This is the `ValueError` the capture class lets through. |
| Numbers.ParseFloat | analysis/deep_analysis.py:49 | `float(text)` succeeds exactly when the stripped text is an optionally signed decimal. A `-` sign negates the unsigned reading of the rest, a `+` sign or no sign keeps it, and a negative result implies a `-` sign. |
| Numbers.ParseShown | analysis/compare_models.py:50 | Round trip: reading back `<digits>.0`, Python's `str` of a whole float and the form assumed for `Score:` lines, gives the number written. |
| Heuristics.MatchesAt | analysis/deep_analysis.py:68-78 | A pattern of literals and `[:\s]+` gaps matches case-insensitively at a position. A match needs at least each literal's length plus one character per gap, within the text. |
| Heuristics.HiddenPatterns | analysis/deep_analysis.py:67-74 | The six hidden-answer patterns, each with the correct label interpolated. |
| Heuristics.HiddenAnswer | analysis/deep_analysis.py:76-77 | Some hidden-answer pattern matches the lower-cased response, which holds exactly when one matches the response as written. |
| Heuristics.LetterPatterns | analysis/deep_analysis.py:101-106 | The three explicit-answer patterns, each with the letter interpolated. |
| Heuristics.ExplicitLetter | analysis/deep_analysis.py:101-107 | Some explicit-answer pattern for the letter matches the response, which holds exactly when one matches the lower-cased response. |
| Heuristics.SearchLower | analysis/deep_analysis.py:77-78 | For the ASCII lower-casing the model uses, lower-casing the response before the case-insensitive search changes no result. |
| Heuristics.ThirdImpliesFirst | analysis/deep_analysis.py:69-71 | The third hidden-answer pattern is redundant: wherever `correct answer is X` matches, `answer is X` matches too. |
| DeepExtract.ScoreOf | analysis/deep_analysis.py:49 | The score is 0.0 when the score list is short or the text is `'None'` or empty. |
| DeepExtract.StripAllNth | analysis/deep_analysis.py:47-48 | Taking the i-th element of the stripped labels, with `''` past the end, equals stripping the i-th label. |
| DeepExtract.Assemble | analysis/deep_analysis.py:42-50 | There is one row per assistant response. Row i has `idx == i`, the i-th prompt and the i-th stripped correct and extracted labels (`''` where a list is short), and the i-th score or 0.0. The assembly fails exactly when some score is rejected, and then reports the first one. |
| DeepExtract.ParseHtmlResults | analysis/deep_analysis.py:21-52 | On success there is one row per assistant `<pre>` block, and row k has `idx == k` and the k-th block as its response. |
| Classifier.ClassifyFailure | analysis/deep_analysis.py:54-116 | The result is total and lies in a closed set. `('correct', None)` exactly when the score is 1.0. `wrong_answer` with `answered_<e>_correct_<c>` exactly when it is not 1.0 and the extracted label is not `'None'`, the empty default included. `format_failure` with one of six subtypes otherwise. |
| Classifier.KindNamesDistinct | analysis/deep_analysis.py:89-113 | The six subtype names are pairwise distinct, so the rendered name determines the subtype. |
| Classifier.RepetitiveLoopExactly | analysis/deep_analysis.py:80-89 | `repetitive_loop` is returned exactly when all of these hold: the row is unanswered and not correct; the response has more than 1000 characters; its last 500 characters split into more than 10 words; and the last five words, joined by spaces, occur more than 3 times there. |
| Classifier.LoopPhraseFits | analysis/deep_analysis.py:83-88 | A detected loop phrase is non-empty and at most 125 characters long, since four non-overlapping copies fit in 500 characters. |
| Classifier.HiddenShortIsWrongFormatButCorrect | analysis/deep_analysis.py:97-98 | A format failure of at most 3500 characters that is no loop, and whose response holds a hidden-answer match, is `wrong_format_but_correct`. |
| Classifier.LongFailuresAreTruncated | analysis/deep_analysis.py:91-98 | A format failure longer than 3500 characters that is no loop is `truncated_but_correct` exactly when a hidden-answer pattern matches, and `truncated_no_answer` otherwise. The `wrong_format_*` and `no_clear_answer` subtypes imply at most 3500 characters. |
| Classifier.LetterScanDecides | analysis/deep_analysis.py:100-113 | The first letter, in the order A, B, C, D, whose explicit patterns match decides the subtype. It is `wrong_format_but_correct` if that letter is the correct one and `wrong_format_wrong_answer` otherwise. With no such letter the subtype is `no_clear_answer`. |
| Overlap.CorrectMask | analysis/deep_analysis.py:122-125 | Mask entry i is true exactly when row i scored 1.0. |
| Overlap.Place | analysis/deep_analysis.py:138-153 | One pass of the elif chain keeps every list holding, ascending, exactly the indices so far with its correctness triple. |
| Overlap.AnalyzeModelOverlap | analysis/deep_analysis.py:118-155 | It fails exactly when the 70B or 405B list is shorter than the 8B list. Otherwise it returns the three masks, and each list holds, ascending, exactly the indices below the 8B count with its triple: all three correct, none correct, 405B only, 70B and 405B only, or 8B only. |
| Overlap.ScalingIsOnly405 | analysis/deep_analysis.py:144-153 | `scaling_pattern` equals `only_405b_correct` element for element. |
| Overlap.PartitionDisjoint | analysis/deep_analysis.py:140-149 | The five lists of the elif chain are pairwise disjoint. |
| Overlap.PartitionBound | analysis/deep_analysis.py:137-149 | Together the five lists hold at most as many indices as there are questions. |
| ReportParser.ToLabel | analysis/compare_models.py:39-46 | A capture becomes a label exactly when it is one letter A–D, and the label's text is that capture. The literal `None` gives no label. |
| ReportParser.LabelRoundTrip | analysis/compare_models.py:39-46 | Reading a label's text gives the label back. |
| ReportParser.Preview | analysis/compare_models.py:53 | A question of at most 200 characters is kept as is. A longer one becomes its first 200 characters followed by `...`. |
| ReportParser.ParseSection | analysis/compare_models.py:30-59 | The record of one section. The question is the preview of the first `<pre>` block, or `""`. The response is the second block, or `""`. Each label is present exactly when its pattern matches, with the literal `None` mapped to no label. `format_failure` holds exactly when there is no extracted label. The score is 0.0 without a `Score:` match and the parsed capture otherwise. The parse fails exactly when that capture is not decimal syntax. |
| ReportParser.Kept | analysis/compare_models.py:26-28 | A section is kept exactly when it contains `Correct Answer:`. |
| ReportParser.ParseKept | analysis/compare_models.py:26-59 | There is one record per kept section, in document order. The loop fails exactly when some kept section fails, and then with the first such section's error. |
| ReportParser.ParseSections | analysis/compare_models.py:26-61 | The records are exactly the `ParseSection` records of the sections holding `Correct Answer:`, in order; other sections are skipped. The loop fails exactly when some kept section fails, which happens only on a non-decimal score, and it reports the first such section's error. |
| ReportParser.ParseReport | analysis/compare_models.py:16-61 | There is at most one record per `<hr>`-separated section. |
| ReportParser.NoMarkerNoQuestions | analysis/compare_models.py:24-28 | A report without `Correct Answer:` anywhere yields no records. |
| ResultSets.LoadResults | analysis/compare_models.py:73-91 | Without a report the record list is empty and the counters are 0. With a report, the records are the parsed report, `total_questions` is their number, and `format_failures` is the number of records with `format_failure`. So `format_failures ≤ total_questions`, and it is 0 exactly when no record is a format failure. |
| PatternAnalysis.FailureRate | analysis/compare_models.py:131 | The rate is failures / total, or 0 when total is 0. It lies in [0, 1] when failures ≤ total. |
| PatternAnalysis.SummaryOf | analysis/compare_models.py:128-132 | The summary of an entry with metrics has four values. `score` is the metric or 0. `format_failures` is copied. `format_failure_rate` times total is the failure count (0 without records) and lies in [0, 1]. `correct_counts` is the number of records scored exactly 1.0. |
| PatternAnalysis.Summaries | analysis/compare_models.py:127-132 | There is one summary per entry with non-empty metrics, in dict order, and none for the others. |
| PatternAnalysis.ModelsWithResults | analysis/compare_models.py:135 | `models_with_results` lists, in dict order, exactly the entries that were loaded and have records. |
| PatternAnalysis.RefIndex | analysis/compare_models.py:139 | `max(..., key=len)` picks a model with the most records, and every model before it has strictly fewer: Python's `max` keeps the first maximum. |
| PatternAnalysis.Reference | analysis/compare_models.py:137-140 | The reference entry has records, as many as any entry, and strictly more than every entry before it. |
| PatternAnalysis.RefRecords | analysis/compare_models.py:137-140 | The aligned records are empty when fewer than two models have records, and otherwise are the reference model's non-empty records. |
| PatternAnalysis.Present | analysis/compare_models.py:150-151 | The entries visited at position i are, in dict order, exactly those with more than i records. |
| PatternAnalysis.PresentHaveResults | analysis/compare_models.py:135-151 | An entry is visited at position i exactly when it is in `models_with_results` and has more than i records. |
| PatternAnalysis.ResultsAt | analysis/compare_models.py:150-157 | The results dict of a position pairs each visited model with its outcome there: extracted label, `score == 1.0` and `format_failure`. |
| PatternAnalysis.ResultsAreRecordHolders | analysis/compare_models.py:150-157 | Each element of a position's results is the name and outcome of an entry with a record there, and each such entry has an element. |
| PatternAnalysis.ResultsDistinct | analysis/compare_models.py:150-157 | With distinct model names, a position's results name each model once. |
| PatternAnalysis.Lookup | analysis/compare_models.py:167 | `dict.get(model)` finds a value exactly when the key is present, and the value is stored under that key. |
| PatternAnalysis.LookupDistinct | analysis/compare_models.py:167 | With distinct keys, `dict.get` returns the value stored under the key. |
| PatternAnalysis.LookupPresent | analysis/compare_models.py:167 | `results_by_model.get(model, {}).get('correct')` is true exactly when the entry of that name has a record at the position scored 1.0. |
| PatternAnalysis.PerQuestion | analysis/compare_models.py:142-159 | There is one row per reference record, so `per_question` is empty unless two models have records, and otherwise as long as the largest record list. |
| PatternAnalysis.PerQuestionRow | analysis/compare_models.py:142-159 | Row i has `index == i`, the reference's correct label, its question cut to 100 characters, and the results of exactly the models with more than i records. |
| PatternAnalysis.CollectCategories | analysis/compare_models.py:161-168 | Each index list holds, ascending, exactly the positions whose row falls in its category. |
| PatternAnalysis.AnalyzePatterns | analysis/compare_models.py:112-170 | It returns the summaries and the rows, with each index list holding exactly the positions of its category. `size_scaling` stays empty. |
| PatternAnalysis.EveryCorrect | analysis/compare_models.py:163 | `all(r['correct'] ...)` holds exactly when every model with a record at the position scored 1.0 there. |
| PatternAnalysis.NoneCorrect | analysis/compare_models.py:165 | `not any(r['correct'] ...)` holds exactly when no model with a record at the position scored 1.0 there. |
| PatternAnalysis.CategoryMeaning | analysis/compare_models.py:162-168 | A position is `all_correct` exactly when every present model scored 1.0, and `all_wrong` exactly when none did. It is `only_large_correct` exactly when some but not all did, `llama-405b` did, and `llama-8b` did not or is absent. |
| Export.ExportComparison | analysis/compare_models.py:216-231 | `models` lists every key of `all_results`, including those whose load returned None. The four summary dicts copy the summaries in order, each count equals the length of its index list, and the lists and rows are copied unchanged. |
| Export.PatternCountsMeaning | analysis/compare_models.py:222-226 | Each `pattern_summary` count is the number of rows in its category. |
| Export.PatternCountsBound | analysis/compare_models.py:222-226 | The three pattern counts add up to at most the number of rows, since no row is in two categories. |
| Export.SummaryKeysAreModels | analysis/compare_models.py:217-221 | Every key of the summary dicts is in `models` and names an entry loaded with metrics. |

## Left out

- Reading and writing files is not modelled; report texts, metrics dicts and
  loaded entries are parameters instead. This covers:
  - the `open` calls of both parsers;
  - the latest-run glob and the JSON load of `load_results`;
  - the directory probing of `compare_models`;
  - `mkdir` and `json.dump` in `export_comparison`.
- Printing, plotting and `main` are not modelled: `print_comparison`, `main`
  of both scripts with its coverage printout and failure-detail dump, the
  figures, and analysis/create_venn.py. They hold no decision logic beyond
  the overlap partition, which is modelled.
- Numbers.ParseFloat: accepts only an optional sign and decimal digits with
  at most one point, around optional whitespace. Python's `float()` also
  accepts exponents, `inf`/`nan`, underscores and non-ASCII digits; here
  those are rejected. The `[0-9.]+` score capture of compare_models cannot
  take these forms, but the `[^<\n]+` capture of deep_analysis can: Python
  reads `Score: 1e0` as 1.0, and here it makes ParseHtmlResults fail for the
  whole report.
- Numbers.ParseUnsigned: the value is the exact rational the text spells,
  not its binary64 rounding. The two differ on whether a score equals 1.0
  for texts within half a unit in the last place of 1.0. For example,
  Python reads `1.0000000000000001` and `0.99999999999999999` as 1.0, and
  the model reads neither as 1.0. Texts of at most 15 significant digits are
  unaffected.
- Numbers.ParseFloat: it inherits the exact rational of ParseUnsigned, so the
  same near-1.0 texts, signed or padded, differ from Python's reading in the
  same way.
- PatternAnalysis.FailureRate: the rate is an exact rational rather than a
  binary64 quotient.
- Text.Lower: lower-cases ASCII letters only. Python's `str.lower()` is
  full Unicode lower-casing, which is not modelled.
- Heuristics.MatchesAt: compares letters by ASCII case only. Under
  `re.IGNORECASE` Python also matches some non-ASCII letters with ASCII
  ones: 'ſ' (U+017F) with s, 'ı' (U+0131) and 'İ' (U+0130) with i, and the
  Kelvin sign (U+212A) with k. So `anſwer is B` matches
  `answer[:\s]+is[:\s]+B` in Python but not in the model. The same gap holds
  for Heuristics.HiddenAnswer and Heuristics.ExplicitLetter, which match
  through MatchesAt. The interpolated correct label can itself be any text,
  and it is compared with the same ASCII-only case rule.
- Heuristics.SearchLower: holds for ASCII lower-casing only. Python's
  `str.lower()` is Unicode lower-casing and can change a string's length
  (`'İ'.lower()` has two characters), which moves match positions, so the
  redundancy of `.lower()` is not claimed for non-ASCII responses.
- Heuristics: the correct label is interpolated into the patterns unescaped.
  The model matches it as a literal, so a label containing regex
  metacharacters would behave differently in Python.
- Regular expressions in general are not modelled: only the fixed patterns
  the two scripts use.
- DeepExtract.Assemble: takes `float()` as a parameter so that its contract
  holds for any score reader. ParseHtmlResults supplies ParseFloat.
- Overlap.AnalyzeModelOverlap: the three runs are fields of a record, so the
  `KeyError` of a missing `'8B'`, `'70B'` or `'405B'` key is not modelled.
- PatternAnalysis.SummaryOf: the metrics dict maps names to numbers. JSON
  values of other types under `score` are not modelled.
- `size_scaling` is declared but never filled by the code, so the model
  keeps it empty.
- The two `print` calls inside `compare_models` are left out; that
  function's only logic is directory probing, which is I/O.

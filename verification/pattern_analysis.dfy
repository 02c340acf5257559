/** `analyze_patterns` (analysis/compare_models.py): per-model summary
    counters, then a position-by-position alignment of the models' records
    against the model with the most records, each position sorted into
    all-correct, all-wrong or only-405B-correct. */
module PatternAnalysis {
  import opened Wrappers
  import opened Text
  import opened Seqs
  import opened ReportParser
  import opened ResultSets

  /** One entry of `all_results`, in insertion order: the model name and
      what `load_results` returned for it (None when no run was found). */
  datatype Entry = Entry(model: string, results: Option<ResultSet>)

  /** The entries are the items of a dict, so their keys are distinct. */
  predicate DistinctModels(entries: seq<Entry>) {
    forall a, b :: 0 <= a < b < |entries| ==> entries[a].model != entries[b].model
  }

  /** The records of an entry; none when nothing was loaded. */
  function QuestionsOf(e: Entry): seq<Question> {
    if e.results.Some? then e.results.value.questions else []
  }

  /** `results and results['metrics']`: loaded, with a non-empty metrics
      dict. */
  predicate HasMetrics(e: Entry) {
    e.results.Some? && e.results.value.metrics.Some? && |e.results.value.metrics.value| > 0
  }

  const LargeModel := "llama-405b"
  const SmallModel := "llama-8b"
  const QuestionPreviewLength := 100

  /** The four per-model summary entries: `scores`, `format_failures`,
      `format_failure_rate` and `correct_counts`. */
  datatype Summary = Summary(model: string, score: real, formatFailures: nat, formatFailureRate: real,
                             correctCount: nat)

  /** `failures / total`; never above 1 when the failures are a subset of
      the records. */
  function FailureRate(failures: nat, total: nat): (rate: real)
    ensures total > 0 ==> rate * total as real == failures as real
    ensures total == 0 ==> rate == 0.0
    ensures 0.0 <= rate
    ensures failures <= total ==> rate <= 1.0
  {
    if total > 0 then
      failures as real / total as real
    else 0.0
  }

  /** The summary of an entry with metrics: the `score` metric or 0, the
      failure counter, the failure rate (0 without records) and the number
      of records scored exactly 1.0. */
  function SummaryOf(e: Entry): (s: Summary)
    requires HasMetrics(e)
    ensures s.model == e.model
    ensures "score" in e.results.value.metrics.value ==> s.score == e.results.value.metrics.value["score"]
    ensures "score" !in e.results.value.metrics.value ==> s.score == 0.0
    ensures s.formatFailures == e.results.value.formatFailures
    ensures e.results.value.totalQuestions > 0 ==>
              s.formatFailureRate * e.results.value.totalQuestions as real == s.formatFailures as real
    ensures e.results.value.totalQuestions == 0 ==> s.formatFailureRate == 0.0
    ensures Consistent(e.results.value) ==> 0.0 <= s.formatFailureRate <= 1.0
    ensures s.correctCount == |Positions(CorrectFlags(e.results.value.questions))|
  {
    var rs := e.results.value;
    var m := rs.metrics.value;
    var rate := FailureRate(rs.formatFailures, rs.totalQuestions);
    assert rs.totalQuestions > 0 ==> rate * rs.totalQuestions as real == rs.formatFailures as real;
    CountPositions(CorrectFlags(rs.questions));
    Summary(e.model, if "score" in m then m["score"] else 0.0, rs.formatFailures,
            rate, CountTrue(CorrectFlags(rs.questions)))
  }

  function MetricFlags(entries: seq<Entry>): (flags: seq<bool>)
    ensures |flags| == |entries|
    ensures forall p :: 0 <= p < |entries| ==> (flags[p] <==> HasMetrics(entries[p]))
  {
    seq(|entries|, p requires 0 <= p < |entries| => HasMetrics(entries[p]))
  }

  /** The summary loop from entry `i` on. */
  function SummariesFrom(entries: seq<Entry>, i: nat): (r: seq<Summary>)
    requires i <= |entries|
    ensures |r| == |PositionsFrom(MetricFlags(entries), i)|
    ensures forall m :: 0 <= m < |r| ==> r[m] == SummaryOf(entries[PositionsFrom(MetricFlags(entries), i)[m]])
    decreases |entries| - i
  {
    if i == |entries| then []
    else
      var rest := SummariesFrom(entries, i + 1);
      var ps := PositionsFrom(MetricFlags(entries), i);
      if HasMetrics(entries[i]) then
        assert ps == [i] + PositionsFrom(MetricFlags(entries), i + 1);
        ConsIndex(SummaryOf(entries[i]), rest);
        ConsIndex(i, PositionsFrom(MetricFlags(entries), i + 1));
        [SummaryOf(entries[i])] + rest
      else rest
  }

  /** The summaries: one per entry with metrics, in dict order, and none
      for the others. */
  function Summaries(entries: seq<Entry>): (r: seq<Summary>)
    ensures |r| == |Positions(MetricFlags(entries))|
    ensures forall m :: 0 <= m < |r| ==> r[m] == SummaryOf(entries[Positions(MetricFlags(entries))[m]])
    ensures forall m :: 0 <= m < |r| ==> exists p :: 0 <= p < |entries| && HasMetrics(entries[p])
                                                   && r[m].model == entries[p].model
  {
    var r := SummariesFrom(entries, 0);
    assert forall m :: 0 <= m < |r| ==> HasMetrics(entries[Positions(MetricFlags(entries))[m]])
                                        && r[m].model == entries[Positions(MetricFlags(entries))[m]].model;
    r
  }

  /** `all_results[m] and all_results[m]['questions']`. */
  predicate HasQuestions(e: Entry) {
    |QuestionsOf(e)| > 0
  }

  function QuestionFlags(entries: seq<Entry>): (flags: seq<bool>)
    ensures |flags| == |entries|
    ensures forall p :: 0 <= p < |entries| ==> (flags[p] <==> HasQuestions(entries[p]))
  {
    seq(|entries|, p requires 0 <= p < |entries| => HasQuestions(entries[p]))
  }

  /** `models_with_results`, as positions in `all_results`. */
  function ModelsWithResults(entries: seq<Entry>): (ws: seq<nat>)
    ensures Ascending(ws)
    ensures forall j :: 0 <= j < |ws| ==> ws[j] < |entries| && HasQuestions(entries[ws[j]])
    ensures forall p :: p in ws <==> 0 <= p < |entries| && HasQuestions(entries[p])
  {
    Positions(QuestionFlags(entries))
  }

  /** `len(all_results[m]['questions'])` for every entry. */
  function Sizes(entries: seq<Entry>): (sizes: seq<nat>)
    ensures |sizes| == |entries|
    ensures forall p :: 0 <= p < |entries| ==> sizes[p] == |QuestionsOf(entries[p])|
  {
    seq(|entries|, p requires 0 <= p < |entries| => |QuestionsOf(entries[p])|)
  }

  /** `max(ws, key=...)` as an index into `ws`: Python's `max` keeps the
      first of equal maxima. */
  function RefIndex(sizes: seq<nat>, ws: seq<nat>): (m: nat)
    requires |ws| > 0 && forall j :: 0 <= j < |ws| ==> ws[j] < |sizes|
    ensures m < |ws|
    ensures forall j :: 0 <= j < |ws| ==> sizes[ws[j]] <= sizes[ws[m]]
    ensures forall j :: 0 <= j < m ==> sizes[ws[j]] < sizes[ws[m]]
    decreases |ws|
  {
    if |ws| == 1 then 0
    else
      var init := ws[..|ws| - 1];
      var m := RefIndex(sizes, init);
      assert forall j :: 0 <= j < |init| ==> init[j] == ws[j];
      if sizes[ws[|ws| - 1]] > sizes[ws[m]] then |ws| - 1 else m
  }

  /** Entry `p` holds the most records, and every entry before it strictly
      fewer: the reference model. */
  predicate IsReference(entries: seq<Entry>, p: nat) {
    && p < |entries|
    && (forall q :: 0 <= q < |entries| ==> |QuestionsOf(entries[q])| <= |QuestionsOf(entries[p])|)
    && (forall q :: 0 <= q < p ==> |QuestionsOf(entries[q])| < |QuestionsOf(entries[p])|)
  }

  /** `ref_model`: the first entry with the most records. */
  function Reference(entries: seq<Entry>): (p: nat)
    requires |ModelsWithResults(entries)| > 0
    ensures IsReference(entries, p) && HasQuestions(entries[p])
  {
    var ws := ModelsWithResults(entries);
    var sizes := Sizes(entries);
    var m := RefIndex(sizes, ws);
    forall q | 0 <= q < |sizes|
      ensures sizes[q] <= sizes[ws[m]] && (q < ws[m] ==> sizes[q] < sizes[ws[m]])
    {
      FirstLargestBeats(sizes, ws, m, q);
    }
    ws[m]
  }

  /** The first largest of the positions with a positive size is the first
      largest of all positions: the others have size 0.  A position with a
      positive size has a slot in `ws`, and that slot comes before `m` when
      the position comes before `ws[m]`. */
  lemma FirstLargestBeats(sizes: seq<nat>, ws: seq<nat>, m: nat, q: nat)
    requires Ascending(ws) && forall j :: 0 <= j < |ws| ==> ws[j] < |sizes|
    requires forall p :: p in ws <==> 0 <= p < |sizes| && sizes[p] > 0
    requires m < |ws| && forall j :: 0 <= j < |ws| ==> sizes[ws[j]] <= sizes[ws[m]]
    requires forall j :: 0 <= j < m ==> sizes[ws[j]] < sizes[ws[m]]
    requires q < |sizes|
    ensures sizes[q] <= sizes[ws[m]]
    ensures q < ws[m] ==> sizes[q] < sizes[ws[m]]
  {
    assert ws[m] in ws;
    if sizes[q] > 0 {
      assert q in ws;
      var j: nat :| j < |ws| && ws[j] == q;
      assert q < ws[m] ==> j < m;
    }
  }

  /** Which entries have more than `i` records. */
  function RecordFlags(entries: seq<Entry>, i: nat): (flags: seq<bool>)
    ensures |flags| == |entries|
    ensures forall p :: 0 <= p < |entries| ==> (flags[p] <==> i < |QuestionsOf(entries[p])|)
  {
    seq(|entries|, p requires 0 <= p < |entries| => i < |QuestionsOf(entries[p])|)
  }

  /** The entries the inner loop visits at position `i`, in dict order: the
      loop walks `models_with_results` in dict order and keeps the models
      with more than `i` records, and every entry with more than `i` records
      is in `models_with_results` (see `PresentHaveResults`). */
  function Present(entries: seq<Entry>, i: nat): (ps: seq<nat>)
    ensures Ascending(ps)
    ensures forall j :: 0 <= j < |ps| ==> ps[j] < |entries| && i < |QuestionsOf(entries[ps[j]])|
    ensures forall p :: p in ps <==> 0 <= p < |entries| && i < |QuestionsOf(entries[p])|
  {
    Positions(RecordFlags(entries, i))
  }

  /** The entries visited at a position are exactly the models with results
      that have a record there. */
  lemma PresentHaveResults(entries: seq<Entry>, i: nat)
    ensures forall p :: p in Present(entries, i) <==> p in ModelsWithResults(entries) && i < |QuestionsOf(entries[p])|
  {
  }

  /** `{'extracted', 'correct', 'format_failure'}` of one model at one
      position. */
  datatype Outcome = Outcome(extracted: Option<Label>, correct: bool, formatFailure: bool)

  function OutcomeOf(q: Question): Outcome {
    Outcome(q.extractedAnswer, q.score == 1.0, q.formatFailure)
  }

  /** The `results` dict of one position, keyed by model. */
  function ResultsAt(entries: seq<Entry>, ps: seq<nat>, i: nat): (res: seq<(string, Outcome)>)
    requires forall j :: 0 <= j < |ps| ==> ps[j] < |entries| && i < |QuestionsOf(entries[ps[j]])|
    ensures |res| == |ps|
    ensures forall j :: 0 <= j < |ps| ==> res[j].0 == entries[ps[j]].model
    ensures forall j :: 0 <= j < |ps| ==> res[j].1 == OutcomeOf(QuestionsOf(entries[ps[j]])[i])
  {
    if |ps| == 0 then []
    else
      var rest := ResultsAt(entries, ps[1..], i);
      var head := (entries[ps[0]].model, OutcomeOf(QuestionsOf(entries[ps[0]])[i]));
      ConsIndex(head, rest);
      [head] + rest
  }

  /** One element of `per_question`. */
  datatype QuestionRow = QuestionRow(index: nat, correctAnswer: Option<Label>, questionPreview: string,
                                     results: seq<(string, Outcome)>)

  /** `dict.get(model)` on a results dict. */
  function Lookup(res: seq<(string, Outcome)>, model: string): (r: Option<Outcome>)
    ensures r.Some? <==> exists j :: 0 <= j < |res| && res[j].0 == model
    ensures r.Some? ==> exists j :: 0 <= j < |res| && res[j] == (model, r.value)
  {
    if |res| == 0 then None
    else if res[0].0 == model then Some(res[0].1)
    else
      var r := Lookup(res[1..], model);
      assert forall j :: 1 <= j < |res| ==> res[j] == res[1..][j - 1];
      r
  }

  /** `results_by_model.get(model, {}).get('correct')` is truthy. */
  predicate CorrectIn(res: seq<(string, Outcome)>, model: string) {
    var o := Lookup(res, model);
    o.Some? && o.value.correct
  }

  /** `all(r['correct'] for r in results.values())`. */
  predicate AllOutcomesCorrect(res: seq<(string, Outcome)>) {
    forall j :: 0 <= j < |res| ==> res[j].1.correct
  }

  /** `not any(r['correct'] for r in results.values())`. */
  predicate NoOutcomeCorrect(res: seq<(string, Outcome)>) {
    forall j :: 0 <= j < |res| ==> !res[j].1.correct
  }

  datatype Category = AllCorrect | AllWrong | OnlyLargeCorrect | Uncategorized

  /** The if/elif chain over one position's results. */
  function Categorize(res: seq<(string, Outcome)>): Category {
    if AllOutcomesCorrect(res) then AllCorrect
    else if NoOutcomeCorrect(res) then AllWrong
    else if CorrectIn(res, LargeModel) && !CorrectIn(res, SmallModel) then OnlyLargeCorrect
    else Uncategorized
  }

  /** The analysis dict. */
  datatype Analysis = Analysis(summaries: seq<Summary>, allCorrect: seq<nat>, allWrong: seq<nat>,
                               onlyLargeCorrect: seq<nat>, sizeScaling: seq<nat>,
                               perQuestion: seq<QuestionRow>)

  /** `xs` lists, ascending, exactly the positions of `rows` in category
      `c`. */
  ghost predicate Collected(xs: seq<nat>, rows: seq<QuestionRow>, c: Category) {
    && Ascending(xs)
    && (forall j :: 0 <= j < |xs| ==> xs[j] < |rows|)
    && (forall k :: k in xs <==> 0 <= k < |rows| && Categorize(rows[k].results) == c)
  }

  /** The three index lists agree with the categories of the rows. */
  ghost predicate Categorized(a: Analysis) {
    && Collected(a.allCorrect, a.perQuestion, AllCorrect)
    && Collected(a.allWrong, a.perQuestion, AllWrong)
    && Collected(a.onlyLargeCorrect, a.perQuestion, OnlyLargeCorrect)
  }

  /** One loop step: the new row's position joins the list exactly when the
      row has the list's category. */
  lemma ExtendCollected(xs: seq<nat>, rows: seq<QuestionRow>, row: QuestionRow, c: Category)
    requires Collected(xs, rows, c)
    ensures Categorize(row.results) == c ==> Collected(xs + [|rows|], rows + [row], c)
    ensures Categorize(row.results) != c ==> Collected(xs, rows + [row], c)
  {
    var rows' := rows + [row];
    assert forall k :: 0 <= k < |rows| ==> rows'[k] == rows[k];
  }

  /** The row of position `i` against the reference records `refQs`. */
  function RowAt(entries: seq<Entry>, refQs: seq<Question>, i: nat): QuestionRow
    requires i < |refQs|
  {
    QuestionRow(i, refQs[i].correctAnswer, Take(refQs[i].question, QuestionPreviewLength),
                Results(entries, i))
  }

  /** The rows of all positions of the reference records. */
  function Rows(entries: seq<Entry>, refQs: seq<Question>): (rows: seq<QuestionRow>)
    ensures |rows| == |refQs|
    ensures forall i :: 0 <= i < |refQs| ==> rows[i] == RowAt(entries, refQs, i)
  {
    seq(|refQs|, i requires 0 <= i < |refQs| => RowAt(entries, refQs, i))
  }

  /** The category loop over finished rows: each index list collects,
      ascending, the positions whose row has its category. */
  method CollectCategories(rows: seq<QuestionRow>) returns (allCorrect: seq<nat>, allWrong: seq<nat>,
                                                            onlyLarge: seq<nat>)
    ensures Collected(allCorrect, rows, AllCorrect)
    ensures Collected(allWrong, rows, AllWrong)
    ensures Collected(onlyLarge, rows, OnlyLargeCorrect)
  {
    allCorrect, allWrong, onlyLarge := [], [], [];
    var i := 0;
    while i < |rows|
      invariant i <= |rows|
      invariant Collected(allCorrect, rows[..i], AllCorrect)
      invariant Collected(allWrong, rows[..i], AllWrong)
      invariant Collected(onlyLarge, rows[..i], OnlyLargeCorrect)
    {
      ExtendCollected(allCorrect, rows[..i], rows[i], AllCorrect);
      ExtendCollected(allWrong, rows[..i], rows[i], AllWrong);
      ExtendCollected(onlyLarge, rows[..i], rows[i], OnlyLargeCorrect);
      var c := Categorize(rows[i].results);
      if c == AllCorrect {
        allCorrect := allCorrect + [i];
      } else if c == AllWrong {
        allWrong := allWrong + [i];
      } else if c == OnlyLargeCorrect {
        onlyLarge := onlyLarge + [i];
      }
      assert rows[..i] + [rows[i]] == rows[..i + 1];
      i := i + 1;
    }
    assert rows[..i] == rows;
  }

  /** The records the rows are aligned against: those of the reference
      model, or none with fewer than two models holding records. */
  function RefRecords(entries: seq<Entry>): (qs: seq<Question>)
    ensures |ModelsWithResults(entries)| < 2 ==> qs == []
    ensures |ModelsWithResults(entries)| >= 2 ==> qs == QuestionsOf(entries[Reference(entries)]) && |qs| > 0
  {
    if |ModelsWithResults(entries)| < 2 then [] else QuestionsOf(entries[Reference(entries)])
  }

  /** `per_question`: one row per reference record (see `PerQuestionRow`). */
  function PerQuestion(entries: seq<Entry>): (rows: seq<QuestionRow>)
    ensures |rows| == |RefRecords(entries)|
  {
    Rows(entries, RefRecords(entries))
  }

  /** Row `i` of `per_question` has index `i`, the reference's correct label
      and question preview cut to 100 characters, and the outcomes of
      exactly the models with more than `i` records, in dict order. */
  lemma PerQuestionRow(entries: seq<Entry>, i: nat)
    requires i < |PerQuestion(entries)|
    ensures PerQuestion(entries)[i].index == i
    ensures PerQuestion(entries)[i].correctAnswer == RefRecords(entries)[i].correctAnswer
    ensures PerQuestion(entries)[i].questionPreview == Take(RefRecords(entries)[i].question, QuestionPreviewLength)
    ensures PerQuestion(entries)[i].results == Results(entries, i)
  {
    assert PerQuestion(entries)[i] == RowAt(entries, RefRecords(entries), i);
  }

  /** `analyze_patterns(all_results)`: the summaries, the rows, and three
      index lists each holding, ascending, exactly the positions whose row
      has its category; `size_scaling` is never filled. */
  method AnalyzePatterns(entries: seq<Entry>) returns (a: Analysis)
    ensures a.summaries == Summaries(entries)
    ensures a.perQuestion == PerQuestion(entries)
    ensures a.sizeScaling == []
    ensures Categorized(a)
  {
    var summaries := Summaries(entries);
    var rows := PerQuestion(entries);
    var allCorrect, allWrong, onlyLarge := CollectCategories(rows);
    a := Analysis(summaries, allCorrect, allWrong, onlyLarge, [], rows);
  }

  /** Entry `p` has a record at position `i`. */
  predicate HasRecord(entries: seq<Entry>, p: nat, i: nat) {
    p < |entries| && i < |QuestionsOf(entries[p])|
  }

  /** Whether entry `p` scored 1.0 on its record `i`. */
  predicate CorrectAt(entries: seq<Entry>, p: nat, i: nat)
    requires HasRecord(entries, p, i)
  {
    QuestionsOf(entries[p])[i].score == 1.0
  }

  /** Some entry named `model` has a record `i` scored 1.0. */
  ghost predicate ModelCorrectAt(entries: seq<Entry>, model: string, i: nat) {
    exists p: nat :: HasRecord(entries, p, i) && entries[p].model == model && CorrectAt(entries, p, i)
  }

  /** The model names of a results list are pairwise different. */
  predicate DistinctNames(res: seq<(string, Outcome)>) {
    forall a, b :: 0 <= a < b < |res| ==> res[a].0 != res[b].0
  }

  /** With distinct names, `dict.get` finds the outcome stored under a
      name. */
  lemma {:induction false} LookupDistinct(res: seq<(string, Outcome)>, j: nat)
    requires j < |res| && DistinctNames(res)
    ensures Lookup(res, res[j].0) == Some(res[j].1)
  {
    if j > 0 {
      assert res[0].0 != res[j].0;
      assert res[1..][j - 1] == res[j];
      LookupDistinct(res[1..], j - 1);
    }
  }

  /** A position's results name each model once: the entries are distinct
      and each is visited once. */
  lemma ResultsDistinct(entries: seq<Entry>, i: nat)
    requires DistinctModels(entries)
    ensures DistinctNames(ResultsAt(entries, Present(entries, i), i))
  {
    var ps := Present(entries, i);
    var res := ResultsAt(entries, ps, i);
    forall a, b | 0 <= a < b < |res|
      ensures res[a].0 != res[b].0
    {
      assert ps[a] < ps[b];
    }
  }

  /** An entry with a record at `i` appears in that position's results. */
  lemma PresentSlot(entries: seq<Entry>, i: nat, p: nat) returns (j: nat)
    requires HasRecord(entries, p, i)
    ensures j < |Present(entries, i)| && Present(entries, i)[j] == p
  {
    var ps := Present(entries, i);
    assert p in ps;
    j :| 0 <= j < |ps| && ps[j] == p;
  }

  /** With distinct model names, looking a model up in a position's results
      finds its own outcome: it is correct there exactly when the entry of
      that name has a record at the position scored 1.0. */
  lemma LookupPresent(entries: seq<Entry>, i: nat, model: string)
    requires DistinctModels(entries)
    ensures CorrectIn(ResultsAt(entries, Present(entries, i), i), model) <==> ModelCorrectAt(entries, model, i)
  {
    var ps := Present(entries, i);
    var res := ResultsAt(entries, ps, i);
    if CorrectIn(res, model) {
      var j :| 0 <= j < |res| && res[j] == (model, Lookup(res, model).value);
      assert HasRecord(entries, ps[j], i) && entries[ps[j]].model == model && CorrectAt(entries, ps[j], i);
    }
    if ModelCorrectAt(entries, model, i) {
      var p: nat :| HasRecord(entries, p, i) && entries[p].model == model && CorrectAt(entries, p, i);
      var j := PresentSlot(entries, i, p);
      ResultsDistinct(entries, i);
      LookupDistinct(res, j);
    }
  }

  /** The results of position `i`: one per entry with a record there. */
  function Results(entries: seq<Entry>, i: nat): (res: seq<(string, Outcome)>) {
    ResultsAt(entries, Present(entries, i), i)
  }

  /** The outcome of entry `p` sits in the results of position `i`. */
  lemma ResultSlot(entries: seq<Entry>, i: nat, p: nat) returns (j: nat)
    requires HasRecord(entries, p, i)
    ensures j < |Results(entries, i)| && Results(entries, i)[j].1.correct == CorrectAt(entries, p, i)
  {
    j := PresentSlot(entries, i, p);
  }

  /** `o` is entry `p`'s name and outcome at position `i`. */
  predicate OutcomeOfEntry(entries: seq<Entry>, i: nat, p: nat, o: (string, Outcome)) {
    HasRecord(entries, p, i) && o == (entries[p].model, OutcomeOf(QuestionsOf(entries[p])[i]))
  }

  /** `o` is the name and outcome of some entry with a record at `i`. */
  ghost predicate FromSomeEntry(entries: seq<Entry>, i: nat, o: (string, Outcome)) {
    exists p: nat :: OutcomeOfEntry(entries, i, p, o)
  }

  /** Entry `p`'s name and outcome at `i` is an element of `res`. */
  ghost predicate Listed(entries: seq<Entry>, i: nat, p: nat, res: seq<(string, Outcome)>) {
    exists j: nat :: j < |res| && OutcomeOfEntry(entries, i, p, res[j])
  }

  /** The results of position `i` hold the outcome of exactly the entries
      with a record there: each element is such an entry's name and outcome,
      and each such entry has an element. */
  lemma ResultsAreRecordHolders(entries: seq<Entry>, i: nat)
    ensures forall j :: 0 <= j < |Results(entries, i)| ==> FromSomeEntry(entries, i, Results(entries, i)[j])
    ensures forall p: nat :: HasRecord(entries, p, i) ==> Listed(entries, i, p, Results(entries, i))
  {
    var res := Results(entries, i);
    forall j | 0 <= j < |res|
      ensures FromSomeEntry(entries, i, res[j])
    {
      var p := ResultHolder(entries, i, j);
      assert OutcomeOfEntry(entries, i, p, res[j]);
    }
    forall p: nat | HasRecord(entries, p, i)
      ensures Listed(entries, i, p, res)
    {
      var j := HolderResult(entries, i, p);
      assert OutcomeOfEntry(entries, i, p, res[j]);
    }
  }

  /** Element `j` of a position's results belongs to an entry with a record
      there. */
  lemma ResultHolder(entries: seq<Entry>, i: nat, j: nat) returns (p: nat)
    requires j < |Results(entries, i)|
    ensures HasRecord(entries, p, i)
    ensures Results(entries, i)[j] == (entries[p].model, OutcomeOf(QuestionsOf(entries[p])[i]))
  {
    p := Present(entries, i)[j];
  }

  /** An entry with a record at a position has its element in the results. */
  lemma HolderResult(entries: seq<Entry>, i: nat, p: nat) returns (j: nat)
    requires HasRecord(entries, p, i)
    ensures j < |Results(entries, i)|
    ensures Results(entries, i)[j] == (entries[p].model, OutcomeOf(QuestionsOf(entries[p])[i]))
  {
    j := PresentSlot(entries, i, p);
  }

  /** Every entry with a record at position `i` scored 1.0 on it. */
  ghost predicate EveryHolderCorrect(entries: seq<Entry>, i: nat) {
    forall p: nat :: HasRecord(entries, p, i) ==> CorrectAt(entries, p, i)
  }

  /** No entry with a record at position `i` scored 1.0 on it. */
  ghost predicate NoHolderCorrect(entries: seq<Entry>, i: nat) {
    forall p: nat :: HasRecord(entries, p, i) ==> !CorrectAt(entries, p, i)
  }

  /** Every outcome of a position is correct exactly when every entry with
      a record there scored 1.0 on it. */
  lemma EveryCorrect(entries: seq<Entry>, i: nat)
    ensures AllOutcomesCorrect(Results(entries, i)) <==> EveryHolderCorrect(entries, i)
  {
    var res := Results(entries, i);
    if AllOutcomesCorrect(res) {
      forall p: nat | HasRecord(entries, p, i)
        ensures CorrectAt(entries, p, i)
      {
        var j := ResultSlot(entries, i, p);
      }
    }
    if EveryHolderCorrect(entries, i) {
      var ps := Present(entries, i);
      forall j | 0 <= j < |res|
        ensures res[j].1.correct
      {
        assert HasRecord(entries, ps[j], i);
      }
    }
  }

  /** No outcome of a position is correct exactly when no entry with a
      record there scored 1.0 on it. */
  lemma NoneCorrect(entries: seq<Entry>, i: nat)
    ensures NoOutcomeCorrect(Results(entries, i)) <==> NoHolderCorrect(entries, i)
  {
    var res := Results(entries, i);
    if NoOutcomeCorrect(res) {
      forall p: nat | HasRecord(entries, p, i)
        ensures !CorrectAt(entries, p, i)
      {
        var j := ResultSlot(entries, i, p);
      }
    }
    if NoHolderCorrect(entries, i) {
      var ps := Present(entries, i);
      forall j | 0 <= j < |res|
        ensures !res[j].1.correct
      {
        assert HasRecord(entries, ps[j], i);
      }
    }
  }

  /** With some entry holding a record at `i`, not all and none of them
      can have scored 1.0 there at once. */
  lemma NotBothAllAndNone(entries: seq<Entry>, i: nat)
    requires exists p: nat :: HasRecord(entries, p, i)
    ensures !(EveryHolderCorrect(entries, i) && NoHolderCorrect(entries, i))
  {
    var p0: nat :| HasRecord(entries, p0, i);
    if CorrectAt(entries, p0, i) {
      assert !NoHolderCorrect(entries, i);
    }
  }

  /** The categories in terms of the models: a position is all-correct
      exactly when every model with a record there scored 1.0 on it,
      all-wrong exactly when none did, and only-405B-correct exactly when
      some but not all did, `llama-405b` did, and `llama-8b` did not or has
      no record there. */
  lemma CategoryMeaning(entries: seq<Entry>, i: nat)
    requires DistinctModels(entries)
    requires exists p: nat :: HasRecord(entries, p, i)
    ensures Categorize(Results(entries, i)) == AllCorrect <==> EveryHolderCorrect(entries, i)
    ensures Categorize(Results(entries, i)) == AllWrong <==> NoHolderCorrect(entries, i)
    ensures Categorize(Results(entries, i)) == OnlyLargeCorrect <==>
              && !EveryHolderCorrect(entries, i)
              && !NoHolderCorrect(entries, i)
              && ModelCorrectAt(entries, LargeModel, i)
              && !ModelCorrectAt(entries, SmallModel, i)
  {
    EveryCorrect(entries, i);
    NoneCorrect(entries, i);
    NotBothAllAndNone(entries, i);
    LookupPresent(entries, i, LargeModel);
    LookupPresent(entries, i, SmallModel);
  }
}

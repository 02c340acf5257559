/** The dictionary `export_comparison` (analysis/compare_models.py) writes
    as JSON: the four per-model summary dicts, the model list, the pattern
    counts, the three index lists and the rows.  Creating the directory and
    writing the file are I/O and are not modelled. */
module Export {
  import opened Seqs
  import opened PatternAnalysis

  /** `pattern_summary`. */
  datatype PatternCounts = PatternCounts(allCorrect: nat, allWrong: nat, onlyLargeCorrect: nat)

  /** `export_data`; each per-model dict is a list of (model, value) pairs
      in insertion order. */
  datatype ExportData = ExportData(
    scores: seq<(string, real)>,
    formatFailures: seq<(string, nat)>,
    formatFailureRate: seq<(string, real)>,
    correctCounts: seq<(string, nat)>,
    models: seq<string>,
    patternSummary: PatternCounts,
    allCorrectIndices: seq<nat>,
    allWrongIndices: seq<nat>,
    onlyLargeCorrectIndices: seq<nat>,
    perQuestion: seq<QuestionRow>)

  /** `export_data` for the loaded entries and their analysis: every model
      of `all_results`, loaded or not, in dict order; the four summary
      dicts, keyed in the same order by the summarised models; each pattern
      count the length of its index list; and the lists and rows as the
      analysis holds them. */
  function ExportComparison(entries: seq<Entry>, a: Analysis): (d: ExportData)
    ensures |d.models| == |entries|
    ensures forall p :: 0 <= p < |entries| ==> d.models[p] == entries[p].model
    ensures |d.scores| == |d.formatFailures| == |d.formatFailureRate| == |d.correctCounts| == |a.summaries|
    ensures forall k :: 0 <= k < |a.summaries| ==>
              && d.scores[k] == (a.summaries[k].model, a.summaries[k].score)
              && d.formatFailures[k] == (a.summaries[k].model, a.summaries[k].formatFailures)
              && d.formatFailureRate[k] == (a.summaries[k].model, a.summaries[k].formatFailureRate)
              && d.correctCounts[k] == (a.summaries[k].model, a.summaries[k].correctCount)
    ensures d.patternSummary == PatternCounts(|a.allCorrect|, |a.allWrong|, |a.onlyLargeCorrect|)
    ensures d.allCorrectIndices == a.allCorrect
    ensures d.allWrongIndices == a.allWrong
    ensures d.onlyLargeCorrectIndices == a.onlyLargeCorrect
    ensures d.perQuestion == a.perQuestion
  {
    var ss := a.summaries;
    ExportData(
      seq(|ss|, k requires 0 <= k < |ss| => (ss[k].model, ss[k].score)),
      seq(|ss|, k requires 0 <= k < |ss| => (ss[k].model, ss[k].formatFailures)),
      seq(|ss|, k requires 0 <= k < |ss| => (ss[k].model, ss[k].formatFailureRate)),
      seq(|ss|, k requires 0 <= k < |ss| => (ss[k].model, ss[k].correctCount)),
      seq(|entries|, p requires 0 <= p < |entries| => entries[p].model),
      PatternCounts(|a.allCorrect|, |a.allWrong|, |a.onlyLargeCorrect|),
      a.allCorrect, a.allWrong, a.onlyLargeCorrect, a.perQuestion)
  }

  /** The positions of `rows` in category `c`, as a set. */
  ghost function InCategory(rows: seq<QuestionRow>, c: Category): set<nat> {
    set k: nat | k < |rows| && Categorize(rows[k].results) == c
  }

  /** A collected list holds each position of its category once, so its
      length is the number of rows in the category. */
  lemma CollectedCount(xs: seq<nat>, rows: seq<QuestionRow>, c: Category)
    requires Collected(xs, rows, c)
    ensures |xs| == |InCategory(rows, c)|
  {
    AscendingElements(xs);
    assert Elements(xs) == InCategory(rows, c);
  }

  /** Each pattern count is the number of rows in its category. */
  lemma PatternCountsMeaning(entries: seq<Entry>, a: Analysis)
    requires Categorized(a)
    ensures ExportComparison(entries, a).patternSummary ==
              PatternCounts(|InCategory(a.perQuestion, AllCorrect)|, |InCategory(a.perQuestion, AllWrong)|,
                            |InCategory(a.perQuestion, OnlyLargeCorrect)|)
  {
    CollectedCount(a.allCorrect, a.perQuestion, AllCorrect);
    CollectedCount(a.allWrong, a.perQuestion, AllWrong);
    CollectedCount(a.onlyLargeCorrect, a.perQuestion, OnlyLargeCorrect);
  }

  /** No row lands in two categories, so the three pattern counts add up to
      at most the number of rows (fewer when some rows fit no category). */
  lemma PatternCountsBound(entries: seq<Entry>, a: Analysis)
    requires Categorized(a)
    ensures var s := ExportComparison(entries, a).patternSummary;
            s.allCorrect + s.allWrong + s.onlyLargeCorrect <= |a.perQuestion|
  {
    var xs, ys, zs := a.allCorrect, a.allWrong, a.onlyLargeCorrect;
    forall k | k in xs + ys + zs
      ensures k < |a.perQuestion|
    {
      assert k in xs || k in ys || k in zs;
    }
    DisjointBound(xs, ys, zs, |a.perQuestion|);
  }

  /** Every key of the four summary dicts is a model of `all_results` that
      was loaded with metrics. */
  lemma SummaryKeysAreModels(entries: seq<Entry>, a: Analysis, k: nat)
    requires a.summaries == Summaries(entries)
    requires k < |a.summaries|
    ensures ExportComparison(entries, a).scores[k].0 in ExportComparison(entries, a).models
    ensures exists p :: 0 <= p < |entries| && HasMetrics(entries[p])
                        && ExportComparison(entries, a).scores[k].0 == entries[p].model
  {
    var d := ExportComparison(entries, a);
    var p := Positions(MetricFlags(entries))[k];
    assert a.summaries[k] == SummaryOf(entries[p]);
    assert d.scores[k].0 == entries[p].model == d.models[p];
  }
}

/** The counters `load_results` (analysis/compare_models.py) derives from a
    parsed report.  Finding the latest run directory and reading the metrics
    JSON are I/O: the metrics dict and the report text come in as
    parameters, None where the file does not exist. */
module ResultSets {
  import opened Wrappers
  import opened Seqs
  import opened ReportParser

  /** The metrics JSON as a dict of numbers; only its `score` entry is read. */
  type Metrics = map<string, real>

  /** `{'metrics', 'questions', 'format_failures', 'total_questions'}`. */
  datatype ResultSet = ResultSet(metrics: Option<Metrics>, questions: seq<Question>, formatFailures: nat,
                                 totalQuestions: nat)

  /** Which records are format failures. */
  function FailureFlags(qs: seq<Question>): (flags: seq<bool>)
    ensures |flags| == |qs|
    ensures forall k :: 0 <= k < |qs| ==> (flags[k] <==> qs[k].formatFailure)
  {
    seq(|qs|, k requires 0 <= k < |qs| => qs[k].formatFailure)
  }

  /** Which records scored exactly 1.0. */
  function CorrectFlags(qs: seq<Question>): (flags: seq<bool>)
    ensures |flags| == |qs|
    ensures forall k :: 0 <= k < |qs| ==> (flags[k] <==> qs[k].score == 1.0)
  {
    seq(|qs|, k requires 0 <= k < |qs| => qs[k].score == 1.0)
  }

  /** The counters agree with the records they summarise. */
  predicate Consistent(rs: ResultSet) {
    rs.totalQuestions == |rs.questions| && rs.formatFailures == CountTrue(FailureFlags(rs.questions))
  }

  /** `load_results` once the run directory is found.  Without a report the
      record list stays empty and both counters stay 0; with one, the records
      are the parsed report, `total_questions` is their number and
      `format_failures` the number of them that are format failures, so it
      never exceeds the total.  Parsing the report is the only failure. */
  function LoadResults(metrics: Option<Metrics>, report: Option<string>): (r: Result<ResultSet, ReportError>)
    ensures report.None? ==> r.Success? && r.value.questions == []
    ensures report.Some? ==> (r.Success? <==> ParseReport(report.value).Success?)
    ensures r.Success? && report.Some? ==> r.value.questions == ParseReport(report.value).value
    ensures r.Success? ==> r.value.metrics == metrics
    ensures r.Success? ==> r.value.totalQuestions == |r.value.questions|
    ensures r.Success? ==> r.value.formatFailures == |Positions(FailureFlags(r.value.questions))|
    ensures r.Success? ==> r.value.formatFailures <= r.value.totalQuestions
    ensures r.Success? ==> (r.value.formatFailures == 0 <==>
              forall k :: 0 <= k < |r.value.questions| ==> !r.value.questions[k].formatFailure)
    ensures r.Success? ==> Consistent(r.value)
  {
    match report
    case None => Success(ResultSet(metrics, [], 0, 0))
    case Some(content) =>
      match ParseReport(content)
      case Failure(e) => Failure(e)
      case Success(qs) =>
        CountPositions(FailureFlags(qs));
        Success(ResultSet(metrics, qs, CountTrue(FailureFlags(qs)), |qs|))
  }
}

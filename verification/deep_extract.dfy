/** `parse_html_results` (analysis/deep_analysis.py): five independent
    `findall`s over the whole report, zipped by position against the list of
    assistant responses. */
module DeepExtract {
  import opened Wrappers
  import opened Text
  import opened Scan
  import opened Numbers
  import opened Seqs

  /** One question result: `{'idx', 'prompt', 'response', 'correct',
      'extracted', 'score'}`. */
  datatype Row = Row(idx: nat, prompt: string, response: string, correct: string,
                     extracted: string, score: real)

  /** `float()` raised ValueError on the quoted score text. */
  datatype ExtractError = BadScore(text: string)

  const UserLead := "<div class=\"message user\">"
  const AssistantLead := "<div class=\"message assistant\">"
  const CorrectMarker := "Correct Answer: "
  const ExtractedMarker := "Extracted Answer: "
  const ScoreMarker := "Score: "

  /** `xs[i] if i < len(xs) else ''`. */
  function Nth(xs: seq<string>, i: nat): string {
    if i < |xs| then xs[i] else ""
  }

  /** The score of entry `i`: 0.0 when the score list is short or the text is
      `'None'` or empty, otherwise `parse` of the text (`float()`, None where
      it raises). */
  function ScoreOf(scores: seq<string>, i: nat, parse: string -> Option<real>): (r: Option<real>)
    ensures i >= |scores| || scores[i] == "None" || scores[i] == "" ==> r == Some(0.0)
  {
    if i < |scores| && scores[i] != "None" && scores[i] != "" then parse(scores[i])
    else Some(0.0)
  }

  /** The row built for position `i` once its score is known, the label
      lists being already stripped (see `StripAllNth`). */
  predicate RowFits(row: Row, prompts: seq<string>, responses: seq<string>, corrects: seq<string>,
                    extracteds: seq<string>, scores: seq<string>,
                    parse: string -> Option<real>, i: nat)
  {
    && i < |responses|
    && row.idx == i
    && row.prompt == Nth(prompts, i)
    && row.response == responses[i]
    && row.correct == Nth(corrects, i)
    && row.extracted == Nth(extracteds, i)
    && ScoreOf(scores, i, parse) == Some(row.score)
  }

  /** Every label stripped. */
  function StripAll(xs: seq<string>): (ys: seq<string>)
    ensures |ys| == |xs|
    ensures forall k :: 0 <= k < |xs| ==> ys[k] == Strip(xs[k])
  {
    seq(|xs|, k requires 0 <= k < |xs| => Strip(xs[k]))
  }

  /** Stripping the list first and then defaulting to `''` gives the
      stripped entry, as `''.strip()` is `''`. */
  lemma StripAllNth(xs: seq<string>, i: nat)
    ensures Nth(StripAll(xs), i) == Strip(Nth(xs, i))
  {
    if i >= |xs| {
      var r := Strip("");
      var a: nat :| OccursAt("", r, a);
    }
  }

  /** The first position in `[i, n)` whose score `parse` rejects, or `n`
      when there is none. */
  function FirstRejected(scores: seq<string>, parse: string -> Option<real>, i: nat, n: nat): (k: nat)
    requires i <= n
    ensures i <= k <= n
    ensures forall j :: i <= j < k ==> ScoreOf(scores, j, parse).Some?
    ensures k < n ==> k < |scores| && ScoreOf(scores, k, parse).None?
    decreases n - i
  {
    if i == n || ScoreOf(scores, i, parse).None? then i
    else FirstRejected(scores, parse, i + 1, n)
  }

  /** The loop body of `parse_html_results` from position `i` on. */
  function AssembleFrom(prompts: seq<string>, responses: seq<string>, corrects: seq<string>,
                        extracteds: seq<string>, scores: seq<string>,
                    parse: string -> Option<real>, i: nat)
    : (r: Result<seq<Row>, ExtractError>)
    requires i <= |responses|
    ensures r.Success? <==> forall k :: i <= k < |responses| ==> ScoreOf(scores, k, parse).Some?
    ensures r.Success? ==> |r.value| == |responses| - i
    ensures r.Failure? ==> FirstRejected(scores, parse, i, |responses|) < |responses|
                           && r.error == BadScore(scores[FirstRejected(scores, parse, i, |responses|)])
    decreases |responses| - i
  {
    if i == |responses| then Success([])
    else
      match ScoreOf(scores, i, parse)
      case None => Failure(BadScore(scores[i]))
      case Some(v) =>
        var row := Row(i, Nth(prompts, i), responses[i], Nth(corrects, i), Nth(extracteds, i), v);
        match AssembleFrom(prompts, responses, corrects, extracteds, scores, parse, i + 1)
        case Failure(e) => Failure(e)
        case Success(rest) => Success([row] + rest)
  }

  /** A successful assembly from position `i` holds, in order, the rows of
      positions `i`, `i + 1`, ... */
  lemma {:induction false} AssembleFromRows(prompts: seq<string>, responses: seq<string>,
                                            corrects: seq<string>, extracteds: seq<string>,
                                            scores: seq<string>,
                                            parse: string -> Option<real>, i: nat)
    requires i <= |responses|
    ensures var r := AssembleFrom(prompts, responses, corrects, extracteds, scores, parse, i);
            r.Success? ==> forall m :: 0 <= m < |r.value| ==>
              RowFits(r.value[m], prompts, responses, corrects, extracteds, scores, parse, i + m)
    decreases |responses| - i
  {
    var r := AssembleFrom(prompts, responses, corrects, extracteds, scores, parse, i);
    if i < |responses| && r.Success? {
      var rest := AssembleFrom(prompts, responses, corrects, extracteds, scores, parse, i + 1).value;
      AssembleFromRows(prompts, responses, corrects, extracteds, scores, parse, i + 1);
      assert r.value == [r.value[0]] + rest;
      forall m | 0 <= m < |r.value|
        ensures RowFits(r.value[m], prompts, responses, corrects, extracteds, scores, parse, i + m)
      {
        if m > 0 {
          assert r.value[m] == rest[m - 1];
          assert RowFits(rest[m - 1], prompts, responses, corrects, extracteds, scores, parse, (i + 1) + (m - 1));
        }
      }
    }
  }

  /** The positional assembly of `parse_html_results`: one row per assistant
      response, row `i` taking the `i`-th prompt, correct label and extracted
      label (stripped) or `''` where a list is short, and the `i`-th score or
      0.0, `parse` standing for `float()`.  The only failure is `parse`
      rejecting a score, and then it is the first rejected score that is
      reported. */
  function Assemble(prompts: seq<string>, responses: seq<string>, corrects: seq<string>,
                    extracteds: seq<string>, scores: seq<string>, parse: string -> Option<real>)
    : (r: Result<seq<Row>, ExtractError>)
    ensures r.Success? <==> forall k :: 0 <= k < |responses| ==> ScoreOf(scores, k, parse).Some?
    ensures r.Success? ==> |r.value| == |responses|
    ensures r.Success? ==> forall k :: 0 <= k < |r.value| ==>
              RowFits(r.value[k], prompts, responses, StripAll(corrects), StripAll(extracteds), scores, parse, k)
    ensures r.Failure? ==> exists k :: 0 <= k < |responses| && ScoreOf(scores, k, parse).None?
                             && r.error == BadScore(scores[k])
                             && forall j :: 0 <= j < k ==> ScoreOf(scores, j, parse).Some?
  {
    var cs, es := StripAll(corrects), StripAll(extracteds);
    var r := AssembleFrom(prompts, responses, cs, es, scores, parse, 0);
    FirstRejectedReported(prompts, responses, cs, es, scores, parse);
    AssembleFromRows(prompts, responses, cs, es, scores, parse, 0);
    assert r.Success? ==> forall k :: 0 <= k < |r.value| ==> r.value[k] == r.value[0 + k];
    r
  }

  /** The failure of a whole assembly names a rejected score with every
      earlier score accepted. */
  lemma FirstRejectedReported(prompts: seq<string>, responses: seq<string>, corrects: seq<string>,
                              extracteds: seq<string>, scores: seq<string>, parse: string -> Option<real>)
    ensures var r := AssembleFrom(prompts, responses, corrects, extracteds, scores, parse, 0);
            r.Failure? ==> exists k :: 0 <= k < |responses| && ScoreOf(scores, k, parse).None?
                             && r.error == BadScore(scores[k])
                             && forall j :: 0 <= j < k ==> ScoreOf(scores, j, parse).Some?
  {
    var k := FirstRejected(scores, parse, 0, |responses|);
    assert forall j :: 0 <= j < k ==> ScoreOf(scores, j, parse).Some?;
  }

  /** `parse_html_results` on the text of a report. */
  function ParseHtmlResults(html: string): (r: Result<seq<Row>, ExtractError>)
    ensures r.Success? ==> |r.value| == |Blocks(html, AssistantLead)|
    ensures r.Success? ==> forall k :: 0 <= k < |r.value| ==>
              r.value[k].idx == k && r.value[k].response == Blocks(html, AssistantLead)[k]
  {
    Assemble(Blocks(html, UserLead), Blocks(html, AssistantLead),
             FindAll(html, CorrectMarker, LineText), FindAll(html, ExtractedMarker, LineText),
             FindAll(html, ScoreMarker, LineText), ParseFloat)
  }
}

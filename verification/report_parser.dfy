/** `parse_html_report` (analysis/compare_models.py): the report is split on
    `<hr>`, the sections without `Correct Answer:` are skipped, and each kept
    section yields one question record. */
module ReportParser {
  import opened Wrappers
  import opened Text
  import opened Seqs
  import opened Scan
  import opened Numbers

  /** The answer labels the report's field patterns accept. */
  datatype Label = A | B | C | D

  function LabelText(l: Label): string {
    match l
    case A => "A"
    case B => "B"
    case C => "C"
    case D => "D"
  }

  /** The label a captured letter names; None for anything else, the literal
      `None` included. */
  function ToLabel(t: string): (r: Option<Label>)
    ensures r.Some? <==> |t| == 1 && IsLabelChar(t[0])
    ensures r.Some? ==> LabelText(r.value) == t
  {
    if t == "A" then Some(A)
    else if t == "B" then Some(B)
    else if t == "C" then Some(C)
    else if t == "D" then Some(D)
    else None
  }

  /** Reading a label's text gives the label back. */
  lemma LabelRoundTrip(l: Label)
    ensures ToLabel(LabelText(l)) == Some(l)
  {
  }

  /** One record: `{'question', 'response', 'correct_answer',
      'extracted_answer', 'score', 'format_failure'}`. */
  datatype Question = Question(question: string, response: string, correctAnswer: Option<Label>,
                               extractedAnswer: Option<Label>, score: real, formatFailure: bool)

  /** `float()` raised ValueError on a `[0-9.]+` capture such as `"."`. */
  datatype ReportError = BadScore(text: string)

  const SectionSeparator := "<hr>"
  const SectionMarker := "Correct Answer:"
  const CorrectField := "Correct Answer: "
  const ExtractedField := "Extracted Answer: "
  const ScoreField := "Score: "
  const PreviewLength := 200
  const Ellipsis := "..."

  /** The question text as stored: its first 200 characters followed by
      `...` when it is longer, otherwise the text itself. */
  function Preview(text: string): (r: string)
    ensures |text| <= PreviewLength ==> r == text
    ensures |text| > PreviewLength ==> |r| == PreviewLength + |Ellipsis|
    ensures Take(text, PreviewLength) <= r
    ensures |text| > PreviewLength ==> r[PreviewLength..] == Ellipsis
  {
    if |text| > PreviewLength then text[..PreviewLength] + Ellipsis else text
  }

  /** The record of one kept section.  The only failure is `float()`
      rejecting the score capture. */
  function ParseSection(section: string): (r: Result<Question, ReportError>)
    ensures r.Failure? <==> Search(section, ScoreField, Decimal).Some?
                            && !DecimalSyntax(Search(section, ScoreField, Decimal).value)
    ensures r.Success? ==>
              r.value.question == (if |Blocks(section, "")| > 0 then Preview(Blocks(section, "")[0]) else "")
    ensures r.Success? ==>
              r.value.response == (if |Blocks(section, "")| > 1 then Blocks(section, "")[1] else "")
    ensures r.Success? ==> (r.value.correctAnswer.Some? <==> Search(section, CorrectField, Letter).Some?)
    ensures r.Success? && r.value.correctAnswer.Some? ==>
              Search(section, CorrectField, Letter) == Some(LabelText(r.value.correctAnswer.value))
    ensures r.Success? ==> (r.value.extractedAnswer.None? <==>
              Search(section, ExtractedField, LetterOrNone) in {None, Some("None")})
    ensures r.Success? && r.value.extractedAnswer.Some? ==>
              Search(section, ExtractedField, LetterOrNone) == Some(LabelText(r.value.extractedAnswer.value))
    ensures r.Success? ==> (r.value.formatFailure <==> r.value.extractedAnswer.None?)
    ensures r.Success? ==> r.value.score >= 0.0
    ensures r.Success? && Search(section, ScoreField, Decimal).None? ==> r.value.score == 0.0
    ensures r.Success? && Search(section, ScoreField, Decimal).Some? ==>
              ParseUnsigned(Search(section, ScoreField, Decimal).value) == Some(r.value.score)
  {
    var question := match FirstBlock(section) case Some(t) => t case None => "";
    var blocks := Blocks(section, "");
    var response := if |blocks| > 1 then blocks[1] else "";
    var correctText, extractedText := Search(section, CorrectField, Letter), Search(section, ExtractedField, LetterOrNone);
    CapturedSearch(section, CorrectField, Letter);
    CapturedSearch(section, ExtractedField, LetterOrNone);
    var correct := match correctText case Some(t) => ToLabel(t) case None => None;
    var extracted := match extractedText case Some(t) => ToLabel(t) case None => None;
    match Search(section, ScoreField, Decimal)
    case None => Success(Question(Preview(question), response, correct, extracted, 0.0, extracted.None?))
    case Some(t) =>
      match ParseUnsigned(t)
      case None => Failure(BadScore(t))
      case Some(v) => Success(Question(Preview(question), response, correct, extracted, v, extracted.None?))
  }

  /** What `re.search` captures is something the capture group can capture. */
  lemma CapturedSearch(s: string, marker: string, cap: Capture)
    ensures Search(s, marker, cap).Some? ==> Captures(cap, Search(s, marker, cap).value)
  {
    match SearchFrom(s, marker, cap, 0)
    case Some(sp) => CapturedText(s, marker, cap, sp.start);
    case None =>
  }

  /** Which sections are kept: those holding `Correct Answer:`. */
  function Kept(sections: seq<string>): (flags: seq<bool>)
    ensures |flags| == |sections|
    ensures forall k :: 0 <= k < |sections| ==> (flags[k] <==> Contains(sections[k], SectionMarker))
  {
    seq(|sections|, k requires 0 <= k < |sections| => Contains(sections[k], SectionMarker))
  }

  /** The records read by `parse` from the sections at positions `ps`, in
      order, or the error of the first position `parse` rejects. */
  function ParseAt(sections: seq<string>, ps: seq<nat>, parse: string -> Result<Question, ReportError>)
    : (r: Result<seq<Question>, ReportError>)
    requires forall m :: 0 <= m < |ps| ==> ps[m] < |sections|
    ensures r.Success? <==> forall m :: 0 <= m < |ps| ==> parse(sections[ps[m]]).Success?
    ensures r.Success? ==> |r.value| == |ps|
    ensures r.Success? ==> forall m :: 0 <= m < |ps| ==> parse(sections[ps[m]]) == Success(r.value[m])
    ensures r.Failure? ==> exists m :: 0 <= m < |ps| && parse(sections[ps[m]]) == Failure(r.error)
                             && forall j :: 0 <= j < m ==> parse(sections[ps[j]]).Success?
  {
    if |ps| == 0 then Success([])
    else
      match parse(sections[ps[0]])
      case Failure(e) => Failure(e)
      case Success(q) =>
        var tail := ps[1..];
        assert forall j :: 1 <= j < |ps| ==> ps[j] == tail[j - 1];
        match ParseAt(sections, tail, parse)
        case Failure(e) =>
          var m: nat :| m < |tail| && parse(sections[tail[m]]) == Failure(e)
                        && forall j :: 0 <= j < m ==> parse(sections[tail[j]]).Success?;
          assert parse(sections[ps[m + 1]]) == Failure(e);
          Failure(e)
        case Success(rest) =>
          ConsIndex(q, rest);
          Success([q] + rest)
  }

  /** The loop of `parse_html_report` with the keep flags and the record
      reader `parse` as parameters: one record per kept section, in order,
      or the error of the first kept section `parse` rejects. */
  function ParseKept(sections: seq<string>, keep: seq<bool>, parse: string -> Result<Question, ReportError>)
    : (r: Result<seq<Question>, ReportError>)
    requires |keep| == |sections|
    ensures r.Success? <==> forall k :: 0 <= k < |sections| && keep[k] ==> parse(sections[k]).Success?
    ensures r.Success? ==> |r.value| == |Positions(keep)|
    ensures r.Success? ==> forall m :: 0 <= m < |r.value| ==>
              parse(sections[Positions(keep)[m]]) == Success(r.value[m])
    ensures r.Failure? ==> exists k :: 0 <= k < |sections| && keep[k] && parse(sections[k]) == Failure(r.error)
                             && forall j :: 0 <= j < k && keep[j] ==> parse(sections[j]).Success?
  {
    var r := ParseAt(sections, Positions(keep), parse);
    if r.Failure? then
      KeptFailure(sections, keep, parse);
      r
    else r
  }

  /** The first kept section `ParseAt` rejects is the first kept section
      `parse` rejects. */
  lemma KeptFailure(sections: seq<string>, keep: seq<bool>, parse: string -> Result<Question, ReportError>)
    requires |keep| == |sections| && ParseAt(sections, Positions(keep), parse).Failure?
    ensures exists k :: 0 <= k < |sections| && keep[k]
                        && parse(sections[k]) == Failure(ParseAt(sections, Positions(keep), parse).error)
                        && forall j :: 0 <= j < k && keep[j] ==> parse(sections[j]).Success?
  {
    var ps := Positions(keep);
    var r := ParseAt(sections, ps, parse);
    var m :| 0 <= m < |ps| && parse(sections[ps[m]]) == Failure(r.error)
              && forall j :: 0 <= j < m ==> parse(sections[ps[j]]).Success?;
    EarlierKeptParsed(sections, keep, parse, m);
  }

  /** Every kept section before the `m`-th kept one is one of the first `m`
      kept sections. */
  lemma EarlierKeptParsed(sections: seq<string>, keep: seq<bool>, parse: string -> Result<Question, ReportError>,
                          m: nat)
    requires |keep| == |sections| && m < |Positions(keep)|
    requires forall j :: 0 <= j < m ==> parse(sections[Positions(keep)[j]]).Success?
    ensures forall j :: 0 <= j < Positions(keep)[m] && keep[j] ==> parse(sections[j]).Success?
  {
    var ps := Positions(keep);
    forall j | 0 <= j < ps[m] && keep[j]
      ensures parse(sections[j]).Success?
    {
      assert j in ps;
      var a: nat :| a < |ps| && ps[a] == j;
      assert a < m;
    }
  }

  /** The records of the `<hr>`-separated sections of a report: one record
      per section that holds `Correct Answer:`, in document order, each the
      record `ParseSection` reads from that section; every other section is
      skipped.  It fails exactly when some kept section's score capture is
      not a decimal, and then reports the first such section. */
  function ParseSections(sections: seq<string>): (r: Result<seq<Question>, ReportError>)
    ensures r.Success? <==> forall k :: 0 <= k < |sections| && Kept(sections)[k] ==>
                              ParseSection(sections[k]).Success?
    ensures r.Success? ==> |r.value| == |Positions(Kept(sections))|
    ensures r.Success? ==> forall m :: 0 <= m < |r.value| ==>
              ParseSection(sections[Positions(Kept(sections))[m]]) == Success(r.value[m])
    ensures r.Failure? ==> exists k :: 0 <= k < |sections| && Kept(sections)[k]
                             && ParseSection(sections[k]) == Failure(r.error)
                             && forall j :: 0 <= j < k && Kept(sections)[j] ==> ParseSection(sections[j]).Success?
  {
    ParseKept(sections, Kept(sections), ParseSection)
  }

  /** `parse_html_report` on the text of a report: at most one record per
      `<hr>`-separated section. */
  function ParseReport(content: string): (r: Result<seq<Question>, ReportError>)
    ensures r.Success? ==> |r.value| <= |Split(content, SectionSeparator)|
  {
    ParseSections(Split(content, SectionSeparator))
  }

  /** A report without `Correct Answer:` anywhere has no kept section, so it
      yields no records. */
  lemma NoMarkerNoQuestions(content: string)
    requires !Contains(content, SectionMarker)
    ensures ParseReport(content) == Success([])
  {
    var parts := Split(content, SectionSeparator);
    forall k | 0 <= k < |parts|
      ensures !Contains(parts[k], SectionMarker)
    {
      if Contains(parts[k], SectionMarker) {
        var j: nat :| OccursAt(parts[k], SectionMarker, j);
        JoinContains(parts, SectionSeparator, SectionMarker, k, j);
      }
    }
  }

  /** An occurrence inside one piece is an occurrence in the joined text. */
  lemma {:induction false} JoinContains(parts: seq<string>, sep: string, sub: string, k: nat, j: nat)
    requires k < |parts|
    requires OccursAt(parts[k], sub, j)
    ensures Contains(Join(parts, sep), sub)
    decreases k
  {
    var s := Join(parts, sep);
    if |parts| == 1 {
      assert OccursAt(s, sub, j);
    } else if k == 0 {
      assert s == parts[0] + (sep + Join(parts[1..], sep));
      assert s[j..j + |sub|] == parts[0][j..j + |sub|];
      assert OccursAt(s, sub, j);
    } else {
      JoinContains(parts[1..], sep, sub, k - 1, j);
      var tail := Join(parts[1..], sep);
      var i: nat :| OccursAt(tail, sub, i);
      var off := |parts[0]| + |sep|;
      assert s == (parts[0] + sep) + tail;
      assert s[off + i..off + i + |sub|] == tail[i..i + |sub|];
      assert OccursAt(s, sub, off + i);
    }
  }
}

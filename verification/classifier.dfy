/** `classify_failure` (analysis/deep_analysis.py): a first-match-wins chain
    of rules over one row that yields a (category, subtype) pair. */
module Classifier {
  import opened Wrappers
  import opened Text
  import opened Heuristics
  import opened DeepExtract

  /** The subtypes of a format failure. */
  datatype FormatKind =
    | RepetitiveLoop
    | TruncatedButCorrect
    | TruncatedNoAnswer
    | WrongFormatButCorrect
    | WrongFormatWrongAnswer
    | NoClearAnswer

  /** The closed set of outcomes. */
  datatype Tag =
    | Correct
    | WrongAnswer(extracted: string, correct: string)
    | FormatFailure(kind: FormatKind)

  /** The extracted-answer text that stands for no extracted answer. */
  const NoAnswer := "None"

  const LoopMinLength := 1000
  const LoopWindow := 500
  const LoopMinWords := 10
  const LoopPhraseWords := 5
  const LoopMinRepeats := 3
  const TruncationLength := 3500

  /** The letters scanned for an explicit answer, in scan order. */
  const Letters: seq<string> := ["A", "B", "C", "D"]

  /** The trailing phrase of a response window: its last five words joined
      with single spaces. */
  function LoopPhrase(window: string): string
    requires |Words(window)| > LoopMinWords
  {
    var words := Words(window);
    Join(words[|words| - LoopPhraseWords..], " ")
  }

  /** The repetition check: a long response whose last 500 characters hold
      more than ten words, and whose trailing five-word phrase occurs more
      than three times (non-overlapping) in those 500 characters. */
  predicate IsRepetitiveLoop(response: string) {
    && |response| > LoopMinLength
    && |Words(TakeLast(response, LoopWindow))| > LoopMinWords
    && Count(TakeLast(response, LoopWindow), LoopPhrase(TakeLast(response, LoopWindow))) > LoopMinRepeats
  }

  /** The letter scan from position `k` of `Letters` on. */
  function ScanLetters(response: string, correct: string, k: nat): (kind: FormatKind)
    requires k <= |Letters|
    decreases |Letters| - k
  {
    if k == |Letters| then NoClearAnswer
    else if ExplicitLetter(response, Letters[k]) then
      if Letters[k] == correct then WrongFormatButCorrect else WrongFormatWrongAnswer
    else ScanLetters(response, correct, k + 1)
  }

  /** The rules for a row without an extracted answer, in source order. */
  function FormatSubtype(response: string, correct: string): FormatKind {
    var hidden := HiddenAnswer(response, correct);
    if IsRepetitiveLoop(response) then RepetitiveLoop
    else if |response| > TruncationLength then
      if hidden then TruncatedButCorrect else TruncatedNoAnswer
    else if hidden then WrongFormatButCorrect
    else ScanLetters(response, correct, 0)
  }

  /** The whole rule chain. */
  function Classify(row: Row): Tag {
    if row.score == 1.0 then Correct
    else if row.extracted != NoAnswer then WrongAnswer(row.extracted, row.correct)
    else FormatFailure(FormatSubtype(row.response, row.correct))
  }

  function KindName(kind: FormatKind): string {
    match kind
    case RepetitiveLoop => "repetitive_loop"
    case TruncatedButCorrect => "truncated_but_correct"
    case TruncatedNoAnswer => "truncated_no_answer"
    case WrongFormatButCorrect => "wrong_format_but_correct"
    case WrongFormatWrongAnswer => "wrong_format_wrong_answer"
    case NoClearAnswer => "no_clear_answer"
  }

  /** The pair the script returns for a tag. */
  function Render(t: Tag): (string, Option<string>) {
    match t
    case Correct => ("correct", None)
    case WrongAnswer(e, c) => ("wrong_answer", Some("answered_" + e + "_correct_" + c))
    case FormatFailure(k) => ("format_failure", Some(KindName(k)))
  }

  /** The six format-failure subtype names. */
  predicate IsFormatSubtypeName(s: string) {
    s in {"repetitive_loop", "truncated_but_correct", "truncated_no_answer",
          "wrong_format_but_correct", "wrong_format_wrong_answer", "no_clear_answer"}
  }

  /** `classify_failure(result)`.  It is total and lands in the closed set:
      `('correct', None)` exactly when the score is 1.0, whatever the text;
      otherwise `wrong_answer` with the label pair exactly when an answer
      was extracted (the empty default included); otherwise `format_failure`
      with one of six subtypes. */
  function ClassifyFailure(row: Row): (r: (string, Option<string>))
    ensures r.0 == "correct" || r.0 == "wrong_answer" || r.0 == "format_failure"
    ensures r == ("correct", None) <==> row.score == 1.0
    ensures r.1.None? <==> r.0 == "correct"
    ensures r.0 == "wrong_answer" <==> row.score != 1.0 && row.extracted != NoAnswer
    ensures r.0 == "wrong_answer" ==>
              r.1 == Some("answered_" + row.extracted + "_correct_" + row.correct)
    ensures r.0 == "format_failure" <==> row.score != 1.0 && row.extracted == NoAnswer
    ensures r.0 == "format_failure" ==> IsFormatSubtypeName(r.1.value)
  {
    Render(Classify(row))
  }

  /** The rendered subtype names tell the six format-failure kinds apart. */
  lemma KindNamesDistinct(a: FormatKind, b: FormatKind)
    requires KindName(a) == KindName(b)
    ensures a == b
  {
    match a
    case RepetitiveLoop => assert KindName(a)[0] == 'r';
    case TruncatedButCorrect => assert KindName(a)[10] == 'b';
    case TruncatedNoAnswer => assert KindName(a)[10] == 'n';
    case WrongFormatButCorrect => assert KindName(a)[13] == 'b';
    case WrongFormatWrongAnswer => assert KindName(a)[13] == 'w';
    case NoClearAnswer => assert KindName(a)[0] == 'n';
  }

  /** `repetitive_loop` is returned exactly for an unanswered, not fully
      correct row whose response is longer than 1000 characters, whose last
      500 characters split into more than ten words, and whose last five of
      those words, joined by single spaces, occur more than three times in
      those 500 characters. */
  lemma RepetitiveLoopExactly(row: Row)
    ensures Classify(row) == FormatFailure(RepetitiveLoop) <==>
              && row.score != 1.0 && row.extracted == NoAnswer
              && |row.response| > 1000
              && |Words(row.response[|row.response| - 500..])| > 10
              && Count(row.response[|row.response| - 500..],
                       Join(Words(row.response[|row.response| - 500..])[|Words(row.response[|row.response| - 500..])| - 5..], " ")) > 3
  {
    if |row.response| > 1000 {
      assert TakeLast(row.response, LoopWindow) == row.response[|row.response| - 500..];
    }
  }

  /** A detected loop has a non-empty trailing phrase of at most 125
      characters: four non-overlapping copies fit in the 500-character
      window. */
  lemma LoopPhraseFits(response: string)
    requires IsRepetitiveLoop(response)
    ensures 0 < |LoopPhrase(TakeLast(response, LoopWindow))| <= 125
  {
    var window := TakeLast(response, LoopWindow);
    var words := Words(window);
    var tail := words[|words| - LoopPhraseWords..];
    var phrase := Join(tail, " ");
    assert tail[0] == words[|words| - 5];
    assert |phrase| >= |tail[0]| > 0 by {
      assert phrase == tail[0] + " " + Join(tail[1..], " ");
    }
    assert phrase == LoopPhrase(window);
    var n := Count(window, phrase);
    FourCopiesFit(n, |phrase|, |window|);
  }

  /** More than three copies of `len` characters within `total <= 500`
      characters leave at most 125 characters per copy. */
  lemma FourCopiesFit(n: nat, len: nat, total: nat)
    requires n > 3 && n * len <= total <= 500
    ensures len <= 125
  {
    assert n * len == (n - 4) * len + 4 * len;
    assert (n - 4) * len >= 0;
  }

  /** A format failure that is not a loop and is longer than 3500 characters
      is always a truncation, `truncated_but_correct` exactly when a
      hidden-answer pattern matches; so the `wrong_format_*` and
      `no_clear_answer` subtypes only arise for responses of at most 3500
      characters. */
  lemma LongFailuresAreTruncated(row: Row)
    requires Classify(row).FormatFailure?
    ensures !IsRepetitiveLoop(row.response) && |row.response| > 3500 ==>
              Classify(row).kind == (if HiddenAnswer(row.response, row.correct)
                                     then TruncatedButCorrect else TruncatedNoAnswer)
    ensures Classify(row).kind in {WrongFormatButCorrect, WrongFormatWrongAnswer, NoClearAnswer} ==>
              |row.response| <= 3500
  {
    var kind := Classify(row).kind;
    if |row.response| > 3500 {
      assert kind in {RepetitiveLoop, TruncatedButCorrect, TruncatedNoAnswer};
    }
  }

  /** A short format failure with a hidden answer: an unanswered, not fully
      correct row that is no loop, at most 3500 characters long, and matched
      by a hidden-answer pattern is `wrong_format_but_correct`, before any
      letter scan. */
  lemma HiddenShortIsWrongFormatButCorrect(row: Row)
    requires row.score != 1.0 && row.extracted == NoAnswer
    requires !IsRepetitiveLoop(row.response) && |row.response| <= TruncationLength
    requires HiddenAnswer(row.response, row.correct)
    ensures Classify(row) == FormatFailure(WrongFormatButCorrect)
  {
  }

  /** Letter `Letters[k]` is the first, in the order A, B, C, D, whose
      explicit-answer patterns match the response. */
  predicate FirstExplicit(response: string, k: nat) {
    && k < |Letters|
    && ExplicitLetter(response, Letters[k])
    && forall j :: 0 <= j < k ==> !ExplicitLetter(response, Letters[j])
  }

  lemma {:induction false} ScanLettersFrom(response: string, correct: string, k: nat)
    requires k <= |Letters|
    requires forall j :: 0 <= j < k ==> !ExplicitLetter(response, Letters[j])
    ensures ScanLetters(response, correct, k) ==
              if exists m: nat :: FirstExplicit(response, m)
              then (var m: nat :| FirstExplicit(response, m);
                    if Letters[m] == correct then WrongFormatButCorrect else WrongFormatWrongAnswer)
              else NoClearAnswer
    decreases |Letters| - k
  {
    if k == |Letters| {
      assert !exists m: nat :: FirstExplicit(response, m);
    } else if ExplicitLetter(response, Letters[k]) {
      assert FirstExplicit(response, k);
      forall m: nat | FirstExplicit(response, m)
        ensures m == k
      {
      }
    } else {
      ScanLettersFrom(response, correct, k + 1);
    }
  }

  /** The letter scan: the first letter in the order A, B, C, D whose
      explicit-answer patterns match decides, giving
      `wrong_format_but_correct` when it equals the correct label and
      `wrong_format_wrong_answer` otherwise; with no matching letter the
      result is `no_clear_answer`.  It applies to an unanswered, not fully
      correct row that is no loop, at most 3500 characters long and without
      a hidden answer. */
  lemma LetterScanDecides(row: Row)
    requires row.score != 1.0 && row.extracted == NoAnswer
    requires !IsRepetitiveLoop(row.response) && |row.response| <= 3500
    requires !HiddenAnswer(row.response, row.correct)
    ensures forall m: nat :: FirstExplicit(row.response, m) ==>
              Classify(row) == FormatFailure(if Letters[m] == row.correct
                                             then WrongFormatButCorrect else WrongFormatWrongAnswer)
    ensures (forall m: nat :: !FirstExplicit(row.response, m)) ==> Classify(row) == FormatFailure(NoClearAnswer)
  {
    ScanLettersFrom(row.response, row.correct, 0);
    forall m: nat | FirstExplicit(row.response, m)
      ensures Classify(row) == FormatFailure(if Letters[m] == row.correct
                                             then WrongFormatButCorrect else WrongFormatWrongAnswer)
    {
      forall m': nat | FirstExplicit(row.response, m')
        ensures m' == m
      {
      }
    }
  }
}

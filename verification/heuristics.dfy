/** The two regex families `classify_failure` searches a response with
    (analysis/deep_analysis.py): the hidden-answer patterns built around the
    correct label, and the explicit-answer patterns built around each letter
    A to D.  Every pattern in both families is a sequence of literal words
    and `[:\s]+` gaps, searched case-insensitively, so a pattern is modelled
    as a list of tokens. */
module Heuristics {
  import opened Text

  /** One piece of a pattern: a literal, or the gap `[:\s]+`. */
  datatype Tok = Lit(text: string) | Gap

  predicate IsGapChar(c: char) {
    c == ':' || IsSpace(c)
  }

  /** `t` occurs at `i`, letters compared without case (`re.IGNORECASE`). */
  predicate LitAt(s: string, i: nat, t: string) {
    i + |t| <= |s| && forall k :: 0 <= k < |t| ==> LowerChar(s[i + k]) == LowerChar(t[k])
  }

  /** The pattern matches a prefix of `s[i..]`.  A gap eats one gap character
      and then either ends or eats more, which covers every way the
      backtracking engine could divide the text. */
  predicate MatchesAt(s: string, i: nat, p: seq<Tok>)
    ensures MatchesAt(s, i, p) && i <= |s| ==> i + MinWidth(p) <= |s|
    decreases |p|, |s| - i
  {
    if |p| == 0 then true
    else match p[0]
      case Lit(t) => LitAt(s, i, t) && MatchesAt(s, i + |t|, p[1..])
      case Gap =>
        i < |s| && IsGapChar(s[i]) && (MatchesAt(s, i + 1, p[1..]) || MatchesAt(s, i + 1, p))
  }

  /** The fewest characters a match of `p` takes: each literal its length,
      each gap one character. */
  function MinWidth(p: seq<Tok>): nat {
    if |p| == 0 then 0
    else (match p[0] case Lit(t) => |t| case Gap => 1) + MinWidth(p[1..])
  }

  /** `re.search(p, s, re.IGNORECASE)` finds a match. */
  predicate Search(s: string, p: seq<Tok>) {
    exists i :: 0 <= i <= |s| && MatchesAt(s, i, p)
  }

  /** The six hidden-answer patterns with the correct label interpolated:
        answer[:\s]+is[:\s]+{c}      answer[:\s]+{c}
        correct[:\s]+answer[:\s]+is[:\s]+{c}      option[:\s]+{c}
        \({c}\)[:\s]+is[:\s]+correct      {c}\)                     */
  function HiddenPatterns(correct: string): (ps: seq<seq<Tok>>)
    ensures |ps| == 6
    ensures forall k :: 0 <= k < |ps| ==> Lit(correct) in ps[k]
  {
    [ [Lit("answer"), Gap, Lit("is"), Gap, Lit(correct)],
      [Lit("answer"), Gap, Lit(correct)],
      [Lit("correct"), Gap, Lit("answer"), Gap, Lit("is"), Gap, Lit(correct)],
      [Lit("option"), Gap, Lit(correct)],
      [Lit("("), Lit(correct), Lit(")"), Gap, Lit("is"), Gap, Lit("correct")],
      [Lit(correct), Lit(")")] ]
  }

  /** Some hidden-answer pattern matches the lower-cased response, which is
      the same as matching the response as written. */
  predicate HiddenAnswer(response: string, correct: string)
    ensures HiddenAnswer(response, correct) <==>
              exists k :: 0 <= k < |HiddenPatterns(correct)| && Search(response, HiddenPatterns(correct)[k])
  {
    SearchAllLower(response, HiddenPatterns(correct));
    exists k :: 0 <= k < |HiddenPatterns(correct)| && Search(Lower(response), HiddenPatterns(correct)[k])
  }

  /** The three explicit-answer patterns for one letter:
        answer[:\s]+is[:\s]+{L}
        correct[:\s]+answer[:\s]+is[:\s]+{L}
        option[:\s]+{L}[:\s]+is                                       */
  function LetterPatterns(letter: string): (ps: seq<seq<Tok>>)
    ensures |ps| == 3
    ensures forall k :: 0 <= k < |ps| ==> Lit(letter) in ps[k]
  {
    [ [Lit("answer"), Gap, Lit("is"), Gap, Lit(letter)],
      [Lit("correct"), Gap, Lit("answer"), Gap, Lit("is"), Gap, Lit(letter)],
      [Lit("option"), Gap, Lit(letter), Gap, Lit("is")] ]
  }

  /** Some explicit-answer pattern for `letter` matches the response as
      written, which is the same as matching the lower-cased response. */
  predicate ExplicitLetter(response: string, letter: string)
    ensures ExplicitLetter(response, letter) <==>
              exists k :: 0 <= k < |LetterPatterns(letter)| && Search(Lower(response), LetterPatterns(letter)[k])
  {
    SearchAllLower(response, LetterPatterns(letter));
    exists k :: 0 <= k < |LetterPatterns(letter)| && Search(response, LetterPatterns(letter)[k])
  }

  lemma LowerIdempotent(c: char)
    ensures LowerChar(LowerChar(c)) == LowerChar(c)
    ensures IsGapChar(LowerChar(c)) == IsGapChar(c)
  {
  }

  /** Matching ignores case, so lower-casing the text first changes nothing. */
  lemma {:induction false} MatchesAtLower(s: string, i: nat, p: seq<Tok>)
    ensures MatchesAt(Lower(s), i, p) == MatchesAt(s, i, p)
    decreases |p|, |s| - i
  {
    var l := Lower(s);
    if |p| > 0 {
      match p[0]
      case Lit(t) =>
        MatchesAtLower(s, i + |t|, p[1..]);
      case Gap =>
        if i < |s| {
          LowerIdempotent(s[i]);
          assert IsGapChar(l[i]) == IsGapChar(s[i]) by {
            assert LowerChar(l[i]) == LowerChar(s[i]);
            LowerIdempotent(l[i]);
            assert l[i] == LowerChar(s[i]);
          }
          MatchesAtLower(s, i + 1, p[1..]);
          MatchesAtLower(s, i + 1, p);
        }
    }
  }

  /** Searching the ASCII-lower-cased response is the same as searching the
      response: on ASCII case folding, the `.lower()` before the
      case-insensitive search changes nothing. */
  lemma SearchLower(s: string, p: seq<Tok>)
    ensures Search(Lower(s), p) == Search(s, p)
  {
    forall i | 0 <= i <= |s|
      ensures MatchesAt(Lower(s), i, p) == MatchesAt(s, i, p)
    {
      MatchesAtLower(s, i, p);
    }
  }

  /** SearchLower for every pattern of a family. */
  lemma SearchAllLower(s: string, ps: seq<seq<Tok>>)
    ensures forall k :: 0 <= k < |ps| ==> Search(Lower(s), ps[k]) == Search(s, ps[k])
  {
    forall k | 0 <= k < |ps|
      ensures Search(Lower(s), ps[k]) == Search(s, ps[k])
    {
      SearchLower(s, ps[k]);
    }
  }

  /** The third hidden-answer pattern is redundant: wherever
      "correct answer is X" matches, "answer is X" matches inside it. */
  lemma ThirdImpliesFirst(s: string, correct: string)
    requires Search(s, HiddenPatterns(correct)[2])
    ensures Search(s, HiddenPatterns(correct)[0])
  {
    var i :| 0 <= i <= |s| && MatchesAt(s, i, HiddenPatterns(correct)[2]);
    assert HiddenPatterns(correct)[2][1..] == [Gap] + HiddenPatterns(correct)[0];
    var j := GapEnd(s, i + 7, HiddenPatterns(correct)[0]);
    assert MatchesAt(s, j, HiddenPatterns(correct)[0]);
  }

  /** Where the gap that starts at `i` hands over to the rest of the pattern
      `rest`, when the gap followed by `rest` matches at `i`. */
  function GapEnd(s: string, i: nat, rest: seq<Tok>): (j: nat)
    requires MatchesAt(s, i, [Gap] + rest)
    ensures i < j <= |s| && MatchesAt(s, j, rest)
    decreases |s| - i
  {
    assert ([Gap] + rest)[1..] == rest;
    if MatchesAt(s, i + 1, rest) then i + 1 else GapEnd(s, i + 1, rest)
  }
}

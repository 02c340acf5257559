/** The fixed regular expressions the two report parsers use, written out as
    scanners with the leftmost-match semantics of `re.search` and the
    resume-after-match semantics of `re.findall`.

    Field patterns have the shape `<marker>(<capture>)`:
      - `Correct Answer: ([A-D])`, `Extracted Answer: ([A-D]|None)`,
        `Score: ([0-9.]+)` (analysis/compare_models.py);
      - `Correct Answer: ([^<\n]+)` and its two siblings
        (analysis/deep_analysis.py).
    Block patterns have the shape `<lead>.*?<pre>(.*?)</pre>` under DOTALL,
    with an empty lead for the plain `<pre>(.*?)</pre>`. */
module Scan {
  import opened Wrappers
  import opened Text
  import opened Seqs

  /** The capture group that follows a field marker. */
  datatype Capture =
    | Letter        // ([A-D])
    | LetterOrNone  // ([A-D]|None)
    | Decimal       // ([0-9.]+)
    | LineText      // ([^<\n]+)

  predicate IsLabelChar(c: char) {
    'A' <= c <= 'D'
  }

  /** The character class repeated by a run capture. */
  predicate InClass(cap: Capture, c: char) {
    match cap
    case Decimal => '0' <= c <= '9' || c == '.'
    case LineText => c != '<' && c != '\n'
    case _ => false
  }

  /** The end of the longest run of class characters starting at `j`. */
  function RunEnd(cap: Capture, s: string, j: nat): (e: nat)
    requires j <= |s|
    ensures j <= e <= |s|
    ensures forall k :: j <= k < e ==> InClass(cap, s[k])
    ensures e < |s| ==> !InClass(cap, s[e])
    decreases |s| - j
  {
    if j == |s| || !InClass(cap, s[j]) then j else RunEnd(cap, s, j + 1)
  }

  /** Where the capture group ends when it starts at `j`, or None when the
      group cannot match there.  Runs are greedy and nothing follows them in
      the pattern, so the longest run is the match. */
  function CaptureEnd(cap: Capture, s: string, j: nat): (r: Option<nat>)
    requires j <= |s|
    ensures r.Some? ==> j < r.value <= |s|
  {
    match cap
    case Letter =>
      if j < |s| && IsLabelChar(s[j]) then Some(j + 1) else None
    case LetterOrNone =>
      if j < |s| && IsLabelChar(s[j]) then Some(j + 1)
      else if OccursAt(s, "None", j) then Some(j + 4)
      else None
    case Decimal =>
      var e := RunEnd(cap, s, j);
      if e > j then Some(e) else None
    case LineText =>
      var e := RunEnd(cap, s, j);
      if e > j then Some(e) else None
  }

  /** A match of a field pattern: where it starts and the captured span. */
  datatype Span = Span(start: nat, lo: nat, hi: nat)

  /** The match of `marker` followed by the capture, anchored at `i`. */
  function MatchAt(s: string, marker: string, cap: Capture, i: nat): (r: Option<Span>)
    ensures r.Some? ==> r.value.start == i && r.value.lo == i + |marker|
                        && r.value.lo < r.value.hi <= |s|
  {
    if OccursAt(s, marker, i) then
      match CaptureEnd(cap, s, i + |marker|)
      case Some(e) => Some(Span(i, i + |marker|, e))
      case None => None
    else None
  }

  /** `re.search` from position `from`: the match with the leftmost start. */
  function SearchFrom(s: string, marker: string, cap: Capture, from: nat): (r: Option<Span>)
    ensures r.Some? ==> from <= r.value.start && MatchAt(s, marker, cap, r.value.start) == r
    ensures r.Some? ==> forall i :: from <= i < r.value.start ==> MatchAt(s, marker, cap, i).None?
    ensures r.None? ==> forall i :: from <= i ==> MatchAt(s, marker, cap, i).None?
    decreases |s| - from
  {
    if from > |s| then None
    else
      match MatchAt(s, marker, cap, from)
      case Some(sp) => Some(sp)
      case None => SearchFrom(s, marker, cap, from + 1)
  }

  /** `re.search(marker + capture, s).group(1)`, or None without a match. */
  function Search(s: string, marker: string, cap: Capture): (r: Option<string>)
    ensures r.Some? ==> exists i :: MatchAt(s, marker, cap, i).Some?
    ensures r.None? ==> forall i: nat :: MatchAt(s, marker, cap, i).None?
  {
    match SearchFrom(s, marker, cap, 0)
    case Some(sp) => Some(s[sp.lo..sp.hi])
    case None => None
  }

  /** A string the capture group can capture. */
  predicate Captures(cap: Capture, t: string) {
    match cap
    case Letter => |t| == 1 && IsLabelChar(t[0])
    case LetterOrNone => (|t| == 1 && IsLabelChar(t[0])) || t == "None"
    case Decimal => |t| > 0 && forall k :: 0 <= k < |t| ==> InClass(cap, t[k])
    case LineText => |t| > 0 && forall k :: 0 <= k < |t| ==> InClass(cap, t[k])
  }

  lemma CapturedText(s: string, marker: string, cap: Capture, i: nat)
    requires MatchAt(s, marker, cap, i).Some?
    ensures Captures(cap, s[MatchAt(s, marker, cap, i).value.lo..MatchAt(s, marker, cap, i).value.hi])
  {
    var sp := MatchAt(s, marker, cap, i).value;
    var t := s[sp.lo..sp.hi];
    if cap.LetterOrNone? && !(sp.lo < |s| && IsLabelChar(s[sp.lo])) {
      assert s[sp.lo..sp.lo + 4] == "None";
    }
    if cap.Decimal? || cap.LineText? {
      assert forall k :: 0 <= k < |t| ==> t[k] == s[sp.lo + k];
    }
  }

  /** What `re.search` returns when started at each position: `next(i)` is
      the match it finds at or after `i`, or None. */
  type Searcher = nat -> Option<Span>

  /** `sp`, found by a search started at `i`, starts there or later, lies
      within the first `n` characters and reaches past its start. */
  predicate InOrder(i: nat, sp: Span, n: nat) {
    i <= sp.start <= sp.lo <= sp.hi <= n && sp.start < sp.hi
  }

  /** Every match `next` finds is in order with where its search started. */
  ghost predicate Advances(next: Searcher, n: nat) {
    forall i: nat :: next(i).Some? ==> InOrder(i, next(i).value, n)
  }

  /** The matches `re.findall` visits from `from` on: search, take the match,
      resume `gap` characters after its capture, until a search fails.  The
      gap is 0 for field patterns, whose match ends with the capture, and the
      length of `</pre>` for block patterns.  The matches come in document
      order and each starts at least `gap` characters after the capture of
      every earlier one ends, so they do not overlap. */
  function Visit(next: Searcher, gap: nat, n: nat, from: nat): (ms: seq<Span>)
    requires Advances(next, n)
    ensures forall k :: 0 <= k < |ms| ==> InOrder(from, ms[k], n)
    ensures Spaced(ms, gap)
    decreases n - from
  {
    match next(from)
    case None => []
    case Some(sp) =>
      var rest := Visit(next, gap, n, sp.hi + gap);
      SpacedCons(sp, rest, gap);
      ConsIndex(sp, rest);
      [sp] + rest
  }

  /** `re.findall` with one group: the captured text of each visited match. */
  function VisitTexts(next: Searcher, gap: nat, s: string, from: nat): seq<string>
    requires Advances(next, |s|)
    decreases |s| - from
  {
    match next(from)
    case None => []
    case Some(sp) => [s[sp.lo..sp.hi]] + VisitTexts(next, gap, s, sp.hi + gap)
  }

  /** Each span starts at least `gap` characters after the capture of
      every earlier one ends. */
  predicate Spaced(ms: seq<Span>, gap: nat) {
    forall a, b :: 0 <= a < b < |ms| ==> ms[a].hi + gap <= ms[b].start
  }

  lemma SpacedCons(sp: Span, ms: seq<Span>, gap: nat)
    requires Spaced(ms, gap) && (|ms| > 0 ==> sp.hi + gap <= ms[0].start)
    requires forall k :: 0 <= k < |ms| ==> ms[k].start <= ms[k].hi
    ensures Spaced([sp] + ms, gap)
  {
    ConsIndex(sp, ms);
    forall b | 0 < b < |ms| + 1
      ensures sp.hi + gap <= ([sp] + ms)[b].start
    {
      if b > 1 {
        assert ms[0].hi + gap <= ms[b - 1].start;
      }
    }
  }

  /** `xs[k]` is the text `s[ms[k].lo..ms[k].hi]`, for every `k`. */
  predicate CapturedBy(s: string, xs: seq<string>, ms: seq<Span>) {
    && |xs| == |ms|
    && forall k :: 0 <= k < |ms| ==> ms[k].lo <= ms[k].hi <= |s| && xs[k] == s[ms[k].lo..ms[k].hi]
  }

  lemma CapturedByCons(s: string, xs: seq<string>, ms: seq<Span>, sp: Span)
    requires CapturedBy(s, xs, ms) && sp.lo <= sp.hi <= |s|
    ensures CapturedBy(s, [s[sp.lo..sp.hi]] + xs, [sp] + ms)
  {
    ConsIndex(s[sp.lo..sp.hi], xs);
    ConsIndex(sp, ms);
  }

  /** `re.findall` returns the captured text of exactly the visited matches,
      one element per match and in the same order. */
  lemma {:induction false} VisitTextsSpans(next: Searcher, gap: nat, s: string, from: nat)
    requires Advances(next, |s|)
    ensures CapturedBy(s, VisitTexts(next, gap, s, from), Visit(next, gap, |s|, from))
    decreases |s| - from
  {
    if next(from).Some? {
      var sp := next(from).value;
      VisitTextsSpans(next, gap, s, sp.hi + gap);
      CapturedByCons(s, VisitTexts(next, gap, s, sp.hi + gap), Visit(next, gap, |s|, sp.hi + gap), sp);
    }
  }

  /** Every visited match is what a search started at or after `from` finds. */
  lemma {:induction false} VisitedAreFound(next: Searcher, gap: nat, n: nat, from: nat)
    requires Advances(next, n)
    ensures forall k :: 0 <= k < |Visit(next, gap, n, from)| ==>
              exists i: nat :: from <= i && next(i) == Some(Visit(next, gap, n, from)[k])
    decreases n - from
  {
    if next(from).Some? {
      var sp := next(from).value;
      var rest := Visit(next, gap, n, sp.hi + gap);
      var ms := Visit(next, gap, n, from);
      assert ms == [sp] + rest;
      VisitedAreFound(next, gap, n, sp.hi + gap);
      forall k | 0 <= k < |ms|
        ensures exists i: nat :: from <= i && next(i) == Some(ms[k])
      {
        if k == 0 {
          assert next(from) == Some(ms[k]);
        } else {
          assert ms[k] == rest[k - 1];
        }
      }
    }
  }

  /** The `k`-th span reaches from at or before `p` to past it, counting
      `gap` characters after its capture. */
  predicate Covers(ms: seq<Span>, k: nat, p: nat, gap: nat) {
    k < |ms| && ms[k].start <= p < ms[k].hi + gap
  }

  lemma CoversHead(sp: Span, rest: seq<Span>, p: nat, gap: nat)
    requires sp.start <= p < sp.hi + gap
    ensures Covers([sp] + rest, 0, p, gap)
  { }

  lemma CoversCons(sp: Span, rest: seq<Span>, k: nat, p: nat, gap: nat)
    requires Covers(rest, k, p, gap)
    ensures Covers([sp] + rest, k + 1, p, gap)
  {
    assert ([sp] + rest)[k + 1] == rest[k];
  }

  /** The visit skips no position `p` from which every earlier search finds
      a match starting at or before `p`: some visited match, the `k`-th,
      reaches from at or before `p` to past it. */
  lemma {:induction false} VisitCovers(next: Searcher, gap: nat, n: nat, from: nat, p: nat) returns (k: nat)
    requires Advances(next, n)
    requires from <= p
    requires forall i: nat :: from <= i <= p ==> next(i).Some? && next(i).value.start <= p
    ensures Covers(Visit(next, gap, n, from), k, p, gap)
    decreases p - from
  {
    var sp := next(from).value;
    var rest := Visit(next, gap, n, sp.hi + gap);
    assert Visit(next, gap, n, from) == [sp] + rest;
    if p < sp.hi + gap {
      k := 0;
      CoversHead(sp, rest, p, gap);
    } else {
      var k' := VisitCovers(next, gap, n, sp.hi + gap, p);
      k := k' + 1;
      CoversCons(sp, rest, k', p, gap);
    }
  }

  /** `re.search(marker + capture, s[i..])`, for each start `i`. */
  function FieldSearch(s: string, marker: string, cap: Capture): Searcher {
    (i: nat) => SearchFrom(s, marker, cap, i)
  }

  lemma FieldSearchAdvances(s: string, marker: string, cap: Capture)
    ensures Advances(FieldSearch(s, marker, cap), |s|)
  {
    forall i: nat | FieldSearch(s, marker, cap)(i).Some?
      ensures InOrder(i, FieldSearch(s, marker, cap)(i).value, |s|)
    {
      assert FieldSearch(s, marker, cap)(i) == SearchFrom(s, marker, cap, i);
    }
  }

  /** The matches `re.findall(marker + capture, s[from..])` visits. */
  function MatchesFrom(s: string, marker: string, cap: Capture, from: nat): (ms: seq<Span>)
    ensures forall k :: 0 <= k < |ms| ==> from <= ms[k].start <= ms[k].lo <= ms[k].hi <= |s|
    ensures Spaced(ms, 0)
  {
    FieldSearchAdvances(s, marker, cap);
    Visit(FieldSearch(s, marker, cap), 0, |s|, from)
  }

  /** `re.findall(marker + capture, s[from..])`: the captures of successive
      matches, each search resuming where the previous match ended.  Every
      element is something the capture group can capture. */
  function FindAllFrom(s: string, marker: string, cap: Capture, from: nat): (r: seq<string>)
    ensures forall k :: 0 <= k < |r| ==> Captures(cap, r[k])
  {
    FieldSearchAdvances(s, marker, cap);
    FieldTextsCapture(s, marker, cap, from);
    VisitTexts(FieldSearch(s, marker, cap), 0, s, from)
  }

  lemma FieldTextsCapture(s: string, marker: string, cap: Capture, from: nat)
    requires Advances(FieldSearch(s, marker, cap), |s|)
    ensures forall k :: 0 <= k < |VisitTexts(FieldSearch(s, marker, cap), 0, s, from)| ==>
              Captures(cap, VisitTexts(FieldSearch(s, marker, cap), 0, s, from)[k])
  {
    var next := FieldSearch(s, marker, cap);
    var ms := Visit(next, 0, |s|, from);
    VisitTextsSpans(next, 0, s, from);
    VisitedAreFound(next, 0, |s|, from);
    forall k | 0 <= k < |ms|
      ensures Captures(cap, s[ms[k].lo..ms[k].hi])
    {
      var i: nat :| from <= i && next(i) == Some(ms[k]);
      assert SearchFrom(s, marker, cap, i) == Some(ms[k]);
      CapturedText(s, marker, cap, ms[k].start);
    }
  }

  /** `re.findall(marker + capture, s)`. */
  function FindAll(s: string, marker: string, cap: Capture): (r: seq<string>)
    ensures forall k :: 0 <= k < |r| ==> Captures(cap, r[k])
  {
    FindAllFrom(s, marker, cap, 0)
  }

  /** `sp` is a match of the field pattern at its own start, at or after
      `from`. */
  predicate FieldMatch(s: string, marker: string, cap: Capture, from: nat, sp: Span) {
    from <= sp.start && MatchAt(s, marker, cap, sp.start) == Some(sp)
  }

  /** Every visited span is a match of the field pattern at its own start. */
  lemma MatchesAreMatches(s: string, marker: string, cap: Capture, from: nat)
    ensures forall k :: 0 <= k < |MatchesFrom(s, marker, cap, from)| ==>
              FieldMatch(s, marker, cap, from, MatchesFrom(s, marker, cap, from)[k])
  {
    FieldSearchAdvances(s, marker, cap);
    var next := FieldSearch(s, marker, cap);
    var ms := MatchesFrom(s, marker, cap, from);
    VisitedAreFound(next, 0, |s|, from);
    forall k | 0 <= k < |ms|
      ensures FieldMatch(s, marker, cap, from, ms[k])
    {
      var i: nat :| from <= i && next(i) == Some(ms[k]);
      assert SearchFrom(s, marker, cap, i) == Some(ms[k]);
    }
  }

  /** `re.findall` returns the captured text of exactly those matches, one
      element per match and in the same order. */
  lemma FindAllSpans(s: string, marker: string, cap: Capture, from: nat)
    ensures CapturedBy(s, FindAllFrom(s, marker, cap, from), MatchesFrom(s, marker, cap, from))
  {
    FieldSearchAdvances(s, marker, cap);
    VisitTextsSpans(FieldSearch(s, marker, cap), 0, s, from);
  }

  /** `re.findall` skips no match: every match at or after `from` starts
      inside one of the visited matches, the `k`-th. */
  lemma MatchesCoverAll(s: string, marker: string, cap: Capture, from: nat, i: nat)
    returns (k: nat)
    requires from <= i && MatchAt(s, marker, cap, i).Some?
    ensures k < |MatchesFrom(s, marker, cap, from)|
    ensures MatchesFrom(s, marker, cap, from)[k].start <= i < MatchesFrom(s, marker, cap, from)[k].hi
  {
    FieldSearchAdvances(s, marker, cap);
    var next := FieldSearch(s, marker, cap);
    forall j: nat | from <= j <= i
      ensures next(j).Some? && next(j).value.start <= i
    {
      assert next(j) == SearchFrom(s, marker, cap, j);
    }
    k := VisitCovers(next, 0, |s|, from, i);
  }

  const PreOpen := "<pre>"
  const PreClose := "</pre>"

  /** The first match of `lead.*?<pre>(.*?)</pre>` at or after `from`: it
      starts where the lead does and captures `s[lo..hi]`.  Both lazy stars
      take the shortest extension that lets the rest match: the first
      `<pre>` after the lead, then the first `</pre>` after it.  When the
      first lead has no such continuation, neither has any later lead, so
      there is no match at all.  With the empty lead of `<pre>(.*?)</pre>`
      the span starts at `from` itself rather than at the `<pre>` where
      Python's match starts; the capture is the same. */
  function BlockFrom(s: string, lead: string, from: nat): (r: Option<Span>)
    ensures r.Some? ==> BlockMatch(s, lead, from, r.value)
    ensures r.Some? ==> forall j :: from <= j < r.value.start ==> !OccursAt(s, lead, j)
    ensures r.Some? ==> forall j :: r.value.lo <= j < r.value.hi ==> !OccursAt(s, PreClose, j)
  {
    match Find(s, lead, from)
    case None => None
    case Some(p) =>
      match Find(s, PreOpen, p + |lead|)
      case None => None
      case Some(q) =>
        match Find(s, PreClose, q + |PreOpen|)
        case None => None
        case Some(e) => Some(Span(p, q + |PreOpen|, e))
  }

  /** The lazy `.*?` after the lead stops at the first `<pre>`: on
      `L<pre>X<pre>Y</pre>` the block led by `L` captures `X<pre>Y`. */
  lemma FirstPreAfterLead()
    ensures BlockFrom("L<pre>X<pre>Y</pre>", "L", 0) == Some(Span(0, 6, 13))
    ensures "L<pre>X<pre>Y</pre>"[6..13] == "X<pre>Y"
  {
    var s := "L<pre>X<pre>Y</pre>";
    ExampleFinds(s);
    assert forall k :: 0 <= k < 7 ==> s[6..13][k] == s[6 + k];
  }

  /** The three searches of the example block match. */
  lemma ExampleFinds(s: string)
    requires s == "L<pre>X<pre>Y</pre>"
    ensures Find(s, "L", 0) == Some(0) && Find(s, PreOpen, 1) == Some(1)
    ensures Find(s, PreClose, 6) == Some(13)
  {
    ExampleTags(s);
    FindReaches(s, PreClose, 6, 13);
  }

  /** Where the tags of the example stand. */
  lemma ExampleTags(s: string)
    requires s == "L<pre>X<pre>Y</pre>"
    ensures OccursAt(s, "L", 0) && OccursAt(s, PreOpen, 1) && OccursAt(s, PreClose, 13)
    ensures forall j :: 6 <= j < 13 ==> !OccursAt(s, PreClose, j)
  {
    assert s[0..1] == "L";
    assert forall k :: 0 <= k < 5 ==> s[1..6][k] == PreOpen[k];
    assert forall k :: 0 <= k < 6 ==> s[13..19][k] == PreClose[k];
    forall j | 6 <= j < 13
      ensures !OccursAt(s, PreClose, j)
    {
      var k := if s[j] == '<' then 1 else 0;
      assert s[j..j + 6][k] != PreClose[k];
    }
  }

  /** `sp` is a match of `lead.*?<pre>(.*?)</pre>` at or after `from`: the
      lead at its start, a `<pre>` right before the capture with no `<pre>`
      between the lead and it (the lazy `.*?`), and a `</pre>` right after
      the capture. */
  predicate BlockMatch(s: string, lead: string, from: nat, sp: Span) {
    && from <= sp.start && OccursAt(s, lead, sp.start)
    && sp.start + |lead| + |PreOpen| <= sp.lo <= sp.hi
    && OccursAt(s, PreOpen, sp.lo - |PreOpen|) && OccursAt(s, PreClose, sp.hi)
    && (forall j :: sp.start + |lead| <= j < sp.lo - |PreOpen| ==> !OccursAt(s, PreOpen, j))
  }

  /** A block captured between `lo` and the first `</pre>` after it holds no
      `</pre>` of its own. */
  lemma BlockHasNoClose(s: string, lo: nat, hi: nat)
    requires lo <= hi <= |s|
    requires forall j :: lo <= j < hi ==> !OccursAt(s, PreClose, j)
    ensures !Contains(s[lo..hi], PreClose)
  {
    if Contains(s[lo..hi], PreClose) {
      var j: nat :| OccursAt(s[lo..hi], PreClose, j);
      OccursInInfix(s, PreClose, lo, hi, j);
    }
  }

  /** `re.search(lead + r'.*?<pre>(.*?)</pre>', s[i..], re.DOTALL)`, for
      each start `i`. */
  function BlockSearch(s: string, lead: string): Searcher {
    (i: nat) => BlockFrom(s, lead, i)
  }

  lemma BlockSearchAdvances(s: string, lead: string)
    ensures Advances(BlockSearch(s, lead), |s|)
  {
    forall i: nat | BlockSearch(s, lead)(i).Some?
      ensures InOrder(i, BlockSearch(s, lead)(i).value, |s|)
    {
      assert BlockSearch(s, lead)(i) == BlockFrom(s, lead, i);
    }
  }

  /** The matches `re.findall(lead + r'.*?<pre>(.*?)</pre>', s[from..],
      re.DOTALL)` visits: each search resumes after the closing tag of the
      previous match. */
  function BlockSpansFrom(s: string, lead: string, from: nat): (ms: seq<Span>)
    ensures forall k :: 0 <= k < |ms| ==> from <= ms[k].start <= ms[k].lo <= ms[k].hi <= |s|
    ensures Spaced(ms, |PreClose|)
  {
    BlockSearchAdvances(s, lead);
    Visit(BlockSearch(s, lead), |PreClose|, |s|, from)
  }

  /** `re.findall(lead + r'.*?<pre>(.*?)</pre>', s[from..], re.DOTALL)`.  Each
      block is the text up to the nearest `</pre>`, so none contains one. */
  function BlocksFrom(s: string, lead: string, from: nat): (r: seq<string>)
    ensures forall k :: 0 <= k < |r| ==> !Contains(r[k], PreClose)
  {
    BlockSearchAdvances(s, lead);
    BlockTextsHaveNoClose(s, lead, from);
    VisitTexts(BlockSearch(s, lead), |PreClose|, s, from)
  }

  lemma BlockTextsHaveNoClose(s: string, lead: string, from: nat)
    requires Advances(BlockSearch(s, lead), |s|)
    ensures forall k :: 0 <= k < |VisitTexts(BlockSearch(s, lead), |PreClose|, s, from)| ==>
              !Contains(VisitTexts(BlockSearch(s, lead), |PreClose|, s, from)[k], PreClose)
  {
    var next := BlockSearch(s, lead);
    var ms := Visit(next, |PreClose|, |s|, from);
    VisitTextsSpans(next, |PreClose|, s, from);
    VisitedAreFound(next, |PreClose|, |s|, from);
    forall k | 0 <= k < |ms|
      ensures !Contains(s[ms[k].lo..ms[k].hi], PreClose)
    {
      var i: nat :| from <= i && next(i) == Some(ms[k]);
      assert BlockFrom(s, lead, i) == Some(ms[k]);
      BlockHasNoClose(s, ms[k].lo, ms[k].hi);
    }
  }

  /** All `<pre>` blocks led by `lead`, in document order. */
  function Blocks(s: string, lead: string): (r: seq<string>)
    ensures forall k :: 0 <= k < |r| ==> !Contains(r[k], PreClose)
  {
    BlocksFrom(s, lead, 0)
  }

  /** A match of `lead.*?<pre>(.*?)</pre>` can start at `p`: the lead is
      there, and some `<pre>` after it is followed by some `</pre>`. */
  ghost predicate BlockMatchesAt(s: string, lead: string, p: nat) {
    && OccursAt(s, lead, p)
    && exists q: nat, e: nat :: p + |lead| <= q && q + |PreOpen| <= e
                               && OccursAt(s, PreOpen, q) && OccursAt(s, PreClose, e)
  }

  /** Every visited span is a block match: the lead at its start, a `<pre>`
      before the capture and a `</pre>` after it. */
  lemma BlockSpansAreMatches(s: string, lead: string, from: nat)
    ensures forall k :: 0 <= k < |BlockSpansFrom(s, lead, from)| ==>
              BlockMatch(s, lead, from, BlockSpansFrom(s, lead, from)[k])
  {
    BlockSearchAdvances(s, lead);
    var next := BlockSearch(s, lead);
    var ms := BlockSpansFrom(s, lead, from);
    VisitedAreFound(next, |PreClose|, |s|, from);
    forall k | 0 <= k < |ms|
      ensures BlockMatch(s, lead, from, ms[k])
    {
      var i: nat :| from <= i && next(i) == Some(ms[k]);
      assert BlockFrom(s, lead, i) == Some(ms[k]);
    }
  }

  /** The blocks are the captured text of exactly those matches, one per
      match and in the same order. */
  lemma BlocksSpans(s: string, lead: string, from: nat)
    ensures CapturedBy(s, BlocksFrom(s, lead, from), BlockSpansFrom(s, lead, from))
  {
    BlockSearchAdvances(s, lead);
    VisitTextsSpans(BlockSearch(s, lead), |PreClose|, s, from);
  }

  /** A match that can start at `p` means the search from any earlier
      `from` finds a match, starting at or before `p`. */
  lemma BlockFound(s: string, lead: string, from: nat, p: nat)
    requires from <= p && BlockMatchesAt(s, lead, p)
    ensures BlockFrom(s, lead, from).Some? && BlockFrom(s, lead, from).value.start <= p
  {
    var q: nat, e: nat :| p + |lead| <= q && q + |PreOpen| <= e && OccursAt(s, PreOpen, q) && OccursAt(s, PreClose, e);
    FindReaches(s, lead, from, p);
    var p0 := Find(s, lead, from).value;
    FindReaches(s, PreOpen, p0 + |lead|, q);
    var q0 := Find(s, PreOpen, p0 + |lead|).value;
    FindReaches(s, PreClose, q0 + |PreOpen|, e);
  }

  /** `re.findall` skips no block: every position at or after `from` where a
      match can start lies inside one of the visited matches, the `k`-th,
      from its lead to the end of its closing tag. */
  lemma BlocksCoverAll(s: string, lead: string, from: nat, p: nat) returns (k: nat)
    requires from <= p && BlockMatchesAt(s, lead, p)
    ensures k < |BlockSpansFrom(s, lead, from)|
    ensures BlockSpansFrom(s, lead, from)[k].start <= p < BlockSpansFrom(s, lead, from)[k].hi + |PreClose|
  {
    BlockSearchAdvances(s, lead);
    var next := BlockSearch(s, lead);
    forall i: nat | from <= i <= p
      ensures next(i).Some? && next(i).value.start <= p
    {
      BlockFound(s, lead, i, p);
      assert next(i) == BlockFrom(s, lead, i);
    }
    k := VisitCovers(next, |PreClose|, |s|, from, p);
  }

  /** `re.search(r'<pre>(.*?)</pre>', s, re.DOTALL).group(1)`, or None. */
  function FirstBlock(s: string): (r: Option<string>)
    ensures r.Some? ==> !Contains(r.value, PreClose)
    ensures r.Some? <==> |Blocks(s, "")| > 0
    ensures r.Some? ==> r.value == Blocks(s, "")[0]
  {
    match BlockFrom(s, "", 0)
    case None => None
    case Some(sp) =>
      BlockHasNoClose(s, sp.lo, sp.hi);
      Some(s[sp.lo..sp.hi])
  }
}

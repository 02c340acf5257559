/** The handful of Python `str` operations the analysis scripts rely on:
    `find`, `in`, `split(sep)`, `count`, `split()`, `' '.join`, `strip()`,
    `lower()` and prefix/suffix slicing.  Strings are sequences of code points,
    as Python's are. */
module Text {
  import opened Wrappers
  import opened Seqs

  /** Whitespace as `str.isspace`, `str.split()`, `str.strip()` and the regex
      class `\s` see it. */
  predicate IsSpace(c: char) {
    var n := c as int;
    (0x09 <= n <= 0x0D) || (0x1C <= n <= 0x20) || n == 0x85 || n == 0xA0
    || n == 0x1680 || (0x2000 <= n <= 0x200A) || n == 0x2028 || n == 0x2029
    || n == 0x202F || n == 0x205F || n == 0x3000
  }

  /** `sub` occurs in `s` starting at position `i`. */
  predicate OccursAt(s: string, sub: string, i: nat) {
    i + |sub| <= |s| && s[i..i + |sub|] == sub
  }

  /** `s.find(sub, start)`: the leftmost occurrence at or after `start`. */
  function Find(s: string, sub: string, start: nat): (r: Option<nat>)
    ensures r.Some? ==> start <= r.value && OccursAt(s, sub, r.value)
    ensures r.Some? ==> forall j :: start <= j < r.value ==> !OccursAt(s, sub, j)
    ensures r.None? ==> forall j :: start <= j ==> !OccursAt(s, sub, j)
    decreases |s| - start
  {
    if start + |sub| > |s| then None
    else if s[start..start + |sub|] == sub then Some(start)
    else Find(s, sub, start + 1)
  }

  /** `sub in s`. */
  predicate Contains(s: string, sub: string)
    ensures Contains(s, sub) <==> exists i: nat :: OccursAt(s, sub, i)
  {
    Find(s, sub, 0).Some?
  }

  /** An occurrence inside a prefix of `s` is an occurrence in `s` that ends
      within the prefix. */
  lemma OccursInPrefix(s: string, sub: string, n: nat, j: nat)
    requires n <= |s|
    requires OccursAt(s[..n], sub, j)
    ensures OccursAt(s, sub, j) && j + |sub| <= n
  {
    assert s[..n][j..j + |sub|] == s[j..j + |sub|];
  }

  /** An occurrence inside `s[lo..hi]` is an occurrence in `s`, shifted by
      `lo`, that ends within the infix. */
  lemma OccursInInfix(s: string, sub: string, lo: nat, hi: nat, j: nat)
    requires lo <= hi <= |s|
    requires OccursAt(s[lo..hi], sub, j)
    ensures OccursAt(s, sub, lo + j) && lo + j + |sub| <= hi
  {
    var t := s[lo..hi];
    forall m | 0 <= m < |sub|
      ensures s[lo + j + m] == sub[m]
    {
      assert t[j..j + |sub|][m] == t[j + m];
    }
    assert s[lo + j..lo + j + |sub|] == sub;
  }

  /** `sep.join(parts)`. */
  function Join(parts: seq<string>, sep: string): string {
    if |parts| == 0 then ""
    else if |parts| == 1 then parts[0]
    else parts[0] + sep + Join(parts[1..], sep)
  }

  /** `s.split(sep)` for a non-empty separator: the pieces between the
      occurrences of `sep` found left to right.  Joining the pieces back with
      `sep` gives `s`, and no piece contains `sep`. */
  function Split(s: string, sep: string): (parts: seq<string>)
    requires |sep| > 0
    ensures |parts| >= 1
    ensures Join(parts, sep) == s
    ensures forall k :: 0 <= k < |parts| ==> !Contains(parts[k], sep)
    decreases |s|
  {
    match Find(s, sep, 0)
    case None => [s]
    case Some(i) =>
      var rest := Split(s[i + |sep|..], sep);
      assert !Contains(s[..i], sep) by {
        if Contains(s[..i], sep) {
          var j: nat :| OccursAt(s[..i], sep, j);
          OccursInPrefix(s, sep, i, j);
        }
      }
      assert ([s[..i]] + rest)[1..] == rest;
      assert s == s[..i] + sep + s[i + |sep|..] by {
        assert s == s[..i] + s[i..i + |sep|] + s[i + |sep|..];
      }
      [s[..i]] + rest
  }

  /** The starts of the occurrences `s.count(sub)` counts from `start` on:
      scanning left to right, each found occurrence is counted and the scan
      resumes after it, so the counted occurrences do not overlap. */
  function CountedFrom(s: string, sub: string, start: nat): seq<nat>
    requires |sub| > 0 && start <= |s|
    decreases |s| - start
  {
    match Find(s, sub, start)
    case None => []
    case Some(i) => [i] + CountedFrom(s, sub, i + |sub|)
  }

  /** Each counted start is an occurrence at or after `start`, and each
      counted occurrence ends before the next one starts. */
  lemma {:induction false} CountedFromSpaced(s: string, sub: string, start: nat)
    requires |sub| > 0 && start <= |s|
    ensures forall k :: 0 <= k < |CountedFrom(s, sub, start)| ==>
              start <= CountedFrom(s, sub, start)[k] && OccursAt(s, sub, CountedFrom(s, sub, start)[k])
    ensures forall k :: 0 <= k < |CountedFrom(s, sub, start)| - 1 ==>
              CountedFrom(s, sub, start)[k] + |sub| <= CountedFrom(s, sub, start)[k + 1]
    decreases |s| - start
  {
    if Find(s, sub, start).Some? {
      var i := Find(s, sub, start).value;
      var rest := CountedFrom(s, sub, i + |sub|);
      var ps := [i] + rest;
      assert CountedFrom(s, sub, start) == ps;
      CountedFromSpaced(s, sub, i + |sub|);
      ConsIndex(i, rest);
      assert |rest| > 0 ==> ps[1] == rest[0];
    }
  }

  /** The scan misses nothing: every occurrence at or after `start` overlaps
      one of the counted occurrences, the `k`-th. */
  lemma {:induction false} CountedCoversAll(s: string, sub: string, start: nat, j: nat) returns (k: nat)
    requires |sub| > 0 && start <= |s|
    requires start <= j && OccursAt(s, sub, j)
    ensures k < |CountedFrom(s, sub, start)|
    ensures CountedFrom(s, sub, start)[k] <= j < CountedFrom(s, sub, start)[k] + |sub|
    decreases |s| - start
  {
    FindReaches(s, sub, start, j);
    var i := Find(s, sub, start).value;
    var rest := CountedFrom(s, sub, i + |sub|);
    var cs := CountedFrom(s, sub, start);
    assert cs == [i] + rest;
    if j >= i + |sub| {
      var k' := CountedCoversAll(s, sub, i + |sub|, j);
      k := k' + 1;
      assert cs[k] == rest[k'];
    } else {
      k := 0;
    }
  }

  /** An occurrence at or after `start` is found, at it or before it. */
  lemma FindReaches(s: string, sub: string, start: nat, j: nat)
    requires start <= j && OccursAt(s, sub, j)
    ensures Find(s, sub, start).Some? && Find(s, sub, start).value <= j
  {
  }

  /** `s.count(sub)`: non-overlapping occurrences counted left to right, and
      `|s| + 1` for the empty string. */
  function Count(s: string, sub: string): (n: nat)
    ensures n > 0 <==> Contains(s, sub)
    ensures |sub| > 0 ==> n * |sub| <= |s|
    ensures |sub| > 0 ==> n == |CountedFrom(s, sub, 0)|
    ensures |sub| == 0 ==> n == |s| + 1
  {
    if |sub| == 0 then
      assert OccursAt(s, sub, 0);
      |s| + 1
    else
      var ps := CountedFrom(s, sub, 0);
      CountedFromSpaced(s, sub, 0);
      assert |ps| > 0 ==> OccursAt(s, sub, ps[0]);
      assert Contains(s, sub) ==> |ps| > 0 by {
        if Contains(s, sub) {
          var j: nat :| OccursAt(s, sub, j);
          FindReaches(s, sub, 0, j);
        }
      }
      SpacedFit(s, sub, ps);
      |ps|
  }

  /** Non-overlapping occurrences of a non-empty `sub` need `|sub|` characters
      each. */
  lemma {:induction false} SpacedFit(s: string, sub: string, ps: seq<nat>)
    requires |sub| > 0
    requires forall k :: 0 <= k < |ps| ==> OccursAt(s, sub, ps[k])
    requires forall k :: 0 <= k < |ps| - 1 ==> ps[k] + |sub| <= ps[k + 1]
    ensures |ps| > 0 ==> ps[0] + |ps| * |sub| <= |s|
    ensures |ps| * |sub| <= |s|
    decreases |ps|
  {
    if |ps| > 0 {
      var rest := ps[1..];
      SpacedFit(s, sub, rest);
      if |rest| > 0 {
        assert rest[0] == ps[1];
        assert |ps| * |sub| == |sub| + |rest| * |sub|;
      }
    }
  }

  /** The first position at or after `i` that is not whitespace (or `|s|`). */
  function SkipSpaces(s: string, i: nat): (j: nat)
    requires i <= |s|
    ensures i <= j <= |s|
    ensures forall k :: i <= k < j ==> IsSpace(s[k])
    ensures j < |s| ==> !IsSpace(s[j])
    decreases |s| - i
  {
    if i == |s| || !IsSpace(s[i]) then i else SkipSpaces(s, i + 1)
  }

  /** The first position at or after `i` that is whitespace (or `|s|`). */
  function SkipWord(s: string, i: nat): (j: nat)
    requires i <= |s|
    ensures i <= j <= |s|
    ensures forall k :: i <= k < j ==> !IsSpace(s[k])
    ensures j < |s| ==> IsSpace(s[j])
    decreases |s| - i
  {
    if i == |s| || IsSpace(s[i]) then i else SkipWord(s, i + 1)
  }

  /** `s` with every whitespace character removed. */
  function NonSpace(s: string): string {
    if |s| == 0 then ""
    else (if IsSpace(s[0]) then "" else [s[0]]) + NonSpace(s[1..])
  }

  /** The concatenation of a list of strings. */
  function Concat(ws: seq<string>): string {
    if |ws| == 0 then "" else ws[0] + Concat(ws[1..])
  }

  lemma {:induction false} NonSpaceAppend(a: string, b: string)
    ensures NonSpace(a + b) == NonSpace(a) + NonSpace(b)
    decreases |a|
  {
    if |a| > 0 {
      assert (a + b)[1..] == a[1..] + b;
      NonSpaceAppend(a[1..], b);
    } else {
      assert a + b == b;
    }
  }

  lemma {:induction false} NonSpaceOfSpaces(s: string)
    requires forall k :: 0 <= k < |s| ==> IsSpace(s[k])
    ensures NonSpace(s) == ""
    decreases |s|
  {
    if |s| > 0 {
      NonSpaceOfSpaces(s[1..]);
    }
  }

  lemma {:induction false} NonSpaceOfWord(s: string)
    requires forall k :: 0 <= k < |s| ==> !IsSpace(s[k])
    ensures NonSpace(s) == s
    decreases |s|
  {
    if |s| > 0 {
      NonSpaceOfWord(s[1..]);
      assert s == [s[0]] + s[1..];
    }
  }

  /** A non-empty run of non-whitespace characters. */
  predicate IsWord(w: string) {
    |w| > 0 && forall m :: 0 <= m < |w| ==> !IsSpace(w[m])
  }

  /** The words of `s[i..]` in the sense of `str.split()`. */
  function WordsFrom(s: string, i: nat): (ws: seq<string>)
    requires i <= |s|
    ensures forall k :: 0 <= k < |ws| ==> IsWord(ws[k])
    decreases |s| - i
  {
    var b := SkipSpaces(s, i);
    if b == |s| then []
    else
      var e := SkipWord(s, b);
      [s[b..e]] + WordsFrom(s, e)
  }

  /** Together the words of `s[i..]` are exactly its non-whitespace characters. */
  lemma {:induction false} WordsFromConcat(s: string, i: nat)
    requires i <= |s|
    ensures Concat(WordsFrom(s, i)) == NonSpace(s[i..])
    decreases |s| - i
  {
    var b := SkipSpaces(s, i);
    if b == |s| {
      NonSpaceOfSpaces(s[i..]);
    } else {
      var e := SkipWord(s, b);
      var rest := WordsFrom(s, e);
      var ws := [s[b..e]] + rest;
      assert WordsFrom(s, i) == ws;
      assert ws[0] == s[b..e] && ws[1..] == rest;
      WordsFromConcat(s, e);
      SpacesWordRest(s, i, b, e);
    }
  }

  /** Whitespace in `s[i..b]` and a word in `s[b..e]`: the non-whitespace
      characters of `s[i..]` are the word followed by those of `s[e..]`. */
  lemma SpacesWordRest(s: string, i: nat, b: nat, e: nat)
    requires i <= b <= e <= |s|
    requires forall k :: i <= k < b ==> IsSpace(s[k])
    requires forall k :: b <= k < e ==> !IsSpace(s[k])
    ensures NonSpace(s[i..]) == s[b..e] + NonSpace(s[e..])
  {
    assert s[i..] == (s[i..b] + s[b..e]) + s[e..];
    NonSpaceAppend(s[i..b] + s[b..e], s[e..]);
    NonSpaceAppend(s[i..b], s[b..e]);
    NonSpaceOfSpaces(s[i..b]);
    NonSpaceOfWord(s[b..e]);
  }

  /** A word starts at `k`: a non-whitespace character at the start of the
      text or right after whitespace. */
  predicate WordStart(s: string, k: nat) {
    k < |s| && !IsSpace(s[k]) && (k == 0 || IsSpace(s[k - 1]))
  }

  /** Which positions of `s` start a word. */
  function WordStartFlags(s: string): (flags: seq<bool>)
    ensures |flags| == |s|
    ensures forall k :: 0 <= k < |s| ==> (flags[k] <==> WordStart(s, k))
  {
    seq(|s|, k requires 0 <= k < |s| => WordStart(s, k))
  }

  /** `ws[k]` is the run of non-whitespace characters that begins at
      `ps[k]`, for every `k`. */
  predicate RunsAt(s: string, ws: seq<string>, ps: seq<nat>) {
    && |ws| == |ps|
    && forall k :: 0 <= k < |ps| ==> ps[k] <= |s| && ws[k] == s[ps[k]..SkipWord(s, ps[k])]
  }

  lemma RunsCons(s: string, ws: seq<string>, ps: seq<nat>, b: nat)
    requires RunsAt(s, ws, ps) && b <= |s|
    ensures RunsAt(s, [s[b..SkipWord(s, b)]] + ws, [b] + ps)
  {
    var ws', ps' := [s[b..SkipWord(s, b)]] + ws, [b] + ps;
    forall k | 0 < k < |ps'|
      ensures ps'[k] <= |s| && ws'[k] == s[ps'[k]..SkipWord(s, ps'[k])]
    {
      assert ws'[k] == ws[k - 1] && ps'[k] == ps[k - 1];
    }
  }

  /** The word starts from `i` on: none before the first non-whitespace
      position `b`, a start at `b`, and none inside the word that follows. */
  lemma WordStartsStep(s: string, i: nat)
    requires i <= |s|
    requires i == 0 || i == |s| || IsSpace(s[i - 1]) || IsSpace(s[i])
    ensures SkipSpaces(s, i) == |s| ==> PositionsFrom(WordStartFlags(s), i) == []
    ensures SkipSpaces(s, i) < |s| ==>
              PositionsFrom(WordStartFlags(s), i) ==
              [SkipSpaces(s, i)] + PositionsFrom(WordStartFlags(s), SkipWord(s, SkipSpaces(s, i)))
  {
    var flags := WordStartFlags(s);
    var b := SkipSpaces(s, i);
    PositionsSkip(flags, i, b);
    if b < |s| {
      var e := SkipWord(s, b);
      assert flags[b];
      assert PositionsFrom(flags, b) == [b] + PositionsFrom(flags, b + 1);
      PositionsSkip(flags, b + 1, e);
    }
  }

  /** From a position that cannot be inside a word, the words are the runs
      that begin at the word starts, one per start and in order, each
      running up to the next whitespace. */
  lemma {:induction false} WordsFromStarts(s: string, i: nat)
    requires i <= |s|
    requires i == 0 || i == |s| || IsSpace(s[i - 1]) || IsSpace(s[i])
    ensures RunsAt(s, WordsFrom(s, i), PositionsFrom(WordStartFlags(s), i))
    decreases |s| - i
  {
    var b := SkipSpaces(s, i);
    WordStartsStep(s, i);
    if b < |s| {
      var e := SkipWord(s, b);
      WordsFromStarts(s, e);
      RunsCons(s, WordsFrom(s, e), PositionsFrom(WordStartFlags(s), e), b);
    }
  }

  /** `s.split()`: the maximal runs of non-whitespace characters, in order.
      Every word is non-empty and free of whitespace, and together the words
      are exactly the non-whitespace characters of `s`; WordsAreRuns says
      where each word begins and ends. */
  function Words(s: string): (ws: seq<string>)
    ensures forall k :: 0 <= k < |ws| ==> IsWord(ws[k])
    ensures Concat(ws) == NonSpace(s)
  {
    assert s[0..] == s;
    WordsFromConcat(s, 0);
    WordsFrom(s, 0)
  }

  /** The words are maximal: there is one word per word start, and the
      `k`-th word runs from the `k`-th word start up to the next whitespace
      or the end of the text. */
  lemma WordsAreRuns(s: string)
    ensures |Words(s)| == |Positions(WordStartFlags(s))|
    ensures forall k :: 0 <= k < |Words(s)| ==>
              Words(s)[k] == s[Positions(WordStartFlags(s))[k]..SkipWord(s, Positions(WordStartFlags(s))[k])]
  {
    WordsFromStarts(s, 0);
    assert RunsAt(s, Words(s), Positions(WordStartFlags(s)));
  }

  /** The index one past the last non-whitespace character (0 if none). */
  function TrimEnd(s: string): (e: nat)
    ensures e <= |s|
    ensures forall k :: e <= k < |s| ==> IsSpace(s[k])
    ensures e > 0 ==> !IsSpace(s[e - 1])
    decreases |s|
  {
    if |s| == 0 || !IsSpace(s[|s| - 1]) then |s| else TrimEnd(s[..|s| - 1])
  }

  /** `s.strip()`: `s` without its leading and trailing whitespace.  The result
      is a piece of `s`, everything around it is whitespace, and it neither
      starts nor ends with whitespace. */
  function Strip(s: string): (r: string)
    ensures exists a: nat :: OccursAt(s, r, a)
              && (forall k :: 0 <= k < a ==> IsSpace(s[k]))
              && (forall k :: a + |r| <= k < |s| ==> IsSpace(s[k]))
    ensures |r| > 0 ==> !IsSpace(r[0]) && !IsSpace(r[|r| - 1])
  {
    var e := TrimEnd(s);
    var a := SkipSpaces(s, 0);
    var b := if a <= e then e else a;
    assert OccursAt(s, s[a..b], a);
    s[a..b]
  }

  /** ASCII lower-casing of one character. */
  function LowerChar(c: char): char {
    if 'A' <= c <= 'Z' then (c as int + 32) as char else c
  }

  /** `s.lower()`, restricted to ASCII letters. */
  function Lower(s: string): (r: string)
    ensures |r| == |s|
    ensures forall k :: 0 <= k < |s| ==> LowerChar(r[k]) == LowerChar(s[k])
  {
    seq(|s|, k requires 0 <= k < |s| => LowerChar(s[k]))
  }

  /** `s[:n]`. */
  function Take(s: string, n: nat): (r: string)
    ensures |r| == if n <= |s| then n else |s|
    ensures r <= s
  {
    if n <= |s| then s[..n] else s
  }

  /** `s[-n:]` for `n > 0`. */
  function TakeLast(s: string, n: nat): (r: string)
    requires n > 0
    ensures |r| == if n <= |s| then n else |s|
    ensures OccursAt(s, r, |s| - |r|)
  {
    if n <= |s| then s[|s| - n..] else s
  }
}

/** `analyze_model_overlap` (analysis/deep_analysis.py): per-index
    correctness of the 8B, 70B and 405B runs, partitioned by an if/elif chain
    into five lists, plus the separately computed scaling pattern. */
module Overlap {
  import opened Wrappers
  import opened Seqs
  import opened DeepExtract

  /** The rows of the three runs, keyed `'8B'`, `'70B'` and `'405B'`. */
  datatype Runs = Runs(small: seq<Row>, medium: seq<Row>, large: seq<Row>)

  /** The per-run correctness masks the function also returns. */
  datatype Masks = Masks(small: seq<bool>, medium: seq<bool>, large: seq<bool>)

  /** The index lists of the analysis dictionary. */
  datatype Partition = Partition(
    allCorrect: seq<nat>,
    allWrong: seq<nat>,
    only405bCorrect: seq<nat>,
    only70b405bCorrect: seq<nat>,
    only8bCorrect: seq<nat>,       // '8b_correct_others_wrong'
    scalingPattern: seq<nat>)

  /** Indexing a shorter 70B or 405B mask raises IndexError. */
  datatype OverlapError = IndexOutOfRange

  /** `[r['score'] == 1.0 for r in rows]`. */
  function CorrectMask(rows: seq<Row>): (m: seq<bool>)
    ensures |m| == |rows|
    ensures forall i :: 0 <= i < |rows| ==> (m[i] <==> rows[i].score == 1.0)
  {
    if |rows| == 0 then []
    else
      var rest := CorrectMask(rows[1..]);
      assert forall i :: 1 <= i < |rows| ==> rows[i] == rows[1..][i - 1];
      [rows[0].score == 1.0] + rest
  }

  /** Appending an index above every element keeps a list ascending. */
  lemma AppendAscending(xs: seq<nat>, i: nat)
    requires Ascending(xs)
    requires forall k :: 0 <= k < |xs| ==> xs[k] < i
    ensures Ascending(xs + [i])
  {
  }

  /** Which runs got index `k` right, as (8B, 70B, 405B). */
  type Triple = (bool, bool, bool)

  function TripleAt(m: Masks, k: nat): Triple
    requires k < |m.small| && k < |m.medium| && k < |m.large|
  {
    (m.small[k], m.medium[k], m.large[k])
  }

  /** The correctness triple each list collects. */
  const AllRight: Triple := (true, true, true)
  const AllWrong: Triple := (false, false, false)
  const LargeOnly: Triple := (false, false, true)
  const MediumAndLarge: Triple := (false, true, true)
  const SmallOnly: Triple := (true, false, false)

  /** `xs` lists, ascending, exactly the indices below `i` whose correctness
      triple is `t`. */
  ghost predicate Exactly(xs: seq<nat>, i: nat, m: Masks, t: Triple)
    requires i <= |m.small| && i <= |m.medium| && i <= |m.large|
  {
    && Ascending(xs)
    && (forall k :: 0 <= k < |xs| ==> xs[k] < i)
    && (forall k :: k in xs <==> 0 <= k < i && TripleAt(m, k) == t)
  }

  /** The meaning of the result: each list holds, ascending, exactly the
      indices below `n` with its correctness triple, and the scaling pattern
      collects the 405B-only triple again. */
  ghost predicate PartitionOf(a: Partition, m: Masks, n: nat) {
    && n <= |m.small| && n <= |m.medium| && n <= |m.large|
    && Exactly(a.allCorrect, n, m, AllRight)
    && Exactly(a.allWrong, n, m, AllWrong)
    && Exactly(a.only405bCorrect, n, m, LargeOnly)
    && Exactly(a.only70b405bCorrect, n, m, MediumAndLarge)
    && Exactly(a.only8bCorrect, n, m, SmallOnly)
    && Exactly(a.scalingPattern, n, m, LargeOnly)
  }

  /** One loop step: index `i` joins the list exactly when its triple is the
      list's. */
  lemma Extend(xs: seq<nat>, i: nat, m: Masks, t: Triple)
    requires i < |m.small| && i < |m.medium| && i < |m.large|
    requires Exactly(xs, i, m, t)
    ensures TripleAt(m, i) == t ==> Exactly(xs + [i], i + 1, m, t)
    ensures TripleAt(m, i) != t ==> Exactly(xs, i + 1, m, t)
  {
    AppendAscending(xs, i);
  }

  /** One pass of the loop body at index `i`: the if/elif chain appends `i`
      to at most one of the five lists, and the scaling test separately to
      the scaling pattern; afterwards every list covers the indices below
      `i + 1`. */
  method Place(a: Partition, m: Masks, i: nat) returns (b: Partition)
    requires i < |m.small| && i < |m.medium| && i < |m.large|
    requires PartitionOf(a, m, i)
    ensures PartitionOf(b, m, i + 1)
  {
    Extend(a.allCorrect, i, m, AllRight);
    Extend(a.allWrong, i, m, AllWrong);
    Extend(a.only405bCorrect, i, m, LargeOnly);
    Extend(a.only70b405bCorrect, i, m, MediumAndLarge);
    Extend(a.only8bCorrect, i, m, SmallOnly);
    Extend(a.scalingPattern, i, m, LargeOnly);
    var c8, c70, c405 := m.small[i], m.medium[i], m.large[i];
    b := a;
    if c8 && c70 && c405 {
      b := b.(allCorrect := b.allCorrect + [i]);
    } else if !c8 && !c70 && !c405 {
      b := b.(allWrong := b.allWrong + [i]);
    } else if c405 && !c70 && !c8 {
      b := b.(only405bCorrect := b.only405bCorrect + [i]);
    } else if c405 && c70 && !c8 {
      b := b.(only70b405bCorrect := b.only70b405bCorrect + [i]);
    } else if c8 && !c70 && !c405 {
      b := b.(only8bCorrect := b.only8bCorrect + [i]);
    }
    if !c8 && !c70 && c405 {
      b := b.(scalingPattern := b.scalingPattern + [i]);
    }
  }

  /** `analyze_model_overlap`: fails exactly when the 70B or 405B mask is
      shorter than the 8B one; otherwise it returns the three masks and lists
      that hold, ascending, exactly the indices below the 8B count with each
      list's correctness triple. */
  method AnalyzeModelOverlap(runs: Runs) returns (r: Result<(Partition, Masks), OverlapError>)
    ensures r.Failure? <==> |runs.medium| < |runs.small| || |runs.large| < |runs.small|
    ensures r.Success? ==> r.value.1 == Masks(CorrectMask(runs.small), CorrectMask(runs.medium),
                                              CorrectMask(runs.large))
    ensures r.Success? ==> PartitionOf(r.value.0, r.value.1, |runs.small|)
  {
    var m := Masks(CorrectMask(runs.small), CorrectMask(runs.medium), CorrectMask(runs.large));
    var n := |runs.small|;
    if |m.medium| < n || |m.large| < n {
      return Failure(IndexOutOfRange);
    }
    var a := Partition([], [], [], [], [], []);
    var i := 0;
    while i < n
      invariant 0 <= i <= n
      invariant PartitionOf(a, m, i)
    {
      a := Place(a, m, i);
      i := i + 1;
    }
    r := Success((a, m));
  }

  /** `scaling_pattern` equals `only_405b_correct` element for element: the
      elif chain reaches the 405B-only branch for exactly the triples the
      scaling test accepts. */
  lemma ScalingIsOnly405(a: Partition, m: Masks, n: nat)
    requires PartitionOf(a, m, n)
    ensures a.scalingPattern == a.only405bCorrect
  {
    AscendingUnique(a.scalingPattern, a.only405bCorrect);
  }

  /** The five lists of the elif chain are pairwise disjoint: each index
      has one correctness triple, and each list admits a different one. */
  lemma PartitionDisjoint(a: Partition, m: Masks, n: nat)
    requires PartitionOf(a, m, n)
    ensures Elements(a.allCorrect) !! Elements(a.allWrong)
    ensures Elements(a.allCorrect) !! Elements(a.only405bCorrect)
    ensures Elements(a.allCorrect) !! Elements(a.only70b405bCorrect)
    ensures Elements(a.allCorrect) !! Elements(a.only8bCorrect)
    ensures Elements(a.allWrong) !! Elements(a.only405bCorrect)
    ensures Elements(a.allWrong) !! Elements(a.only70b405bCorrect)
    ensures Elements(a.allWrong) !! Elements(a.only8bCorrect)
    ensures Elements(a.only405bCorrect) !! Elements(a.only70b405bCorrect)
    ensures Elements(a.only405bCorrect) !! Elements(a.only8bCorrect)
    ensures Elements(a.only70b405bCorrect) !! Elements(a.only8bCorrect)
  {
  }

  /** A list of indices below `n` holds a subset of the indices below `n`. */
  lemma ElementsBelow(xs: seq<nat>, n: nat)
    requires forall k :: 0 <= k < |xs| ==> xs[k] < n
    ensures Elements(xs) <= Below(n)
  {
  }

  /** Together the five lists of the elif chain hold at most `n` indices
      (and exactly `n` would need every triple to be one of the five, which
      the two mixed triples 8B+70B and 8B+405B are not). */
  lemma PartitionBound(a: Partition, m: Masks, n: nat)
    requires PartitionOf(a, m, n)
    ensures |a.allCorrect| + |a.allWrong| + |a.only405bCorrect| + |a.only70b405bCorrect|
            + |a.only8bCorrect| <= n
  {
    PartitionDisjoint(a, m, n);
    var s1, s2, s3 := Elements(a.allCorrect), Elements(a.allWrong), Elements(a.only405bCorrect);
    var s4, s5 := Elements(a.only70b405bCorrect), Elements(a.only8bCorrect);
    AscendingElements(a.allCorrect);
    AscendingElements(a.allWrong);
    AscendingElements(a.only405bCorrect);
    AscendingElements(a.only70b405bCorrect);
    AscendingElements(a.only8bCorrect);
    ElementsBelow(a.allCorrect, n);
    ElementsBelow(a.allWrong, n);
    ElementsBelow(a.only405bCorrect, n);
    ElementsBelow(a.only70b405bCorrect, n);
    ElementsBelow(a.only8bCorrect, n);
    FiveDisjointBelow(s1, s2, s3, s4, s5, n);
  }

  /** Five pairwise disjoint sets of indices below `n` hold at most `n`
      indices between them. */
  lemma FiveDisjointBelow(s1: set<nat>, s2: set<nat>, s3: set<nat>, s4: set<nat>, s5: set<nat>, n: nat)
    requires s1 !! s2 && s1 !! s3 && s1 !! s4 && s1 !! s5
    requires s2 !! s3 && s2 !! s4 && s2 !! s5
    requires s3 !! s4 && s3 !! s5
    requires s4 !! s5
    requires s1 <= Below(n) && s2 <= Below(n) && s3 <= Below(n) && s4 <= Below(n) && s5 <= Below(n)
    ensures |s1| + |s2| + |s3| + |s4| + |s5| <= n
  {
    assert |s1 + s2| == |s1| + |s2|;
    assert |s1 + s2 + s3| == |s1 + s2| + |s3|;
    assert |s1 + s2 + s3 + s4| == |s1 + s2 + s3| + |s4|;
    assert |s1 + s2 + s3 + s4 + s5| == |s1 + s2 + s3 + s4| + |s5|;
    SubsetCard(s1 + s2 + s3 + s4 + s5, Below(n));
  }
}

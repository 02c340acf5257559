/** Ascending index lists: the shape of every `*_indices` list the scripts
    build by appending `i` while walking `range(n)`. */
module Seqs {

  /** Strictly increasing, hence free of duplicates. */
  predicate Ascending(xs: seq<nat>) {
    forall a, b :: 0 <= a < b < |xs| ==> xs[a] < xs[b]
  }

  /** The positions `k` in `[from, |flags|)` where `flags[k]` holds, ascending. */
  function PositionsFrom(flags: seq<bool>, from: nat): (r: seq<nat>)
    requires from <= |flags|
    ensures Ascending(r)
    ensures forall k :: k in r <==> from <= k < |flags| && flags[k]
    ensures forall m :: 0 <= m < |r| ==> from <= r[m] < |flags| && flags[r[m]]
    ensures |r| <= |flags| - from
    decreases |flags| - from
  {
    if from == |flags| then []
    else
      var rest := PositionsFrom(flags, from + 1);
      if flags[from] then
        ConsIndex(from, rest);
        [from] + rest
      else rest
  }

  /** No flag set in `[from, to)`: the positions from `from` on are those
      from `to` on. */
  lemma {:induction false} PositionsSkip(flags: seq<bool>, from: nat, to: nat)
    requires from <= to <= |flags|
    requires forall k :: from <= k < to ==> !flags[k]
    ensures PositionsFrom(flags, from) == PositionsFrom(flags, to)
    decreases |flags| - from
  {
    if from < to {
      PositionsSkip(flags, from + 1, to);
    }
  }

  /** The positions where `flags` holds, ascending. */
  function Positions(flags: seq<bool>): (r: seq<nat>)
    ensures Ascending(r)
    ensures forall k :: k in r <==> 0 <= k < |flags| && flags[k]
    ensures forall m :: 0 <= m < |r| ==> r[m] < |flags| && flags[r[m]]
    ensures |r| <= |flags|
  {
    PositionsFrom(flags, 0)
  }

  /** The number of `true` entries. */
  function CountTrue(flags: seq<bool>): (n: nat)
    ensures n <= |flags|
    ensures n == 0 <==> forall k :: 0 <= k < |flags| ==> !flags[k]
    ensures n == |flags| <==> forall k :: 0 <= k < |flags| ==> flags[k]
  {
    if |flags| == 0 then 0
    else
      var rest := CountTrue(flags[1..]);
      assert forall k :: 1 <= k < |flags| ==> flags[k] == flags[1..][k - 1];
      (if flags[0] then 1 else 0) + rest
  }

  /** The elements of a list, as a set. */
  function Elements(xs: seq<nat>): set<nat> {
    set x | x in xs
  }

  lemma {:induction false} AscendingElements(xs: seq<nat>)
    requires Ascending(xs)
    ensures |Elements(xs)| == |xs|
    decreases |xs|
  {
    if |xs| > 0 {
      var rest := xs[1..];
      AscendingElements(rest);
      assert xs[0] !in rest;
      assert Elements(xs) == {xs[0]} + Elements(rest);
    }
  }

  /** The indices below `n`. */
  function Below(n: nat): (r: set<nat>)
    ensures forall k: nat :: k in r <==> k < n
    ensures |r| == n
  {
    if n == 0 then {} else
      var r := Below(n - 1) + {n - 1};
      assert n - 1 !in Below(n - 1);
      r
  }

  /** Three pairwise disjoint ascending lists of indices below `n` hold at
      most `n` indices between them. */
  lemma DisjointBound(xs: seq<nat>, ys: seq<nat>, zs: seq<nat>, n: nat)
    requires Ascending(xs) && Ascending(ys) && Ascending(zs)
    requires forall k :: k in xs + ys + zs ==> k < n
    requires Elements(xs) !! Elements(ys)
    requires Elements(xs) !! Elements(zs)
    requires Elements(ys) !! Elements(zs)
    ensures |xs| + |ys| + |zs| <= n
  {
    AscendingElements(xs);
    AscendingElements(ys);
    AscendingElements(zs);
    var all := Elements(xs) + Elements(ys) + Elements(zs);
    assert |all| == |xs| + |ys| + |zs|;
    forall x | x in all
      ensures x < n
    {
      assert x in xs + ys + zs;
    }
    SubsetCard(all, Below(n));
  }

  lemma SubsetCard(a: set<nat>, b: set<nat>)
    requires a <= b
    ensures |a| <= |b|
  {
    assert b == a + (b - a);
  }

  /** Two ascending lists with the same elements are the same list. */
  lemma {:induction false} AscendingUnique(xs: seq<nat>, ys: seq<nat>)
    requires Ascending(xs) && Ascending(ys)
    requires forall k :: k in xs <==> k in ys
    ensures xs == ys
    decreases |xs|
  {
    if |xs| > 0 { assert xs[0] in xs; }
    if |ys| > 0 { assert ys[0] in ys; }
    if |xs| > 0 && |ys| > 0 {
      assert xs[0] == ys[0] by {
        assert xs[0] in ys && ys[0] in xs;
        var a :| 0 <= a < |ys| && ys[a] == xs[0];
        var b :| 0 <= b < |xs| && xs[b] == ys[0];
        assert ys[0] <= ys[a] && xs[0] <= xs[b];
      }
      forall k
        ensures k in xs[1..] <==> k in ys[1..]
      {
        if k in xs[1..] {
          var a :| 1 <= a < |xs| && xs[a] == k;
          assert k in ys && k != ys[0];
        }
        if k in ys[1..] {
          var b :| 1 <= b < |ys| && ys[b] == k;
          assert k in xs && k != xs[0];
        }
      }
      AscendingUnique(xs[1..], ys[1..]);
    }
  }

  /** Counting the true flags from `from` on is listing their positions. */
  lemma {:induction false} CountPositionsFrom(flags: seq<bool>, from: nat)
    requires from <= |flags|
    ensures |PositionsFrom(flags, from)| == CountTrue(flags[from..])
    decreases |flags| - from
  {
    if from < |flags| {
      CountPositionsFrom(flags, from + 1);
      assert flags[from..][1..] == flags[from + 1..];
    }
  }

  /** `sum(1 for f in flags if f)` is the number of positions where `flags`
      holds. */
  lemma CountPositions(flags: seq<bool>)
    ensures CountTrue(flags) == |Positions(flags)|
  {
    CountPositionsFrom(flags, 0);
    assert flags[0..] == flags;
  }

  /** Indexing past the head of `[x] + rest` indexes `rest`. */
  lemma ConsIndex<T>(x: T, rest: seq<T>)
    ensures forall m :: 1 <= m < |[x] + rest| ==> ([x] + rest)[m] == rest[m - 1]
  {
  }
}

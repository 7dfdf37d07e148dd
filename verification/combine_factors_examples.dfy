/**
 * Worked instances of factor combination, matching the expectations the
 * repository's own unit tests state for the same inputs.
 */
module CombineFactorsExamples {
  import opened Lex
  import opened CombineFactors

  /** The distinct label pairs of the two-factor example, in lexicographic order. */
  const SortedPairs: seq<seq<int>> := [[0, 0], [0, 1], [1, 0], [1, 1], [1, 2], [2, 0], [2, 1], [2, 2]]

  lemma PairTuples(n: nat, factors: seq<seq<int>>)
    requires n == 9 && factors == [[0, 0, 1, 1, 1, 2, 2, 2, 2], [0, 1, 2, 0, 1, 2, 0, 1, 2]]
    ensures ValidFactors(n, factors)
    ensures Tuples(n, factors) == [[0, 0], [0, 1], [1, 2], [1, 0], [1, 1], [2, 2], [2, 0], [2, 1], [2, 2]]
  {
    var t := Tuples(n, factors);
    forall i | 0 <= i < 9
      ensures t[i] == [factors[0][i], factors[1][i]]
    {
      assert |t[i]| == 2;
    }
  }

  /** The eight pairs are listed in strictly increasing lexicographic order. */
  lemma SortedPairsSorted()
    ensures StrictlySorted(SortedPairs)
  {
    forall u, v | 0 <= u < v < 8
      ensures LexLess(SortedPairs[u], SortedPairs[v])
    {
      assert SortedPairs[u][0] < SortedPairs[v][0] || (SortedPairs[u][0] == SortedPairs[v][0] && SortedPairs[u][1] < SortedPairs[v][1]);
    }
  }

  /** The nine cells' pairs, as a set, are exactly the eight sorted pairs. */
  lemma PairElements(t: seq<seq<int>>)
    requires t == [[0, 0], [0, 1], [1, 2], [1, 0], [1, 1], [2, 2], [2, 0], [2, 1], [2, 2]]
    ensures Elements(SortedPairs) == Elements(t)
  {
    forall x | x in Elements(t)
      ensures x in Elements(SortedPairs)
    {
      var i :| 0 <= i < 9 && t[i] == x;
      assert x in SortedPairs;
    }
    forall x | x in Elements(SortedPairs)
      ensures x in Elements(t)
    {
      var u :| 0 <= u < 8 && SortedPairs[u] == x;
      var i := [0, 1, 3, 4, 2, 6, 7, 5][u];
      assert t[i] == x;
    }
  }

  lemma SortedPairsEnumerate(n: nat, factors: seq<seq<int>>)
    requires n == 9 && factors == [[0, 0, 1, 1, 1, 2, 2, 2, 2], [0, 1, 2, 0, 1, 2, 0, 1, 2]]
    ensures ValidFactors(n, factors)
    ensures StrictlySorted(SortedPairs) && Elements(SortedPairs) == Elements(Tuples(n, factors))
  {
    PairTuples(n, factors);
    SortedPairsSorted();
    PairElements(Tuples(n, factors));
  }

  /** Where each cell's pair sits among the sorted pairs. */
  lemma PairPositions(n: nat, factors: seq<seq<int>>)
    requires n == 9 && factors == [[0, 0, 1, 1, 1, 2, 2, 2, 2], [0, 1, 2, 0, 1, 2, 0, 1, 2]]
    ensures ValidFactors(n, factors)
    ensures forall i :: 0 <= i < 9 ==>
      ([0, 1, 4, 2, 3, 7, 5, 6, 7][i] < |SortedPairs| && SortedPairs[[0, 1, 4, 2, 3, 7, 5, 6, 7][i]] == Tuples(n, factors)[i])
  {
    var t := Tuples(n, factors);
    forall i | 0 <= i < 9
      ensures t[i] == [factors[0][i], factors[1][i]]
    {
      assert |t[i]| == 2;
    }
  }

  /** The combined factor of the two-factor example is each pair's position among the sorted pairs. */
  lemma PairsCombined(n: nat, factors: seq<seq<int>>)
    requires n == 9 && factors == [[0, 0, 1, 1, 1, 2, 2, 2, 2], [0, 1, 2, 0, 1, 2, 0, 1, 2]]
    ensures ValidFactors(n, factors)
    ensures Combine(n, factors).combined == [0, 1, 4, 2, 3, 7, 5, 6, 7]
  {
    SortedPairsEnumerate(n, factors);
    PairPositions(n, factors);
    CombinedFromReference(n, factors, SortedPairs, [0, 1, 4, 2, 3, 7, 5, 6, 7]);
  }

  /** One cell of the counting loop, on a prefix of `xs`. */
  lemma TallyPrefixStep(xs: seq<nat>, k: nat, before: seq<nat>, after: seq<nat>)
    requires k < |xs| && forall i :: 0 <= i < |xs| ==> xs[i] < 8
    requires Tally(xs[..k], 8) == before && after == before[xs[k] := before[xs[k]] + 1]
    ensures Tally(xs[..k + 1], 8) == after
  {
    assert xs[..k + 1] == xs[..k] + [xs[k]];
    TallyAppend(xs[..k], xs[k], 8);
  }

  /** The first three cells of the example's counting loop. */
  lemma PairTallyFirstThree(xs: seq<nat>)
    requires xs == [0, 1, 4, 2, 3, 7, 5, 6, 7]
    ensures Tally(xs[..3], 8) == [1, 1, 0, 0, 1, 0, 0, 0]
  {
    assert Tally(xs[..0], 8) == [0, 0, 0, 0, 0, 0, 0, 0];
    TallyPrefixStep(xs, 0, [0, 0, 0, 0, 0, 0, 0, 0], [1, 0, 0, 0, 0, 0, 0, 0]);
    TallyPrefixStep(xs, 1, [1, 0, 0, 0, 0, 0, 0, 0], [1, 1, 0, 0, 0, 0, 0, 0]);
    TallyPrefixStep(xs, 2, [1, 1, 0, 0, 0, 0, 0, 0], [1, 1, 0, 0, 1, 0, 0, 0]);
  }

  /** The first six cells of the example's counting loop. */
  lemma PairTallyFirstSix(xs: seq<nat>)
    requires xs == [0, 1, 4, 2, 3, 7, 5, 6, 7]
    ensures Tally(xs[..6], 8) == [1, 1, 1, 1, 1, 0, 0, 1]
  {
    PairTallyFirstThree(xs);
    TallyPrefixStep(xs, 3, [1, 1, 0, 0, 1, 0, 0, 0], [1, 1, 1, 0, 1, 0, 0, 0]);
    TallyPrefixStep(xs, 4, [1, 1, 1, 0, 1, 0, 0, 0], [1, 1, 1, 1, 1, 0, 0, 0]);
    TallyPrefixStep(xs, 5, [1, 1, 1, 1, 1, 0, 0, 0], [1, 1, 1, 1, 1, 0, 0, 1]);
  }

  /** The counting loop over the example's combined factor, one cell at a time. */
  lemma PairTally(xs: seq<nat>)
    requires xs == [0, 1, 4, 2, 3, 7, 5, 6, 7]
    ensures Tally(xs, 8) == [1, 1, 1, 1, 1, 1, 1, 2]
  {
    PairTallyFirstSix(xs);
    TallyPrefixStep(xs, 6, [1, 1, 1, 1, 1, 0, 0, 1], [1, 1, 1, 1, 1, 1, 0, 1]);
    TallyPrefixStep(xs, 7, [1, 1, 1, 1, 1, 1, 0, 1], [1, 1, 1, 1, 1, 1, 1, 1]);
    TallyPrefixStep(xs, 8, [1, 1, 1, 1, 1, 1, 1, 1], [1, 1, 1, 1, 1, 1, 1, 2]);
    assert xs[..9] == xs;
  }

  /** The example's combinations are the eight sorted pairs. */
  lemma PairLevels(n: nat, factors: seq<seq<int>>)
    requires n == 9 && factors == [[0, 0, 1, 1, 1, 2, 2, 2, 2], [0, 1, 2, 0, 1, 2, 0, 1, 2]]
    ensures ValidFactors(n, factors)
    ensures |Combine(n, factors).levels.counts| == 8
    ensures Combine(n, factors).levels.List() == SortedPairs
  {
    SortedPairsEnumerate(n, factors);
    MatchesSortedEnumeration(n, factors, SortedPairs);
  }

  /** Two factors over nine cells: eight distinct pairs, the last pair seen twice. */
  lemma TwoFactors(n: nat, factors: seq<seq<int>>)
    requires n == 9 && factors == [[0, 0, 1, 1, 1, 2, 2, 2, 2], [0, 1, 2, 0, 1, 2, 0, 1, 2]]
    ensures ValidFactors(n, factors)
    ensures Combine(n, factors).combined == [0, 1, 4, 2, 3, 7, 5, 6, 7]
    ensures Combine(n, factors).levels.List() == [[0, 0], [0, 1], [1, 0], [1, 1], [1, 2], [2, 0], [2, 1], [2, 2]]
    ensures Combine(n, factors).levels.counts == [1, 1, 1, 1, 1, 1, 1, 2]
  {
    PairsCombined(n, factors);
    PairLevels(n, factors);
    PairTally(Combine(n, factors).combined);
  }
}

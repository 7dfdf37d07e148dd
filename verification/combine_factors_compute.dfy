/**
 * The loop-by-loop form of factor combination: build the ordered map one
 * cell at a time, walk it in order to fill the combination table (also
 * numbering the keys), then look every cell up to write its combined index
 * and bump that combination's count. Its results are those of
 * `CombineFactors.Combine`.
 */
module CombineFactorsCompute {
  import opened CombineFactors

  /** One `find` and, when it fails, an insertion at the position `find` stopped at. */
  method FindOrInsert(t: seq<seq<int>>, reps: seq<nat>, i: nat) returns (r: seq<nat>)
    requires Uniform(t) && MapInv(t, reps, i) && i < |t|
    ensures r == Insert(t, reps, i)
    ensures MapInv(t, r, i + 1)
  {
    InsertKeeps(t, reps, i);
    var p := LowerBound(t, reps, i);
    r := reps;
    if !Found(t, reps, i) {
      r := reps[..p] + [i] + reps[p..];
    }
  }

  lemma MappingStep(t: seq<seq<int>>, i: nat)
    requires Uniform(t) && i < |t|
    ensures Mapping(t, i + 1) == Insert(t, Mapping(t, i), i)
  {
  }

  /** The insertion loop: cells in order, each added unless an equivalent key is present. */
  method BuildMapping(t: seq<seq<int>>) returns (reps: seq<nat>)
    requires Uniform(t)
    ensures reps == Mapping(t, |t|)
    ensures MapInv(t, reps, |t|)
  {
    reps := [];
    var i := 0;
    while i < |t|
      invariant 0 <= i <= |t| && reps == Mapping(t, i)
    {
      MappingStep(t, i);
      reps := FindOrInsert(t, reps, i);
      i := i + 1;
    }
  }

  /** The table loop: for each key in order, every factor's label of the key cell is appended. */
  method FillTable(n: nat, factors: seq<seq<int>>, reps: seq<nat>) returns (table: seq<seq<int>>)
    requires ValidFactors(n, factors) && Within(reps, n)
    ensures |table| == |factors|
    ensures forall f :: 0 <= f < |factors| ==> |table[f]| == |reps|
    ensures forall f, u :: 0 <= f < |factors| && 0 <= u < |reps| ==> table[f][u] == factors[f][reps[u]]
  {
    table := seq(|factors|, _ => []);
    var u := 0;
    while u < |reps|
      invariant 0 <= u <= |reps| && |table| == |factors|
      invariant forall f :: 0 <= f < |factors| ==> |table[f]| == u
      invariant forall f, v :: 0 <= f < |factors| && 0 <= v < u ==> table[f][v] == factors[f][reps[v]]
    {
      var ix := reps[u];
      var f := 0;
      while f < |factors|
        invariant 0 <= f <= |factors| && |table| == |factors|
        invariant forall g :: 0 <= g < |factors| ==> |table[g]| == if g < f then u + 1 else u
        invariant forall g, v :: 0 <= g < |factors| && 0 <= v < u ==> table[g][v] == factors[g][reps[v]]
        invariant forall g :: 0 <= g < f ==> table[g][u] == factors[g][ix]
      {
        table := table[f := table[f] + [factors[f][ix]]];
        f := f + 1;
      }
      u := u + 1;
    }
  }

  /** The counting loop: each cell's lookup is written out and counted. */
  method CountCells(t: seq<seq<int>>, reps: seq<nat>) returns (combined: seq<nat>, counts: seq<nat>)
    requires Within(reps, |t|)
    requires forall i :: 0 <= i < |t| ==> LowerBound(t, reps, i) < |reps|
    ensures |combined| == |t| && |counts| == |reps|
    ensures forall i :: 0 <= i < |t| ==> combined[i] == LowerBound(t, reps, i) < |reps|
    ensures counts == Tally(combined, |reps|)
  {
    combined := [];
    counts := seq(|reps|, _ => 0);
    var i := 0;
    while i < |t|
      invariant 0 <= i <= |t| && |combined| == i
      invariant forall j :: 0 <= j < i ==> combined[j] == LowerBound(t, reps, j)
      invariant forall j :: 0 <= j < i ==> combined[j] < |reps|
      invariant counts == Tally(combined, |reps|)
    {
      var chosen := LowerBound(t, reps, i);
      TallyAppend(combined, chosen, |reps|);
      ghost var prev := combined;
      combined := combined + [chosen];
      assert forall j :: 0 <= j < i ==> combined[j] == prev[j];
      counts := counts[chosen := counts[chosen] + 1];
      i := i + 1;
    }
  }

  /** The whole computation on `n` cells; it returns what `Combine` describes. */
  method Compute(n: nat, factors: seq<seq<int>>) returns (levels: Combinations, combined: seq<nat>)
    requires ValidFactors(n, factors)
    ensures Combined(levels, combined) == Combine(n, factors)
  {
    var t := Tuples(n, factors);
    var reps := BuildMapping(t);
    forall i | 0 <= i < n
      ensures LowerBound(t, reps, i) < |reps|
    {
      LookupLandsOnOwnTuple(t, reps, i);
    }
    var table := FillTable(n, factors, reps);
    var counts;
    combined, counts := CountCells(t, reps);
    levels := Combinations(table, counts);
    ghost var r := Combine(n, factors);
    assert combined == r.combined;
    assert table == r.levels.factors by {
      forall f | 0 <= f < |factors|
        ensures table[f] == r.levels.factors[f]
      {
      }
    }
  }
}

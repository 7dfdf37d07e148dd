/**
 * Gene sets and what aggregating across them means. For one cell, a set's
 * value is the weighted sum of the cell's values over the set's genes,
 * each gene weighing one when the set carries no weights. The module also
 * defines the pieces the computation is organised around: the universe of
 * genes that any set uses, the occurrences of genes in sets, and the
 * per-gene lists of (set, weight) memberships. It proves that summing gene
 * by gene over those lists gives every set's value.
 */
module GeneSets {

  /** A set's weights: none (every gene weighs one), or one weight per gene. */
  datatype Weights = Unweighted | Weighted(w: seq<real>)

  /** The genes are row indices of the matrix; a gene may be listed more than once. */
  datatype GeneSet = GeneSet(genes: seq<int>, weights: Weights)

  predicate WellFormed(gs: GeneSet)
  {
    gs.weights.Weighted? ==> |gs.weights.w| == |gs.genes|
  }

  predicate AllWellFormed(sets: seq<GeneSet>)
  {
    forall t :: 0 <= t < |sets| ==> WellFormed(sets[t])
  }

  function Weight(gs: GeneSet, g: nat): real
    requires WellFormed(gs) && g < |gs.genes|
  {
    if gs.weights.Weighted? then gs.weights.w[g] else 1.0
  }

  predicate GenesWithin(genes: seq<int>, n: nat)
  {
    forall g :: 0 <= g < |genes| ==> 0 <= genes[g] < n
  }

  /** Every gene of every set is a row of a matrix with `nrow` rows. */
  predicate InRange(sets: seq<GeneSet>, nrow: nat)
  {
    forall t :: 0 <= t < |sets| ==> GenesWithin(sets[t].genes, nrow)
  }

  /** Some set lists gene `x`. */
  predicate Mentioned(sets: seq<GeneSet>, x: int)
  {
    exists t, g :: 0 <= t < |sets| && 0 <= g < |sets[t].genes| && sets[t].genes[g] == x
  }

  // ---------------------------------------------------------------------
  // The cell-major formula

  /** The weighted sum over the first `n` genes of the set, for one cell's column of values. */
  function PartialSetValue(gs: GeneSet, col: seq<int>, n: nat): real
    requires WellFormed(gs) && GenesWithin(gs.genes, |col|) && n <= |gs.genes|
  {
    if n == 0 then 0.0 else PartialSetValue(gs, col, n - 1) + col[gs.genes[n - 1]] as real * Weight(gs, n - 1)
  }

  /** A set's value in one cell. */
  function SetValue(gs: GeneSet, col: seq<int>): real
    requires WellFormed(gs) && GenesWithin(gs.genes, |col|)
  {
    PartialSetValue(gs, col, |gs.genes|)
  }

  /** The sum of the first `n` weights, reading an absent weight as one. */
  function PartialWeight(gs: GeneSet, n: nat): real
    requires WellFormed(gs) && n <= |gs.genes|
  {
    if n == 0 then 0.0 else PartialWeight(gs, n - 1) + Weight(gs, n - 1)
  }

  function WeightTotal(w: seq<real>): real
  {
    if |w| == 0 then 0.0 else WeightTotal(w[..|w| - 1]) + w[|w| - 1]
  }

  /** What averaging divides by: the number of genes of an unweighted set, the sum of the weights of a weighted one. */
  function Denominator(gs: GeneSet): real
  {
    match gs.weights
    case Unweighted => |gs.genes| as real
    case Weighted(w) => WeightTotal(w)
  }

  /** Averaging divides by the denominator; a zero denominator leaves the sum as it is. */
  function Averaged(gs: GeneSet, v: real, average: bool): real
  {
    if average && Denominator(gs) != 0.0 then v / Denominator(gs) else v
  }

  /** Both denominators are the same thing: the set's total weight, absent weights counting one. */
  lemma {:induction false} DenominatorIsTotalWeight(gs: GeneSet)
    requires WellFormed(gs)
    ensures Denominator(gs) == PartialWeight(gs, |gs.genes|)
  {
    PrefixWeight(gs, |gs.genes|);
    if gs.weights.Weighted? {
      assert gs.weights.w[..|gs.genes|] == gs.weights.w;
    }
  }

  lemma {:induction false} PrefixWeight(gs: GeneSet, n: nat)
    requires WellFormed(gs) && n <= |gs.genes|
    ensures gs.weights.Unweighted? ==> PartialWeight(gs, n) == n as real
    ensures gs.weights.Weighted? ==> PartialWeight(gs, n) == WeightTotal(gs.weights.w[..n])
  {
    if n > 0 {
      PrefixWeight(gs, n - 1);
      if gs.weights.Weighted? {
        assert gs.weights.w[..n][..n - 1] == gs.weights.w[..n - 1];
      }
    }
  }

  /** Over genes that all have the value `v`, the weighted sum is `v` times the total weight. */
  lemma {:induction false} ConstantSetValue(gs: GeneSet, col: seq<int>, v: int, n: nat)
    requires WellFormed(gs) && GenesWithin(gs.genes, |col|) && n <= |gs.genes|
    requires forall g :: 0 <= g < |gs.genes| ==> col[gs.genes[g]] == v
    ensures PartialSetValue(gs, col, n) == v as real * PartialWeight(gs, n)
  {
    if n > 0 {
      ConstantSetValue(gs, col, v, n - 1);
    }
  }

  lemma DivCancel(a: real, d: real)
    requires d != 0.0
    ensures (a * d) / d == a
  {
    var q := (a * d) / d;
    assert q * d == a * d;
    assert (q - a) * d == 0.0;
  }

  /** Averaging is a mean: when every gene of the set has the same value, the averaged value is that value. */
  lemma AverageOfConstant(gs: GeneSet, col: seq<int>, v: int)
    requires WellFormed(gs) && GenesWithin(gs.genes, |col|) && Denominator(gs) != 0.0
    requires forall g :: 0 <= g < |gs.genes| ==> col[gs.genes[g]] == v
    ensures Averaged(gs, SetValue(gs, col), true) == v as real
  {
    ConstantSetValue(gs, col, v, |gs.genes|);
    DenominatorIsTotalWeight(gs);
    var d := Denominator(gs);
    assert SetValue(gs, col) == v as real * d;
    DivCancel(v as real, d);
    assert Averaged(gs, SetValue(gs, col), true) == SetValue(gs, col) / d;
  }

  // ---------------------------------------------------------------------
  // The gene universe

  /** Strictly increasing, hence without repeats. */
  predicate Increasing(xs: seq<int>)
  {
    forall i, j :: 0 <= i < j < |xs| ==> xs[i] < xs[j]
  }

  /** Adds `x` to a sorted sequence of distinct genes, unless it is already there. */
  function InsertSorted(xs: seq<int>, x: int): (r: seq<int>)
    requires Increasing(xs)
    ensures Increasing(r)
    ensures forall y :: y in r <==> y in xs || y == x
    decreases |xs|
  {
    if |xs| == 0 then [x]
    else if x < xs[0] then [x] + xs
    else if x == xs[0] then xs
    else
      var rest := InsertSorted(xs[1..], x);
      assert forall j :: 0 <= j < |rest| ==> xs[0] < rest[j] by {
        forall j | 0 <= j < |rest|
          ensures xs[0] < rest[j]
        {
          assert rest[j] in rest;
          if rest[j] != x {
            var i :| 0 <= i < |xs[1..]| && xs[1..][i] == rest[j];
            assert xs[i + 1] == rest[j];
          }
        }
      }
      [xs[0]] + rest
  }

  /** Adds every gene of a list. */
  function AddGenes(xs: seq<int>, genes: seq<int>): (r: seq<int>)
    requires Increasing(xs)
    ensures Increasing(r)
    ensures forall y :: y in r <==> y in xs || y in genes
    decreases |genes|
  {
    if |genes| == 0 then xs
    else
      var r := AddGenes(InsertSorted(xs, genes[0]), genes[1..]);
      assert forall y :: y in genes <==> y == genes[0] || y in genes[1..] by {
        assert genes == [genes[0]] + genes[1..];
      }
      r
  }

  /**
   * The genes that any set uses, each once and in increasing order: the
   * rows that need extracting.
   */
  function Universe(sets: seq<GeneSet>): (u: seq<int>)
    ensures Increasing(u)
    decreases |sets|
  {
    if |sets| == 0 then [] else AddGenes(Universe(sets[..|sets| - 1]), sets[|sets| - 1].genes)
  }

  /** The universe is exactly the union of the sets' genes. */
  lemma {:induction false} UniverseIsUnion(sets: seq<GeneSet>)
    ensures forall x :: x in Universe(sets) <==> Mentioned(sets, x)
    decreases |sets|
  {
    if |sets| > 0 {
      var n := |sets|;
      var init, last := sets[..n - 1], sets[n - 1];
      UniverseIsUnion(init);
      forall x
        ensures x in Universe(sets) <==> Mentioned(sets, x)
      {
        if Mentioned(init, x) {
          var t, g :| 0 <= t < |init| && 0 <= g < |init[t].genes| && init[t].genes[g] == x;
          assert sets[t] == init[t];
        }
        if x in last.genes {
          var g :| 0 <= g < |last.genes| && last.genes[g] == x;
          assert sets[n - 1].genes[g] == x;
        }
        if Mentioned(sets, x) {
          var t, g :| 0 <= t < n && 0 <= g < |sets[t].genes| && sets[t].genes[g] == x;
          if t < n - 1 {
            assert init[t].genes[g] == x;
          } else {
            assert x in last.genes;
          }
        }
      }
    }
  }

  /** Every gene of every set is in the universe. */
  lemma MembersInUniverse(sets: seq<GeneSet>)
    ensures forall t, g :: 0 <= t < |sets| && 0 <= g < |sets[t].genes| ==> sets[t].genes[g] in Universe(sets)
  {
    UniverseIsUnion(sets);
  }

  /** Genes in range give a universe of rows of the matrix. */
  lemma UniverseWithin(sets: seq<GeneSet>, nrow: nat)
    requires InRange(sets, nrow)
    ensures GenesWithin(Universe(sets), nrow)
  {
    UniverseIsUnion(sets);
    forall k | 0 <= k < |Universe(sets)|
      ensures 0 <= Universe(sets)[k] < nrow
    {
      assert Mentioned(sets, Universe(sets)[k]);
    }
  }

  // ---------------------------------------------------------------------
  // Occurrences: one per listed gene of each set

  /** Gene `gene` is listed in set number `owner` with weight `weight`. */
  datatype Occurrence = Occurrence(owner: nat, gene: int, weight: real)

  function SetOccurrences(t: nat, gs: GeneSet): seq<Occurrence>
    requires WellFormed(gs)
  {
    seq(|gs.genes|, g requires 0 <= g < |gs.genes| => Occurrence(t, gs.genes[g], Weight(gs, g)))
  }

  /** All occurrences, set by set and within a set in the listed order. */
  function Occurrences(sets: seq<GeneSet>): (o: seq<Occurrence>)
    requires AllWellFormed(sets)
    ensures forall j :: 0 <= j < |o| ==> o[j].owner < |sets|
    decreases |sets|
  {
    if |sets| == 0 then [] else Occurrences(sets[..|sets| - 1]) + SetOccurrences(|sets| - 1, sets[|sets| - 1])
  }

  /** Each occurrence is a listed gene of its set, with that gene's weight. */
  lemma {:induction false} OccurrenceSource(sets: seq<GeneSet>, j: nat) returns (g: nat)
    requires AllWellFormed(sets) && j < |Occurrences(sets)|
    ensures Occurrences(sets)[j].owner < |sets|
    ensures g < |sets[Occurrences(sets)[j].owner].genes|
    ensures sets[Occurrences(sets)[j].owner].genes[g] == Occurrences(sets)[j].gene
    ensures Occurrences(sets)[j].weight == Weight(sets[Occurrences(sets)[j].owner], g)
    decreases |sets|
  {
    var n := |sets|;
    var init := sets[..n - 1];
    var front := Occurrences(init);
    if j < |front| {
      g := OccurrenceSource(init, j);
      assert sets[front[j].owner] == init[front[j].owner];
    } else {
      g := j - |front|;
    }
  }

  predicate OccWithin(occ: seq<Occurrence>, n: nat)
  {
    forall j :: 0 <= j < |occ| ==> 0 <= occ[j].gene < n
  }

  lemma OccurrencesWithin(sets: seq<GeneSet>, nrow: nat)
    requires AllWellFormed(sets) && InRange(sets, nrow)
    ensures OccWithin(Occurrences(sets), nrow)
  {
    forall j | 0 <= j < |Occurrences(sets)|
      ensures 0 <= Occurrences(sets)[j].gene < nrow
    {
      var g := OccurrenceSource(sets, j);
    }
  }

  /** The sum of value times weight over the occurrences that belong to set `t`. */
  function OccSum(occ: seq<Occurrence>, t: nat, col: seq<int>): real
    requires OccWithin(occ, |col|)
  {
    if |occ| == 0 then 0.0
    else
      var o := occ[|occ| - 1];
      OccSum(occ[..|occ| - 1], t, col) + Share(o.owner, o.weight, t, col[o.gene] as real)
  }

  lemma {:induction false} OccSumAppend(a: seq<Occurrence>, b: seq<Occurrence>, t: nat, col: seq<int>)
    requires OccWithin(a, |col|) && OccWithin(b, |col|)
    ensures OccWithin(a + b, |col|)
    ensures OccSum(a + b, t, col) == OccSum(a, t, col) + OccSum(b, t, col)
    decreases |b|
  {
    if |b| == 0 {
      assert a + b == a;
    } else {
      var b' := b[..|b| - 1];
      OccSumAppend(a, b', t, col);
      assert (a + b)[..|a + b| - 1] == a + b';
      assert (a + b)[|a + b| - 1] == b[|b| - 1];
    }
  }

  /** Summing a set's own occurrences gives its value (first `n` genes); other sets get nothing from them. */
  lemma {:induction false} SetOccurrencesSum(s: nat, gs: GeneSet, t: nat, col: seq<int>, n: nat)
    requires WellFormed(gs) && GenesWithin(gs.genes, |col|) && n <= |gs.genes|
    ensures OccWithin(SetOccurrences(s, gs)[..n], |col|)
    ensures OccSum(SetOccurrences(s, gs)[..n], t, col) == if t == s then PartialSetValue(gs, col, n) else 0.0
  {
    if n > 0 {
      SetOccurrencesSum(s, gs, t, col, n - 1);
      assert SetOccurrences(s, gs)[..n][..n - 1] == SetOccurrences(s, gs)[..n - 1];
    }
  }

  /** Summing all occurrences that belong to set `t` gives the set's value. */
  lemma {:induction false} OccurrencesSum(sets: seq<GeneSet>, t: nat, col: seq<int>)
    requires AllWellFormed(sets) && InRange(sets, |col|)
    ensures OccWithin(Occurrences(sets), |col|)
    ensures OccSum(Occurrences(sets), t, col) == if t < |sets| then SetValue(sets[t], col) else 0.0
    decreases |sets|
  {
    OccurrencesWithin(sets, |col|);
    if |sets| > 0 {
      var n := |sets|;
      var init, last := sets[..n - 1], sets[n - 1];
      var front, own := Occurrences(init), SetOccurrences(n - 1, last);
      assert Occurrences(sets) == front + own;
      assert InRange(init, |col|) by {
        assert forall k :: 0 <= k < n - 1 ==> init[k] == sets[k];
      }
      OccurrencesSum(init, t, col);
      SetOccurrencesSum(n - 1, last, t, col, |last.genes|);
      assert own[..|last.genes|] == own;
      OccSumAppend(front, own, t, col);
      if t < n - 1 {
        assert init[t] == sets[t];
      }
    }
  }

  // ---------------------------------------------------------------------
  // Subset positions and memberships

  /** The mapping sends every subset gene back to its position in the subset. */
  predicate Inverts(mapping: seq<nat>, subset: seq<int>)
  {
    forall i :: 0 <= i < |subset| ==> 0 <= subset[i] < |mapping| && mapping[subset[i]] == i
  }

  /** A subset gene's mapped position holds that gene. */
  lemma Lookup(mapping: seq<nat>, subset: seq<int>, x: int)
    requires Inverts(mapping, subset) && x in subset
    ensures 0 <= x < |mapping| && mapping[x] < |subset| && subset[mapping[x]] == x
  {
    var i :| 0 <= i < |subset| && subset[i] == x;
  }

  /** Every occurrence's gene is one of the subset's genes. */
  predicate Routed(occ: seq<Occurrence>, subset: seq<int>)
  {
    forall j :: 0 <= j < |occ| ==> occ[j].gene in subset
  }

  lemma OccurrencesRouted(sets: seq<GeneSet>)
    requires AllWellFormed(sets)
    ensures Routed(Occurrences(sets), Universe(sets))
  {
    MembersInUniverse(sets);
    forall j | 0 <= j < |Occurrences(sets)|
      ensures Occurrences(sets)[j].gene in Universe(sets)
    {
      var g := OccurrenceSource(sets, j);
    }
  }

  /** One entry of a subset gene's list: a set that lists the gene, with its weight there. */
  datatype Membership = Membership(owner: nat, weight: real)

  /**
   * For each position of the subset, the memberships of its gene: one
   * entry per occurrence, appended in occurrence order. A gene listed by
   * several sets, or several times by one set, has several entries.
   */
  function Memberships(occ: seq<Occurrence>, mapping: seq<nat>, subset: seq<int>): (mem: seq<seq<Membership>>)
    requires Inverts(mapping, subset) && Routed(occ, subset)
    ensures |mem| == |subset|
  {
    if |occ| == 0 then seq(|subset|, _ => [])
    else
      var o := occ[|occ| - 1];
      var mem := Memberships(occ[..|occ| - 1], mapping, subset);
      Lookup(mapping, subset, o.gene);
      mem[mapping[o.gene] := mem[mapping[o.gene]] + [Membership(o.owner, o.weight)]]
  }

  /** One more occurrence appends one entry to the list of its gene's subset position. */
  lemma MembershipsStep(occ: seq<Occurrence>, o: Occurrence, mapping: seq<nat>, subset: seq<int>)
    requires Inverts(mapping, subset) && Routed(occ, subset) && o.gene in subset
    ensures Routed(occ + [o], subset)
    ensures 0 <= o.gene < |mapping| && mapping[o.gene] < |subset|
    ensures Memberships(occ + [o], mapping, subset)
         == Memberships(occ, mapping, subset)[mapping[o.gene] := Memberships(occ, mapping, subset)[mapping[o.gene]] + [Membership(o.owner, o.weight)]]
  {
    Lookup(mapping, subset, o.gene);
    assert (occ + [o])[..|occ|] == occ;
  }

  /** Entries per position. */
  function EntryCount(mem: seq<seq<Membership>>): nat
  {
    if |mem| == 0 then 0 else EntryCount(mem[..|mem| - 1]) + |mem[|mem| - 1]|
  }

  lemma {:induction false} EntryCountUpdate(mem: seq<seq<Membership>>, k: nat, e: Membership)
    requires k < |mem|
    ensures EntryCount(mem[k := mem[k] + [e]]) == EntryCount(mem) + 1
    decreases |mem|
  {
    var n := |mem|;
    if k < n - 1 {
      EntryCountUpdate(mem[..n - 1], k, e);
      assert mem[k := mem[k] + [e]][..n - 1] == mem[..n - 1][k := mem[k] + [e]];
    } else {
      assert mem[k := mem[k] + [e]][..n - 1] == mem[..n - 1];
    }
  }

  lemma {:induction false} EntryCountEmpty(n: nat)
    ensures EntryCount(seq(n, _ => [])) == 0
  {
    if n > 0 {
      var mem: seq<seq<Membership>> := seq(n, _ => []);
      EntryCountEmpty(n - 1);
      assert mem[..n - 1] == seq(n - 1, _ => []);
    }
  }

  /** The lists hold exactly one entry per occurrence: in total, and gene by gene. */
  lemma {:induction false} MembershipsCount(occ: seq<Occurrence>, mapping: seq<nat>, subset: seq<int>)
    requires Inverts(mapping, subset) && Routed(occ, subset)
    ensures EntryCount(Memberships(occ, mapping, subset)) == |occ|
    ensures forall k :: 0 <= k < |subset| ==> |Memberships(occ, mapping, subset)[k]| == multiset(Genes(occ))[subset[k]]
    decreases |occ|
  {
    MembershipsPerGene(occ, mapping, subset);
    if |occ| == 0 {
      EntryCountEmpty(|subset|);
    } else {
      var o := occ[|occ| - 1];
      MembershipsCount(occ[..|occ| - 1], mapping, subset);
      Lookup(mapping, subset, o.gene);
      EntryCountUpdate(Memberships(occ[..|occ| - 1], mapping, subset), mapping[o.gene], Membership(o.owner, o.weight));
    }
  }

  /**
   * Every entry at position `k` stands for an occurrence of the gene
   * `subset[k]`: a set that lists that gene, with the weight it has there.
   */
  lemma {:induction false} MembershipsAreOccurrences(occ: seq<Occurrence>, mapping: seq<nat>, subset: seq<int>, k: nat, i: nat)
    returns (j: nat)
    requires Inverts(mapping, subset) && Routed(occ, subset)
    requires k < |subset| && i < |Memberships(occ, mapping, subset)[k]|
    ensures j < |occ| && occ[j].gene == subset[k]
    ensures Memberships(occ, mapping, subset)[k][i] == Membership(occ[j].owner, occ[j].weight)
    decreases |occ|
  {
    var n := |occ|;
    var o := occ[n - 1];
    var front := Memberships(occ[..n - 1], mapping, subset);
    Lookup(mapping, subset, o.gene);
    if k == mapping[o.gene] && i == |front[k]| {
      j := n - 1;
    } else {
      j := MembershipsAreOccurrences(occ[..n - 1], mapping, subset, k, i);
    }
  }

  /** The genes of the occurrences, in occurrence order. */
  function Genes(occ: seq<Occurrence>): (gs: seq<int>)
    ensures |gs| == |occ| && forall j :: 0 <= j < |occ| ==> gs[j] == occ[j].gene
  {
    seq(|occ|, j requires 0 <= j < |occ| => occ[j].gene)
  }

  /** The (set, weight) entries of every occurrence of gene `x`, in occurrence order. */
  function EntriesOf(occ: seq<Occurrence>, x: int): seq<Membership>
  {
    if |occ| == 0 then []
    else
      var o := occ[|occ| - 1];
      EntriesOf(occ[..|occ| - 1], x) + (if o.gene == x then [Membership(o.owner, o.weight)] else [])
  }

  /** Gene `x` has as many entries as it has occurrences. */
  lemma {:induction false} EntriesOfCount(occ: seq<Occurrence>, x: int)
    ensures |EntriesOf(occ, x)| == multiset(Genes(occ))[x]
    decreases |occ|
  {
    if |occ| > 0 {
      var init := occ[..|occ| - 1];
      EntriesOfCount(init, x);
      assert Genes(occ) == Genes(init) + [occ[|occ| - 1].gene];
    }
  }

  /**
   * Gene `subset[k]`'s list is exactly the entries of its occurrences, in
   * order; so a gene listed by `c` sets (or `c` times) has `c` entries.
   */
  lemma {:induction false} MembershipsPerGene(occ: seq<Occurrence>, mapping: seq<nat>, subset: seq<int>)
    requires Inverts(mapping, subset) && Routed(occ, subset)
    ensures forall k :: 0 <= k < |subset| ==> Memberships(occ, mapping, subset)[k] == EntriesOf(occ, subset[k])
    ensures forall k :: 0 <= k < |subset| ==> |Memberships(occ, mapping, subset)[k]| == multiset(Genes(occ))[subset[k]]
    decreases |occ|
  {
    var mem := Memberships(occ, mapping, subset);
    if |occ| > 0 {
      var n := |occ|;
      var init := occ[..n - 1];
      var o := occ[n - 1];
      assert Routed(init, subset) by {
        assert forall j :: 0 <= j < n - 1 ==> init[j] == occ[j];
      }
      MembershipsPerGene(init, mapping, subset);
      var front := Memberships(init, mapping, subset);
      Lookup(mapping, subset, o.gene);
      var p := mapping[o.gene];
      forall k | 0 <= k < |subset|
        ensures mem[k] == EntriesOf(occ, subset[k])
      {
        if k == p {
          assert mem[k] == front[k] + [Membership(o.owner, o.weight)];
        } else {
          assert o.gene != subset[k];
          assert mem[k] == front[k];
        }
      }
    }
    forall k | 0 <= k < |subset|
      ensures |mem[k]| == multiset(Genes(occ))[subset[k]]
    {
      EntriesOfCount(occ, subset[k]);
    }
  }

  /** No entry names a set beyond those that occur. */
  lemma {:induction false} MembershipsBelow(occ: seq<Occurrence>, mapping: seq<nat>, subset: seq<int>, nsets: nat)
    requires Inverts(mapping, subset) && Routed(occ, subset)
    requires forall j :: 0 <= j < |occ| ==> occ[j].owner < nsets
    ensures forall k, i :: 0 <= k < |subset| && 0 <= i < |Memberships(occ, mapping, subset)[k]| ==>
      Memberships(occ, mapping, subset)[k][i].owner < nsets
  {
    forall k, i | 0 <= k < |subset| && 0 <= i < |Memberships(occ, mapping, subset)[k]|
      ensures Memberships(occ, mapping, subset)[k][i].owner < nsets
    {
      var j := MembershipsAreOccurrences(occ, mapping, subset, k, i);
    }
  }

  // ---------------------------------------------------------------------
  // The gene-major sum

  /** What one entry of set `owner` with weight `weight` adds to set `t` when its gene has value `v`. */
  function Share(owner: nat, weight: real, t: nat, v: real): real
  {
    if owner == t then v * weight else 0.0
  }

  /** What one gene's list adds to set `t` when the gene has value `v`. */
  function EntrySum(es: seq<Membership>, t: nat, v: real): real
  {
    if |es| == 0 then 0.0
    else EntrySum(es[..|es| - 1], t, v) + Share(es[|es| - 1].owner, es[|es| - 1].weight, t, v)
  }

  /** Set `t`'s total when the genes are taken one after the other, `x[k]` being the value of the `k`-th subset gene. */
  function GeneMajor(mem: seq<seq<Membership>>, t: nat, x: seq<real>): real
    requires |x| == |mem|
  {
    if |mem| == 0 then 0.0
    else GeneMajor(mem[..|mem| - 1], t, x[..|x| - 1]) + EntrySum(mem[|mem| - 1], t, x[|x| - 1])
  }

  /** One cell's values at the subset genes. */
  function SubsetValues(col: seq<int>, subset: seq<int>): (x: seq<real>)
    requires GenesWithin(subset, |col|)
  {
    seq(|subset|, k requires 0 <= k < |subset| => col[subset[k]] as real)
  }

  /** A gene whose value is zero adds nothing to any set. */
  lemma {:induction false} EntrySumZero(es: seq<Membership>, t: nat)
    ensures EntrySum(es, t, 0.0) == 0.0
    decreases |es|
  {
    if |es| > 0 {
      EntrySumZero(es[..|es| - 1], t);
    }
  }

  lemma EntrySumAppend(es: seq<Membership>, e: Membership, t: nat, v: real)
    ensures EntrySum(es + [e], t, v) == EntrySum(es, t, v) + Share(e.owner, e.weight, t, v)
  {
    assert (es + [e])[..|es|] == es;
  }

  /** Taking one more gene adds that gene's contribution. */
  lemma GeneMajorStep(mem: seq<seq<Membership>>, t: nat, x: seq<real>, k: nat)
    requires |x| == |mem| && k < |mem|
    ensures GeneMajor(mem[..k + 1], t, x[..k + 1]) == GeneMajor(mem[..k], t, x[..k]) + EntrySum(mem[k], t, x[k])
  {
    assert mem[..k + 1][..k] == mem[..k];
    assert x[..k + 1][..k] == x[..k];
  }

  /** Appending an entry to one gene's list adds exactly that entry's contribution. */
  lemma {:induction false} GeneMajorUpdate(mem: seq<seq<Membership>>, k: nat, e: Membership, t: nat, x: seq<real>)
    requires |x| == |mem| && k < |mem|
    ensures GeneMajor(mem[k := mem[k] + [e]], t, x) == GeneMajor(mem, t, x) + Share(e.owner, e.weight, t, x[k])
    decreases |mem|
  {
    var n := |mem|;
    var mem' := mem[k := mem[k] + [e]];
    var before := GeneMajor(mem[..n - 1], t, x[..n - 1]);
    assert GeneMajor(mem, t, x) == before + EntrySum(mem[n - 1], t, x[n - 1]);
    assert GeneMajor(mem', t, x) == GeneMajor(mem'[..n - 1], t, x[..n - 1]) + EntrySum(mem'[n - 1], t, x[n - 1]);
    if k < n - 1 {
      assert mem'[..n - 1] == mem[..n - 1][k := mem[k] + [e]];
      GeneMajorUpdate(mem[..n - 1], k, e, t, x[..n - 1]);
    } else {
      assert mem'[..n - 1] == mem[..n - 1];
      EntrySumAppend(mem[k], e, t, x[k]);
    }
  }

  lemma {:induction false} GeneMajorEmpty(n: nat, t: nat, x: seq<real>)
    requires |x| == n
    ensures GeneMajor(seq(n, _ => []), t, x) == 0.0
  {
    if n > 0 {
      var mem: seq<seq<Membership>> := seq(n, _ => []);
      GeneMajorEmpty(n - 1, t, x[..n - 1]);
      assert mem[..n - 1] == seq(n - 1, _ => []);
    }
  }

  /** Gene by gene over the membership lists, each set receives the sum over its own occurrences. */
  lemma {:induction false} MembershipsSum(occ: seq<Occurrence>, mapping: seq<nat>, subset: seq<int>, t: nat, col: seq<int>)
    requires Inverts(mapping, subset) && Routed(occ, subset)
    requires GenesWithin(subset, |col|) && OccWithin(occ, |col|)
    ensures GeneMajor(Memberships(occ, mapping, subset), t, SubsetValues(col, subset)) == OccSum(occ, t, col)
    decreases |occ|
  {
    var x := SubsetValues(col, subset);
    if |occ| == 0 {
      GeneMajorEmpty(|subset|, t, x);
    } else {
      var n := |occ|;
      var o, front := occ[n - 1], occ[..n - 1];
      var mem := Memberships(front, mapping, subset);
      MembershipsSum(front, mapping, subset, t, col);
      Lookup(mapping, subset, o.gene);
      var k := mapping[o.gene];
      assert Memberships(occ, mapping, subset) == mem[k := mem[k] + [Membership(o.owner, o.weight)]];
      assert OccSum(occ, t, col) == OccSum(front, t, col) + Share(o.owner, o.weight, t, col[o.gene] as real);
      assert x[k] == col[o.gene] as real;
      GeneMajorUpdate(mem, k, Membership(o.owner, o.weight), t, x);
    }
  }

  /**
   * Gene-major accumulation over the universe's membership lists gives,
   * for every set and cell, the cell-major weighted sum over the set's
   * genes.
   */
  lemma GeneMajorIsSetValue(sets: seq<GeneSet>, mapping: seq<nat>, t: nat, col: seq<int>)
    requires AllWellFormed(sets) && InRange(sets, |col|) && t < |sets|
    requires Inverts(mapping, Universe(sets))
    ensures GenesWithin(Universe(sets), |col|) && Routed(Occurrences(sets), Universe(sets))
    ensures GeneMajor(Memberships(Occurrences(sets), mapping, Universe(sets)), t, SubsetValues(col, Universe(sets)))
      == SetValue(sets[t], col)
  {
    UniverseWithin(sets, |col|);
    OccurrencesRouted(sets);
    OccurrencesSum(sets, t, col);
    MembershipsSum(Occurrences(sets), mapping, Universe(sets), t, col);
  }

  /** Remaps a set's genes to their positions in the subset. */
  function Remap(mapping: seq<nat>, subset: seq<int>, genes: seq<int>): (r: seq<nat>)
    requires Inverts(mapping, subset)
    requires forall g :: 0 <= g < |genes| ==> genes[g] in subset
    ensures |r| == |genes|
    ensures forall g :: 0 <= g < |genes| ==> r[g] < |subset| && subset[r[g]] == genes[g]
  {
    seq(|genes|, g requires 0 <= g < |genes| => Lookup(mapping, subset, genes[g]); mapping[genes[g]])
  }
}

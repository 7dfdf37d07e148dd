/**
 * Aggregation of expression values across gene sets: for every set and
 * cell, the weighted sum of the cell's values over the set's genes, each
 * gene weighing one in a set without weights. Only the genes that some set
 * uses are extracted. The column path reads each cell's values at those
 * genes and sums every set directly. The row path reads those genes one at
 * a time over a chunk of cells and adds each value to every set that lists
 * the gene. Either path runs over the consecutive chunks of cells that the
 * parallel dispatcher hands out.
 */
module AggregateAcrossGenes {
  import opened Matrices
  import opened GeneSets

  /** The two traversal strategies. */
  datatype Path = RowPath | ColumnPath

  /** One vector of per-cell values for each set, or the error for a gene index outside the matrix. */
  datatype Outcome = Sums(sums: seq<seq<real>>) | OutOfRange

  /** One vector of length `len` for each of `nsets` sets. */
  predicate Shaped(buf: seq<seq<real>>, nsets: nat, len: nat)
  {
    |buf| == nsets && forall t :: 0 <= t < nsets ==> |buf[t]| == len
  }

  /** Every set's value in every cell: what the buffers are to be filled with. */
  function Expected(m: Matrix, sets: seq<GeneSet>): (e: seq<seq<real>>)
    requires m.Valid() && AllWellFormed(sets) && InRange(sets, m.nrow)
  {
    seq(|sets|, t requires 0 <= t < |sets| =>
      seq(m.ncol, c requires 0 <= c < m.ncol => SetValue(sets[t], Column(m, c))))
  }

  /** The validation loop: every gene of every set must be a row of the matrix. */
  method CheckRange(sets: seq<GeneSet>, nrow: nat) returns (ok: bool)
    ensures ok <==> InRange(sets, nrow)
  {
    var t := 0;
    while t < |sets|
      invariant 0 <= t <= |sets| && forall u :: 0 <= u < t ==> GenesWithin(sets[u].genes, nrow)
    {
      var genes := sets[t].genes;
      var g := 0;
      while g < |genes|
        invariant 0 <= g <= |genes| && forall h :: 0 <= h < g ==> 0 <= genes[h] < nrow
      {
        if genes[g] < 0 || genes[g] >= nrow {
          return false;
        }
        g := g + 1;
      }
      t := t + 1;
    }
    return true;
  }

  /**
   * The position of each subset gene, in a vector that spans up to the
   * largest subset gene; the offset is always zero, so genes index the
   * vector directly. Positions of genes outside the subset stay zero.
   */
  method CreateSubsetMapping(subset: seq<int>) returns (mapping: seq<nat>)
    requires |subset| > 0 && Increasing(subset) && subset[0] >= 0
    ensures |mapping| == subset[|subset| - 1] + 1
    ensures Inverts(mapping, subset)
    ensures forall p :: 0 <= p < |mapping| && p !in subset ==> mapping[p] == 0
  {
    var span := subset[|subset| - 1] + 1;
    mapping := seq(span, _ => 0);
    var i := 0;
    while i < |subset|
      invariant 0 <= i <= |subset| && |mapping| == span
      invariant forall j :: 0 <= j < i ==> 0 <= subset[j] < span && mapping[subset[j]] == j
      invariant forall p :: 0 <= p < span && p !in subset[..i] ==> mapping[p] == 0
    {
      assert subset[0] <= subset[i] <= subset[|subset| - 1];
      mapping := mapping[subset[i] := i];
      assert forall p :: p !in subset[..i + 1] ==> p !in subset[..i] && p != subset[i] by {
        assert subset[..i + 1] == subset[..i] + [subset[i]];
      }
      i := i + 1;
    }
    assert subset[..i] == subset;
  }

  /** Each set's genes as positions in the subset: `remapping[t][g]` is where gene `g` of set `t` sits. */
  predicate Remapped(sets: seq<GeneSet>, subset: seq<int>, remapping: seq<seq<nat>>)
  {
    && |remapping| == |sets|
    && forall t :: 0 <= t < |sets| ==>
      && |remapping[t]| == |sets[t].genes|
      && forall g :: 0 <= g < |sets[t].genes| ==> remapping[t][g] < |subset| && subset[remapping[t][g]] == sets[t].genes[g]
  }

  /**
   * One set's value in a cell, read through the set's remapped positions
   * from the cell's values at the subset genes: a weighted or a plain sum.
   */
  method SetValueFromSubset(vals: seq<real>, remapped: seq<nat>, gs: GeneSet, ghost col: seq<int>) returns (value: real)
    requires WellFormed(gs) && GenesWithin(gs.genes, |col|) && |remapped| == |gs.genes|
    requires forall g :: 0 <= g < |remapped| ==> remapped[g] < |vals| && vals[remapped[g]] == col[gs.genes[g]] as real
    ensures value == SetValue(gs, col)
  {
    value := 0.0;
    var g := 0;
    match gs.weights {
      case Weighted(w) =>
        while g < |remapped|
          invariant 0 <= g <= |remapped| && value == PartialSetValue(gs, col, g)
        {
          value := value + vals[remapped[g]] * w[g];
          g := g + 1;
        }
      case Unweighted =>
        while g < |remapped|
          invariant 0 <= g <= |remapped| && value == PartialSetValue(gs, col, g)
        {
          value := value + vals[remapped[g]];
          g := g + 1;
        }
    }
  }

  /**
   * One cell of the column path: its values at the subset genes are
   * fetched, and every set's value is computed from them and stored at the
   * cell's position.
   */
  method StoreCell(m: Matrix, sets: seq<GeneSet>, subset: seq<int>, remapping: seq<seq<nat>>,
                   buf: seq<seq<real>>, x: nat)
    returns (out: seq<seq<real>>)
    requires m.Valid() && AllWellFormed(sets) && InRange(sets, m.nrow) && GenesWithin(subset, m.nrow)
    requires Remapped(sets, subset, remapping)
    requires Shaped(buf, |sets|, m.ncol) && x < m.ncol
    ensures Shaped(out, |sets|, m.ncol)
    ensures forall t :: 0 <= t < |sets| ==> out[t][x] == SetValue(sets[t], Column(m, x))
    ensures forall t, c :: 0 <= t < |sets| && 0 <= c < m.ncol && c != x ==> out[t][c] == buf[t][c]
  {
    var col := Dense(ColumnVec(m, x), m.nrow);
    var vals := SubsetValues(col, subset);
    out := buf;
    var t := 0;
    while t < |sets|
      invariant 0 <= t <= |sets| && Shaped(out, |sets|, m.ncol)
      invariant forall u :: 0 <= u < t ==> out[u][x] == SetValue(sets[u], col)
      invariant forall u, c :: 0 <= u < |sets| && 0 <= c < m.ncol && (c != x || t <= u) ==> out[u][c] == buf[u][c]
    {
      var value := SetValueFromSubset(vals, remapping[t], sets[t], col);
      out := out[t := out[t][x := value]];
      t := t + 1;
    }
  }

  /**
   * The column path over the cells `[s, s + l)`: each cell's values at the
   * subset genes are fetched, and every set's value is computed from them
   * and stored at that cell's position.
   */
  method ByColumnChunk(m: Matrix, sets: seq<GeneSet>, subset: seq<int>, remapping: seq<seq<nat>>,
                       buf: seq<seq<real>>, s: nat, l: nat)
    returns (out: seq<seq<real>>)
    requires m.Valid() && AllWellFormed(sets) && InRange(sets, m.nrow) && GenesWithin(subset, m.nrow)
    requires Remapped(sets, subset, remapping)
    requires Shaped(buf, |sets|, m.ncol) && s + l <= m.ncol
    ensures Shaped(out, |sets|, m.ncol)
    ensures forall t, c :: 0 <= t < |sets| && s <= c < s + l ==> out[t][c] == SetValue(sets[t], Column(m, c))
    ensures forall t, c :: 0 <= t < |sets| && 0 <= c < m.ncol && (c < s || s + l <= c) ==> out[t][c] == buf[t][c]
  {
    out := buf;
    var x := s;
    while x < s + l
      invariant s <= x <= s + l && Shaped(out, |sets|, m.ncol)
      invariant forall t, c :: 0 <= t < |sets| && s <= c < x ==> out[t][c] == SetValue(sets[t], Column(m, c))
      invariant forall t, c :: 0 <= t < |sets| && 0 <= c < m.ncol && (c < s || x <= c) ==> out[t][c] == buf[t][c]
    {
      out := StoreCell(m, sets, subset, remapping, out, x);
      x := x + 1;
    }
  }

  /**
   * The rows to extract and their positions: the universe of the sets'
   * genes, sorted, and its mapping when it is not empty.
   */
  method SubsetAndMapping(sets: seq<GeneSet>, nrow: nat) returns (subset: seq<int>, mapping: seq<nat>)
    requires InRange(sets, nrow)
    ensures subset == Universe(sets) && GenesWithin(subset, nrow) && Inverts(mapping, subset)
    ensures forall t, g :: 0 <= t < |sets| && 0 <= g < |sets[t].genes| ==> sets[t].genes[g] in subset
  {
    subset := Universe(sets);
    UniverseWithin(sets, nrow);
    MembersInUniverse(sets);
    mapping := [];
    if |subset| > 0 {
      mapping := CreateSubsetMapping(subset);
    }
  }

  /** The remapping loop: every set's genes replaced by their subset positions. */
  method RemapSets(sets: seq<GeneSet>, subset: seq<int>, mapping: seq<nat>) returns (remapping: seq<seq<nat>>)
    requires Inverts(mapping, subset)
    requires forall t, g :: 0 <= t < |sets| && 0 <= g < |sets[t].genes| ==> sets[t].genes[g] in subset
    ensures Remapped(sets, subset, remapping)
  {
    remapping := [];
    var t := 0;
    while t < |sets|
      invariant 0 <= t <= |sets| && |remapping| == t
      invariant forall u :: 0 <= u < t ==> remapping[u] == Remap(mapping, subset, sets[u].genes)
    {
      remapping := remapping + [Remap(mapping, subset, sets[t].genes)];
      t := t + 1;
    }
  }

  /** The column path over a partition of the cells, after building the subset and remapping every set. */
  method ByColumn(m: Matrix, sets: seq<GeneSet>, buf: seq<seq<real>>, bounds: seq<nat>) returns (out: seq<seq<real>>)
    requires m.Valid() && AllWellFormed(sets) && InRange(sets, m.nrow)
    requires Shaped(buf, |sets|, m.ncol) && IsPartition(bounds, m.ncol)
    ensures out == Expected(m, sets)
  {
    var subset, mapping := SubsetAndMapping(sets, m.nrow);
    var remapping := RemapSets(sets, subset, mapping);
    out := buf;
    var k := 0;
    while k < |bounds| - 1
      invariant 0 <= k <= |bounds| - 1 && Shaped(out, |sets|, m.ncol)
      invariant forall t, c :: 0 <= t < |sets| && 0 <= c < bounds[k] ==> out[t][c] == SetValue(sets[t], Column(m, c))
      invariant forall t, c :: 0 <= t < |sets| && bounds[k] <= c < m.ncol ==> out[t][c] == buf[t][c]
    {
      assert bounds[k] <= bounds[k + 1] <= bounds[|bounds| - 1];
      out := ByColumnChunk(m, sets, subset, remapping, out, bounds[k], bounds[k + 1] - bounds[k]);
      k := k + 1;
    }
    SameBuffers(out, Expected(m, sets), |sets|, m.ncol);
  }

  lemma SameBuffers(a: seq<seq<real>>, b: seq<seq<real>>, nsets: nat, len: nat)
    requires Shaped(a, nsets, len) && Shaped(b, nsets, len)
    requires forall t, c :: 0 <= t < nsets && 0 <= c < len ==> a[t][c] == b[t][c]
    ensures a == b
  {
    forall t | 0 <= t < nsets
      ensures a[t] == b[t]
    {
    }
  }

  /**
   * The membership loop: for every set in order and every listed gene in
   * order, the entry (set, weight) is appended to the list of the gene's
   * subset position, the weight being one when the set has no weights.
   */
  method BuildMemberships(sets: seq<GeneSet>, subset: seq<int>, mapping: seq<nat>) returns (mem: seq<seq<Membership>>)
    requires AllWellFormed(sets) && Inverts(mapping, subset)
    requires forall t, g :: 0 <= t < |sets| && 0 <= g < |sets[t].genes| ==> sets[t].genes[g] in subset
    ensures Routed(Occurrences(sets), subset)
    ensures mem == Memberships(Occurrences(sets), mapping, subset)
  {
    mem := seq(|subset|, _ => []);
    var t := 0;
    ListedRouted(sets, subset);
    while t < |sets|
      invariant 0 <= t <= |sets| && Routed(Occurrences(sets[..t]), subset)
      invariant mem == Memberships(Occurrences(sets[..t]), mapping, subset)
    {
      assert sets[..t + 1][..t] == sets[..t];
      ListedRouted(sets[..t + 1], subset);
      assert Occurrences(sets[..t + 1]) == Occurrences(sets[..t]) + SetOccurrences(t, sets[t]);
      mem := AddSetMemberships(mem, Occurrences(sets[..t]), t, sets[t], subset, mapping);
      t := t + 1;
    }
    assert sets[..t] == sets;
  }

  /** The membership loop for one set, `t`, after the occurrences `front` of the sets before it. */
  method AddSetMemberships(mem: seq<seq<Membership>>, ghost front: seq<Occurrence>, t: nat, gs: GeneSet,
                           subset: seq<int>, mapping: seq<nat>)
    returns (out: seq<seq<Membership>>)
    requires WellFormed(gs) && Inverts(mapping, subset)
    requires Routed(front, subset) && Routed(front + SetOccurrences(t, gs), subset)
    requires mem == Memberships(front, mapping, subset)
    ensures out == Memberships(front + SetOccurrences(t, gs), mapping, subset)
  {
    ghost var own := SetOccurrences(t, gs);
    out := mem;
    var g := 0;
    assert front + own[..0] == front;
    while g < |gs.genes|
      invariant 0 <= g <= |gs.genes| && Routed(front + own[..g], subset)
      invariant out == Memberships(front + own[..g], mapping, subset)
    {
      var gene := gs.genes[g];
      var w := if gs.weights.Weighted? then gs.weights.w[g] else 1.0;
      assert own[g] == Occurrence(t, gene, w);
      assert front + own[..g + 1] == (front + own[..g]) + [own[g]];
      assert gene in subset by {
        assert (front + own)[|front| + g] == own[g];
      }
      MembershipsStep(front + own[..g], own[g], mapping, subset);
      out := out[mapping[gene] := out[mapping[gene]] + [Membership(t, w)]];
      g := g + 1;
    }
    assert own[..g] == own;
  }

  /** Genes listed in the subset make every occurrence routed. */
  lemma ListedRouted(sets: seq<GeneSet>, subset: seq<int>)
    requires AllWellFormed(sets)
    requires forall t, g :: 0 <= t < |sets| && 0 <= g < |sets[t].genes| ==> sets[t].genes[g] in subset
    ensures Routed(Occurrences(sets), subset)
  {
    forall j | 0 <= j < |Occurrences(sets)|
      ensures Occurrences(sets)[j].gene in subset
    {
      var g := OccurrenceSource(sets, j);
    }
  }

  /** Adds `val` times each entry's weight to the entry's set, at position `p` of the chunk's buffers. */
  method AddMemberships(local: seq<seq<real>>, ms: seq<Membership>, p: nat, val: real) returns (out: seq<seq<real>>)
    requires forall t :: 0 <= t < |local| ==> p < |local[t]|
    requires forall i :: 0 <= i < |ms| ==> ms[i].owner < |local|
    ensures |out| == |local| && forall t :: 0 <= t < |local| ==> |out[t]| == |local[t]|
    ensures forall t, q :: 0 <= t < |local| && 0 <= q < |local[t]| ==>
      out[t][q] == local[t][q] + (if q == p then EntrySum(ms, t, val) else 0.0)
  {
    out := local;
    var i := 0;
    forall t | 0 <= t < |local|
      ensures EntrySum(ms[..0], t, val) == 0.0
    {
      assert ms[..0] == [];
    }
    while i < |ms|
      invariant 0 <= i <= |ms| && |out| == |local| && forall t :: 0 <= t < |local| ==> |out[t]| == |local[t]|
      invariant forall t, q :: 0 <= t < |local| && 0 <= q < |local[t]| ==>
        out[t][q] == local[t][q] + (if q == p then EntrySum(ms[..i], t, val) else 0.0)
    {
      var e := ms[i];
      assert ms[..i + 1] == ms[..i] + [e];
      forall t | 0 <= t < |local|
        ensures EntrySum(ms[..i + 1], t, val) == EntrySum(ms[..i], t, val) + Share(e.owner, e.weight, t, val)
      {
        EntrySumAppend(ms[..i], e, t, val);
      }
      out := out[e.owner := out[e.owner][p := out[e.owner][p] + val * e.weight]];
      i := i + 1;
    }
    assert ms[..i] == ms;
  }

  /**
   * One subset gene over the cells `[s, s + l)`: its row block is fetched
   * (dense values indexed from zero, or sparse entries with absolute cell
   * indices), and every value is added to each set on the gene's list.
   */
  method AddGeneRow(local: seq<seq<real>>, ms: seq<Membership>, v: Vec, n: nat, s: nat, l: nat) returns (out: seq<seq<real>>)
    requires ValidVec(v, n) && s + l <= n && Shaped(local, |local|, l)
    requires forall i :: 0 <= i < |ms| ==> ms[i].owner < |local|
    ensures Shaped(out, |local|, l)
    ensures forall t, p :: 0 <= t < |local| && 0 <= p < l ==>
      out[t][p] == local[t][p] + EntrySum(ms, t, Dense(v, n)[s + p] as real)
  {
    var b := Block(v, n, s, l);
    if b.DenseVec? {
      out := AddDenseBlock(local, ms, b.values);
      forall t, p | 0 <= t < |local| && 0 <= p < l
        ensures out[t][p] == local[t][p] + EntrySum(ms, t, Dense(v, n)[s + p] as real)
      {
        BlockValues(v, n, s, l, p);
      }
    } else {
      out := AddSparseBlock(local, ms, b.entries, n, s, l);
      forall t, p | 0 <= t < |local| && 0 <= p < l
        ensures out[t][p] == local[t][p] + EntrySum(ms, t, Dense(v, n)[s + p] as real)
      {
        BlockValues(v, n, s, l, p);
      }
    }
  }

  /** A dense block: the value at block position `p` goes to cell position `p` of the chunk. */
  method AddDenseBlock(local: seq<seq<real>>, ms: seq<Membership>, vals: seq<int>) returns (out: seq<seq<real>>)
    requires Shaped(local, |local|, |vals|)
    requires forall i :: 0 <= i < |ms| ==> ms[i].owner < |local|
    ensures Shaped(out, |local|, |vals|)
    ensures forall t, p :: 0 <= t < |local| && 0 <= p < |vals| ==>
      out[t][p] == local[t][p] + EntrySum(ms, t, vals[p] as real)
  {
    out := local;
    var i := 0;
    while i < |vals|
      invariant 0 <= i <= |vals| && Shaped(out, |local|, |vals|)
      invariant forall t, p :: 0 <= t < |local| && 0 <= p < i ==> out[t][p] == local[t][p] + EntrySum(ms, t, vals[p] as real)
      invariant forall t, p :: 0 <= t < |local| && i <= p < |vals| ==> out[t][p] == local[t][p]
    {
      out := AddMemberships(out, ms, i, vals[i] as real);
      i := i + 1;
    }
  }

  /**
   * A sparse block: only the listed cells receive anything, each at its
   * absolute index less the chunk start. The unlisted cells are zeros,
   * which add nothing.
   */
  method AddSparseBlock(local: seq<seq<real>>, ms: seq<Membership>, e: seq<Entry>, n: nat, s: nat, l: nat)
    returns (out: seq<seq<real>>)
    requires DistinctIndices(e) && IndicesWithin(e, s, s + l) && s + l <= n && Shaped(local, |local|, l)
    requires forall i :: 0 <= i < |ms| ==> ms[i].owner < |local|
    ensures IndicesWithin(e, 0, n)
    ensures Shaped(out, |local|, l)
    ensures forall t, p :: 0 <= t < |local| && 0 <= p < l ==>
      out[t][p] == local[t][p] + EntrySum(ms, t, Densify(e, n)[s + p] as real)
  {
    out := local;
    var j := 0;
    assert Densify(e[..0], n) == Zeros(n);
    forall t | 0 <= t < |local|
      ensures EntrySum(ms, t, 0.0) == 0.0
    {
      EntrySumZero(ms, t);
    }
    while j < |e|
      invariant 0 <= j <= |e| && Shaped(out, |local|, l)
      invariant forall t, p :: 0 <= t < |local| && 0 <= p < l ==>
        out[t][p] == local[t][p] + EntrySum(ms, t, Densify(e[..j], n)[s + p] as real)
    {
      var idx := e[j].index;
      assert e[..j + 1][..j] == e[..j];
      assert !Listed(e[..j], idx);
      DensifyUnlisted(e[..j], n, idx);
      out := AddMemberships(out, ms, idx - s, e[j].value as real);
      j := j + 1;
    }
    assert e[..j] == e;
  }

  /**
   * The row path over the cells `[s, s + l)`: private zeroed buffers of
   * length `l` per set; the subset genes are taken one at a time and each
   * one's values are added to the sets on its membership list; the private
   * buffers are then written back to the chunk's positions.
   */
  method ByRowChunk(m: Matrix, sets: seq<GeneSet>, mapping: seq<nat>, mem: seq<seq<Membership>>,
                    buf: seq<seq<real>>, s: nat, l: nat)
    returns (out: seq<seq<real>>)
    requires m.Valid() && AllWellFormed(sets) && InRange(sets, m.nrow)
    requires Inverts(mapping, Universe(sets)) && Routed(Occurrences(sets), Universe(sets))
    requires mem == Memberships(Occurrences(sets), mapping, Universe(sets))
    requires Shaped(buf, |sets|, m.ncol) && s + l <= m.ncol
    ensures Shaped(out, |sets|, m.ncol)
    ensures forall t, c :: 0 <= t < |sets| && s <= c < s + l ==> out[t][c] == SetValue(sets[t], Column(m, c))
    ensures forall t, c :: 0 <= t < |sets| && 0 <= c < m.ncol && (c < s || s + l <= c) ==> out[t][c] == buf[t][c]
  {
    var subset := Universe(sets);
    UniverseWithin(sets, m.nrow);
    MembershipsBelow(Occurrences(sets), mapping, subset, |sets|);
    var local: seq<seq<real>> := seq(|sets|, _ => seq(l, _ => 0.0));
    var k := 0;
    while k < |subset|
      invariant 0 <= k <= |subset| && Shaped(local, |sets|, l)
      invariant forall t, p :: 0 <= t < |sets| && 0 <= p < l ==>
        local[t][p] == GeneMajor(mem[..k], t, SubsetValues(Column(m, s + p), subset)[..k])
    {
      local := AddSubsetGene(m, subset, mem, local, |sets|, k, s, l);
      k := k + 1;
    }
    forall t, p | 0 <= t < |sets| && 0 <= p < l
      ensures local[t][p] == SetValue(sets[t], Column(m, s + p))
    {
      var x := SubsetValues(Column(m, s + p), subset);
      assert mem[..k] == mem && x[..k] == x;
      GeneMajorIsSetValue(sets, mapping, t, Column(m, s + p));
    }
    out := WriteBack(buf, local, s, l, m.ncol);
    forall t, c | 0 <= t < |sets| && s <= c < s + l
      ensures out[t][c] == SetValue(sets[t], Column(m, c))
    {
      assert out[t][s + (c - s)] == local[t][c - s];
    }
  }

  /**
   * One subset gene of the row path: adding its row block to the sets on
   * its list turns the gene-major totals over the first `k` subset genes
   * into the totals over the first `k + 1`.
   */
  method AddSubsetGene(m: Matrix, subset: seq<int>, mem: seq<seq<Membership>>, local: seq<seq<real>>,
                       nsets: nat, k: nat, s: nat, l: nat)
    returns (out: seq<seq<real>>)
    requires m.Valid() && GenesWithin(subset, m.nrow) && |mem| == |subset| && k < |subset|
    requires forall i :: 0 <= i < |mem[k]| ==> mem[k][i].owner < nsets
    requires Shaped(local, nsets, l) && s + l <= m.ncol
    requires forall t, p :: 0 <= t < nsets && 0 <= p < l ==>
      local[t][p] == GeneMajor(mem[..k], t, SubsetValues(Column(m, s + p), subset)[..k])
    ensures Shaped(out, nsets, l)
    ensures forall t, p :: 0 <= t < nsets && 0 <= p < l ==>
      out[t][p] == GeneMajor(mem[..k + 1], t, SubsetValues(Column(m, s + p), subset)[..k + 1])
  {
    var row := RowVec(m, subset[k]);
    out := AddGeneRow(local, mem[k], row, m.ncol, s, l);
    forall t, p | 0 <= t < nsets && 0 <= p < l
      ensures out[t][p] == GeneMajor(mem[..k + 1], t, SubsetValues(Column(m, s + p), subset)[..k + 1])
    {
      var x := SubsetValues(Column(m, s + p), subset);
      GeneMajorStep(mem, t, x, k);
      assert x[k] == Dense(row, m.ncol)[s + p] as real;
    }
  }

  /** A chunk's private buffers written back: position `s + p` of set `t` receives `local[t][p]`, nothing else changes. */
  method WriteBack(buf: seq<seq<real>>, local: seq<seq<real>>, s: nat, l: nat, ncol: nat) returns (out: seq<seq<real>>)
    requires Shaped(buf, |buf|, ncol) && Shaped(local, |buf|, l) && s + l <= ncol
    ensures Shaped(out, |buf|, ncol)
    ensures forall t, p :: 0 <= t < |buf| && 0 <= p < l ==> out[t][s + p] == local[t][p]
    ensures forall t, c :: 0 <= t < |buf| && 0 <= c < ncol && (c < s || s + l <= c) ==> out[t][c] == buf[t][c]
  {
    out := buf;
    var p := 0;
    while p < l
      invariant 0 <= p <= l && Shaped(out, |buf|, ncol)
      invariant forall t, q :: 0 <= t < |buf| && 0 <= q < p ==> out[t][s + q] == local[t][q]
      invariant forall t, c :: 0 <= t < |buf| && 0 <= c < ncol && (c < s || s + p <= c) ==> out[t][c] == buf[t][c]
    {
      var t := 0;
      while t < |buf|
        invariant 0 <= t <= |buf| && Shaped(out, |buf|, ncol)
        invariant forall u, q :: 0 <= u < |buf| && 0 <= q < p ==> out[u][s + q] == local[u][q]
        invariant forall u :: 0 <= u < t ==> out[u][s + p] == local[u][p]
        invariant forall u, c :: 0 <= u < |buf| && 0 <= c < ncol && (c < s || s + p < c || (c == s + p && t <= u)) ==> out[u][c] == buf[u][c]
      {
        out := out[t := out[t][s + p := local[t][p]]];
        t := t + 1;
      }
      p := p + 1;
    }
  }

  /** The row path over a partition of the cells, after building the subset and the membership lists. */
  method ByRow(m: Matrix, sets: seq<GeneSet>, buf: seq<seq<real>>, bounds: seq<nat>) returns (out: seq<seq<real>>)
    requires m.Valid() && AllWellFormed(sets) && InRange(sets, m.nrow)
    requires Shaped(buf, |sets|, m.ncol) && IsPartition(bounds, m.ncol)
    ensures out == Expected(m, sets)
  {
    var subset, mapping := SubsetAndMapping(sets, m.nrow);
    var mem := BuildMemberships(sets, subset, mapping);
    out := buf;
    var k := 0;
    while k < |bounds| - 1
      invariant 0 <= k <= |bounds| - 1 && Shaped(out, |sets|, m.ncol)
      invariant forall t, c :: 0 <= t < |sets| && 0 <= c < bounds[k] ==> out[t][c] == SetValue(sets[t], Column(m, c))
      invariant forall t, c :: 0 <= t < |sets| && bounds[k] <= c < m.ncol ==> out[t][c] == buf[t][c]
    {
      assert bounds[k] <= bounds[k + 1] <= bounds[|bounds| - 1];
      out := ByRowChunk(m, sets, mapping, mem, out, bounds[k], bounds[k + 1] - bounds[k]);
      k := k + 1;
    }
    SameBuffers(out, Expected(m, sets), |sets|, m.ncol);
  }

  /**
   * The entry point: fails with the out-of-range error when any gene is
   * not a row of the matrix; otherwise allocates a zeroed vector per set,
   * fills it by the row path for row-preferring matrices and by the column
   * path otherwise, and, when averaging, divides each set's vector by the
   * set's size (unweighted) or the sum of its weights (weighted). No gene
   * sets give no vectors.
   */
  method Aggregate(m: Matrix, sets: seq<GeneSet>, average: bool, bounds: seq<nat>) returns (r: Outcome)
    requires m.Valid() && AllWellFormed(sets) && IsPartition(bounds, m.ncol)
    ensures r.OutOfRange? <==> !InRange(sets, m.nrow)
    ensures r.Sums? ==> Shaped(r.sums, |sets|, m.ncol)
    ensures r.Sums? ==> InRange(sets, m.nrow) && forall t, c :: 0 <= t < |sets| && 0 <= c < m.ncol ==>
      r.sums[t][c] == Averaged(sets[t], SetValue(sets[t], Column(m, c)), average)
  {
    var ok := CheckRange(sets, m.nrow);
    if !ok {
      return OutOfRange;
    }
    var zeros: seq<seq<real>> := seq(|sets|, _ => seq(m.ncol, _ => 0.0));
    var path := if m.preferRows then RowPath else ColumnPath;
    var sums;
    match path {
      case RowPath => sums := ByRow(m, sets, zeros, bounds);
      case ColumnPath => sums := ByColumn(m, sets, zeros, bounds);
    }
    if average {
      sums := seq(|sets|, t requires 0 <= t < |sets| =>
        seq(m.ncol, c requires 0 <= c < m.ncol => Averaged(sets[t], sums[t][c], true)));
    }
    r := Sums(sums);
  }
}

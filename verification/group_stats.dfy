/**
 * What aggregation across cells computes for one feature: per group, the
 * sum of the feature's values and the number of cells where it is detected
 * (strictly positive). Both statistics are totals of a per-value
 * contribution over the cells of a group, so they share one definition.
 */
module GroupStats {
  import opened Matrices

  /** The two per-group statistics. */
  datatype Statistic = Sum | Detected

  /** What one cell's value adds to its group's statistic. */
  function Contribution(stat: Statistic, v: int): (r: int)
    ensures v == 0 ==> r == 0
  {
    match stat
    case Sum => v
    case Detected => if v > 0 then 1 else 0
  }

  /** Every cell's group index is below `G`. */
  predicate FactorFits(factor: seq<nat>, G: nat)
  {
    forall c :: 0 <= c < |factor| ==> factor[c] < G
  }

  /**
   * The statistic of group `g` over one feature: the total of
   * `Contribution(stat, row[c])` over the cells `c` with `factor[c] == g`.
   */
  function GroupTotal(stat: Statistic, row: seq<int>, factor: seq<nat>, g: nat): int
    requires |row| == |factor|
    decreases |row|
  {
    if |row| == 0 then 0
    else
      var n := |row| - 1;
      GroupTotal(stat, row[..n], factor[..n], g) + (if factor[n] == g then Contribution(stat, row[n]) else 0)
  }

  /** The sum of a feature's values over the cells of group `g`. */
  function GroupSum(row: seq<int>, factor: seq<nat>, g: nat): int
    requires |row| == |factor|
  {
    GroupTotal(Sum, row, factor, g)
  }

  /** The number of cells of group `g` where the feature is strictly positive. */
  function GroupDetected(row: seq<int>, factor: seq<nat>, g: nat): int
    requires |row| == |factor|
  {
    GroupTotal(Detected, row, factor, g)
  }

  /** Extending the prefix by one cell adds that cell's contribution to its own group only. */
  lemma GroupTotalStep(stat: Statistic, row: seq<int>, factor: seq<nat>, g: nat, j: nat)
    requires |row| == |factor| && j < |row|
    ensures GroupTotal(stat, row[..j + 1], factor[..j + 1], g)
         == GroupTotal(stat, row[..j], factor[..j], g) + (if factor[j] == g then Contribution(stat, row[j]) else 0)
  {
    assert row[..j + 1][..j] == row[..j];
    assert factor[..j + 1][..j] == factor[..j];
  }

  /** The statistic over an all-zero feature is zero. */
  lemma {:induction false} GroupTotalZeros(stat: Statistic, n: nat, factor: seq<nat>, g: nat)
    requires |factor| == n
    ensures GroupTotal(stat, Zeros(n), factor, g) == 0
    decreases n
  {
    if n > 0 {
      assert Zeros(n)[..n - 1] == Zeros(n - 1);
      GroupTotalZeros(stat, n - 1, factor[..n - 1], g);
    }
  }

  /** Changing one cell's value changes only its group's statistic, by the difference of contributions. */
  lemma {:induction false} GroupTotalUpdate(stat: Statistic, row: seq<int>, factor: seq<nat>, g: nat, p: nat, v: int)
    requires |row| == |factor| && p < |row|
    ensures GroupTotal(stat, row[p := v], factor, g)
         == GroupTotal(stat, row, factor, g)
            + (if factor[p] == g then Contribution(stat, v) - Contribution(stat, row[p]) else 0)
    decreases |row|
  {
    var n := |row| - 1;
    if p < n {
      assert row[p := v][..n] == row[..n][p := v];
      GroupTotalUpdate(stat, row[..n], factor[..n], g, p, v);
    } else {
      assert row[p := v][..n] == row[..n];
    }
  }

  /**
   * The statistic of group `g` computed from sparse entries alone: the
   * total of the contributions of the listed values whose cells are in `g`.
   */
  function SparseGroupTotal(stat: Statistic, e: seq<Entry>, factor: seq<nat>, g: nat): int
    requires IndicesWithin(e, 0, |factor|)
    decreases |e|
  {
    if |e| == 0 then 0
    else
      var last := e[|e| - 1];
      SparseGroupTotal(stat, e[..|e| - 1], factor, g) + (if factor[last.index] == g then Contribution(stat, last.value) else 0)
  }

  /**
   * Visiting only the stored entries gives the same statistic as visiting
   * every cell of the dense vector they stand for: unlisted cells hold zero
   * and zero contributes nothing to either statistic.
   */
  lemma {:induction false} SparseGroupTotalIsDense(stat: Statistic, e: seq<Entry>, factor: seq<nat>, g: nat)
    requires DistinctIndices(e) && IndicesWithin(e, 0, |factor|)
    ensures SparseGroupTotal(stat, e, factor, g) == GroupTotal(stat, Densify(e, |factor|), factor, g)
    decreases |e|
  {
    var n := |factor|;
    if |e| == 0 {
      GroupTotalZeros(stat, n, factor, g);
    } else {
      var init := e[..|e| - 1];
      var last := e[|e| - 1];
      SparseGroupTotalIsDense(stat, init, factor, g);
      DensifyUnlisted(init, n, last.index);
      GroupTotalUpdate(stat, Densify(init, n), factor, g, last.index, last.value);
    }
  }

  /** The cells of group `g` where the feature is strictly positive. */
  function DetectedCells(row: seq<int>, factor: seq<nat>, g: nat): set<nat>
    requires |row| == |factor|
  {
    set c: nat | c < |row| && factor[c] == g && row[c] > 0
  }

  /**
   * The detected count is exactly the number of cells of the group with a
   * strictly positive value: zero and negative values never count.
   */
  lemma {:induction false} GroupDetectedCountsPositive(row: seq<int>, factor: seq<nat>, g: nat)
    requires |row| == |factor|
    ensures GroupDetected(row, factor, g) == |DetectedCells(row, factor, g)|
    decreases |row|
  {
    if |row| > 0 {
      var n := |row| - 1;
      GroupDetectedCountsPositive(row[..n], factor[..n], g);
      var before := DetectedCells(row[..n], factor[..n], g);
      if factor[n] == g && row[n] > 0 {
        assert DetectedCells(row, factor, g) == before + {n};
      } else {
        assert DetectedCells(row, factor, g) == before;
      }
    }
  }

  /** The total contribution of every cell of a feature, regardless of group. */
  function RowTotal(stat: Statistic, row: seq<int>): int
    decreases |row|
  {
    if |row| == 0 then 0 else RowTotal(stat, row[..|row| - 1]) + Contribution(stat, row[|row| - 1])
  }

  /** The statistics of groups `0 .. G-1` added together. */
  function SumOverGroups(stat: Statistic, row: seq<int>, factor: seq<nat>, G: nat): int
    requires |row| == |factor|
    decreases G
  {
    if G == 0 then 0 else SumOverGroups(stat, row, factor, G - 1) + GroupTotal(stat, row, factor, G - 1)
  }

  /** The indicator sum over groups `0 .. G-1` of "`f` is group `g`", times `x`. */
  function PickGroup(f: nat, x: int, G: nat): int
    decreases G
  {
    if G == 0 then 0 else PickGroup(f, x, G - 1) + (if f == G - 1 then x else 0)
  }

  lemma {:induction false} PickGroupSelects(f: nat, x: int, G: nat)
    ensures PickGroup(f, x, G) == if f < G then x else 0
    decreases G
  {
    if G > 0 {
      PickGroupSelects(f, x, G - 1);
    }
  }

  /** Adding one cell to the row adds its contribution to the group total sum once. */
  lemma {:induction false} SumOverGroupsStep(stat: Statistic, row: seq<int>, factor: seq<nat>, G: nat)
    requires |row| == |factor| && |row| > 0
    ensures SumOverGroups(stat, row, factor, G)
         == SumOverGroups(stat, row[..|row| - 1], factor[..|row| - 1], G)
            + PickGroup(factor[|row| - 1], Contribution(stat, row[|row| - 1]), G)
    decreases G
  {
    if G > 0 {
      SumOverGroupsStep(stat, row, factor, G - 1);
    }
  }

  /**
   * The groups partition the cells: when every cell's group is below `G`,
   * the statistics of all groups add up to the feature's total.
   */
  lemma {:induction false} GroupsPartitionRow(stat: Statistic, row: seq<int>, factor: seq<nat>, G: nat)
    requires |row| == |factor| && FactorFits(factor, G)
    ensures SumOverGroups(stat, row, factor, G) == RowTotal(stat, row)
    decreases |row|
  {
    if |row| == 0 {
      ZeroLengthGroups(stat, row, factor, G);
    } else {
      var n := |row| - 1;
      SumOverGroupsStep(stat, row, factor, G);
      PickGroupSelects(factor[n], Contribution(stat, row[n]), G);
      GroupsPartitionRow(stat, row[..n], factor[..n], G);
    }
  }

  lemma {:induction false} ZeroLengthGroups(stat: Statistic, row: seq<int>, factor: seq<nat>, G: nat)
    requires |row| == |factor| == 0
    ensures SumOverGroups(stat, row, factor, G) == 0
    decreases G
  {
    if G > 0 {
      ZeroLengthGroups(stat, row, factor, G - 1);
    }
  }

  /**
   * The statistic for every group and feature: `G` vectors of length
   * `nrow`, entry `[g][r]` being group `g`'s statistic over feature `r`.
   */
  function Expected(stat: Statistic, m: Matrix, factor: seq<nat>, G: nat): (e: seq<seq<int>>)
    requires m.Valid() && |factor| == m.ncol
    ensures |e| == G
    ensures forall g :: 0 <= g < G ==> |e[g]| == m.nrow
  {
    seq(G, g requires 0 <= g < G => seq(m.nrow, r requires 0 <= r < m.nrow => GroupTotal(stat, Row(m, r), factor, g)))
  }

  /** The statistics depend only on the matrix's values, not on how it is stored. */
  lemma ExpectedIgnoresStorage(stat: Statistic, m1: Matrix, m2: Matrix, factor: seq<nat>, G: nat)
    requires m1.Valid() && m2.Valid() && |factor| == m1.ncol == m2.ncol
    requires ToDense(m1) == ToDense(m2)
    ensures Expected(stat, m1, factor, G) == Expected(stat, m2, factor, G)
  {
    var e1 := Expected(stat, m1, factor, G);
    var e2 := Expected(stat, m2, factor, G);
    forall g | 0 <= g < G
      ensures e1[g] == e2[g]
    {
      forall r | 0 <= r < m1.nrow
        ensures e1[g][r] == e2[g][r]
      {
        assert ToDense(m1)[r] == ToDense(m2)[r];
      }
    }
  }

  /** Every buffer holds one value per feature. */
  predicate BufferShape(buf: seq<seq<int>>, nrow: nat)
  {
    forall g :: 0 <= g < |buf| ==> |buf[g]| == nrow
  }

  /** Buffers of the same shape that agree everywhere are the same buffers. */
  lemma BuffersEqual(a: seq<seq<int>>, b: seq<seq<int>>, nrow: nat)
    requires |a| == |b| && BufferShape(a, nrow) && BufferShape(b, nrow)
    requires forall g, r :: 0 <= g < |a| && 0 <= r < nrow ==> a[g][r] == b[g][r]
    ensures a == b
  {
    forall g | 0 <= g < |a|
      ensures a[g] == b[g]
    {
      assert forall r :: 0 <= r < nrow ==> a[g][r] == b[g][r];
    }
  }

  /** `G` all-zero buffers of length `nrow`, as the allocating entry points create. */
  function ZeroBuffers(G: nat, nrow: nat): (z: seq<seq<int>>)
    ensures |z| == G && BufferShape(z, nrow)
    ensures forall g, r :: 0 <= g < G && 0 <= r < nrow ==> z[g][r] == 0
  {
    seq(G, _ => Zeros(nrow))
  }

  /** The largest group index of a non-empty factor. */
  function MaxLevel(factor: seq<nat>): (mx: nat)
    requires |factor| > 0
    ensures forall c :: 0 <= c < |factor| ==> factor[c] <= mx
    ensures exists c :: 0 <= c < |factor| && factor[c] == mx
    decreases |factor|
  {
    if |factor| == 1 then factor[0]
    else
      var rest := MaxLevel(factor[1..]);
      assert forall c :: 1 <= c < |factor| ==> factor[c] == factor[1..][c - 1];
      if factor[0] >= rest then factor[0] else rest
  }

  /** The number of levels: one more than the largest group index, or zero without cells. */
  function NumLevels(factor: seq<nat>): (n: nat)
    ensures FactorFits(factor, n)
    ensures |factor| > 0 ==> n > 0 && exists c :: 0 <= c < |factor| && factor[c] == n - 1
    ensures |factor| == 0 ==> n == 0
  {
    if |factor| == 0 then 0 else MaxLevel(factor) + 1
  }
}

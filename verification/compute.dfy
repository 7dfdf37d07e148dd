/**
 * The earlier revision of aggregation across cells. Its row path is the
 * same as the current one; its column path adds every column block straight
 * into the caller's buffers, without private zeroed copies, so on caller
 * buffers it produces their initial contents plus the statistic. Only the
 * allocating entry point, which starts from zeros, yields the statistic
 * itself on both paths.
 */
module Compute {
  import opened Matrices
  import opened GroupStats
  import opened Accumulate
  import AggregateAcrossCells

  /**
   * The column path over the genes `[s, s + l)`: each column's block is
   * added into its group's buffer in place. A dense block is added at
   * offset `s`; a sparse block's entries carry absolute gene indices and
   * are added there unshifted, which reaches the same positions.
   */
  method ByColumnChunk(stat: Statistic, m: Matrix, factor: seq<nat>, buf: seq<seq<int>>, s: nat, l: nat)
    returns (out: seq<seq<int>>)
    requires m.Valid() && |factor| == m.ncol && s + l <= m.nrow && AggregateAcrossCells.Fits(buf, m, factor)
    ensures |out| == |buf| && BufferShape(out, m.nrow)
    ensures forall g, r :: 0 <= g < |buf| && s <= r < s + l ==>
      out[g][r] == buf[g][r] + GroupTotal(stat, Row(m, r), factor, g)
    ensures forall g, r :: 0 <= g < |buf| && 0 <= r < m.nrow && (r < s || s + l <= r) ==> out[g][r] == buf[g][r]
  {
    out := buf;
    var G := |buf|;
    if G == 0 {
      return;
    }
    var x := 0;
    forall g, r | 0 <= g < G && 0 <= r < m.nrow
      ensures GroupTotal(stat, Row(m, r)[..0], factor[..0], g) == 0
    {
    }
    while x < m.ncol
      invariant 0 <= x <= m.ncol && |out| == G && BufferShape(out, m.nrow)
      invariant forall g, r :: 0 <= g < G && s <= r < s + l ==>
        out[g][r] == buf[g][r] + GroupTotal(stat, Row(m, r)[..x], factor[..x], g)
      invariant forall g, r :: 0 <= g < G && 0 <= r < m.nrow && (r < s || s + l <= r) ==> out[g][r] == buf[g][r]
    {
      var cur := factor[x];
      var updated := AddColumnBlock(stat, m, out[cur], x, s, l);
      out := out[cur := updated];
      forall g, r | 0 <= g < G && 0 <= r < m.nrow && s <= r < s + l
        ensures GroupTotal(stat, Row(m, r)[..x + 1], factor[..x + 1], g)
             == GroupTotal(stat, Row(m, r)[..x], factor[..x], g) + (if factor[x] == g then Contribution(stat, Row(m, r)[x]) else 0)
      {
        GroupTotalStep(stat, Row(m, r), factor, g, x);
      }
      x := x + 1;
    }
    forall r | 0 <= r < m.nrow
      ensures Row(m, r)[..x] == Row(m, r)
    {
    }
    assert factor[..x] == factor;
  }

  /**
   * Adds column `x`'s block `[s, s + l)` into one group's buffer in place:
   * a dense block at offset `s`, a sparse block at its entries' absolute
   * indices. Either way exactly the block's positions change.
   */
  method AddColumnBlock(stat: Statistic, m: Matrix, target: seq<int>, x: nat, s: nat, l: nat) returns (updated: seq<int>)
    requires m.Valid() && x < m.ncol && s + l <= m.nrow && |target| == m.nrow
    ensures |updated| == m.nrow
    ensures forall r :: s <= r < s + l ==> updated[r] == target[r] + Contribution(stat, Value(m, r, x))
    ensures forall r :: 0 <= r < m.nrow && (r < s || s + l <= r) ==> updated[r] == target[r]
  {
    var col := ColumnVec(m, x);
    updated := AddVecBlock(stat, target, col, m.nrow, s, l);
    assert forall r :: 0 <= r < m.nrow ==> Dense(col, m.nrow)[r] == Value(m, r, x);
  }

  /** Adds block `[s, s + l)` of one vector into a buffer: the block's positions gain their contributions, the rest stay. */
  method AddVecBlock(stat: Statistic, target: seq<int>, col: Vec, n: nat, s: nat, l: nat) returns (updated: seq<int>)
    requires ValidVec(col, n) && s + l <= n && |target| == n
    ensures |updated| == n
    ensures forall r :: s <= r < s + l ==> updated[r] == target[r] + Contribution(stat, Dense(col, n)[r])
    ensures forall r :: 0 <= r < n && (r < s || s + l <= r) ==> updated[r] == target[r]
  {
    var v := Block(col, n, s, l);
    match v {
      case DenseVec(vals) =>
        updated := AddDenseVecBlock(stat, target, col, n, s, l, vals);
      case SparseVec(e) =>
        updated := AddSparseVecBlock(stat, target, col, n, s, l, e);
    }
  }

  /** The dense case of `AddVecBlock`: the block's values are added from offset `s`. */
  method AddDenseVecBlock(stat: Statistic, target: seq<int>, col: Vec, n: nat, s: nat, l: nat, vals: seq<int>)
    returns (updated: seq<int>)
    requires ValidVec(col, n) && s + l <= n && |target| == n && Block(col, n, s, l) == DenseVec(vals)
    ensures |updated| == n
    ensures forall r :: s <= r < s + l ==> updated[r] == target[r] + Contribution(stat, Dense(col, n)[r])
    ensures forall r :: 0 <= r < n && (r < s || s + l <= r) ==> updated[r] == target[r]
  {
    updated := AddDense(stat, target, vals, s);
    forall r | s <= r < s + l
      ensures updated[r] == target[r] + Contribution(stat, Dense(col, n)[r])
    {
      BlockValues(col, n, s, l, r - s);
    }
  }

  /** The sparse case of `AddVecBlock`: the block's entries are added at their absolute indices. */
  method AddSparseVecBlock(stat: Statistic, target: seq<int>, col: Vec, n: nat, s: nat, l: nat, e: seq<Entry>)
    returns (updated: seq<int>)
    requires ValidVec(col, n) && s + l <= n && |target| == n && Block(col, n, s, l) == SparseVec(e)
    ensures |updated| == n
    ensures forall r :: s <= r < s + l ==> updated[r] == target[r] + Contribution(stat, Dense(col, n)[r])
    ensures forall r :: 0 <= r < n && (r < s || s + l <= r) ==> updated[r] == target[r]
  {
    updated := AddSparse(stat, target, e, 0, n);
    SparseBlockAdded(stat, target, updated, col, n, s, l, e);
  }

  /**
   * Adding a sparse block densified over the whole vector changes exactly
   * the block's positions, each by the contribution of the vector's value.
   */
  lemma SparseBlockAdded(stat: Statistic, target: seq<int>, updated: seq<int>, col: Vec, n: nat, s: nat, l: nat, e: seq<Entry>)
    requires ValidVec(col, n) && s + l <= n && Block(col, n, s, l) == SparseVec(e)
    requires IndicesWithin(e, 0, n) && |target| == n && |updated| == n
    requires forall p :: 0 <= p < n ==> updated[p] == target[p] + Contribution(stat, Densify(e, n)[0 + p])
    ensures forall r :: s <= r < s + l ==> updated[r] == target[r] + Contribution(stat, Dense(col, n)[r])
    ensures forall r :: 0 <= r < n && (r < s || s + l <= r) ==> updated[r] == target[r]
  {
    forall r | s <= r < s + l
      ensures updated[r] == target[r] + Contribution(stat, Dense(col, n)[r])
    {
      BlockValues(col, n, s, l, r - s);
      assert updated[r] == target[r] + Contribution(stat, Densify(e, n)[0 + r]);
    }
    forall r | 0 <= r < n && (r < s || s + l <= r)
      ensures updated[r] == target[r]
    {
      SparseBlockOutside(col, n, s, l, r);
      assert updated[r] == target[r] + Contribution(stat, Densify(e, n)[0 + r]);
    }
  }

  /** The row path, identical to the current revision's: the statistic overwrites the buffers. */
  method ByRow(stat: Statistic, m: Matrix, factor: seq<nat>, buf: seq<seq<int>>, bounds: seq<nat>)
    returns (out: seq<seq<int>>)
    requires m.Valid() && |factor| == m.ncol && AggregateAcrossCells.Fits(buf, m, factor) && IsPartition(bounds, m.nrow)
    ensures out == Expected(stat, m, factor, |buf|)
  {
    out := AggregateAcrossCells.OverChunks(AggregateAcrossCells.RowPath, stat, m, factor, buf, bounds);
  }

  /** The column path over every chunk of the partition: the statistic is added onto the buffers' initial contents. */
  method ByColumn(stat: Statistic, m: Matrix, factor: seq<nat>, buf: seq<seq<int>>, bounds: seq<nat>)
    returns (out: seq<seq<int>>)
    requires m.Valid() && |factor| == m.ncol && AggregateAcrossCells.Fits(buf, m, factor) && IsPartition(bounds, m.nrow)
    ensures |out| == |buf| && BufferShape(out, m.nrow)
    ensures forall g, r :: 0 <= g < |buf| && 0 <= r < m.nrow ==>
      out[g][r] == buf[g][r] + GroupTotal(stat, Row(m, r), factor, g)
  {
    out := buf;
    var k := 0;
    while k < |bounds| - 1
      invariant 0 <= k <= |bounds| - 1 && |out| == |buf| && BufferShape(out, m.nrow)
      invariant forall g, r :: 0 <= g < |buf| && 0 <= r < bounds[k] && r < m.nrow ==>
        out[g][r] == buf[g][r] + GroupTotal(stat, Row(m, r), factor, g)
      invariant forall g, r :: 0 <= g < |buf| && bounds[k] <= r < m.nrow ==> out[g][r] == buf[g][r]
    {
      assert bounds[k + 1] <= bounds[|bounds| - 1];
      out := ByColumnChunk(stat, m, factor, out, bounds[k], bounds[k + 1] - bounds[k]);
      k := k + 1;
    }
  }

  /**
   * One input on which the column path does not leave the documented
   * statistic in a caller's buffer: a single feature and a single cell
   * holding 1, the cell in group 0, column storage, and a sums buffer that
   * already holds 5. The statistic is 1; running `ByColumn` leaves 6 in
   * the buffer, while the current revision's path leaves 1.
   */
  method ColumnPathKeepsStaleContents(m: Matrix, factor: seq<nat>, sums: seq<seq<int>>)
    returns (asWritten: seq<seq<int>>, corrected: seq<seq<int>>)
    requires m == Matrix(1, 1, false, false, [DenseVec([1])]) && factor == [0] && sums == [[5]]
    ensures !m.preferRows && Expected(Sum, m, factor, |sums|)[0][0] == 1
    ensures |asWritten| == 1 && |asWritten[0]| == 1 && asWritten[0][0] == 6
    ensures |corrected| == 1 && |corrected[0]| == 1 && corrected[0][0] == 1
  {
    assert Row(m, 0) == [1];
    assert Row(m, 0)[..0] == [] && factor[..0] == [];
    asWritten := ByColumn(Sum, m, factor, sums, [0, 1]);
    corrected := AggregateAcrossCells.OverChunks(AggregateAcrossCells.ColumnPath, Sum, m, factor, sums, [0, 1]);
  }

  /**
   * The entry point on caller buffers: row-preferring matrices overwrite
   * them with the statistics, column-preferring ones add the statistics
   * onto what the buffers held.
   */
  method Compute(m: Matrix, factor: seq<nat>, sums: seq<seq<int>>, detected: seq<seq<int>>, bounds: seq<nat>)
    returns (outSums: seq<seq<int>>, outDetected: seq<seq<int>>)
    requires m.Valid() && |factor| == m.ncol && IsPartition(bounds, m.nrow)
    requires AggregateAcrossCells.Fits(sums, m, factor) && AggregateAcrossCells.Fits(detected, m, factor)
    ensures |outSums| == |sums| && BufferShape(outSums, m.nrow)
    ensures |outDetected| == |detected| && BufferShape(outDetected, m.nrow)
    ensures forall g, r :: 0 <= g < |sums| && 0 <= r < m.nrow ==>
      outSums[g][r] == (if m.preferRows then 0 else sums[g][r]) + GroupSum(Row(m, r), factor, g)
    ensures forall g, r :: 0 <= g < |detected| && 0 <= r < m.nrow ==>
      outDetected[g][r] == (if m.preferRows then 0 else detected[g][r]) + GroupDetected(Row(m, r), factor, g)
  {
    if m.preferRows {
      outSums := ByRow(Sum, m, factor, sums, bounds);
      outDetected := ByRow(Detected, m, factor, detected, bounds);
    } else {
      outSums := ByColumn(Sum, m, factor, sums, bounds);
      outDetected := ByColumn(Detected, m, factor, detected, bounds);
    }
  }

  /**
   * The allocating entry point: zeroed vectors, one per level, for each
   * requested statistic. Starting from zeros, both paths give exactly the
   * statistics; a statistic not requested comes back empty.
   */
  method ComputeAllocating(m: Matrix, factor: seq<nat>, options: AggregateAcrossCells.Options, bounds: seq<nat>)
    returns (res: AggregateAcrossCells.Buffers)
    requires m.Valid() && |factor| == m.ncol && IsPartition(bounds, m.nrow)
    ensures res.sums == (if options.computeSums then Expected(Sum, m, factor, NumLevels(factor)) else [])
    ensures res.detected == (if options.computeDetected then Expected(Detected, m, factor, NumLevels(factor)) else [])
  {
    var nlevels := NumLevels(factor);
    var sums := if options.computeSums then ZeroBuffers(nlevels, m.nrow) else [];
    var detected := if options.computeDetected then ZeroBuffers(nlevels, m.nrow) else [];
    var outSums, outDetected := Compute(m, factor, sums, detected, bounds);
    if options.computeSums {
      FromZerosIsExpected(Sum, m, factor, nlevels, sums, outSums);
    }
    if options.computeDetected {
      FromZerosIsExpected(Detected, m, factor, nlevels, detected, outDetected);
    }
    res := AggregateAcrossCells.Buffers(outSums, outDetected);
  }

  /** Whichever path ran, buffers that started at zero end up holding exactly the statistic. */
  lemma FromZerosIsExpected(stat: Statistic, m: Matrix, factor: seq<nat>, G: nat, start: seq<seq<int>>, out: seq<seq<int>>)
    requires m.Valid() && |factor| == m.ncol && start == ZeroBuffers(G, m.nrow)
    requires |out| == G && BufferShape(out, m.nrow)
    requires forall g, r :: 0 <= g < G && 0 <= r < m.nrow ==>
      out[g][r] == (if m.preferRows then 0 else start[g][r]) + GroupTotal(stat, Row(m, r), factor, g)
    ensures out == Expected(stat, m, factor, G)
  {
    BuffersEqual(out, Expected(stat, m, factor, G), m.nrow);
  }
}

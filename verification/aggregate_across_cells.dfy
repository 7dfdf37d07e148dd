/**
 * Aggregation of expression values across groups of cells (the current
 * revision): for every gene and group, the sum of the gene's values over
 * the group's cells and the number of those cells where it is detected.
 * The matrix's preferred orientation selects the row path or the column
 * path; either is run over the consecutive chunks of genes that the
 * parallel dispatcher hands out.
 */
module AggregateAcrossCells {
  import opened Matrices
  import opened GroupStats
  import opened Accumulate

  /** Which statistics the allocating entry point computes. The thread count is replaced by an explicit chunk partition. */
  datatype Options = Options(computeSums: bool, computeDetected: bool)

  /**
   * One vector per group for each statistic, each as long as the number of
   * genes. An empty list skips that statistic. The same shape serves as
   * the caller's output buffers and as the allocated results.
   */
  datatype Buffers = Buffers(sums: seq<seq<int>>, detected: seq<seq<int>>)

  /** The two traversal strategies. */
  datatype Path = RowPath | ColumnPath

  /** What the source demands of one statistic's buffers: gene-length vectors, and a vector for every group that occurs. */
  predicate Fits(buf: seq<seq<int>>, m: Matrix, factor: seq<nat>)
    requires m.Valid()
  {
    BufferShape(buf, m.nrow) && (|buf| > 0 ==> FactorFits(factor, |buf|))
  }

  /**
   * The row path over the genes `[s, s + l)`: each row is fetched, reduced
   * into a cleared scratch array of one value per group, and the scratch
   * values are written to that row's position in every group's buffer.
   */
  method ByRowChunk(stat: Statistic, m: Matrix, factor: seq<nat>, buf: seq<seq<int>>, s: nat, l: nat)
    returns (out: seq<seq<int>>)
    requires m.Valid() && |factor| == m.ncol && s + l <= m.nrow && Fits(buf, m, factor)
    ensures |out| == |buf| && BufferShape(out, m.nrow)
    ensures forall g, r :: 0 <= g < |buf| && 0 <= r < m.nrow ==>
      out[g][r] == if s <= r < s + l then GroupTotal(stat, Row(m, r), factor, g) else buf[g][r]
  {
    out := buf;
    if |buf| == 0 {
      return;
    }
    var x := s;
    while x < s + l
      invariant s <= x <= s + l && |out| == |buf| && BufferShape(out, m.nrow)
      invariant forall g, r :: 0 <= g < |buf| && 0 <= r < m.nrow ==>
        out[g][r] == if s <= r < x then GroupTotal(stat, Row(m, r), factor, g) else buf[g][r]
    {
      var tmp := RowScratch(stat, RowVec(m, x), factor, |buf|);
      out := WriteRow(out, x, tmp);
      x := x + 1;
    }
  }

  /**
   * The column path over the genes `[s, s + l)`: private zeroed buffers of
   * length `l` per group, into which every column's block is added under
   * the column's group (dense blocks are indexed from zero, sparse blocks
   * carry absolute gene indices, hence the shift by `s`); the private
   * buffers are then written back to the chunk's positions.
   */
  method ByColumnChunk(stat: Statistic, m: Matrix, factor: seq<nat>, buf: seq<seq<int>>, s: nat, l: nat)
    returns (out: seq<seq<int>>)
    requires m.Valid() && |factor| == m.ncol && s + l <= m.nrow && Fits(buf, m, factor)
    ensures |out| == |buf| && BufferShape(out, m.nrow)
    ensures forall g, r :: 0 <= g < |buf| && 0 <= r < m.nrow ==>
      out[g][r] == if s <= r < s + l then GroupTotal(stat, Row(m, r), factor, g) else buf[g][r]
  {
    out := buf;
    var G := |buf|;
    if G == 0 {
      return;
    }
    var local := ZeroBuffers(G, l);
    var x := 0;
    while x < m.ncol
      invariant 0 <= x <= m.ncol && |local| == G && BufferShape(local, l)
      invariant forall g, i :: 0 <= g < G && 0 <= i < l ==>
        local[g][i] == GroupTotal(stat, Row(m, s + i)[..x], factor[..x], g)
    {
      local := AddColumnToLocal(stat, m, factor, local, x, s, l);
      forall g, i | 0 <= g < G && 0 <= i < l
        ensures local[g][i] == GroupTotal(stat, Row(m, s + i)[..x + 1], factor[..x + 1], g)
      {
        GroupTotalStep(stat, Row(m, s + i), factor, g, x);
      }
      x := x + 1;
    }
    out := Transfer(buf, local, s, l, m.nrow);
    forall g, r | 0 <= g < G && s <= r < s + l
      ensures out[g][r] == GroupTotal(stat, Row(m, r), factor, g)
    {
      assert Row(m, r)[..x] == Row(m, r) && factor[..x] == factor;
      assert s + (r - s) == r;
    }
  }

  /**
   * Column `x`'s block `[s, s + l)` added into the private buffer of the
   * column's group: a dense block from position zero, a sparse block at
   * its absolute indices less `s`. The other groups' buffers are untouched.
   */
  method AddColumnToLocal(stat: Statistic, m: Matrix, factor: seq<nat>, local: seq<seq<int>>, x: nat, s: nat, l: nat)
    returns (out: seq<seq<int>>)
    requires m.Valid() && |factor| == m.ncol && x < m.ncol && s + l <= m.nrow
    requires BufferShape(local, l) && factor[x] < |local|
    ensures |out| == |local| && BufferShape(out, l)
    ensures forall i :: 0 <= i < l ==> out[factor[x]][i] == local[factor[x]][i] + Contribution(stat, Row(m, s + i)[x])
    ensures forall g :: 0 <= g < |local| && g != factor[x] ==> out[g] == local[g]
  {
    var cur := factor[x];
    var col := ColumnVec(m, x);
    var v := Block(col, m.nrow, s, l);
    var updated: seq<int>;
    match v {
      case DenseVec(vals) =>
        updated := AddDense(stat, local[cur], vals, 0);
      case SparseVec(e) =>
        updated := AddSparse(stat, local[cur], e, s, m.nrow);
    }
    forall i | 0 <= i < l
      ensures updated[i] == local[cur][i] + Contribution(stat, Row(m, s + i)[x])
    {
      BlockValues(col, m.nrow, s, l, i);
    }
    out := local[cur := updated];
  }

  /**
   * One statistic over all genes: the chosen path is run on each chunk of
   * the dispatcher's partition in turn. Every chunk owns its genes, so the
   * result is the full statistic whatever the partition (that is, whatever
   * the number of threads), and the buffers' initial contents are ignored.
   */
  method OverChunks(path: Path, stat: Statistic, m: Matrix, factor: seq<nat>, buf: seq<seq<int>>, bounds: seq<nat>)
    returns (out: seq<seq<int>>)
    requires m.Valid() && |factor| == m.ncol && Fits(buf, m, factor) && IsPartition(bounds, m.nrow)
    ensures out == Expected(stat, m, factor, |buf|)
  {
    out := buf;
    var k := 0;
    while k < |bounds| - 1
      invariant 0 <= k <= |bounds| - 1 && |out| == |buf| && BufferShape(out, m.nrow)
      invariant forall g, r :: 0 <= g < |buf| && 0 <= r < m.nrow ==>
        out[g][r] == if r < bounds[k] then GroupTotal(stat, Row(m, r), factor, g) else buf[g][r]
    {
      var s, l := bounds[k], bounds[k + 1] - bounds[k];
      assert bounds[k + 1] <= bounds[|bounds| - 1];
      match path {
        case RowPath => out := ByRowChunk(stat, m, factor, out, s, l);
        case ColumnPath => out := ByColumnChunk(stat, m, factor, out, s, l);
      }
      k := k + 1;
    }
    BuffersEqual(out, Expected(stat, m, factor, |buf|), m.nrow);
  }

  /**
   * The entry point on caller buffers: the row path for row-preferring
   * matrices, the column path otherwise, for every statistic whose buffer
   * list is non-empty. Sums and detected counts never read each other, so
   * they are produced by separate runs of the same kernel.
   */
  method Aggregate(m: Matrix, factor: seq<nat>, buffers: Buffers, bounds: seq<nat>) returns (out: Buffers)
    requires m.Valid() && |factor| == m.ncol && IsPartition(bounds, m.nrow)
    requires Fits(buffers.sums, m, factor) && Fits(buffers.detected, m, factor)
    ensures out.sums == Expected(Sum, m, factor, |buffers.sums|)
    ensures out.detected == Expected(Detected, m, factor, |buffers.detected|)
  {
    var path := if m.preferRows then RowPath else ColumnPath;
    var sums := OverChunks(path, Sum, m, factor, buffers.sums, bounds);
    var detected := OverChunks(path, Detected, m, factor, buffers.detected, bounds);
    out := Buffers(sums, detected);
  }

  /**
   * The allocating entry point: one vector of zeros per level for each
   * requested statistic (the number of levels being the largest group
   * index plus one), filled by `Aggregate`. A statistic that is not
   * requested comes back as an empty list.
   */
  method AggregateAllocating(m: Matrix, factor: seq<nat>, options: Options, bounds: seq<nat>) returns (res: Buffers)
    requires m.Valid() && |factor| == m.ncol && IsPartition(bounds, m.nrow)
    ensures |res.sums| == (if options.computeSums then NumLevels(factor) else 0)
    ensures |res.detected| == (if options.computeDetected then NumLevels(factor) else 0)
    ensures forall g, r :: 0 <= g < |res.sums| && 0 <= r < m.nrow ==>
      |res.sums[g]| == m.nrow && res.sums[g][r] == GroupSum(Row(m, r), factor, g)
    ensures forall g, r :: 0 <= g < |res.detected| && 0 <= r < m.nrow ==>
      |res.detected[g]| == m.nrow && res.detected[g][r] == GroupDetected(Row(m, r), factor, g)
  {
    var nlevels := NumLevels(factor);
    var sums := if options.computeSums then ZeroBuffers(nlevels, m.nrow) else [];
    var detected := if options.computeDetected then ZeroBuffers(nlevels, m.nrow) else [];
    res := Aggregate(m, factor, Buffers(sums, detected), bounds);
  }
}

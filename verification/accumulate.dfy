/**
 * The inner loops shared by both revisions of aggregation across cells:
 * the per-row scratch array of the row path, the write-back of one row, and
 * the addition of one (dense or sparse) column block into a buffer.
 */
module Accumulate {
  import opened Matrices
  import opened GroupStats

  /**
   * The row path's scratch array: cleared, then every value of the fetched
   * row added into its cell's group. Dense rows visit every cell; sparse
   * rows visit only their stored entries.
   */
  method RowScratch(stat: Statistic, v: Vec, factor: seq<nat>, G: nat) returns (tmp: seq<int>)
    requires ValidVec(v, |factor|) && FactorFits(factor, G)
    ensures |tmp| == G
    ensures forall g :: 0 <= g < G ==> tmp[g] == GroupTotal(stat, Dense(v, |factor|), factor, g)
  {
    tmp := Zeros(G);
    match v {
      case DenseVec(vals) =>
        var j := 0;
        while j < |vals|
          invariant 0 <= j <= |vals| && |tmp| == G
          invariant forall g :: 0 <= g < G ==> tmp[g] == GroupTotal(stat, vals[..j], factor[..j], g)
        {
          forall g | 0 <= g < G {
            GroupTotalStep(stat, vals, factor, g, j);
          }
          tmp := tmp[factor[j] := tmp[factor[j]] + Contribution(stat, vals[j])];
          j := j + 1;
        }
        assert vals[..j] == vals && factor[..j] == factor;
      case SparseVec(e) =>
        var j := 0;
        while j < |e|
          invariant 0 <= j <= |e| && |tmp| == G
          invariant forall g :: 0 <= g < G ==> tmp[g] == SparseGroupTotal(stat, e[..j], factor, g)
        {
          assert e[..j + 1][..j] == e[..j];
          var f := factor[e[j].index];
          tmp := tmp[f := tmp[f] + Contribution(stat, e[j].value)];
          j := j + 1;
        }
        assert e[..j] == e;
        forall g | 0 <= g < G {
          SparseGroupTotalIsDense(stat, e, factor, g);
        }
    }
  }

  /** Copies the scratch value of each group into position `x` of that group's buffer, and nowhere else. */
  method WriteRow(buf: seq<seq<int>>, x: nat, tmp: seq<int>) returns (out: seq<seq<int>>)
    requires |tmp| == |buf|
    requires forall g :: 0 <= g < |buf| ==> x < |buf[g]|
    ensures |out| == |buf|
    ensures forall g :: 0 <= g < |buf| ==> out[g] == buf[g][x := tmp[g]]
  {
    out := buf;
    var l := 0;
    while l < |tmp|
      invariant 0 <= l <= |tmp| && |out| == |buf|
      invariant forall g :: 0 <= g < l ==> out[g] == buf[g][x := tmp[g]]
      invariant forall g :: l <= g < |buf| ==> out[g] == buf[g]
    {
      out := out[l := out[l][x := tmp[l]]];
      l := l + 1;
    }
  }

  /** Adds the contribution of each dense value `vals[i]` at position `at + i` of `buf`. */
  method AddDense(stat: Statistic, buf: seq<int>, vals: seq<int>, at: nat) returns (out: seq<int>)
    requires at + |vals| <= |buf|
    ensures |out| == |buf|
    ensures forall p :: 0 <= p < |buf| ==>
      out[p] == buf[p] + (if at <= p < at + |vals| then Contribution(stat, vals[p - at]) else 0)
  {
    out := buf;
    var i := 0;
    while i < |vals|
      invariant 0 <= i <= |vals| && |out| == |buf|
      invariant forall p :: 0 <= p < |buf| ==>
        out[p] == buf[p] + (if at <= p < at + i then Contribution(stat, vals[p - at]) else 0)
    {
      out := out[at + i := out[at + i] + Contribution(stat, vals[i])];
      i := i + 1;
    }
  }

  /**
   * Adds the contribution of each sparse entry at position `index - shift`
   * of `buf`. Positions are absolute, so `shift` is where `buf` starts in a
   * vector of length `n`.
   */
  method AddSparse(stat: Statistic, buf: seq<int>, e: seq<Entry>, shift: nat, n: nat) returns (out: seq<int>)
    requires DistinctIndices(e) && IndicesWithin(e, shift, shift + |buf|) && shift + |buf| <= n
    ensures IndicesWithin(e, 0, n)
    ensures |out| == |buf|
    ensures forall p :: 0 <= p < |buf| ==> out[p] == buf[p] + Contribution(stat, Densify(e, n)[shift + p])
  {
    out := buf;
    var k := 0;
    assert Densify(e[..k], n) == Zeros(n);
    assert Contribution(stat, 0) == 0;
    while k < |e|
      invariant 0 <= k <= |e| && |out| == |buf|
      invariant forall p :: 0 <= p < |buf| ==> out[p] == buf[p] + Contribution(stat, Densify(e[..k], n)[shift + p])
    {
      var idx := e[k].index;
      assert e[..k + 1][..k] == e[..k];
      assert !Listed(e[..k], idx);
      DensifyUnlisted(e[..k], n, idx);
      out := out[idx - shift := out[idx - shift] + Contribution(stat, e[k].value)];
      k := k + 1;
    }
    assert e[..k] == e;
  }

  /**
   * Writes a chunk's private buffers back into the shared ones: position
   * `s + i` of group `g` receives `local[g][i]`; positions outside the
   * chunk are left alone.
   */
  method Transfer(buf: seq<seq<int>>, local: seq<seq<int>>, s: nat, l: nat, nrow: nat) returns (out: seq<seq<int>>)
    requires |local| == |buf| && BufferShape(buf, nrow) && BufferShape(local, l) && s + l <= nrow
    ensures |out| == |buf| && BufferShape(out, nrow)
    ensures forall g, r :: 0 <= g < |buf| && 0 <= r < nrow ==>
      out[g][r] == if s <= r < s + l then local[g][r - s] else buf[g][r]
  {
    out := buf;
    var g := 0;
    while g < |buf|
      invariant 0 <= g <= |buf| && |out| == |buf| && BufferShape(out, nrow)
      invariant forall h, r :: 0 <= h < |buf| && 0 <= r < nrow ==>
        out[h][r] == if h < g && s <= r < s + l then local[h][r - s] else buf[h][r]
    {
      out := out[g := buf[g][..s] + local[g] + buf[g][s + l..]];
      g := g + 1;
    }
  }
}

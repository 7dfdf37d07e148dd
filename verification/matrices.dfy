/**
 * The matrix as the aggregation kernels see it: `nrow` features (genes) by
 * `ncol` observations (cells), stored along its preferred dimension either
 * densely or as lists of (index, value) non-zeros. Storage and extraction
 * belong to an external matrix library; this module only fixes what an
 * extractor hands back, so that every kernel can be stated against the
 * plain dense view `Row(m, r)`.
 */
module Matrices {

  /** One stored element of a sparse vector: its position and its value. */
  datatype Entry = Entry(index: nat, value: int)

  /** One row or column as an extractor delivers it. */
  datatype Vec = DenseVec(values: seq<int>) | SparseVec(entries: seq<Entry>)

  /** No position is listed twice. */
  predicate DistinctIndices(e: seq<Entry>)
  {
    forall a, b :: 0 <= a < b < |e| ==> e[a].index != e[b].index
  }

  /** Every listed position lies in `[lo, hi)`. */
  predicate IndicesWithin(e: seq<Entry>, lo: nat, hi: nat)
  {
    forall k :: 0 <= k < |e| ==> lo <= e[k].index < hi
  }

  /** `p` is one of the listed positions. */
  predicate Listed(e: seq<Entry>, p: nat)
  {
    exists k :: 0 <= k < |e| && e[k].index == p
  }

  /**
   * A vector of length `n`: dense values of that length, or sparse entries
   * at distinct positions below `n`, in any order (the kernels request
   * unordered indices). Explicitly stored zeros are allowed.
   */
  predicate ValidVec(v: Vec, n: nat)
  {
    match v
    case DenseVec(vals) => |vals| == n
    case SparseVec(e) => DistinctIndices(e) && IndicesWithin(e, 0, n)
  }

  function Zeros(n: nat): (z: seq<int>)
    ensures |z| == n
    ensures forall i :: 0 <= i < n ==> z[i] == 0
  {
    seq(n, _ => 0)
  }

  /** The dense vector of length `n` that a list of sparse entries stands for. */
  function Densify(e: seq<Entry>, n: nat): (d: seq<int>)
    requires IndicesWithin(e, 0, n)
    ensures |d| == n
  {
    if |e| == 0 then Zeros(n)
    else Densify(e[..|e| - 1], n)[e[|e| - 1].index := e[|e| - 1].value]
  }

  /** A listed position holds the value listed for it. */
  lemma {:induction false} DensifyListed(e: seq<Entry>, n: nat, k: nat)
    requires IndicesWithin(e, 0, n) && DistinctIndices(e)
    requires k < |e|
    ensures Densify(e, n)[e[k].index] == e[k].value
    decreases |e|
  {
    if k < |e| - 1 {
      DensifyListed(e[..|e| - 1], n, k);
    }
  }

  /** A position that is not listed holds zero. */
  lemma {:induction false} DensifyUnlisted(e: seq<Entry>, n: nat, p: nat)
    requires IndicesWithin(e, 0, n)
    requires p < n && !Listed(e, p)
    ensures Densify(e, n)[p] == 0
    decreases |e|
  {
    if |e| > 0 {
      DensifyUnlisted(e[..|e| - 1], n, p);
    }
  }

  /** The dense contents of a valid vector of length `n`. */
  function Dense(v: Vec, n: nat): (d: seq<int>)
    requires ValidVec(v, n)
    ensures |d| == n
  {
    match v
    case DenseVec(vals) => vals
    case SparseVec(e) => Densify(e, n)
  }

  /**
   * The listed entries that fall in `[s, s + l)`, in their original order
   * and with their absolute positions: what a sparse extractor restricted
   * to that block returns.
   */
  function FilterBlock(e: seq<Entry>, s: nat, l: nat): (r: seq<Entry>)
    ensures IndicesWithin(r, s, s + l)
    ensures forall k :: 0 <= k < |r| ==> r[k] in e
    ensures forall k :: 0 <= k < |e| && s <= e[k].index < s + l ==> e[k] in r
    ensures |r| <= |e|
  {
    if |e| == 0 then []
    else
      var init := FilterBlock(e[..|e| - 1], s, l);
      var last := e[|e| - 1];
      if s <= last.index < s + l then init + [last] else init
  }

  /** Filtering keeps positions distinct. */
  lemma {:induction false} FilterBlockDistinct(e: seq<Entry>, s: nat, l: nat)
    requires DistinctIndices(e)
    ensures DistinctIndices(FilterBlock(e, s, l))
    decreases |e|
  {
    if |e| > 0 {
      var init := e[..|e| - 1];
      FilterBlockDistinct(init, s, l);
      var fi := FilterBlock(init, s, l);
      var last := e[|e| - 1];
      if s <= last.index < s + l {
        forall a | 0 <= a < |fi|
          ensures fi[a].index != last.index
        {
          var j :| 0 <= j < |init| && init[j] == fi[a];
        }
      }
    }
  }

  /**
   * Inside the block the filtered entries stand for the same values as the
   * unfiltered ones; outside it they stand for zero.
   */
  lemma {:induction false} FilterBlockDensify(e: seq<Entry>, n: nat, s: nat, l: nat, p: nat)
    requires DistinctIndices(e) && IndicesWithin(e, 0, n)
    requires s + l <= n && p < n
    ensures Densify(FilterBlock(e, s, l), n)[p] == if s <= p < s + l then Densify(e, n)[p] else 0
  {
    var f := FilterBlock(e, s, l);
    FilterBlockDistinct(e, s, l);
    if s <= p < s + l && Listed(e, p) {
      var k :| 0 <= k < |e| && e[k].index == p;
      assert e[k] in f;
      var j :| 0 <= j < |f| && f[j] == e[k];
      DensifyListed(e, n, k);
      DensifyListed(f, n, j);
    } else {
      DensifyUnlisted(f, n, p);
      if s <= p < s + l {
        DensifyUnlisted(e, n, p);
      }
    }
  }

  /**
   * The part `[s, s + l)` of a vector of length `n`, as a block extractor
   * returns it: dense values re-indexed from zero, or the sparse entries in
   * the block with their absolute positions.
   */
  function Block(v: Vec, n: nat, s: nat, l: nat): (b: Vec)
    requires ValidVec(v, n) && s + l <= n
    ensures b.SparseVec? == v.SparseVec?
    ensures b.DenseVec? ==> |b.values| == l
    ensures b.SparseVec? ==> IndicesWithin(b.entries, s, s + l) && DistinctIndices(b.entries)
  {
    match v
    case DenseVec(vals) => DenseVec(vals[s..s + l])
    case SparseVec(e) =>
      FilterBlockDistinct(e, s, l);
      SparseVec(FilterBlock(e, s, l))
  }

  /** Both kinds of block carry exactly the dense values at `[s, s + l)`. */
  lemma BlockValues(v: Vec, n: nat, s: nat, l: nat, i: nat)
    requires ValidVec(v, n) && s + l <= n && i < l
    ensures Block(v, n, s, l).DenseVec? ==> Block(v, n, s, l).values[i] == Dense(v, n)[s + i]
    ensures Block(v, n, s, l).SparseVec? ==> Densify(Block(v, n, s, l).entries, n)[s + i] == Dense(v, n)[s + i]
  {
    if v.SparseVec? {
      FilterBlockDensify(v.entries, n, s, l, s + i);
    }
  }

  /** A sparse block stands for zero at every position outside the block. */
  lemma SparseBlockOutside(v: Vec, n: nat, s: nat, l: nat, p: nat)
    requires ValidVec(v, n) && s + l <= n && p < n && !(s <= p < s + l)
    requires v.SparseVec?
    ensures Densify(Block(v, n, s, l).entries, n)[p] == 0
  {
    FilterBlockDensify(v.entries, n, s, l, p);
  }

  /**
   * A matrix of `nrow` features by `ncol` cells. `vecs` holds the rows when
   * the matrix prefers row access and the columns otherwise; `sparse` says
   * whether they are stored as entry lists.
   */
  datatype Matrix = Matrix(nrow: nat, ncol: nat, preferRows: bool, sparse: bool, vecs: seq<Vec>)
  {
    /** The length of each stored vector. */
    function VecLength(): nat
    {
      if preferRows then ncol else nrow
    }

    predicate Valid()
    {
      && |vecs| == (if preferRows then nrow else ncol)
      && forall k :: 0 <= k < |vecs| ==> ValidVec(vecs[k], VecLength()) && vecs[k].SparseVec? == sparse
    }
  }

  /** The value of feature `r` in cell `c`, whatever the storage. */
  function Value(m: Matrix, r: nat, c: nat): int
    requires m.Valid() && r < m.nrow && c < m.ncol
  {
    if m.preferRows then Dense(m.vecs[r], m.ncol)[c] else Dense(m.vecs[c], m.nrow)[r]
  }

  /** Feature `r` across all cells. */
  function Row(m: Matrix, r: nat): (row: seq<int>)
    requires m.Valid() && r < m.nrow
    ensures |row| == m.ncol
    ensures forall c :: 0 <= c < m.ncol ==> row[c] == Value(m, r, c)
  {
    seq(m.ncol, c requires 0 <= c < m.ncol => Value(m, r, c))
  }

  /** Cell `c` across all features. */
  function Column(m: Matrix, c: nat): (col: seq<int>)
    requires m.Valid() && c < m.ncol
    ensures |col| == m.nrow
    ensures forall r :: 0 <= r < m.nrow ==> col[r] == Value(m, r, c)
  {
    seq(m.nrow, r requires 0 <= r < m.nrow => Value(m, r, c))
  }

  /** The row-major dense view of a matrix; two storages hold the same matrix when these agree. */
  function ToDense(m: Matrix): (d: seq<seq<int>>)
    requires m.Valid()
    ensures |d| == m.nrow
    ensures forall r :: 0 <= r < m.nrow ==> d[r] == Row(m, r)
  {
    seq(m.nrow, r requires 0 <= r < m.nrow => Row(m, r))
  }

  /** Every position of a dense vector listed as an entry, zeros included. */
  function AllEntries(vals: seq<int>): (e: seq<Entry>)
    ensures |e| == |vals|
    ensures forall i :: 0 <= i < |vals| ==> e[i] == Entry(i, vals[i])
  {
    seq(|vals|, i requires 0 <= i < |vals| => Entry(i, vals[i]))
  }

  /** Listing every position stands for the vector itself. */
  lemma {:induction false} AllEntriesDensify(vals: seq<int>, j: nat)
    requires j <= |vals|
    ensures IndicesWithin(AllEntries(vals)[..j], 0, |vals|)
    ensures Densify(AllEntries(vals)[..j], |vals|) == vals[..j] + Zeros(|vals| - j)
    decreases j
  {
    var e := AllEntries(vals);
    if j > 0 {
      AllEntriesDensify(vals, j - 1);
      assert e[..j][..j - 1] == e[..j - 1];
      var d := Densify(e[..j - 1], |vals|);
      assert Densify(e[..j], |vals|) == d[j - 1 := vals[j - 1]];
      assert vals[..j] + Zeros(|vals| - j) == (vals[..j - 1] + Zeros(|vals| - (j - 1)))[j - 1 := vals[j - 1]];
    } else {
      assert vals[..0] + Zeros(|vals|) == Zeros(|vals|);
    }
  }

  /** A dense vector as the sparse extractor of dense storage delivers it. */
  function AsSparse(vals: seq<int>): (v: Vec)
    ensures ValidVec(v, |vals|) && v.SparseVec?
    ensures Dense(v, |vals|) == vals
  {
    var e := AllEntries(vals);
    AllEntriesDensify(vals, |vals|);
    assert e[..|vals|] == e;
    assert vals[..|vals|] + Zeros(0) == vals;
    SparseVec(e)
  }

  /**
   * Feature `r` as a row extractor of the matrix's kind (sparse or dense)
   * returns it. Rows of row-preferring storage come as stored; otherwise
   * they are gathered from the columns.
   */
  function RowVec(m: Matrix, r: nat): (v: Vec)
    requires m.Valid() && r < m.nrow
    ensures ValidVec(v, m.ncol) && v.SparseVec? == m.sparse
    ensures Dense(v, m.ncol) == Row(m, r)
  {
    if m.preferRows then m.vecs[r]
    else if m.sparse then AsSparse(Row(m, r))
    else DenseVec(Row(m, r))
  }

  /** Cell `c` as a column extractor of the matrix's kind returns it. */
  function ColumnVec(m: Matrix, c: nat): (v: Vec)
    requires m.Valid() && c < m.ncol
    ensures ValidVec(v, m.nrow) && v.SparseVec? == m.sparse
    ensures Dense(v, m.nrow) == Column(m, c)
  {
    if !m.preferRows then m.vecs[c]
    else if m.sparse then AsSparse(Column(m, c))
    else DenseVec(Column(m, c))
  }

  /** `bounds` cuts `[0, total)` into consecutive chunks, as the parallel dispatcher does. */
  predicate IsPartition(bounds: seq<nat>, total: nat)
  {
    && |bounds| >= 1
    && bounds[0] == 0
    && bounds[|bounds| - 1] == total
    && forall i, j :: 0 <= i <= j < |bounds| ==> bounds[i] <= bounds[j]
  }
}

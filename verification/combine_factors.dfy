/**
 * Combination of several categorical factors into one. Every cell has a
 * tuple of labels, one per factor; the distinct tuples are ordered
 * lexicographically, and each cell is given the position of its tuple in
 * that order. The source keeps an ordered map keyed by cell index under
 * the tuple order: a cell is inserted only when no equivalent key is
 * present, so the keys end up being the first cell of every distinct
 * tuple, in sorted order. Here that map is the sequence of its keys.
 */
module CombineFactors {
  import opened Lex

  /** Each factor holds one label per cell. */
  predicate ValidFactors(n: nat, factors: seq<seq<int>>)
  {
    forall f :: 0 <= f < |factors| ==> |factors[f]| == n
  }

  /** Every cell's tuple has as many labels as the first one. */
  predicate Uniform(t: seq<seq<int>>)
  {
    forall i :: 0 <= i < |t| ==> |t[i]| == |t[0]|
  }

  /** The label tuple of every cell: entry `f` of tuple `i` is factor `f`'s label for cell `i`. */
  function Tuples(n: nat, factors: seq<seq<int>>): (t: seq<seq<int>>)
    requires ValidFactors(n, factors)
    ensures |t| == n && Uniform(t) && AllOfLength(t, |factors|)
    ensures forall i, f :: 0 <= i < n && 0 <= f < |factors| ==> t[i][f] == factors[f][i]
  {
    seq(n, i requires 0 <= i < n => seq(|factors|, f requires 0 <= f < |factors| => factors[f][i]))
  }

  /** Every key of the map is a cell. */
  predicate Within(reps: seq<nat>, n: nat)
  {
    forall u :: 0 <= u < |reps| ==> reps[u] < n
  }

  /** The tuples that the map's keys stand for, in key order. */
  function RepTuples(t: seq<seq<int>>, reps: seq<nat>): (r: seq<seq<int>>)
    requires Within(reps, |t|)
    ensures |r| == |reps| && forall u :: 0 <= u < |reps| ==> r[u] == t[reps[u]]
  {
    seq(|reps|, u requires 0 <= u < |reps| => t[reps[u]])
  }

  /**
   * The position of the first key whose tuple is not before cell `i`'s:
   * where the map's `find` looks and where a new key is inserted.
   */
  function LowerBound(t: seq<seq<int>>, reps: seq<nat>, i: nat): (p: nat)
    requires Within(reps, |t|) && i < |t|
    ensures p <= |reps|
    ensures forall u :: 0 <= u < p ==> LexLess(t[reps[u]], t[i])
    ensures p < |reps| ==> !LexLess(t[reps[p]], t[i])
  {
    if |reps| == 0 || !LexLess(t[reps[0]], t[i]) then 0
    else 1 + LowerBound(t, reps[1..], i)
  }

  /** The map's `find` succeeds: the key at the lower bound is equivalent to cell `i` (neither before the other). */
  predicate Found(t: seq<seq<int>>, reps: seq<nat>, i: nat)
    requires Within(reps, |t|) && i < |t|
  {
    var p := LowerBound(t, reps, i);
    p < |reps| && !LexLess(t[i], t[reps[p]])
  }

  /**
   * One pass of the insertion loop: cell `i` becomes a key at its lower
   * bound unless `find` succeeds. The source re-checks a found key with
   * an element-wise comparison before skipping the insertion; by
   * `FoundIsEqual` that comparison always agrees.
   */
  function Insert(t: seq<seq<int>>, reps: seq<nat>, i: nat): (r: seq<nat>)
    requires Within(reps, |t|) && i < |t|
    ensures Within(r, |t|)
  {
    var p := LowerBound(t, reps, i);
    if Found(t, reps, i) then reps else reps[..p] + [i] + reps[p..]
  }

  /**
   * What the map looks like after the first `k` cells: keys are earlier
   * cells, sorted strictly by tuple, every processed cell's tuple is
   * present, and each key is the first cell carrying its tuple.
   */
  predicate MapInv(t: seq<seq<int>>, reps: seq<nat>, k: nat)
  {
    && k <= |t|
    && Within(reps, k)
    && StrictlySorted(RepTuples(t, reps))
    && (forall i :: 0 <= i < k ==> t[i] in RepTuples(t, reps))
    && (forall u, j :: 0 <= u < |reps| && 0 <= j < reps[u] ==> t[j] != t[reps[u]])
  }

  /** Every key from the lower bound onwards is not before cell `i`. */
  lemma LowerBoundAfter(t: seq<seq<int>>, reps: seq<nat>, i: nat)
    requires Within(reps, |t|) && i < |t| && StrictlySorted(RepTuples(t, reps))
    ensures forall u :: LowerBound(t, reps, i) <= u < |reps| ==> !LexLess(t[reps[u]], t[i])
  {
    var p := LowerBound(t, reps, i);
    var rt := RepTuples(t, reps);
    forall u | p <= u < |reps|
      ensures !LexLess(t[reps[u]], t[i])
    {
      if u > p && LexLess(t[reps[u]], t[i]) {
        assert LexLess(rt[p], rt[u]);
        LexTransitive(t[reps[p]], t[reps[u]], t[i]);
      }
    }
  }

  /** On a sorted map, `find` succeeds exactly when cell `i`'s tuple is already a key's tuple, and then at that key. */
  lemma FoundIffPresent(t: seq<seq<int>>, reps: seq<nat>, i: nat)
    requires Uniform(t) && Within(reps, |t|) && i < |t| && StrictlySorted(RepTuples(t, reps))
    ensures Found(t, reps, i) <==> t[i] in RepTuples(t, reps)
    ensures Found(t, reps, i) ==> t[reps[LowerBound(t, reps, i)]] == t[i]
  {
    var p := LowerBound(t, reps, i);
    var rt := RepTuples(t, reps);
    if Found(t, reps, i) {
      LexTrichotomy(t[i], t[reps[p]]);
      assert rt[p] == t[i];
    }
    if t[i] in rt {
      var u :| 0 <= u < |rt| && rt[u] == t[i];
      LexIrreflexive(t[i]);
      assert u >= p;
      assert u == p;
    }
  }

  /** The element-wise re-check after a successful `find` never fails: the key found carries exactly cell `i`'s labels. */
  lemma FoundIsEqual(t: seq<seq<int>>, reps: seq<nat>, i: nat)
    requires Uniform(t) && Within(reps, |t|) && i < |t| && StrictlySorted(RepTuples(t, reps))
    requires Found(t, reps, i)
    ensures t[reps[LowerBound(t, reps, i)]] == t[i]
  {
    FoundIffPresent(t, reps, i);
  }

  /** Cell `k` goes in at its lower bound: every key before it is smaller, every key after it larger. */
  lemma InsertionPoint(t: seq<seq<int>>, reps: seq<nat>, k: nat)
    requires Uniform(t) && Within(reps, |t|) && k < |t| && StrictlySorted(RepTuples(t, reps))
    requires !Found(t, reps, k)
    ensures t[k] !in RepTuples(t, reps)
    ensures forall u :: 0 <= u < LowerBound(t, reps, k) ==> LexLess(t[reps[u]], t[k])
    ensures forall u :: LowerBound(t, reps, k) <= u < |reps| ==> LexLess(t[k], t[reps[u]])
  {
    FoundIffPresent(t, reps, k);
    LowerBoundAfter(t, reps, k);
    var rt := RepTuples(t, reps);
    forall u | LowerBound(t, reps, k) <= u < |reps|
      ensures LexLess(t[k], t[reps[u]])
    {
      assert rt[u] == t[reps[u]];
      LexTrichotomy(t[k], t[reps[u]]);
    }
  }

  /** The key tuples after inserting cell `k` at position `p`. */
  lemma InsertedTuples(t: seq<seq<int>>, reps: seq<nat>, k: nat, p: nat)
    requires Within(reps, |t|) && k < |t| && p <= |reps|
    ensures Within(reps[..p] + [k] + reps[p..], |t|)
    ensures RepTuples(t, reps[..p] + [k] + reps[p..]) ==
      RepTuples(t, reps)[..p] + [t[k]] + RepTuples(t, reps)[p..]
  {
    var r := reps[..p] + [k] + reps[p..];
    assert forall u :: 0 <= u < |r| ==> r[u] == (if u < p then reps[u] else if u == p then k else reps[u - 1]);
  }

  /** Inserting a tuple between smaller and larger ones keeps a sorted list sorted. */
  lemma InsertSorted(rt: seq<seq<int>>, x: seq<int>, p: nat)
    requires StrictlySorted(rt) && p <= |rt|
    requires forall u :: 0 <= u < p ==> LexLess(rt[u], x)
    requires forall u :: p <= u < |rt| ==> LexLess(x, rt[u])
    ensures StrictlySorted(rt[..p] + [x] + rt[p..])
  {
    var nt := rt[..p] + [x] + rt[p..];
    forall a, b | 0 <= a < b < |nt|
      ensures LexLess(nt[a], nt[b])
    {
      if a < p && b > p {
        LexTransitive(rt[a], x, rt[b - 1]);
      } else if a < p && b < p {
        assert nt[a] == rt[a] && nt[b] == rt[b];
      } else if a > p {
        assert nt[a] == rt[a - 1] && nt[b] == rt[b - 1];
      }
    }
  }

  /** Inserting into a list keeps every element that was already there. */
  lemma InsertKeepsElements(rt: seq<seq<int>>, x: seq<int>, p: nat, y: seq<int>)
    requires p <= |rt| && y in rt
    ensures y in rt[..p] + [x] + rt[p..]
  {
    var u :| 0 <= u < |rt| && rt[u] == y;
    if u < p {
      assert (rt[..p] + [x] + rt[p..])[u] == y;
    } else {
      assert (rt[..p] + [x] + rt[p..])[u + 1] == y;
    }
  }

  /** A new key whose tuple was absent is the first cell carrying it; the old keys keep that property. */
  lemma InsertKeepsFirst(t: seq<seq<int>>, reps: seq<nat>, k: nat, p: nat)
    requires k < |t| && Within(reps, k) && p <= |reps|
    requires forall i :: 0 <= i < k ==> t[i] in RepTuples(t, reps)
    requires t[k] !in RepTuples(t, reps)
    requires forall u, j :: 0 <= u < |reps| && 0 <= j < reps[u] ==> t[j] != t[reps[u]]
    ensures forall u, j :: 0 <= u < |reps[..p] + [k] + reps[p..]| && 0 <= j < (reps[..p] + [k] + reps[p..])[u] ==>
      t[j] != t[(reps[..p] + [k] + reps[p..])[u]]
  {
    var r := reps[..p] + [k] + reps[p..];
    forall u, j | 0 <= u < |r| && 0 <= j < r[u]
      ensures t[j] != t[r[u]]
    {
      if u == p {
        assert t[j] in RepTuples(t, reps);
      } else if u > p {
        assert r[u] == reps[u - 1];
      } else {
        assert r[u] == reps[u];
      }
    }
  }

  /** Processing cell `k` keeps the map's invariant. */
  lemma InsertKeeps(t: seq<seq<int>>, reps: seq<nat>, k: nat)
    requires Uniform(t) && MapInv(t, reps, k) && k < |t|
    ensures MapInv(t, Insert(t, reps, k), k + 1)
  {
    FoundIffPresent(t, reps, k);
    if Found(t, reps, k) {
      assert Insert(t, reps, k) == reps;
      assert forall i :: 0 <= i < k + 1 ==> t[i] in RepTuples(t, reps);
    } else {
      var p := LowerBound(t, reps, k);
      assert Insert(t, reps, k) == reps[..p] + [k] + reps[p..];
      InsertNewKeeps(t, reps, k, p);
    }
  }

  /** A cell whose tuple is absent goes in at its lower bound, keeping the map's invariant. */
  lemma InsertNewKeeps(t: seq<seq<int>>, reps: seq<nat>, k: nat, p: nat)
    requires Uniform(t) && MapInv(t, reps, k) && k < |t|
    requires !Found(t, reps, k) && p == LowerBound(t, reps, k)
    ensures MapInv(t, reps[..p] + [k] + reps[p..], k + 1)
  {
    var r := reps[..p] + [k] + reps[p..];
    InsertWithin(reps, k, p);
    assert StrictlySorted(RepTuples(t, r)) by {
      var rt := RepTuples(t, reps);
      InsertionPoint(t, reps, k);
      InsertedTuples(t, reps, k, p);
      InsertSorted(rt, t[k], p);
    }
    assert forall i :: 0 <= i < k + 1 ==> t[i] in RepTuples(t, r) by {
      InsertKeepsCells(t, reps, k, p);
    }
    assert forall u, j :: 0 <= u < |r| && 0 <= j < r[u] ==> t[j] != t[r[u]] by {
      FoundIffPresent(t, reps, k);
      InsertKeepsFirst(t, reps, k, p);
    }
  }

  /** Inserting cell `k` into keys below `k` gives keys below `k + 1`. */
  lemma InsertWithin(reps: seq<nat>, k: nat, p: nat)
    requires Within(reps, k) && p <= |reps|
    ensures Within(reps[..p] + [k] + reps[p..], k + 1)
  {
    var r := reps[..p] + [k] + reps[p..];
    forall u | 0 <= u < |r|
      ensures r[u] < k + 1
    {
      if u < p {
        assert r[u] == reps[u];
      } else if u > p {
        assert r[u] == reps[u - 1];
      }
    }
  }

  /** After the insertion every cell up to `k` still finds its tuple among the keys. */
  lemma InsertKeepsCells(t: seq<seq<int>>, reps: seq<nat>, k: nat, p: nat)
    requires Within(reps, k) && k < |t| && p <= |reps|
    requires forall i :: 0 <= i < k ==> t[i] in RepTuples(t, reps)
    ensures Within(reps[..p] + [k] + reps[p..], |t|)
    ensures forall i :: 0 <= i < k + 1 ==> t[i] in RepTuples(t, reps[..p] + [k] + reps[p..])
  {
    var rt := RepTuples(t, reps);
    var r := reps[..p] + [k] + reps[p..];
    InsertedTuples(t, reps, k, p);
    forall i | 0 <= i < k + 1
      ensures t[i] in RepTuples(t, r)
    {
      if i < k {
        InsertKeepsElements(rt, t[k], p, t[i]);
      } else {
        assert RepTuples(t, r)[p] == t[k];
      }
    }
  }

  /** The map after the insertion loop has run over the first `k` cells. */
  function Mapping(t: seq<seq<int>>, k: nat): (reps: seq<nat>)
    requires Uniform(t) && k <= |t|
    ensures MapInv(t, reps, k)
  {
    if k == 0 then [] else Step(t, Mapping(t, k - 1), k - 1)
  }

  /** One pass of the insertion loop on a map that already holds the first `i` cells. */
  function Step(t: seq<seq<int>>, prev: seq<nat>, i: nat): (r: seq<nat>)
    requires Uniform(t) && MapInv(t, prev, i) && i < |t|
    ensures MapInv(t, r, i + 1)
    ensures r == Insert(t, prev, i)
  {
    InsertKeeps(t, prev, i);
    Insert(t, prev, i)
  }

  /** After all cells are in, every cell's lookup lands on a key carrying its own tuple. */
  lemma LookupLandsOnOwnTuple(t: seq<seq<int>>, reps: seq<nat>, i: nat)
    requires Uniform(t) && MapInv(t, reps, |t|) && i < |t|
    ensures LowerBound(t, reps, i) < |reps|
    ensures t[reps[LowerBound(t, reps, i)]] == t[i]
  {
    FoundIffPresent(t, reps, i);
  }

  /** The unique combinations: one label sequence per factor, and the number of cells in each combination. */
  datatype Combinations = Combinations(factors: seq<seq<int>>, counts: seq<nat>)
  {
    /** Every factor's label sequence has one entry per combination. */
    predicate WellShaped()
    {
      forall f :: 0 <= f < |factors| ==> |factors[f]| == |counts|
    }

    /** The labels of combination `u`, one per factor. */
    function Combination(u: nat): (c: seq<int>)
      requires WellShaped() && u < |counts|
      ensures |c| == |factors| && forall f :: 0 <= f < |factors| ==> c[f] == factors[f][u]
    {
      seq(|factors|, f requires 0 <= f < |factors| => factors[f][u])
    }

    /** All combinations in output order. */
    function List(): (l: seq<seq<int>>)
      requires WellShaped()
      ensures |l| == |counts| && forall u :: 0 <= u < |counts| ==> l[u] == Combination(u)
    {
      seq(|counts|, u requires 0 <= u < |counts| => Combination(u))
    }
  }

  /** The combinations, together with the combined factor written to the caller's array. */
  datatype Combined = Combined(levels: Combinations, combined: seq<nat>)

  /** The counting loop: every cell adds one to the count of its combination. */
  function Tally(xs: seq<nat>, size: nat): (c: seq<nat>)
    requires forall i :: 0 <= i < |xs| ==> xs[i] < size
    ensures |c| == size
  {
    if |xs| == 0 then seq(size, _ => 0)
    else
      var c := Tally(xs[..|xs| - 1], size);
      var x := xs[|xs| - 1];
      c[x := c[x] + 1]
  }

  /** Counting one more cell adds one to its combination's count and to no other. */
  lemma TallyAppend(xs: seq<nat>, x: nat, size: nat)
    requires forall i :: 0 <= i < |xs| ==> xs[i] < size
    requires x < size
    ensures Tally(xs + [x], size) == Tally(xs, size)[x := Tally(xs, size)[x] + 1]
  {
    assert (xs + [x])[..|xs|] == xs;
  }

  /** The cells of combination `u`. */
  function CellsOf(xs: seq<nat>, u: nat): set<nat>
  {
    set i: nat | i < |xs| && xs[i] == u
  }

  /** Sum of counts. */
  function Total(c: seq<nat>): nat
  {
    if |c| == 0 then 0 else Total(c[..|c| - 1]) + c[|c| - 1]
  }

  /**
   * Combines the factors of `n` cells. The combinations are the map's keys'
   * tuples in key order; each cell's combined index is the position of its
   * lookup in the map; the counts come from the counting loop.
   */
  function Combine(n: nat, factors: seq<seq<int>>): (r: Combined)
    requires ValidFactors(n, factors)
    ensures |r.combined| == n && |r.levels.factors| == |factors| && r.levels.WellShaped()
    ensures forall i :: 0 <= i < n ==> r.combined[i] < |r.levels.counts|
  {
    var t := Tuples(n, factors);
    var reps := Mapping(t, n);
    var combined := Lookups(t, reps);
    Combined(Combinations(LevelTable(factors, reps, n), Tally(combined, |reps|)), combined)
  }

  /** Every cell's lookup position in the finished map. */
  function Lookups(t: seq<seq<int>>, reps: seq<nat>): (c: seq<nat>)
    requires Uniform(t) && MapInv(t, reps, |t|)
    ensures |c| == |t|
    ensures forall i :: 0 <= i < |t| ==> c[i] == LowerBound(t, reps, i) < |reps|
  {
    forall i | 0 <= i < |t|
      ensures LowerBound(t, reps, i) < |reps|
    {
      LookupLandsOnOwnTuple(t, reps, i);
    }
    seq(|t|, i requires 0 <= i < |t| => LowerBound(t, reps, i))
  }

  /** The label table: entry `u` of factor `f`'s list is factor `f`'s label of key cell `reps[u]`. */
  function LevelTable(factors: seq<seq<int>>, reps: seq<nat>, n: nat): (table: seq<seq<int>>)
    requires ValidFactors(n, factors) && Within(reps, n)
    ensures |table| == |factors|
    ensures forall f :: 0 <= f < |factors| ==> |table[f]| == |reps|
    ensures forall f, u :: 0 <= f < |factors| && 0 <= u < |reps| ==> table[f][u] == factors[f][reps[u]]
  {
    seq(|factors|, f requires 0 <= f < |factors| =>
      seq(|reps|, u requires 0 <= u < |reps| => factors[f][reps[u]]))
  }

  /** The combinations listed by `Combine` are the map's keys' tuples. */
  lemma CombinationsAreKeys(n: nat, factors: seq<seq<int>>)
    requires ValidFactors(n, factors)
    ensures Combine(n, factors).levels.List() == RepTuples(Tuples(n, factors), Mapping(Tuples(n, factors), n))
  {
    var t := Tuples(n, factors);
    var rt := RepTuples(t, Mapping(t, n));
    var l := Combine(n, factors).levels.List();
    assert |l| == |rt|;
    forall u | 0 <= u < |l|
      ensures l[u] == rt[u]
    {
      assert |l[u]| == |rt[u]|;
    }
  }

  /** The combinations are strictly increasing in the lexicographic order of labels, so also distinct. */
  lemma CombinationsSorted(n: nat, factors: seq<seq<int>>)
    requires ValidFactors(n, factors)
    ensures StrictlySorted(Combine(n, factors).levels.List())
  {
    CombinationsAreKeys(n, factors);
  }

  /** Each cell's combined index names a combination whose labels are the cell's own labels. */
  lemma CombinedRecoversLabels(n: nat, factors: seq<seq<int>>, i: nat)
    requires ValidFactors(n, factors) && i < n
    ensures Combine(n, factors).combined[i] < |Combine(n, factors).levels.counts|
    ensures forall f :: 0 <= f < |factors| ==>
      Combine(n, factors).levels.factors[f][Combine(n, factors).combined[i]] == factors[f][i]
  {
    var t := Tuples(n, factors);
    LookupLandsOnOwnTuple(t, Mapping(t, n), i);
  }

  /** Once every cell is in, the keys' tuples are exactly the observed tuples, each once. */
  lemma KeysAreObserved(t: seq<seq<int>>, reps: seq<nat>)
    requires MapInv(t, reps, |t|)
    ensures Elements(RepTuples(t, reps)) == Elements(t)
    ensures |reps| == |Elements(t)|
  {
    var rt := RepTuples(t, reps);
    forall x | x in Elements(t)
      ensures x in Elements(rt)
    {
      var i :| 0 <= i < |t| && t[i] == x;
      assert t[i] in rt;
    }
    forall x | x in Elements(rt)
      ensures x in Elements(t)
    {
      var u :| 0 <= u < |rt| && rt[u] == x;
      assert t[reps[u]] == x;
    }
    forall a, b | 0 <= a < b < |rt|
      ensures rt[a] != rt[b]
    {
      SortedDistinct(rt, a, b);
    }
    DistinctCardinality(rt);
  }

  /** The tuples of `xs` that come before `y`. */
  function Before(xs: set<seq<int>>, y: seq<int>): set<seq<int>>
  {
    set x | x in xs && LexLess(x, y)
  }

  /** In a sorted list split at `p` around `y`, the elements before `y` are those of the first part, `p` of them. */
  lemma SplitCount(rt: seq<seq<int>>, p: nat, y: seq<int>)
    requires StrictlySorted(rt) && p <= |rt|
    requires forall u :: 0 <= u < p ==> LexLess(rt[u], y)
    requires forall u :: p <= u < |rt| ==> !LexLess(rt[u], y)
    ensures |Before(Elements(rt), y)| == p
  {
    var before := Before(Elements(rt), y);
    forall x | x in before
      ensures x in Elements(rt[..p])
    {
      var u :| 0 <= u < |rt| && rt[u] == x;
      assert rt[..p][u] == x;
    }
    forall x | x in Elements(rt[..p])
      ensures x in before
    {
      var u :| 0 <= u < p && rt[..p][u] == x;
      assert rt[u] == x;
    }
    assert before == Elements(rt[..p]);
    forall a, b | 0 <= a < b < p
      ensures rt[..p][a] != rt[..p][b]
    {
      SortedDistinct(rt, a, b);
    }
    DistinctCardinality(rt[..p]);
  }

  /** The lower bound of a cell in the full map is the number of distinct observed tuples before the cell's. */
  lemma LowerBoundIsRank(t: seq<seq<int>>, reps: seq<nat>, i: nat)
    requires MapInv(t, reps, |t|) && i < |t|
    ensures LowerBound(t, reps, i) == |Before(Elements(t), t[i])|
  {
    var rt := RepTuples(t, reps);
    KeysAreObserved(t, reps);
    LowerBoundAfter(t, reps, i);
    SplitCount(rt, LowerBound(t, reps, i), t[i]);
  }

  /** The combinations are exactly the label tuples that occur, each once. */
  lemma CombinationsAreObserved(n: nat, factors: seq<seq<int>>)
    requires ValidFactors(n, factors)
    ensures Elements(Combine(n, factors).levels.List()) == Elements(Tuples(n, factors))
    ensures |Combine(n, factors).levels.counts| == |Elements(Tuples(n, factors))|
  {
    var t := Tuples(n, factors);
    CombinationsAreKeys(n, factors);
    KeysAreObserved(t, Mapping(t, n));
  }

  /** A cell's combined index is its tuple's rank: the number of distinct observed tuples before it. */
  lemma CombinedIsRank(n: nat, factors: seq<seq<int>>, i: nat)
    requires ValidFactors(n, factors) && i < n
    ensures Combine(n, factors).combined[i] ==
      |Before(Elements(Tuples(n, factors)), Tuples(n, factors)[i])|
  {
    var t := Tuples(n, factors);
    LowerBoundIsRank(t, Mapping(t, n), i);
  }

  lemma {:induction false} TallyCounts(xs: seq<nat>, size: nat, u: nat)
    requires forall i :: 0 <= i < |xs| ==> xs[i] < size
    requires u < size
    ensures Tally(xs, size)[u] == |CellsOf(xs, u)|
  {
    if |xs| > 0 {
      var init := xs[..|xs| - 1];
      TallyCounts(init, size, u);
      if xs[|xs| - 1] == u {
        assert CellsOf(xs, u) == CellsOf(init, u) + {|xs| - 1};
      } else {
        assert CellsOf(xs, u) == CellsOf(init, u);
      }
    } else {
      assert CellsOf(xs, u) == {};
    }
  }

  lemma {:induction false} TotalIncrement(c: seq<nat>, x: nat)
    requires x < |c|
    ensures Total(c[x := c[x] + 1]) == Total(c) + 1
  {
    var d := c[x := c[x] + 1];
    if x < |c| - 1 {
      assert d[..|d| - 1] == c[..|c| - 1][x := c[x] + 1];
      TotalIncrement(c[..|c| - 1], x);
    } else {
      assert d[..|d| - 1] == c[..|c| - 1];
    }
  }

  lemma {:induction false} TotalZeros(size: nat)
    ensures Total(seq(size, _ => 0)) == 0
  {
    if size > 0 {
      assert seq(size, _ => 0)[..size - 1] == seq(size - 1, _ => 0);
      TotalZeros(size - 1);
    }
  }

  /** Every cell is counted exactly once. */
  lemma {:induction false} TallyTotal(xs: seq<nat>, size: nat)
    requires forall i :: 0 <= i < |xs| ==> xs[i] < size
    ensures Total(Tally(xs, size)) == |xs|
  {
    if |xs| == 0 {
      TotalZeros(size);
    } else {
      TallyTotal(xs[..|xs| - 1], size);
      TotalIncrement(Tally(xs[..|xs| - 1], size), xs[|xs| - 1]);
    }
  }

  /**
   * Each count is the number of cells given that combination, it is
   * positive (the key cell of the combination is one of them), and the
   * counts add up to the number of cells.
   */
  lemma CountsAreGroupSizes(n: nat, factors: seq<seq<int>>)
    requires ValidFactors(n, factors)
    ensures forall u :: 0 <= u < |Combine(n, factors).levels.counts| ==>
      Combine(n, factors).levels.counts[u] == |CellsOf(Combine(n, factors).combined, u)| &&
      Combine(n, factors).levels.counts[u] > 0
    ensures Total(Combine(n, factors).levels.counts) == n
  {
    var r := Combine(n, factors);
    var t := Tuples(n, factors);
    var reps := Mapping(t, n);
    var rt := RepTuples(t, reps);
    forall u | 0 <= u < |r.levels.counts|
      ensures r.levels.counts[u] == |CellsOf(r.combined, u)| && r.levels.counts[u] > 0
    {
      TallyCounts(r.combined, |reps|, u);
      var cell := reps[u];
      LookupLandsOnOwnTuple(t, reps, cell);
      var p := LowerBound(t, reps, cell);
      if p != u {
        SortedDistinct(rt, p, u);
      }
      assert cell in CellsOf(r.combined, u);
    }
    TallyTotal(r.combined, |reps|);
  }

  /**
   * The combinations and combined factor agree with an independent
   * reference: for any strictly sorted list of exactly the observed label
   * tuples, the combinations are that list and every cell's combined index
   * is the position of its tuple in it.
   */
  lemma MatchesSortedEnumeration(n: nat, factors: seq<seq<int>>, ref: seq<seq<int>>)
    requires ValidFactors(n, factors)
    requires StrictlySorted(ref) && Elements(ref) == Elements(Tuples(n, factors))
    ensures Combine(n, factors).levels.List() == ref
    ensures forall i, u :: 0 <= i < n && 0 <= u < |ref| && ref[u] == Tuples(n, factors)[i] ==>
      Combine(n, factors).combined[i] == u
  {
    var t := Tuples(n, factors);
    var reps := Mapping(t, n);
    CombinationsAreKeys(n, factors);
    KeysAreObserved(t, reps);
    SortedEnumerationUnique(RepTuples(t, reps), ref);
    forall i, u | 0 <= i < n && 0 <= u < |ref| && ref[u] == t[i]
      ensures LowerBound(t, reps, i) == u
    {
      PositionInReference(n, factors, ref, i, u);
    }
  }

  /** One cell of `MatchesSortedEnumeration`: the cell whose tuple is `ref[u]` gets combined index `u`. */
  lemma PositionInReference(n: nat, factors: seq<seq<int>>, ref: seq<seq<int>>, i: nat, u: nat)
    requires ValidFactors(n, factors)
    requires StrictlySorted(ref) && Elements(ref) == Elements(Tuples(n, factors))
    requires i < n && u < |ref| && ref[u] == Tuples(n, factors)[i]
    ensures Combine(n, factors).combined[i] == u
  {
    var t := Tuples(n, factors);
    var reps := Mapping(t, n);
    var rt := RepTuples(t, reps);
    KeysAreObserved(t, reps);
    SortedEnumerationUnique(rt, ref);
    LookupLandsOnOwnTuple(t, reps, i);
    var c := LowerBound(t, reps, i);
    assert rt[c] == t[i];
    if c != u {
      SortedDistinct(ref, c, u);
    }
  }

  /** The combination table, given the sorted reference: factor `f`'s label of combination `u` is entry `f` of `ref[u]`. */
  lemma TableFromReference(n: nat, factors: seq<seq<int>>, ref: seq<seq<int>>)
    requires ValidFactors(n, factors)
    requires StrictlySorted(ref) && Elements(ref) == Elements(Tuples(n, factors))
    ensures |Combine(n, factors).levels.counts| == |ref|
    ensures forall f, u :: 0 <= f < |factors| && 0 <= u < |ref| ==>
      |ref[u]| == |factors| && Combine(n, factors).levels.factors[f][u] == ref[u][f]
  {
    MatchesSortedEnumeration(n, factors, ref);
    var c := Combine(n, factors).levels;
    forall f, u | 0 <= f < |factors| && 0 <= u < |ref|
      ensures |ref[u]| == |factors| && c.factors[f][u] == ref[u][f]
    {
      assert c.List()[u] == c.Combination(u);
    }
  }

  /** The whole combined factor, given each cell's position in the sorted reference. */
  lemma CombinedFromReference(n: nat, factors: seq<seq<int>>, ref: seq<seq<int>>, expected: seq<nat>)
    requires ValidFactors(n, factors)
    requires StrictlySorted(ref) && Elements(ref) == Elements(Tuples(n, factors))
    requires |expected| == n
    requires forall i :: 0 <= i < n ==> expected[i] < |ref| && ref[expected[i]] == Tuples(n, factors)[i]
    ensures Combine(n, factors).combined == expected
  {
    forall i | 0 <= i < n
      ensures Combine(n, factors).combined[i] == expected[i]
    {
      PositionInReference(n, factors, ref, i, expected[i]);
    }
  }

  /** With no factors every cell's tuple is the empty one. */
  lemma NoFactorsOneTuple(n: nat)
    requires n > 0
    ensures |Combine(n, []).levels.counts| == 1
  {
    var t := Tuples(n, []);
    assert Elements(t) == {[]} by {
      assert t[0] == [];
      assert t[0] in Elements(t);
    }
    CombinationsAreObserved(n, []);
  }

  /** With no factors every cell has the empty tuple: one combination holding all cells. */
  lemma NoFactors(n: nat)
    requires n > 0
    ensures |Combine(n, []).levels.counts| == 1
    ensures Combine(n, []).levels.counts == [n]
    ensures Combine(n, []).combined == seq(n, _ => 0)
  {
    var r := Combine(n, []);
    NoFactorsOneTuple(n);
    assert r.combined == seq(n, _ => 0);
    CountsAreGroupSizes(n, []);
    AllCells(r.combined, 0);
    assert r.levels.counts[0] == n;
  }

  /** When every cell has the same combination, that combination has all the cells. */
  lemma {:induction false} AllCells(xs: seq<nat>, u: nat)
    requires forall i :: 0 <= i < |xs| ==> xs[i] == u
    ensures |CellsOf(xs, u)| == |xs|
  {
    if |xs| > 0 {
      var init := xs[..|xs| - 1];
      AllCells(init, u);
      assert CellsOf(xs, u) == CellsOf(init, u) + {|xs| - 1};
    } else {
      assert CellsOf(xs, u) == {};
    }
  }

  /**
   * A single factor whose labels are exactly `0 .. levels - 1`, each used
   * at least once, comes back unchanged as the combined factor, with one
   * combination per label.
   */
  lemma SingleFactorDense(n: nat, labels: seq<int>, levels: nat)
    requires |labels| == n
    requires forall i :: 0 <= i < n ==> 0 <= labels[i] < levels
    requires forall v :: 0 <= v < levels ==> v in labels
    ensures ValidFactors(n, [labels])
    ensures forall i :: 0 <= i < n ==> Combine(n, [labels]).combined[i] == labels[i]
    ensures Combine(n, [labels]).levels.List() == seq(levels, v => [v])
  {
    var ref := seq(levels, v => [v]);
    var t := Tuples(n, [labels]);
    assert forall i :: 0 <= i < n ==> t[i] == [labels[i]] by {
      forall i | 0 <= i < n
        ensures t[i] == [labels[i]]
      {
        assert |t[i]| == 1;
      }
    }
    assert StrictlySorted(ref);
    forall x | x in Elements(t)
      ensures x in Elements(ref)
    {
      var i :| 0 <= i < n && t[i] == x;
      assert ref[labels[i]] == x;
    }
    forall x | x in Elements(ref)
      ensures x in Elements(t)
    {
      var v :| 0 <= v < levels && ref[v] == x;
      assert v in labels;
      var i :| 0 <= i < n && labels[i] == v;
      assert t[i] == x;
    }
    var expected := seq(n, i requires 0 <= i < n => labels[i] as nat);
    forall i | 0 <= i < n
      ensures expected[i] < |ref| && ref[expected[i]] == t[i]
    {
    }
    CombinedFromReference(n, [labels], ref, expected);
    MatchesSortedEnumeration(n, [labels], ref);
  }
}

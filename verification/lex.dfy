/**
 * The lexicographic order on label tuples that factor combination sorts
 * by: compare the first factor's labels, and only on a tie move on to the
 * next factor. Tuples that agree everywhere are not ordered.
 */
module Lex {

  /** `a` comes strictly before `b`. */
  predicate LexLess(a: seq<int>, b: seq<int>)
    decreases |a|
  {
    if |a| == 0 || |b| == 0 then false
    else if a[0] < b[0] then true
    else if a[0] > b[0] then false
    else LexLess(a[1..], b[1..])
  }

  lemma {:induction false} LexIrreflexive(a: seq<int>)
    ensures !LexLess(a, a)
    decreases |a|
  {
    if |a| > 0 {
      LexIrreflexive(a[1..]);
    }
  }

  lemma {:induction false} LexTransitive(a: seq<int>, b: seq<int>, c: seq<int>)
    requires LexLess(a, b) && LexLess(b, c)
    ensures LexLess(a, c)
    decreases |a|
  {
    if a[0] == b[0] && b[0] == c[0] {
      LexTransitive(a[1..], b[1..], c[1..]);
    }
  }

  /** Two tuples of the same length are equal or ordered one way or the other. */
  lemma {:induction false} LexTrichotomy(a: seq<int>, b: seq<int>)
    requires |a| == |b|
    ensures LexLess(a, b) || a == b || LexLess(b, a)
    decreases |a|
  {
    if |a| > 0 && a[0] == b[0] {
      LexTrichotomy(a[1..], b[1..]);
      if a[1..] == b[1..] {
        assert a == [a[0]] + a[1..] && b == [b[0]] + b[1..];
      }
    }
  }

  lemma LexAsymmetric(a: seq<int>, b: seq<int>)
    requires LexLess(a, b)
    ensures !LexLess(b, a)
  {
    if LexLess(b, a) {
      LexTransitive(a, b, a);
      LexIrreflexive(a);
    }
  }

  /** Every tuple in `xs` has length `k`. */
  predicate AllOfLength(xs: seq<seq<int>>, k: nat)
  {
    forall i :: 0 <= i < |xs| ==> |xs[i]| == k
  }

  /** Strictly increasing under the lexicographic order, hence without repeats. */
  predicate StrictlySorted(xs: seq<seq<int>>)
  {
    forall u, v :: 0 <= u < v < |xs| ==> LexLess(xs[u], xs[v])
  }

  /** A strictly sorted sequence has no repeats. */
  lemma SortedDistinct(xs: seq<seq<int>>, u: nat, v: nat)
    requires StrictlySorted(xs) && u < |xs| && v < |xs| && u != v
    ensures xs[u] != xs[v]
  {
    if u < v {
      LexIrreflexive(xs[u]);
    } else {
      LexIrreflexive(xs[v]);
    }
  }

  /** The elements of a sequence as a set. */
  function Elements(xs: seq<seq<int>>): set<seq<int>>
  {
    set x | x in xs
  }

  /**
   * A finite set of tuples has exactly one strictly sorted
   * enumeration: two strictly sorted sequences with the same elements are
   * equal.
   */
  lemma {:induction false} SortedEnumerationUnique(xs: seq<seq<int>>, ys: seq<seq<int>>)
    requires StrictlySorted(xs) && StrictlySorted(ys)
    requires Elements(xs) == Elements(ys)
    ensures xs == ys
    decreases |xs| + |ys|
  {
    if |xs| > 0 && |ys| > 0 {
      // The first elements are both the least element of the common set.
      assert xs[0] in Elements(ys);
      assert ys[0] in Elements(xs);
      var i :| 0 <= i < |ys| && ys[i] == xs[0];
      var j :| 0 <= j < |xs| && xs[j] == ys[0];
      if xs[0] != ys[0] {
        assert i != 0 && j != 0;
        LexTransitive(xs[0], xs[j], ys[i]);
        LexIrreflexive(xs[0]);
      }
      var xt, yt := xs[1..], ys[1..];
      forall x | x in Elements(xt)
        ensures x in Elements(yt)
      {
        var a :| 0 <= a < |xt| && xt[a] == x;
        assert x in Elements(ys);
        SortedDistinct(xs, 0, a + 1);
        var b :| 0 <= b < |ys| && ys[b] == x;
        assert b != 0;
        assert yt[b - 1] == x;
      }
      forall y | y in Elements(yt)
        ensures y in Elements(xt)
      {
        var b :| 0 <= b < |yt| && yt[b] == y;
        assert y in Elements(xs);
        SortedDistinct(ys, 0, b + 1);
        var a :| 0 <= a < |xs| && xs[a] == y;
        assert a != 0;
        assert xt[a - 1] == y;
      }
      SortedEnumerationUnique(xt, yt);
      assert xs == [xs[0]] + xt && ys == [ys[0]] + yt;
    } else {
      NoElements(xs);
      NoElements(ys);
    }
  }

  lemma NoElements(xs: seq<seq<int>>)
    ensures Elements(xs) == {} <==> |xs| == 0
  {
    if |xs| > 0 {
      assert xs[0] in Elements(xs);
    }
  }

  /** A sequence without repeats has as many elements as its set. */
  lemma {:induction false} DistinctCardinality(xs: seq<seq<int>>)
    requires forall u, v :: 0 <= u < v < |xs| ==> xs[u] != xs[v]
    ensures |Elements(xs)| == |xs|
    decreases |xs|
  {
    if |xs| > 0 {
      var init := xs[..|xs| - 1];
      DistinctCardinality(init);
      assert Elements(xs) == Elements(init) + {xs[|xs| - 1]};
      assert xs[|xs| - 1] !in Elements(init);
    }
  }
}

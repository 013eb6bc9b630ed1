/**
  The unordered index pairs `(i, j)` with `i < j < n`, in the order in which
  the nested loops of a tick visit them: row by row in increasing `i`, and
  within a row in increasing `j`. Both the all-pairs repulsion and the edge
  generation of the spanning tree visit exactly this sequence.
*/
module Pairs {

  type IndexPair = (nat, nat)

  /** The pairs `(i, k)` with `i < k < m`, in increasing `k`: row `i` visited up to column `m`. */
  function Row(i: nat, m: nat): (p: seq<IndexPair>)
    ensures |p| == if m <= i then 0 else m - 1 - i
  {
    if m == 0 then [] else Row(i, m - 1) + (if i < m - 1 then [(i, m - 1)] else [])
  }

  /** The `t`-th pair of row `i` is `(i, i + 1 + t)`. */
  lemma {:induction false} RowElements(i: nat, m: nat)
    ensures forall t :: 0 <= t < |Row(i, m)| ==> Row(i, m)[t] == (i, i + 1 + t)
  {
    if m > 0 {
      RowElements(i, m - 1);
    }
  }

  /** Every pair of row `i` up to `m` is `(i, k)` with `i < k < m`, in increasing `k`. */
  lemma RowShape(i: nat, m: nat)
    ensures forall t :: 0 <= t < |Row(i, m)| ==> Row(i, m)[t].0 == i && i < Row(i, m)[t].1 < m
    ensures forall t, u :: 0 <= t < u < |Row(i, m)| ==> Row(i, m)[t].1 < Row(i, m)[u].1
  {
    RowElements(i, m);
  }

  /** Rows `0 .. i - 1`, each visited completely, of an `n`-element collection. */
  function Rows(n: nat, i: nat): seq<IndexPair>
    requires i <= n
  {
    if i == 0 then [] else Rows(n, i - 1) + Row(i - 1, n)
  }

  /** Every pair of the first `i` rows is `(a, b)` with `a < i` and `a < b < n`. */
  lemma {:induction false} RowsShape(n: nat, i: nat)
    requires i <= n
    ensures forall t :: 0 <= t < |Rows(n, i)| ==> Rows(n, i)[t].0 < i && Rows(n, i)[t].0 < Rows(n, i)[t].1 < n
  {
    if i > 0 {
      RowsShape(n, i - 1);
      RowShape(i - 1, n);
      var p, q := Rows(n, i - 1), Row(i - 1, n);
      assert forall t :: |p| <= t < |p + q| ==> (p + q)[t] == q[t - |p|];
    }
  }

  lemma {:induction false} RowsLength(n: nat, i: nat)
    requires i <= n
    ensures 2 * |Rows(n, i)| == i * (2 * n - i - 1)
  {
    if i > 0 {
      RowsLength(n, i - 1);
      assert (i - 1) * (2 * n - (i - 1) - 1) + 2 * (n - i) == i * (2 * n - i - 1);
    }
  }

  function IndexPairs(n: nat): seq<IndexPair>
  {
    Rows(n, n)
  }

  lemma RowsWithin(n: nat, i: nat)
    requires i <= n
    ensures Within(Rows(n, i), n)
  {
    RowsShape(n, i);
  }

  /** Strict lexicographic order on pairs. */
  predicate PairLess(p: IndexPair, q: IndexPair)
  {
    p.0 < q.0 || (p.0 == q.0 && p.1 < q.1)
  }

  predicate StrictlyIncreasing(p: seq<IndexPair>)
  {
    forall t, u :: 0 <= t < u < |p| ==> PairLess(p[t], p[u])
  }

  predicate Within(p: seq<IndexPair>, n: nat)
  {
    forall t :: 0 <= t < |p| ==> p[t].0 < n && p[t].1 < n
  }

  lemma {:induction false} RowContains(i: nat, m: nat, j: nat)
    requires i < j < m
    ensures (i, j) in Row(i, m)
  {
    if j < m - 1 {
      RowContains(i, m - 1, j);
    } else {
      assert Row(i, m)[|Row(i, m)| - 1] == (i, j);
    }
  }

  lemma {:induction false} RowsContain(n: nat, i: nat, a: nat, b: nat)
    requires i <= n && a < i && a < b < n
    ensures (a, b) in Rows(n, i)
  {
    var p, q := Rows(n, i - 1), Row(i - 1, n);
    if a == i - 1 {
      RowContains(a, n, b);
      assert (a, b) in q;
    } else {
      RowsContain(n, i - 1, a, b);
      assert (a, b) in p;
    }
    assert Rows(n, i) == p + q;
  }

  lemma {:induction false} RowsIncreasing(n: nat, i: nat)
    requires i <= n
    ensures StrictlyIncreasing(Rows(n, i))
  {
    if i > 0 {
      RowsIncreasing(n, i - 1);
      RowsShape(n, i - 1);
      RowShape(i - 1, n);
      var p, q := Rows(n, i - 1), Row(i - 1, n);
      forall t, u | 0 <= t < u < |p + q|
        ensures PairLess((p + q)[t], (p + q)[u])
      {
        if u < |p| {
        } else if t < |p| {
          assert (p + q)[u] == q[u - |p|];
        } else {
          assert (p + q)[t] == q[t - |p|] && (p + q)[u] == q[u - |p|];
        }
      }
    }
  }

  /**
    The nested loops visit every unordered pair of `0 .. n - 1` exactly once:
    each visited pair is ordered and in range, every ordered pair is visited,
    no pair is visited twice, and there are n(n-1)/2 visits.
  */
  lemma IndexPairsExactlyOnce(n: nat)
    ensures forall t :: 0 <= t < |IndexPairs(n)| ==> IndexPairs(n)[t].0 < IndexPairs(n)[t].1 < n
    ensures forall i, j :: 0 <= i < j < n ==> (i, j) in IndexPairs(n)
    ensures forall t, u :: 0 <= t < u < |IndexPairs(n)| ==> IndexPairs(n)[t] != IndexPairs(n)[u]
    ensures 2 * |IndexPairs(n)| == n * (n - 1)
  {
    RowsLength(n, n);
    RowsShape(n, n);
    RowsIncreasing(n, n);
    forall i, j | 0 <= i < j < n
      ensures (i, j) in IndexPairs(n)
    {
      RowsContain(n, n, i, j);
    }
  }
}

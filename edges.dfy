/**
  The candidate edges of the spanning tree: one edge `(distance, i, j)` for
  every pair of node centers with `i < j`, generated by a nested loop over all
  `(i, j)` that skips `i >= j`, then sorted as tuples (by distance, then by `i`,
  then by `j`).
*/
module Edges {
  import opened Node
  import opened Pairs

  /** The tuple `(distance, i, j)`. */
  datatype Edge = Edge(weight: real, i: nat, j: nat)

  /**
    `distance(p1, p2)`: the square root of the squared distance, with `sqrt`
    passed in. It is never negative, and with the true square root its square
    is the squared distance.
  */
  function Distance(sqrt: real -> real, p: Point, q: Point): (d: real)
    ensures SqrtSound(sqrt) ==> 0.0 <= d
    ensures IsSqrt(sqrt) ==> IsRoot(d, SqDist(p, q))
  {
    SqDistNonNegative(p, q);
    Sqrt(sqrt, SqDist(p, q))
  }

  /** The edges of the pairs `ps`, in the order of `ps`. */
  function EdgesAlong(centers: seq<Point>, ps: seq<IndexPair>, sqrt: real -> real): seq<Edge>
    requires Within(ps, |centers|)
  {
    seq(|ps|, k requires 0 <= k < |ps| => Candidate(centers, ps[k].0, ps[k].1, sqrt))
  }

  /** The list `edges` before sorting. */
  function AllEdges(centers: seq<Point>, sqrt: real -> real): seq<Edge>
  {
    RowsWithin(|centers|, |centers|);
    EdgesAlong(centers, IndexPairs(|centers|), sqrt)
  }

  /** The edge the nested loop appends for the pair `(i, j)`. */
  function Candidate(centers: seq<Point>, i: nat, j: nat, sqrt: real -> real): Edge
    requires i < |centers| && j < |centers|
  {
    Edge(Distance(sqrt, centers[i], centers[j]), i, j)
  }

  predicate IsCandidate(centers: seq<Point>, e: Edge, sqrt: real -> real)
  {
    e.i < e.j < |centers| && e == Candidate(centers, e.i, e.j, sqrt)
  }

  predicate SamePair(a: Edge, b: Edge)
  {
    a.i == b.i && a.j == b.j
  }

  predicate EdgesWithin(es: seq<Edge>, n: nat)
  {
    forall t :: 0 <= t < |es| ==> es[t].i < n && es[t].j < n
  }

  /**
    There are n(n-1)/2 candidate edges, one for each pair `i < j`: each joins
    two distinct nodes, in increasing index order, weighed by their distance;
    every pair has its edge; and no two edges join the same pair.
  */
  lemma AllEdgesExactlyOnce(centers: seq<Point>, sqrt: real -> real)
    ensures 2 * |AllEdges(centers, sqrt)| == |centers| * (|centers| - 1)
    ensures forall t :: 0 <= t < |AllEdges(centers, sqrt)| ==> IsCandidate(centers, AllEdges(centers, sqrt)[t], sqrt)
    ensures forall i, j :: 0 <= i < j < |centers| ==> Candidate(centers, i, j, sqrt) in AllEdges(centers, sqrt)
    ensures forall t, u :: 0 <= t < u < |AllEdges(centers, sqrt)| ==> !SamePair(AllEdges(centers, sqrt)[t], AllEdges(centers, sqrt)[u])
  {
    var n := |centers|;
    var ps := IndexPairs(n);
    IndexPairsExactlyOnce(n);
    RowsWithin(n, n);
    var es := AllEdges(centers, sqrt);
    forall i, j | 0 <= i < j < n
      ensures Candidate(centers, i, j, sqrt) in es
    {
      var t :| 0 <= t < |ps| && ps[t] == (i, j);
      assert es[t] == Candidate(centers, i, j, sqrt);
    }
  }

  lemma EdgesAlongSnoc(centers: seq<Point>, ps: seq<IndexPair>, p: IndexPair, sqrt: real -> real)
    requires Within(ps, |centers|) && p.0 < |centers| && p.1 < |centers|
    ensures Within(ps + [p], |centers|)
    ensures EdgesAlong(centers, ps + [p], sqrt) == EdgesAlong(centers, ps, sqrt) + [Candidate(centers, p.0, p.1, sqrt)]
  {
  }

  /** The nested loop of `connect_rectangles_mst` that fills `edges`. */
  method GenerateEdges(centers: seq<Point>, sqrt: real -> real) returns (edges: seq<Edge>)
    ensures edges == AllEdges(centers, sqrt)
  {
    var n := |centers|;
    edges := [];
    ghost var visited: seq<IndexPair> := [];
    var i := 0;
    while i < n
      invariant 0 <= i <= n
      invariant visited == Rows(n, i) && Within(visited, n)
      invariant edges == EdgesAlong(centers, visited, sqrt)
    {
      var j := 0;
      while j < n
        invariant 0 <= j <= n
        invariant visited == Rows(n, i) + Row(i, j) && Within(visited, n)
        invariant edges == EdgesAlong(centers, visited, sqrt)
      {
        if i < j {
          EdgesAlongSnoc(centers, visited, (i, j), sqrt);
          edges := edges + [Candidate(centers, i, j, sqrt)];
          visited := visited + [(i, j)];
        }
        j := j + 1;
      }
      i := i + 1;
    }
    RowsWithin(n, n);
  }

  /** Python's tuple order on `(distance, i, j)`. */
  predicate EdgeLe(a: Edge, b: Edge)
  {
    a.weight < b.weight || (a.weight == b.weight && (a.i < b.i || (a.i == b.i && a.j <= b.j)))
  }

  predicate SortedEdges(s: seq<Edge>)
  {
    forall k, l :: 0 <= k < l < |s| ==> EdgeLe(s[k], s[l])
  }

  function Insert(e: Edge, s: seq<Edge>): (r: seq<Edge>)
    requires SortedEdges(s)
    ensures SortedEdges(r)
    ensures multiset(r) == multiset(s) + multiset{e}
  {
    if s == [] then [e]
    else if EdgeLe(e, s[0]) then
      assert s == [s[0]] + s[1..];
      [e] + s
    else
      var rest := Insert(e, s[1..]);
      assert s == [s[0]] + s[1..];
      InsertKeepsLowerBound(s[0], e, s[1..], rest);
      [s[0]] + rest
  }

  /** A lower bound of the inserted edge and of the list bounds the result too. */
  lemma InsertKeepsLowerBound(x: Edge, e: Edge, s: seq<Edge>, r: seq<Edge>)
    requires EdgeLe(x, e) && (forall k :: 0 <= k < |s| ==> EdgeLe(x, s[k]))
    requires SortedEdges(r) && multiset(r) == multiset(s) + multiset{e}
    ensures SortedEdges([x] + r)
  {
    forall k | 0 <= k < |r|
      ensures EdgeLe(x, r[k])
    {
      assert r[k] in multiset(r);
      if r[k] != e {
        assert r[k] in multiset(s);
      }
    }
  }

  /** `edges.sort()`: the same edges, in tuple order. */
  function SortEdges(s: seq<Edge>): (r: seq<Edge>)
    ensures SortedEdges(r)
    ensures multiset(r) == multiset(s)
  {
    if s == [] then []
    else
      assert s == [s[0]] + s[1..];
      Insert(s[0], SortEdges(s[1..]))
  }

  /**
    The tuple order is total and antisymmetric, so a list has exactly one
    sorted rearrangement: whatever algorithm sorts it, the result is the one
    SortEdges returns.
  */
  lemma {:induction false} SortedUnique(a: seq<Edge>, b: seq<Edge>)
    requires SortedEdges(a) && SortedEdges(b) && multiset(a) == multiset(b)
    ensures a == b
  {
    if a != [] {
      assert a[0] in multiset(b);
      assert b[0] in multiset(a);
      HeadIsLeast(a, b[0]);
      HeadIsLeast(b, a[0]);
      SplitHead(a);
      SplitHead(b);
      SortedUnique(a[1..], b[1..]);
    } else {
      assert |b| == |multiset(b)|;
    }
  }

  lemma HeadIsLeast(s: seq<Edge>, x: Edge)
    requires SortedEdges(s) && x in multiset(s)
    ensures EdgeLe(s[0], x)
  {
    var k :| 0 <= k < |s| && s[k] == x;
  }

  /** Removing the head of a sorted list leaves a sorted list of the remaining edges. */
  lemma SplitHead(s: seq<Edge>)
    requires SortedEdges(s) && s != []
    ensures SortedEdges(s[1..])
    ensures multiset(s[1..]) == multiset(s) - multiset{s[0]}
  {
    assert s == [s[0]] + s[1..];
  }
}

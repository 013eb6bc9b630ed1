/**
  `connect_rectangles_mst` as the program runs it: the centers are collected,
  the candidate edges generated and sorted, and the sorted edges fed to the
  array-backed union-find; an edge is drawn exactly when `union` merges.
*/
module Mst {
  import opened Node
  import opened Edges
  import opened Graph
  import opened Kruskal
  import opened UnionFind

  /** A scan splits into its first step and the scan of the rest. */
  lemma RunUnfold(f: Forest, es: seq<Edge>, k: nat)
    requires EdgesWithin(es, |f.comp|) && k < |es|
    ensures EdgesWithin(es[k + 1..], |f.comp|)
    ensures Run(f, es[k..]) == Run(Step(f, es[k]), es[k + 1..])
  {
    assert es[k..][1..] == es[k + 1..];
    assert EdgesWithin(es[k..], |f.comp|);
  }

  /**
    `parent = list(range(n))` and the loop over the sorted edges: an edge is
    drawn exactly when `union(i, j)` merges two sets, which is the scan Run.
  */
  method DrawEdges(edges: seq<Edge>, n: nat) returns (tree: seq<Edge>)
    requires EdgesWithin(edges, n)
    ensures tree == Run(Init(n), edges).tree
  {
    var uf := new DisjointSets(n);
    tree := [];
    var k := 0;
    while k < |edges|
      invariant 0 <= k <= |edges|
      invariant fresh(uf.parent) && uf.Valid() && uf.parent.Length == n
      invariant Run(Forest(tree, uf.root), edges[k..]) == Run(Init(n), edges)
    {
      var e := edges[k];
      ghost var f := Forest(tree, uf.root);
      RunUnfold(f, edges, k);
      var merged := uf.Union(e.i, e.j);
      if merged {
        tree := tree + [e];
      }
      assert Forest(tree, uf.root) == Step(f, e);
      k := k + 1;
    }
    assert edges[k..] == [];
  }

  /** The lines drawn for the centers, in drawing order. */
  method ConnectMst(centers: seq<Point>, sqrt: real -> real) returns (tree: seq<Edge>)
    ensures tree == SpanningTree(centers, sqrt)
    ensures Acyclic(tree) && Spans(tree, |centers|)
    ensures |tree| == if |centers| > 0 then |centers| - 1 else 0
  {
    var edges := GenerateEdges(centers, sqrt);
    edges := SortEdges(edges);
    assert edges == ScanOrder(centers, sqrt);
    tree := DrawEdges(edges, |centers|);
    SpanningTreeSpans(centers, sqrt);
  }

  /** `centers = [rect.center() for rect in rectangles]`. */
  method Centers(rects: seq<Rectangle>) returns (centers: seq<Point>)
    ensures |centers| == |rects|
    ensures forall k :: 0 <= k < |rects| ==> centers[k] == Midpoint(rects[k].State())
  {
    centers := [];
    var k := 0;
    while k < |rects|
      invariant 0 <= k <= |rects| && |centers| == k
      invariant forall t :: 0 <= t < k ==> centers[t] == Midpoint(rects[t].State())
    {
      var c := rects[k].Center();
      centers := centers + [c];
      k := k + 1;
    }
  }

  /** The centers of a list of node values. */
  function CentersOf(s: seq<Body>): (c: seq<Point>)
    ensures |c| == |s|
  {
    seq(|s|, k requires 0 <= k < |s| => Midpoint(s[k]))
  }

  /** The whole of `connect_rectangles_mst(surface, rectangles)`, drawing replaced by returning the lines. */
  method ConnectRectanglesMst(rects: seq<Rectangle>, sqrt: real -> real) returns (tree: seq<Edge>)
    ensures tree == SpanningTree(CentersOf(States(rects)), sqrt)
    ensures Acyclic(tree) && Spans(tree, |rects|)
    ensures |tree| == if |rects| > 0 then |rects| - 1 else 0
  {
    var centers := Centers(rects);
    assert centers == CentersOf(States(rects));
    tree := ConnectMst(centers, sqrt);
  }
}

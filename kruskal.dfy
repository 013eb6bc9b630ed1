/**
  The edge loop of `connect_rectangles_mst` on values. The union-find
  structure is summarised by its component labels: `comp[z]` is the root that
  `find(z)` returns. Scanning an edge draws it exactly when its two ends have
  different labels, and then every node labelled with the root of `j`
  takes the root of `i` as its label, as `parent[rootY] = rootX` does.

  The theorems: the drawn edges never close a cycle, and once every
  candidate edge has been scanned they connect all nodes with n - 1 edges.
*/
module Kruskal {
  import opened Node
  import opened Pairs
  import opened Edges
  import opened Graph

  /** The drawn edges so far and the component label of every node. */
  datatype Forest = Forest(tree: seq<Edge>, comp: seq<nat>)

  /** `parent = list(range(n))`: every node is its own component; nothing is drawn. */
  function Init(n: nat): Forest
  {
    Forest([], seq(n, z => z))
  }

  /** The labels after every node labelled `from` is relabelled `to`. */
  function Relabel(comp: seq<nat>, from: nat, to: nat): (r: seq<nat>)
    ensures |r| == |comp|
  {
    seq(|comp|, z requires 0 <= z < |comp| => if comp[z] == from then to else comp[z])
  }

  /** One scanned edge: `if union(i, j): draw`. */
  function Step(f: Forest, e: Edge): (g: Forest)
    requires e.i < |f.comp| && e.j < |f.comp|
    ensures |g.comp| == |f.comp|
  {
    var ri, rj := f.comp[e.i], f.comp[e.j];
    if ri != rj then Forest(f.tree + [e], Relabel(f.comp, rj, ri)) else f
  }

  lemma EdgesWithinTail(es: seq<Edge>, n: nat)
    requires EdgesWithin(es, n) && es != []
    ensures EdgesWithin(es[1..], n)
  {
    forall t | 0 <= t < |es[1..]| ensures es[1..][t].i < n && es[1..][t].j < n {
      assert es[1..][t] == es[t + 1];
    }
  }

  /** Scanning the edges `es` in order. */
  function Run(f: Forest, es: seq<Edge>): (g: Forest)
    requires EdgesWithin(es, |f.comp|)
    ensures |g.comp| == |f.comp|
    decreases |es|
  {
    if es == [] then f
    else
      EdgesWithinTail(es, |f.comp|);
      Run(Step(f, es[0]), es[1..])
  }

  /** The candidate edges in the order they are scanned. */
  function ScanOrder(centers: seq<Point>, sqrt: real -> real): (es: seq<Edge>)
    ensures EdgesWithin(es, |centers|)
  {
    SortedCandidates(centers, sqrt);
    SortEdges(AllEdges(centers, sqrt))
  }

  lemma CandidatesWithin(centers: seq<Point>, es: seq<Edge>, sqrt: real -> real)
    requires forall t :: 0 <= t < |es| ==> IsCandidate(centers, es[t], sqrt)
    ensures EdgesWithin(es, |centers|)
  {
    forall t | 0 <= t < |es|
      ensures es[t].i < |centers| && es[t].j < |centers|
    {
      assert IsCandidate(centers, es[t], sqrt);
    }
  }

  /** The lines `connect_rectangles_mst` draws, in drawing order. */
  function SpanningTree(centers: seq<Point>, sqrt: real -> real): seq<Edge>
  {
    Run(Init(|centers|), ScanOrder(centers, sqrt)).tree
  }

  /** The sorted list holds exactly the candidate edges. */
  lemma SortedCandidates(centers: seq<Point>, sqrt: real -> real)
    ensures var es := SortEdges(AllEdges(centers, sqrt));
      && (forall t :: 0 <= t < |es| ==> IsCandidate(centers, es[t], sqrt))
      && (forall i, j :: 0 <= i < j < |centers| ==> Candidate(centers, i, j, sqrt) in es)
      && EdgesWithin(es, |centers|)
  {
    var all := AllEdges(centers, sqrt);
    var es := SortEdges(all);
    AllEdgesExactlyOnce(centers, sqrt);
    forall t | 0 <= t < |es|
      ensures IsCandidate(centers, es[t], sqrt)
    {
      assert es[t] in multiset(es);
      assert es[t] in multiset(all);
    }
    forall i, j | 0 <= i < j < |centers|
      ensures Candidate(centers, i, j, sqrt) in es
    {
      assert Candidate(centers, i, j, sqrt) in multiset(all);
      assert Candidate(centers, i, j, sqrt) in multiset(es);
    }
    CandidatesWithin(centers, es, sqrt);
  }

  /** Every label is a root: a node carrying its own label. */
  predicate RootLabels(comp: seq<nat>)
  {
    forall z :: 0 <= z < |comp| ==> comp[z] < |comp| && comp[comp[z]] == comp[z]
  }

  function Roots(comp: seq<nat>): set<nat>
  {
    set z | 0 <= z < |comp| && comp[z] == z
  }

  /** Every node is connected by the drawn edges to the root it is labelled with. */
  ghost predicate ReachesRoot(f: Forest)
  {
    forall z :: 0 <= z < |f.comp| ==> Connected(f.tree, z, f.comp[z])
  }

  /**
    What the edge loop keeps: labels are roots; the drawn edges agree with the
    labels and reach every node's root, so two nodes are connected exactly
    when they share a label; each drawn edge merged two components, so
    components and drawn edges add up to n; and no drawn edge closed a cycle.
  */
  ghost predicate Inv(f: Forest)
  {
    && RootLabels(f.comp)
    && Agrees(f.comp, f.tree)
    && ReachesRoot(f)
    && |Roots(f.comp)| + |f.tree| == |f.comp|
    && Acyclic(f.tree)
  }

  lemma {:induction false} InitRoots(n: nat)
    ensures |Roots(Init(n).comp)| == n
  {
    if n > 0 {
      InitRoots(n - 1);
      var c, d := Init(n).comp, Init(n - 1).comp;
      assert |c| == n && |d| == n - 1;
      assert Roots(c) == Roots(d) + {n - 1} by {
        forall z: nat ensures z in Roots(c) <==> z in Roots(d) + {n - 1} {
          if z < n - 1 {
            assert c[z] == z && d[z] == z;
          } else if z == n - 1 {
            assert c[z] == z;
          }
        }
      }
    }
  }

  lemma InitInv(n: nat)
    ensures Inv(Init(n))
  {
    var f := Init(n);
    InitRoots(n);
    forall z | 0 <= z < n
      ensures Connected(f.tree, z, f.comp[z])
    {
      ConnectedRefl(f.tree, z);
    }
  }

  /** Relabelling one root as another keeps labels roots and removes exactly one root. */
  lemma RelabelRoots(comp: seq<nat>, ri: nat, rj: nat)
    requires RootLabels(comp) && ri < |comp| && rj < |comp| && comp[ri] == ri && comp[rj] == rj && ri != rj
    ensures RootLabels(Relabel(comp, rj, ri))
    ensures Roots(Relabel(comp, rj, ri)) == Roots(comp) - {rj}
    ensures |Roots(Relabel(comp, rj, ri))| == |Roots(comp)| - 1
  {
    assert rj in Roots(comp);
  }

  lemma RelabelAgrees(comp: seq<nat>, es: seq<Edge>, from: nat, to: nat)
    requires Agrees(comp, es)
    ensures Agrees(Relabel(comp, from, to), es)
  {
  }

  lemma StepReachesRoot(f: Forest, e: Edge)
    requires RootLabels(f.comp) && ReachesRoot(f) && e.i < |f.comp| && e.j < |f.comp|
    requires f.comp[e.i] != f.comp[e.j]
    ensures ReachesRoot(Step(f, e))
  {
    var g := Step(f, e);
    var ri, rj := f.comp[e.i], f.comp[e.j];
    var t := f.tree + [e];
    assert g.tree == t;
    ConnectedMono(f.tree, e, e.i, ri);
    ConnectedMono(f.tree, e, e.j, rj);
    ConnectedSym(t, e.j, rj);
    EdgeConnects(f.tree, e);
    ConnectedSym(t, e.i, e.j);
    ConnectedTrans(t, rj, e.j, e.i);
    ConnectedTrans(t, rj, e.i, ri);
    forall z | 0 <= z < |g.comp|
      ensures Connected(t, z, g.comp[z])
    {
      ConnectedMono(f.tree, e, z, f.comp[z]);
      if f.comp[z] == rj {
        ConnectedTrans(t, z, rj, ri);
      }
    }
  }

  lemma StepAcyclic(f: Forest, e: Edge)
    requires Agrees(f.comp, f.tree) && Acyclic(f.tree) && e.i < |f.comp| && e.j < |f.comp|
    ensures Acyclic(Step(f, e).tree)
  {
    var ri, rj := f.comp[e.i], f.comp[e.j];
    if ri != rj {
      var t := f.tree + [e];
      forall k | 0 <= k < |t|
        ensures !Connected(t[..k], t[k].i, t[k].j)
      {
        if k < |f.tree| {
          assert t[..k] == f.tree[..k];
        } else {
          assert t[..k] == f.tree;
          if Connected(f.tree, e.i, e.j) {
            ConnectedSameLabel(f.comp, f.tree, e.i, e.j);
          }
        }
      }
    }
  }

  lemma StepInv(f: Forest, e: Edge)
    requires Inv(f) && e.i < |f.comp| && e.j < |f.comp|
    ensures Inv(Step(f, e))
  {
    var g := Step(f, e);
    var ri, rj := f.comp[e.i], f.comp[e.j];
    StepAcyclic(f, e);
    if ri != rj {
      RelabelRoots(f.comp, ri, rj);
      RelabelAgrees(f.comp, f.tree, rj, ri);
      StepReachesRoot(f, e);
      assert Agrees(g.comp, g.tree);
    }
  }

  lemma {:induction false} RunInv(f: Forest, es: seq<Edge>)
    requires Inv(f) && EdgesWithin(es, |f.comp|)
    ensures Inv(Run(f, es))
    decreases |es|
  {
    if es != [] {
      StepInv(f, es[0]);
      EdgesWithinTail(es, |f.comp|);
      RunInv(Step(f, es[0]), es[1..]);
    }
  }

  /** After a step, the scanned edge and all edges scanned before it lie inside one component. */
  lemma StepAgrees(f: Forest, done: seq<Edge>, e: Edge)
    requires Agrees(f.comp, done) && e.i < |f.comp| && e.j < |f.comp|
    ensures Agrees(Step(f, e).comp, done + [e])
  {
    var ri, rj := f.comp[e.i], f.comp[e.j];
    if ri != rj {
      RelabelAgrees(f.comp, done, rj, ri);
    }
  }

  lemma {:induction false} RunAgrees(f: Forest, done: seq<Edge>, es: seq<Edge>)
    requires Agrees(f.comp, done) && EdgesWithin(es, |f.comp|)
    ensures Agrees(Run(f, es).comp, done + es)
    decreases |es|
  {
    if es == [] {
      assert done + es == done;
    } else {
      StepAgrees(f, done, es[0]);
      EdgesWithinTail(es, |f.comp|);
      RunAgrees(Step(f, es[0]), done + [es[0]], es[1..]);
      assert done + [es[0]] + es[1..] == done + es;
    }
  }

  /** The state after the whole scan keeps the invariant, and every candidate edge lies inside one component. */
  lemma ScanInv(centers: seq<Point>, sqrt: real -> real)
    ensures var f := Run(Init(|centers|), ScanOrder(centers, sqrt));
      Inv(f) && Agrees(f.comp, ScanOrder(centers, sqrt))
  {
    var n, es := |centers|, ScanOrder(centers, sqrt);
    InitInv(n);
    RunInv(Init(n), es);
    RunAgrees(Init(n), [], es);
    assert [] + es == es;
  }

  /** Once every pair has been scanned, all nodes carry the label of node 0. */
  lemma OneComponent(comp: seq<nat>, centers: seq<Point>, sqrt: real -> real)
    requires Agrees(comp, ScanOrder(centers, sqrt)) && |comp| == |centers| > 0
    ensures forall u :: 0 <= u < |centers| ==> comp[u] == comp[0]
  {
    var es := ScanOrder(centers, sqrt);
    SortedCandidates(centers, sqrt);
    forall u | 0 < u < |centers|
      ensures comp[u] == comp[0]
    {
      var e := Candidate(centers, 0, u, sqrt);
      assert e in es;
      var t :| 0 <= t < |es| && es[t] == e;
    }
  }

  lemma SingleRoot(comp: seq<nat>)
    requires RootLabels(comp) && |comp| > 0 && forall u :: 0 <= u < |comp| ==> comp[u] == comp[0]
    ensures Roots(comp) == {comp[0]}
  {
  }

  lemma ConnectedViaRoots(f: Forest, u: nat, v: nat)
    requires ReachesRoot(f) && u < |f.comp| && v < |f.comp| && f.comp[u] == f.comp[v]
    ensures Connected(f.tree, u, v)
  {
    ConnectedSym(f.tree, v, f.comp[v]);
    ConnectedTrans(f.tree, u, f.comp[u], v);
  }

  /** Dropping one edge from a sorted list leaves it sorted. */
  lemma SortedDrop(a: seq<Edge>, x: Edge, b: seq<Edge>)
    requires SortedEdges(a + [x] + b)
    ensures SortedEdges(a + b)
  {
    var s := a + [x] + b;
    forall k, l | 0 <= k < l < |a + b|
      ensures EdgeLe((a + b)[k], (a + b)[l])
    {
      var k', l' := if k < |a| then k else k + 1, if l < |a| then l else l + 1;
      assert (a + b)[k] == s[k'] && (a + b)[l] == s[l'];
    }
  }

  /** Scanning a sorted list draws its edges in order: each drawn edge is an already drawn or a scanned one. */
  lemma {:induction false} RunSorted(f: Forest, es: seq<Edge>)
    requires EdgesWithin(es, |f.comp|) && SortedEdges(f.tree + es)
    ensures SortedEdges(Run(f, es).tree)
    ensures forall t :: 0 <= t < |Run(f, es).tree| ==> Run(f, es).tree[t] in f.tree + es
    decreases |es|
  {
    if es == [] {
      assert f.tree + es == f.tree;
    } else {
      var g := Step(f, es[0]);
      var rest := es[1..];
      assert es == [es[0]] + rest;
      assert f.tree + es == f.tree + [es[0]] + rest;
      if g.tree == f.tree {
        SortedDrop(f.tree, es[0], rest);
      } else {
        assert g.tree + rest == f.tree + es;
      }
      EdgesWithinTail(es, |f.comp|);
      RunSorted(g, rest);
      forall t | 0 <= t < |Run(f, es).tree|
        ensures Run(f, es).tree[t] in f.tree + es
      {
        assert Run(f, es).tree[t] in g.tree + rest;
      }
    }
  }

  /**
    The lines are drawn in the scan order: by length, then by the indices;
    and every drawn line is a candidate edge between two distinct centers.
  */
  lemma SpanningTreeSorted(centers: seq<Point>, sqrt: real -> real)
    ensures SortedEdges(SpanningTree(centers, sqrt))
    ensures forall t :: 0 <= t < |SpanningTree(centers, sqrt)| ==> IsCandidate(centers, SpanningTree(centers, sqrt)[t], sqrt)
  {
    var es := ScanOrder(centers, sqrt);
    ScanDrawsInOrder(|centers|, es);
    SortedCandidates(centers, sqrt);
    CandidatesOnly(centers, sqrt, Run(Init(|centers|), es).tree, es);
  }

  lemma ScanDrawsInOrder(n: nat, es: seq<Edge>)
    requires EdgesWithin(es, n) && SortedEdges(es)
    ensures SortedEdges(Run(Init(n), es).tree)
    ensures forall t :: 0 <= t < |Run(Init(n), es).tree| ==> Run(Init(n), es).tree[t] in es
  {
    assert Init(n).tree + es == es;
    RunSorted(Init(n), es);
  }

  lemma CandidatesOnly(centers: seq<Point>, sqrt: real -> real, tree: seq<Edge>, es: seq<Edge>)
    requires forall t :: 0 <= t < |tree| ==> tree[t] in es
    requires forall t :: 0 <= t < |es| ==> IsCandidate(centers, es[t], sqrt)
    ensures forall t :: 0 <= t < |tree| ==> IsCandidate(centers, tree[t], sqrt)
  {
    forall t | 0 <= t < |tree|
      ensures IsCandidate(centers, tree[t], sqrt)
    {
      var u :| 0 <= u < |es| && es[u] == tree[t];
    }
  }

  /** Drawn edges that reach every node's root, with a single root, connect all nodes. */
  lemma SingleRootSpans(f: Forest)
    requires RootLabels(f.comp) && ReachesRoot(f) && |f.comp| > 0
    requires forall u :: 0 <= u < |f.comp| ==> f.comp[u] == f.comp[0]
    ensures Spans(f.tree, |f.comp|) && Roots(f.comp) == {f.comp[0]}
  {
    SingleRoot(f.comp);
    forall u, v | 0 <= u < |f.comp| && 0 <= v < |f.comp|
      ensures Connected(f.tree, u, v)
    {
      ConnectedViaRoots(f, u, v);
    }
  }

  /**
    `connect_rectangles_mst` draws a spanning tree of the centers: no drawn
    line closes a cycle, the lines connect every two nodes, and there are
    n - 1 of them when there is at least one node (none when there is none).
  */
  lemma SpanningTreeSpans(centers: seq<Point>, sqrt: real -> real)
    ensures Acyclic(SpanningTree(centers, sqrt))
    ensures Spans(SpanningTree(centers, sqrt), |centers|)
    ensures |SpanningTree(centers, sqrt)| == if |centers| > 0 then |centers| - 1 else 0
  {
    var f := Run(Init(|centers|), ScanOrder(centers, sqrt));
    ScanInv(centers, sqrt);
    if |centers| > 0 {
      OneComponent(f.comp, centers, sqrt);
      SingleRootSpans(f);
    }
  }
}

/**
  Undirected connectivity over a list of edges, independent of how the
  spanning tree is built: two nodes are connected when a walk joins them in
  which every consecutive pair of nodes is joined by one of the edges.
*/
module Graph {
  import opened Edges

  predicate Joins(e: Edge, u: nat, v: nat)
  {
    (e.i == u && e.j == v) || (e.i == v && e.j == u)
  }

  predicate Adjacent(es: seq<Edge>, u: nat, v: nat)
  {
    exists t :: 0 <= t < |es| && Joins(es[t], u, v)
  }

  predicate IsWalk(es: seq<Edge>, w: seq<nat>)
  {
    |w| >= 1 && forall k :: 0 <= k < |w| - 1 ==> Adjacent(es, w[k], w[k + 1])
  }

  ghost predicate Connected(es: seq<Edge>, u: nat, v: nat)
  {
    exists w :: IsWalk(es, w) && w[0] == u && w[|w| - 1] == v
  }

  lemma ConnectedRefl(es: seq<Edge>, u: nat)
    ensures Connected(es, u, u)
  {
    assert IsWalk(es, [u]);
  }

  lemma EdgeConnects(es: seq<Edge>, e: Edge)
    ensures Connected(es + [e], e.i, e.j)
  {
    var g := es + [e];
    assert Joins(g[|es|], e.i, e.j);
    assert IsWalk(g, [e.i, e.j]);
  }

  lemma ConnectedSym(es: seq<Edge>, u: nat, v: nat)
    requires Connected(es, u, v)
    ensures Connected(es, v, u)
  {
    var w :| IsWalk(es, w) && w[0] == u && w[|w| - 1] == v;
    var r := seq(|w|, k requires 0 <= k < |w| => w[|w| - 1 - k]);
    forall k | 0 <= k < |r| - 1
      ensures Adjacent(es, r[k], r[k + 1])
    {
      var m := |w| - 2 - k;
      assert Adjacent(es, w[m], w[m + 1]);
      var t :| 0 <= t < |es| && Joins(es[t], w[m], w[m + 1]);
      assert Joins(es[t], r[k], r[k + 1]);
    }
    assert IsWalk(es, r);
  }

  lemma ConnectedTrans(es: seq<Edge>, u: nat, v: nat, x: nat)
    requires Connected(es, u, v) && Connected(es, v, x)
    ensures Connected(es, u, x)
  {
    var w1 :| IsWalk(es, w1) && w1[0] == u && w1[|w1| - 1] == v;
    var w2 :| IsWalk(es, w2) && w2[0] == v && w2[|w2| - 1] == x;
    var w := w1 + w2[1..];
    forall k | 0 <= k < |w| - 1
      ensures Adjacent(es, w[k], w[k + 1])
    {
      if k < |w1| - 1 {
        assert w[k] == w1[k] && w[k + 1] == w1[k + 1];
      } else {
        var m := k - |w1| + 1;
        assert w[k] == w2[m] && w[k + 1] == w2[m + 1];
      }
    }
    assert IsWalk(es, w);
  }

  /** Adding an edge disconnects nothing. */
  lemma ConnectedMono(es: seq<Edge>, e: Edge, u: nat, v: nat)
    requires Connected(es, u, v)
    ensures Connected(es + [e], u, v)
  {
    var w :| IsWalk(es, w) && w[0] == u && w[|w| - 1] == v;
    var g := es + [e];
    forall k | 0 <= k < |w| - 1
      ensures Adjacent(g, w[k], w[k + 1])
    {
      var t :| 0 <= t < |es| && Joins(es[t], w[k], w[k + 1]);
      assert g[t] == es[t];
    }
    assert IsWalk(g, w);
  }

  /** Both ends of every edge carry the same component label. */
  predicate Agrees(comp: seq<nat>, es: seq<Edge>)
  {
    forall t :: 0 <= t < |es| ==> es[t].i < |comp| && es[t].j < |comp| && comp[es[t].i] == comp[es[t].j]
  }

  /** A labelling that every edge agrees with is constant along every walk. */
  lemma {:induction false} WalkKeepsLabel(comp: seq<nat>, es: seq<Edge>, w: seq<nat>, k: nat)
    requires Agrees(comp, es) && IsWalk(es, w) && w[0] < |comp| && k < |w|
    ensures w[k] < |comp| && comp[w[k]] == comp[w[0]]
  {
    if k > 0 {
      WalkKeepsLabel(comp, es, w, k - 1);
      assert Adjacent(es, w[k - 1], w[k]);
      var t :| 0 <= t < |es| && Joins(es[t], w[k - 1], w[k]);
    }
  }

  lemma ConnectedSameLabel(comp: seq<nat>, es: seq<Edge>, u: nat, v: nat)
    requires Agrees(comp, es) && u < |comp| && Connected(es, u, v)
    ensures v < |comp| && comp[u] == comp[v]
  {
    var w :| IsWalk(es, w) && w[0] == u && w[|w| - 1] == v;
    WalkKeepsLabel(comp, es, w, |w| - 1);
  }

  /** No edge closes a cycle: each joins two nodes that the edges before it left apart. */
  ghost predicate Acyclic(es: seq<Edge>)
  {
    forall t :: 0 <= t < |es| ==> !Connected(es[..t], es[t].i, es[t].j)
  }

  /** Every two of the nodes `0 .. n - 1` are connected. */
  ghost predicate Spans(es: seq<Edge>, n: nat)
  {
    forall u, v :: 0 <= u < n && 0 <= v < n ==> Connected(es, u, v)
  }

  /** A walk over edges that all occur in `b` is a walk over `b`. */
  lemma ConnectedSubset(a: seq<Edge>, b: seq<Edge>, u: nat, v: nat)
    requires Connected(a, u, v) && forall t :: 0 <= t < |a| ==> a[t] in b
    ensures Connected(b, u, v)
  {
    var w :| IsWalk(a, w) && w[0] == u && w[|w| - 1] == v;
    forall k | 0 <= k < |w| - 1
      ensures Adjacent(b, w[k], w[k + 1])
    {
      var t :| 0 <= t < |a| && Joins(a[t], w[k], w[k + 1]);
      var s :| 0 <= s < |b| && b[s] == a[t];
    }
    assert IsWalk(b, w);
  }

  /** An edge list stays acyclic when one more edge joins two nodes it leaves apart, and only then. */
  lemma AcyclicSnoc(es: seq<Edge>, e: Edge)
    ensures Acyclic(es + [e]) <==> Acyclic(es) && !Connected(es, e.i, e.j)
  {
    var g := es + [e];
    assert g[..|es|] == es;
    forall t | 0 <= t < |es|
      ensures g[..t] == es[..t] && g[t] == es[t]
    {
    }
  }

  lemma AcyclicPrefix(es: seq<Edge>, k: nat)
    requires Acyclic(es) && k <= |es|
    ensures Acyclic(es[..k])
  {
    forall t | 0 <= t < k
      ensures es[..k][..t] == es[..t] && es[..k][t] == es[t]
    {
    }
  }
}

/**
  Kruskal's scan draws a spanning tree of minimum total length: no other
  spanning tree over the candidate edges is shorter.

  The argument counts short edges. For every length `w`, an acyclic set of
  candidate edges no longer than `w` has at most as many edges as the scan
  drew from the candidates no longer than `w`, because those drawn edges
  already join every component that the short candidates can join. So the
  k-th shortest drawn edge is never longer than the k-th shortest edge of any
  other spanning tree, and the total lengths compare the same way.
*/
module Minimality {
  import opened Node
  import opened Edges
  import opened Graph
  import opened Kruskal

  /** The total length of a list of edges. */
  function Weight(es: seq<Edge>): real
  {
    if es == [] then 0.0 else es[0].weight + Weight(es[1..])
  }

  lemma {:induction false} InsertWeight(e: Edge, s: seq<Edge>)
    requires SortedEdges(s)
    ensures Weight(Insert(e, s)) == e.weight + Weight(s)
  {
    if s == [] {
      assert [e][1..] == [];
    } else if EdgeLe(e, s[0]) {
      assert ([e] + s)[1..] == s;
    } else {
      var r := Insert(e, s[1..]);
      InsertWeight(e, s[1..]);
      assert ([s[0]] + r)[1..] == r;
    }
  }

  /** Sorting keeps the total length. */
  lemma {:induction false} SortWeight(s: seq<Edge>)
    ensures Weight(SortEdges(s)) == Weight(s)
  {
    if s != [] {
      SortWeight(s[1..]);
      InsertWeight(s[0], SortEdges(s[1..]));
    }
  }

  /** The edges of `es` no longer than `w`, in their order. */
  function Light(es: seq<Edge>, w: real): seq<Edge>
  {
    if es == [] then []
    else Light(es[..|es| - 1], w) + (if es[|es| - 1].weight <= w then [es[|es| - 1]] else [])
  }

  lemma {:induction false} LightAppend(a: seq<Edge>, b: seq<Edge>, w: real)
    ensures Light(a + b, w) == Light(a, w) + Light(b, w)
  {
    if b == [] {
      assert a + b == a;
    } else {
      var b' := b[..|b| - 1];
      assert (a + b)[..|a + b| - 1] == a + b';
      LightAppend(a, b', w);
    }
  }

  lemma {:induction false} InsertLight(e: Edge, s: seq<Edge>, w: real)
    requires SortedEdges(s)
    ensures |Light(Insert(e, s), w)| == |Light([e], w)| + |Light(s, w)|
  {
    if s == [] {
      assert Insert(e, s) == [e];
      assert Light(s, w) == [];
    } else if EdgeLe(e, s[0]) {
      LightAppend([e], s, w);
    } else {
      var r := Insert(e, s[1..]);
      InsertLight(e, s[1..], w);
      LightAppend([s[0]], r, w);
      LightAppend([s[0]], s[1..], w);
      assert [s[0]] + s[1..] == s;
    }
  }

  /** Sorting keeps the number of edges no longer than `w`. */
  lemma {:induction false} SortLight(s: seq<Edge>, w: real)
    ensures |Light(SortEdges(s), w)| == |Light(s, w)|
  {
    if s != [] {
      SortLight(s[1..], w);
      InsertLight(s[0], SortEdges(s[1..]), w);
      LightAppend([s[0]], s[1..], w);
      assert [s[0]] + s[1..] == s;
    }
  }

  /** A list of edges all no longer than `w` is its own light part. */
  lemma {:induction false} LightAll(s: seq<Edge>, w: real)
    requires forall t :: 0 <= t < |s| ==> s[t].weight <= w
    ensures Light(s, w) == s
  {
    if s != [] {
      LightAll(s[..|s| - 1], w);
      assert s[..|s| - 1] + [s[|s| - 1]] == s;
    }
  }

  /** The light part consists of edges of the list no longer than `w`. */
  lemma {:induction false} LightMembers(es: seq<Edge>, w: real)
    ensures forall t :: 0 <= t < |Light(es, w)| ==> Light(es, w)[t] in es && Light(es, w)[t].weight <= w
  {
    if es != [] {
      var p, e := es[..|es| - 1], es[|es| - 1];
      LightMembers(p, w);
      var l := Light(es, w);
      forall t | 0 <= t < |l|
        ensures l[t] in es && l[t].weight <= w
      {
        if t < |Light(p, w)| {
          assert l[t] == Light(p, w)[t];
          assert l[t] in p;
        }
      }
    }
  }

  /** The light part of an acyclic list is acyclic. */
  lemma {:induction false} LightAcyclic(es: seq<Edge>, w: real)
    requires Acyclic(es)
    ensures Acyclic(Light(es, w))
  {
    if es != [] {
      var p, e := es[..|es| - 1], es[|es| - 1];
      assert es == p + [e];
      AcyclicSnoc(p, e);
      LightAcyclic(p, w);
      var l := Light(p, w);
      if e.weight <= w {
        assert Light(es, w) == l + [e];
        LightMembers(p, w);
        if Connected(l, e.i, e.j) {
          ConnectedSubset(l, p, e.i, e.j);
        }
        AcyclicSnoc(l, e);
      } else {
        assert Light(es, w) == l;
      }
    }
  }

  /** Scanning an edge list that keeps the drawn edges acyclic draws every edge of it. */
  lemma {:induction false} RunAcyclic(f: Forest, es: seq<Edge>)
    requires Inv(f) && EdgesWithin(es, |f.comp|) && Acyclic(f.tree + es)
    ensures Run(f, es).tree == f.tree + es
    decreases |es|
  {
    if es == [] {
      assert f.tree + es == f.tree;
    } else {
      var e, rest := es[0], es[1..];
      var g := f.tree + [e];
      assert f.tree + es == g + rest;
      AcyclicPrefix(f.tree + es, |g|);
      assert (f.tree + es)[..|g|] == g;
      AcyclicSnoc(f.tree, e);
      if f.comp[e.i] == f.comp[e.j] {
        ConnectedViaRoots(f, e.i, e.j);
      }
      StepInv(f, e);
      EdgesWithinTail(es, |f.comp|);
      RunAcyclic(Step(f, e), rest);
    }
  }

  lemma SubsetSize(a: set<nat>, b: set<nat>)
    requires a <= b
    ensures |a| <= |b|
  {
    var rest := b - a;
    assert b == a + rest;
    assert a * rest == {};
    assert |a + rest| + |a * rest| == |a| + |rest|;
  }

  /** The labels that the nodes of `s` carry. */
  function Image(s: set<nat>, c: seq<nat>): set<nat>
  {
    set x | x in s && x < |c| :: c[x]
  }

  lemma {:induction false} ImageSize(s: set<nat>, c: seq<nat>)
    ensures |Image(s, c)| <= |s|
    decreases |s|
  {
    if s != {} {
      var x :| x in s;
      var s' := s - {x};
      ImageSize(s', c);
      var extra: set<nat> := if x < |c| then {c[x]} else {};
      assert Image(s, c) <= Image(s', c) + extra;
      SubsetSize(Image(s, c), Image(s', c) + extra);
    }
  }

  /**
    A labelling `c` that is constant on the classes of a finer labelling `d`
    has no more roots than `d`.
  */
  lemma CoarserHasFewerRoots(d: seq<nat>, c: seq<nat>)
    requires RootLabels(d) && RootLabels(c) && |d| == |c|
    requires forall u :: 0 <= u < |d| ==> c[u] == c[d[u]]
    ensures |Roots(c)| <= |Roots(d)|
  {
    forall r | r in Roots(c)
      ensures r in Image(Roots(d), c)
    {
      assert d[r] in Roots(d);
    }
    SubsetSize(Roots(c), Image(Roots(d), c));
    ImageSize(Roots(d), c);
  }

  /**
    An acyclic edge list that stays inside the components of a forest
    satisfying the invariant has no more edges than the forest.
  */
  lemma AcyclicWithinComponents(f: Forest, es: seq<Edge>)
    requires Inv(f) && Agrees(f.comp, es) && Acyclic(es)
    ensures |es| <= |f.tree|
  {
    var n := |f.comp|;
    var d := Run(Init(n), es);
    InitInv(n);
    RunInv(Init(n), es);
    assert Init(n).tree + es == es;
    RunAcyclic(Init(n), es);
    forall u | 0 <= u < n
      ensures f.comp[u] == f.comp[d.comp[u]]
    {
      ConnectedSameLabel(f.comp, es, u, d.comp[u]);
    }
    CoarserHasFewerRoots(d.comp, f.comp);
  }

  /** The number of leading edges of `es` no longer than `w`. */
  function Cut(es: seq<Edge>, w: real): (k: nat)
    ensures k <= |es|
    ensures forall t :: 0 <= t < k ==> es[t].weight <= w
    ensures k < |es| ==> es[k].weight > w
  {
    if es == [] || es[0].weight > w then 0 else 1 + Cut(es[1..], w)
  }

  /** In a sorted list the leading short edges are all its short edges. */
  lemma CutSorted(es: seq<Edge>, w: real)
    requires SortedEdges(es)
    ensures forall t :: Cut(es, w) <= t < |es| ==> es[t].weight > w
    ensures SortedEdges(es[..Cut(es, w)])
  {
    var k := Cut(es, w);
    forall t | k < t < |es|
      ensures es[t].weight > w
    {
      assert EdgeLe(es[k], es[t]);
    }
    forall a, b | 0 <= a < b < k
      ensures EdgeLe(es[..k][a], es[..k][b])
    {
      assert EdgeLe(es[a], es[b]);
    }
  }

  lemma {:induction false} RunAppend(f: Forest, a: seq<Edge>, b: seq<Edge>)
    requires EdgesWithin(a, |f.comp|) && EdgesWithin(b, |f.comp|)
    ensures EdgesWithin(a + b, |f.comp|)
    ensures Run(f, a + b) == Run(Run(f, a), b)
    decreases |a|
  {
    if a == [] {
      assert a + b == b;
    } else {
      assert (a + b)[0] == a[0] && (a + b)[1..] == a[1..] + b;
      EdgesWithinTail(a, |f.comp|);
      RunAppend(Step(f, a[0]), a[1..], b);
    }
  }

  /** A scan only appends to the drawn edges. */
  lemma {:induction false} RunExtends(f: Forest, es: seq<Edge>)
    requires EdgesWithin(es, |f.comp|)
    ensures |f.tree| <= |Run(f, es).tree| && Run(f, es).tree[..|f.tree|] == f.tree
    decreases |es|
  {
    if es != [] {
      var g := Step(f, es[0]);
      EdgesWithinTail(es, |f.comp|);
      RunExtends(g, es[1..]);
      assert g.tree[..|f.tree|] == f.tree;
    }
  }

  /** A candidate edge no longer than `w` is among the leading short edges of the scan. */
  lemma ShortCandidateScanned(centers: seq<Point>, sqrt: real -> real, e: Edge, w: real)
    requires IsCandidate(centers, e, sqrt) && e.weight <= w
    ensures e in ScanOrder(centers, sqrt)[..Cut(ScanOrder(centers, sqrt), w)]
  {
    var es := ScanOrder(centers, sqrt);
    var k := Cut(es, w);
    SortedCandidates(centers, sqrt);
    assert Candidate(centers, e.i, e.j, sqrt) == e;
    var s :| 0 <= s < |es| && es[s] == e;
    CutSorted(es, w);
    assert es[..k][s] == e;
  }

  /** The edges that the scan draws from the candidates no longer than `w`. */
  function ShortTree(centers: seq<Point>, sqrt: real -> real, w: real): Forest
  {
    var es := ScanOrder(centers, sqrt);
    Run(Init(|centers|), es[..Cut(es, w)])
  }

  /**
    Any acyclic set of candidate edges has no more edges no longer than `w`
    than the scan draws from the candidates no longer than `w`.
  */
  lemma ShortEdgesBound(centers: seq<Point>, sqrt: real -> real, es: seq<Edge>, w: real)
    requires Acyclic(es) && forall t :: 0 <= t < |es| ==> IsCandidate(centers, es[t], sqrt)
    ensures |Light(es, w)| <= |ShortTree(centers, sqrt, w).tree|
  {
    var n, scan := |centers|, ScanOrder(centers, sqrt);
    var p := scan[..Cut(scan, w)];
    var g := ShortTree(centers, sqrt, w);
    InitInv(n);
    RunInv(Init(n), p);
    RunAgrees(Init(n), [], p);
    assert [] + p == p;
    var l := Light(es, w);
    LightAcyclic(es, w);
    LightMembers(es, w);
    forall t | 0 <= t < |l|
      ensures l[t].i < n && l[t].j < n && g.comp[l[t].i] == g.comp[l[t].j]
    {
      ShortCandidateScanned(centers, sqrt, l[t], w);
      var s :| 0 <= s < |p| && p[s] == l[t];
    }
    AcyclicWithinComponents(g, l);
  }

  /** A sorted list has at least i + 1 edges no longer than its i-th edge. */
  lemma LightCount(s: seq<Edge>, i: nat)
    requires SortedEdges(s) && i < |s|
    ensures |Light(s, s[i].weight)| >= i + 1
  {
    var w, p := s[i].weight, s[..i + 1];
    forall t | 0 <= t < |p|
      ensures p[t].weight <= w
    {
      assert t < i ==> EdgeLe(s[t], s[i]);
    }
    LightAll(p, w);
    assert s == p + s[i + 1..];
    LightAppend(p, s[i + 1..], w);
  }

  /** The lines drawn from the short candidates are the first lines drawn, and all are short. */
  lemma ShortTreeLeads(centers: seq<Point>, sqrt: real -> real, w: real)
    ensures var g := ShortTree(centers, sqrt, w).tree;
      && |g| <= |SpanningTree(centers, sqrt)|
      && SpanningTree(centers, sqrt)[..|g|] == g
      && forall t :: 0 <= t < |g| ==> g[t].weight <= w
  {
    ShortTreePrefix(centers, sqrt, w);
    ShortTreeShort(centers, sqrt, w);
  }

  /** Scanning the remaining candidates after the short ones only appends lines. */
  lemma ShortTreePrefix(centers: seq<Point>, sqrt: real -> real, w: real)
    ensures var g := ShortTree(centers, sqrt, w).tree;
      |g| <= |SpanningTree(centers, sqrt)| && SpanningTree(centers, sqrt)[..|g|] == g
  {
    var scan := ScanOrder(centers, sqrt);
    RunPrefix(Init(|centers|), scan, Cut(scan, w));
  }

  /** Scanning a prefix of a list draws a prefix of the lines the whole list draws. */
  lemma RunPrefix(f: Forest, es: seq<Edge>, k: nat)
    requires EdgesWithin(es, |f.comp|) && k <= |es|
    ensures EdgesWithin(es[..k], |f.comp|)
    ensures var g := Run(f, es[..k]).tree;
      |g| <= |Run(f, es).tree| && Run(f, es).tree[..|g|] == g
  {
    var a, b := es[..k], es[k..];
    assert es == a + b;
    assert EdgesWithin(a, |f.comp|) && EdgesWithin(b, |f.comp|) by {
      forall t | 0 <= t < |b|
        ensures b[t].i < |f.comp| && b[t].j < |f.comp|
      {
        assert b[t] == es[k + t];
      }
    }
    RunAppend(f, a, b);
    RunExtends(Run(f, a), b);
  }

  /** Every line drawn from the short candidates is short. */
  lemma ShortTreeShort(centers: seq<Point>, sqrt: real -> real, w: real)
    ensures var g := ShortTree(centers, sqrt, w).tree;
      forall t :: 0 <= t < |g| ==> g[t].weight <= w
  {
    var n, scan := |centers|, ScanOrder(centers, sqrt);
    var k := Cut(scan, w);
    var g := ShortTree(centers, sqrt, w);
    SortedCandidates(centers, sqrt);
    CutSorted(scan, w);
    ScanDrawsInOrder(n, scan[..k]);
    forall t | 0 <= t < |g.tree|
      ensures g.tree[t].weight <= w
    {
      var s :| 0 <= s < k && scan[..k][s] == g.tree[t];
    }
  }

  /** The i-th drawn line is no longer than the i-th shortest edge of any other acyclic set of candidates. */
  lemma Majorize(centers: seq<Point>, sqrt: real -> real, es: seq<Edge>, i: nat)
    requires Acyclic(es) && forall t :: 0 <= t < |es| ==> IsCandidate(centers, es[t], sqrt)
    requires i < |es|
    ensures i < |SortEdges(es)| && i < |SpanningTree(centers, sqrt)|
    ensures SpanningTree(centers, sqrt)[i].weight <= SortEdges(es)[i].weight
  {
    var sorted := SortEdges(es);
    assert |sorted| == |multiset(sorted)| == |multiset(es)| == |es|;
    var w := sorted[i].weight;
    var g := ShortTree(centers, sqrt, w).tree;
    LightCount(sorted, i);
    SortLight(es, w);
    ShortEdgesBound(centers, sqrt, es, w);
    ShortTreeLeads(centers, sqrt, w);
    assert SpanningTree(centers, sqrt)[i] == SpanningTree(centers, sqrt)[..|g|][i] == g[i];
  }

  lemma {:induction false} WeightLe(a: seq<Edge>, b: seq<Edge>)
    requires |a| == |b| && forall t :: 0 <= t < |a| ==> a[t].weight <= b[t].weight
    ensures Weight(a) <= Weight(b)
  {
    if a != [] {
      WeightLe(a[1..], b[1..]);
    }
  }

  /** A spanning tree of the centers over the candidate edges. */
  ghost predicate IsSpanningTree(centers: seq<Point>, es: seq<Edge>, sqrt: real -> real)
  {
    && (forall t :: 0 <= t < |es| ==> IsCandidate(centers, es[t], sqrt))
    && Acyclic(es)
    && Spans(es, |centers|)
  }

  /** Every spanning tree of n nodes has n - 1 edges (none when there are no nodes). */
  lemma SpanningTreeSize(n: nat, es: seq<Edge>)
    requires EdgesWithin(es, n) && Acyclic(es) && Spans(es, n)
    ensures |es| == if n > 0 then n - 1 else 0
  {
    var d := Run(Init(n), es);
    InitInv(n);
    RunInv(Init(n), es);
    assert Init(n).tree + es == es;
    RunAcyclic(Init(n), es);
    if n > 0 {
      forall u | 0 <= u < n
        ensures d.comp[u] == d.comp[0]
      {
        ConnectedSameLabel(d.comp, es, 0, u);
      }
      SingleRoot(d.comp);
    }
  }

  /**
    The lines `connect_rectangles_mst` draws are a minimum spanning tree:
    they form a spanning tree, and no spanning tree over the candidate edges
    has a smaller total length.
  */
  lemma SpanningTreeMinimal(centers: seq<Point>, sqrt: real -> real, es: seq<Edge>)
    requires IsSpanningTree(centers, es, sqrt)
    ensures IsSpanningTree(centers, SpanningTree(centers, sqrt), sqrt)
    ensures Weight(SpanningTree(centers, sqrt)) <= Weight(es)
  {
    var n, tree, sorted := |centers|, SpanningTree(centers, sqrt), SortEdges(es);
    SpanningTreeSpans(centers, sqrt);
    SpanningTreeSorted(centers, sqrt);
    SpanningTreeSize(n, es);
    assert |sorted| == |multiset(sorted)| == |multiset(es)| == |es|;
    forall t | 0 <= t < |tree|
      ensures tree[t].weight <= sorted[t].weight
    {
      Majorize(centers, sqrt, es, t);
    }
    WeightLe(tree, sorted);
    SortWeight(es);
  }
}

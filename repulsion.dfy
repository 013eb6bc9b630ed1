/**
  The repulsion phase of a tick: `apply_repulsion` on every unordered pair
  of nodes, visited in the pair order of module Pairs. Only velocities change,
  and every pair's push is equal and opposite, so the total velocity of the
  collection is what it was before the phase.
*/
module Repulsion {
  import opened Node
  import opened Pairs

  /** One call `s[i].apply_repulsion(s[j])` on the values of the collection. */
  function RepelPair(s: seq<Body>, p: IndexPair, sqrt: real -> real): (r: seq<Body>)
    requires SqrtSound(sqrt) && p.0 < |s| && p.1 < |s|
    ensures |r| == |s|
  {
    var (i, j) := p;
    SqDistNonNegative((s[i].x, s[i].y), (s[j].x, s[j].y));
    var d := Repel(s[i], s[j], Sqrt(sqrt, CornerSqDist(s[i], s[j])));
    s[i := d.0][j := d.1]
  }

  /** The calls for the pairs `p`, in order. */
  function RepelAlong(s: seq<Body>, p: seq<IndexPair>, sqrt: real -> real): (r: seq<Body>)
    requires SqrtSound(sqrt) && Within(p, |s|)
    ensures |r| == |s|
  {
    if p == [] then s else RepelPair(RepelAlong(s, p[..|p| - 1], sqrt), p[|p| - 1], sqrt)
  }

  lemma RepelAlongSnoc(s: seq<Body>, p: seq<IndexPair>, x: IndexPair, sqrt: real -> real)
    requires SqrtSound(sqrt) && Within(p, |s|) && x.0 < |s| && x.1 < |s|
    ensures Within(p + [x], |s|)
    ensures RepelAlong(s, p + [x], sqrt) == RepelPair(RepelAlong(s, p, sqrt), x, sqrt)
  {
    assert (p + [x])[..|p|] == p;
  }

  lemma {:induction false} RepelAlongAppend(s: seq<Body>, p: seq<IndexPair>, q: seq<IndexPair>, sqrt: real -> real)
    requires SqrtSound(sqrt) && Within(p, |s|) && Within(q, |s|)
    ensures Within(p + q, |s|)
    ensures RepelAlong(s, p + q, sqrt) == RepelAlong(RepelAlong(s, p, sqrt), q, sqrt)
  {
    if q != [] {
      var q' := q[..|q| - 1];
      assert (p + q)[..|p + q| - 1] == p + q';
      RepelAlongAppend(s, p, q', sqrt);
    } else {
      assert p + q == p;
    }
  }

  /** The whole repulsion phase on the values of the collection. */
  function RepelAll(s: seq<Body>, sqrt: real -> real): (r: seq<Body>)
    requires SqrtSound(sqrt)
    ensures |r| == |s|
  {
    RowsWithin(|s|, |s|);
    RepelAlong(s, IndexPairs(|s|), sqrt)
  }

  function SumVx(s: seq<Body>): real
  {
    if s == [] then 0.0 else SumVx(s[..|s| - 1]) + s[|s| - 1].vx
  }

  function SumVy(s: seq<Body>): real
  {
    if s == [] then 0.0 else SumVy(s[..|s| - 1]) + s[|s| - 1].vy
  }

  lemma {:induction false} SumAfterUpdate(s: seq<Body>, k: nat, b: Body)
    requires k < |s|
    ensures SumVx(s[k := b]) == SumVx(s) - s[k].vx + b.vx
    ensures SumVy(s[k := b]) == SumVy(s) - s[k].vy + b.vy
  {
    var t := s[k := b];
    if k < |s| - 1 {
      assert t[..|t| - 1] == s[..|s| - 1][k := b];
      SumAfterUpdate(s[..|s| - 1], k, b);
    } else {
      assert t[..|t| - 1] == s[..|s| - 1];
    }
  }

  lemma SumAfterSwap(s: seq<Body>, i: nat, j: nat, a: Body, b: Body)
    requires i < |s| && j < |s| && i != j
    requires a.vx + b.vx == s[i].vx + s[j].vx && a.vy + b.vy == s[i].vy + s[j].vy
    ensures SumVx(s[i := a][j := b]) == SumVx(s) && SumVy(s[i := a][j := b]) == SumVy(s)
  {
    var t := s[i := a];
    SumAfterUpdate(s, i, a);
    SumAfterUpdate(t, j, b);
  }

  /** A node repelling itself has coincident corners and is left unchanged. */
  lemma RepelSelfIsNoOp(s: seq<Body>, i: nat, sqrt: real -> real)
    requires SqrtSound(sqrt) && i < |s|
    ensures RepelPair(s, (i, i), sqrt) == s
  {
    assert CornerSqDist(s[i], s[i]) == 0.0;
  }

  /** One pair's push keeps the positions and the total velocity. */
  lemma RepelPairKeeps(s: seq<Body>, p: IndexPair, sqrt: real -> real)
    requires SqrtSound(sqrt) && p.0 < |s| && p.1 < |s|
    ensures var r := RepelPair(s, p, sqrt);
      && (forall k :: 0 <= k < |s| ==> r[k].x == s[k].x && r[k].y == s[k].y)
      && SumVx(r) == SumVx(s) && SumVy(r) == SumVy(s)
  {
    var i, j := p.0, p.1;
    if i != j {
      SqDistNonNegative((s[i].x, s[i].y), (s[j].x, s[j].y));
      var d := Repel(s[i], s[j], Sqrt(sqrt, CornerSqDist(s[i], s[j])));
      SumAfterSwap(s, i, j, d.0, d.1);
    } else {
      RepelSelfIsNoOp(s, i, sqrt);
    }
  }

  lemma {:induction false} RepelAlongKeeps(s: seq<Body>, p: seq<IndexPair>, sqrt: real -> real)
    requires SqrtSound(sqrt) && Within(p, |s|)
    ensures var r := RepelAlong(s, p, sqrt);
      && (forall k :: 0 <= k < |s| ==> r[k].x == s[k].x && r[k].y == s[k].y)
      && SumVx(r) == SumVx(s) && SumVy(r) == SumVy(s)
  {
    if p != [] {
      RepelAlongKeeps(s, p[..|p| - 1], sqrt);
      RepelPairKeeps(RepelAlong(s, p[..|p| - 1], sqrt), p[|p| - 1], sqrt);
    }
  }

  /** The repulsion phase moves no node and conserves the total velocity on both axes. */
  lemma RepelAllConserves(s: seq<Body>, sqrt: real -> real)
    requires SqrtSound(sqrt)
    ensures |RepelAll(s, sqrt)| == |s|
    ensures forall k :: 0 <= k < |s| ==> RepelAll(s, sqrt)[k].x == s[k].x && RepelAll(s, sqrt)[k].y == s[k].y
    ensures SumVx(RepelAll(s, sqrt)) == SumVx(s) && SumVy(RepelAll(s, sqrt)) == SumVy(s)
  {
    RowsWithin(|s|, |s|);
    RepelAlongKeeps(s, IndexPairs(|s|), sqrt);
  }

  /** The sum of `f` over the pairs `p`. */
  function Total(p: seq<IndexPair>, f: IndexPair -> real): real
  {
    if p == [] then 0.0 else Total(p[..|p| - 1], f) + f(p[|p| - 1])
  }

  lemma MultisetRemove(q: seq<IndexPair>, m: nat)
    requires m < |q|
    ensures multiset(q[..m] + q[m + 1..]) == multiset(q) - multiset{q[m]}
  {
    assert q == q[..m] + [q[m]] + q[m + 1..];
  }

  /** Taking out the pair at index `m` takes its term out of the sum. */
  lemma {:induction false} TotalRemove(q: seq<IndexPair>, m: nat, f: IndexPair -> real)
    requires m < |q|
    ensures Total(q, f) == Total(q[..m] + q[m + 1..], f) + f(q[m])
    decreases |q|
  {
    var q', y := q[..|q| - 1], q[|q| - 1];
    var r := q[..m] + q[m + 1..];
    if m == |q| - 1 {
      assert r == q';
    } else {
      var r' := q'[..m] + q'[m + 1..];
      TotalRemove(q', m, f);
      assert r[..|r| - 1] == r' && r[|r| - 1] == y;
    }
  }

  /** A sum over pairs does not depend on the order of the pairs. */
  lemma {:induction false} TotalPermutation(p: seq<IndexPair>, q: seq<IndexPair>, f: IndexPair -> real)
    requires multiset(p) == multiset(q)
    ensures Total(p, f) == Total(q, f)
    decreases |p|
  {
    if p == [] {
      assert |q| == |multiset(q)| == 0;
    } else {
      var x, p' := p[|p| - 1], p[..|p| - 1];
      assert p == p' + [x];
      assert x in multiset(q);
      var m :| 0 <= m < |q| && q[m] == x;
      MultisetRemove(q, m);
      TotalRemove(q, m, f);
      TotalPermutation(p', q[..m] + q[m + 1..], f);
    }
  }

  /**
    The velocity change that the call for the pair `p` gives node `k`: the
    push for the second node of the pair, its negation for the first, and
    nothing for any other node or outside the guard. It depends on the
    positions alone.
  */
  function Kick(s: seq<Body>, p: IndexPair, k: nat, sqrt: real -> real): Point
  {
    var (i, j) := p;
    if i < |s| && j < |s| && i != j then
      var d := Sqrt(sqrt, CornerSqDist(s[i], s[j]));
      if InRange(d) && 0.0 < d then
        var f := Push(s[i], s[j], d);
        if k == j then f else if k == i then (-f.0, -f.1) else (0.0, 0.0)
      else (0.0, 0.0)
    else (0.0, 0.0)
  }

  function KickX(s: seq<Body>, k: nat, sqrt: real -> real): IndexPair -> real
  {
    p => Kick(s, p, k, sqrt).0
  }

  function KickY(s: seq<Body>, k: nat, sqrt: real -> real): IndexPair -> real
  {
    p => Kick(s, p, k, sqrt).1
  }

  /** Node `k` after the calls for the pairs `p`: its velocity plus the kicks of all those pairs. */
  function Kicked(s: seq<Body>, p: seq<IndexPair>, k: nat, sqrt: real -> real): Body
    requires k < |s|
  {
    s[k].(vx := s[k].vx + Total(p, KickX(s, k, sqrt)), vy := s[k].vy + Total(p, KickY(s, k, sqrt)))
  }

  /** One call changes every node's velocity by that node's kick. */
  lemma RepelPairKick(s: seq<Body>, p: IndexPair, k: nat, sqrt: real -> real)
    requires SqrtSound(sqrt) && p.0 < |s| && p.1 < |s| && k < |s|
    ensures RepelPair(s, p, sqrt)[k] == s[k].(vx := s[k].vx + Kick(s, p, k, sqrt).0, vy := s[k].vy + Kick(s, p, k, sqrt).1)
  {
    var (i, j) := p;
    if i == j {
      RepelSelfIsNoOp(s, i, sqrt);
    } else {
      SqDistNonNegative((s[i].x, s[i].y), (s[j].x, s[j].y));
    }
  }

  lemma PushPositions(a: Body, b: Body, a': Body, b': Body, d: real)
    requires 0.0 < d && a.x == a'.x && a.y == a'.y && b.x == b'.x && b.y == b'.y
    ensures Push(a, b, d) == Push(a', b', d)
  {
    assert Push(a, b, d).0 == Push(a', b', d).0;
    assert Push(a, b, d).1 == Push(a', b', d).1;
  }

  /** Kicks are computed from positions, so they are the same for two lists with the same positions. */
  lemma KickPositions(s: seq<Body>, t: seq<Body>, p: IndexPair, k: nat, sqrt: real -> real)
    requires |s| == |t| && forall z :: 0 <= z < |s| ==> s[z].x == t[z].x && s[z].y == t[z].y
    ensures Kick(s, p, k, sqrt) == Kick(t, p, k, sqrt)
  {
    var (i, j) := p;
    if i < |s| && j < |s| && i != j {
      assert CornerSqDist(s[i], s[j]) == CornerSqDist(t[i], t[j]);
      var d := Sqrt(sqrt, CornerSqDist(s[i], s[j]));
      assert d == Sqrt(sqrt, CornerSqDist(t[i], t[j]));
      if InRange(d) && 0.0 < d {
        PushPositions(s[i], s[j], t[i], t[j], d);
        var f := Push(s[i], s[j], d);
        assert Kick(s, p, k, sqrt) == if k == j then f else if k == i then (-f.0, -f.1) else (0.0, 0.0);
        assert Kick(t, p, k, sqrt) == if k == j then f else if k == i then (-f.0, -f.1) else (0.0, 0.0);
      }
    }
  }

  /**
    The calls for the pairs `p`, in any order, leave node `k` with its old
    position and its old velocity plus the kicks of all the pairs: the
    equal-and-opposite pushes of the pairs containing it.
  */
  lemma {:induction false} RepelAlongKicks(s: seq<Body>, p: seq<IndexPair>, k: nat, sqrt: real -> real)
    requires SqrtSound(sqrt) && Within(p, |s|) && k < |s|
    ensures RepelAlong(s, p, sqrt)[k] == Kicked(s, p, k, sqrt)
  {
    if p != [] {
      var p', x := p[..|p| - 1], p[|p| - 1];
      assert Within(p', |s|);
      var t := RepelAlong(s, p', sqrt);
      RepelAlongKicks(s, p', k, sqrt);
      RepelAlongKeeps(s, p', sqrt);
      RepelPairKick(t, x, k, sqrt);
      KickPositions(s, t, x, k, sqrt);
    }
  }

  /** Two orders of the same pairs give the same final states. */
  lemma RepelAlongPermutation(s: seq<Body>, p: seq<IndexPair>, q: seq<IndexPair>, sqrt: real -> real)
    requires SqrtSound(sqrt) && Within(p, |s|) && multiset(p) == multiset(q)
    ensures Within(q, |s|)
    ensures RepelAlong(s, p, sqrt) == RepelAlong(s, q, sqrt)
  {
    forall t | 0 <= t < |q|
      ensures q[t].0 < |s| && q[t].1 < |s|
    {
      assert q[t] in multiset(p);
      var u :| 0 <= u < |p| && p[u] == q[t];
    }
    forall k | 0 <= k < |s|
      ensures RepelAlong(s, p, sqrt)[k] == RepelAlong(s, q, sqrt)[k]
    {
      RepelAlongKicks(s, p, k, sqrt);
      RepelAlongKicks(s, q, k, sqrt);
      TotalPermutation(p, q, KickX(s, k, sqrt));
      TotalPermutation(p, q, KickY(s, k, sqrt));
    }
  }

  /**
    The order in which the repulsion phase visits the pairs does not change
    its outcome: visiting every unordered pair once, in any order, gives the
    states RepelAll gives, where each node keeps its position and gains the
    kicks of all pairs.
  */
  lemma RepelAllAnyOrder(s: seq<Body>, p: seq<IndexPair>, sqrt: real -> real)
    requires SqrtSound(sqrt) && multiset(p) == multiset(IndexPairs(|s|))
    ensures Within(p, |s|)
    ensures RepelAlong(s, p, sqrt) == RepelAll(s, sqrt)
    ensures forall k :: 0 <= k < |s| ==> RepelAll(s, sqrt)[k] == Kicked(s, p, k, sqrt)
  {
    RowsWithin(|s|, |s|);
    RepelAlongPermutation(s, IndexPairs(|s|), p, sqrt);
    forall k | 0 <= k < |s|
      ensures RepelAll(s, sqrt)[k] == Kicked(s, p, k, sqrt)
    {
      RepelAlongKicks(s, p, k, sqrt);
    }
  }

  /** One call `rects[i].apply_repulsion(rects[j])`. */
  method RepelStep(rects: seq<Rectangle>, i: nat, j: nat, sqrt: real -> real)
    requires SqrtSound(sqrt) && Distinct(rects) && i < j < |rects|
    modifies rects[i], rects[j]
    ensures States(rects) == RepelPair(old(States(rects)), (i, j), sqrt)
  {
    ghost var before := States(rects);
    SqDistNonNegative((before[i].x, before[i].y), (before[j].x, before[j].y));
    ghost var d := Repel(before[i], before[j], Sqrt(sqrt, CornerSqDist(before[i], before[j])));
    rects[i].ApplyRepulsion(rects[j], sqrt);
    forall k | 0 <= k < |rects|
      ensures States(rects)[k] == before[i := d.0][j := d.1][k]
    {
      if k != i && k != j {
        assert rects[k] != rects[i] && rects[k] != rects[j];
      }
    }
  }

  /** The inner loop: `rects[i].apply_repulsion(rect2)` for every `rect2` in `rects[i+1:]`. */
  method RepelRow(rects: seq<Rectangle>, i: nat, sqrt: real -> real)
    requires SqrtSound(sqrt) && Distinct(rects) && i < |rects|
    modifies set r | r in rects
    ensures Within(Row(i, |rects|), |rects|)
    ensures States(rects) == RepelAlong(old(States(rects)), Row(i, |rects|), sqrt)
  {
    ghost var s1 := States(rects);
    var n := |rects|;
    var j := i + 1;
    ghost var visited: seq<IndexPair> := [];
    while j < n
      invariant i < j <= n
      invariant |visited| == j - i - 1
      invariant forall t :: 0 <= t < |visited| ==> visited[t] == (i, i + 1 + t)
      invariant Within(visited, n)
      invariant States(rects) == RepelAlong(s1, visited, sqrt)
    {
      RepelStep(rects, i, j, sqrt);
      RepelAlongSnoc(s1, visited, (i, j), sqrt);
      visited := visited + [(i, j)];
      j := j + 1;
    }
    RowElements(i, n);
    assert visited == Row(i, n);
  }

  /** The values after the outer loop has run rows `0 .. i - 1`. */
  ghost function AfterRows(s: seq<Body>, i: nat, sqrt: real -> real): (r: seq<Body>)
    requires SqrtSound(sqrt) && i <= |s|
    ensures |r| == |s|
  {
    RowsWithin(|s|, i);
    RepelAlong(s, Rows(|s|, i), sqrt)
  }

  /** Rows `0 .. i` are rows `0 .. i - 1` followed by row `i`. */
  lemma RepelNextRow(s: seq<Body>, i: nat, sqrt: real -> real)
    requires SqrtSound(sqrt) && i < |s|
    ensures Within(Row(i, |s|), |s|)
    ensures AfterRows(s, i + 1, sqrt) == RepelAlong(AfterRows(s, i, sqrt), Row(i, |s|), sqrt)
  {
    RowsWithin(|s|, i);
    RowShape(i, |s|);
    RepelAlongAppend(s, Rows(|s|, i), Row(i, |s|), sqrt);
  }

  /** After the last row the outer loop has run every pair. */
  lemma AllRows(s: seq<Body>, sqrt: real -> real)
    requires SqrtSound(sqrt)
    ensures AfterRows(s, |s|, sqrt) == RepelAll(s, sqrt)
  {
  }

  /** The nested loop over `rects[i]` and `rects[i+1:]`. */
  method RepelAllPairs(rects: seq<Rectangle>, sqrt: real -> real)
    requires SqrtSound(sqrt) && Distinct(rects)
    modifies set r | r in rects
    ensures States(rects) == RepelAll(old(States(rects)), sqrt)
  {
    ghost var s0 := States(rects);
    var n := |rects|;
    var i := 0;
    while i < n
      invariant 0 <= i <= n
      invariant States(rects) == AfterRows(s0, i, sqrt)
    {
      RepelNextRow(s0, i, sqrt);
      RepelRow(rects, i, sqrt);
      i := i + 1;
    }
    AllRows(s0, sqrt);
  }
}

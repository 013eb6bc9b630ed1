/**
  The `parent` list of `connect_rectangles_mst` with its inner functions
  `find` (path halving) and `union` (the root of y is attached under the root
  of x). The ghost `root` records the representative that each node's parent
  chain ends at, and the ghost `depth` bounds that chain's length, so `find`
  terminates.
*/
module UnionFind {
  import opened Kruskal

  /**
    Every parent is a node; every node's root is a node that is its own parent
    and is also the root of its parent; a node that is its own parent is its
    own root; and a parent is strictly shallower than its child.
  */
  ghost predicate Linked(parent: seq<nat>, root: seq<nat>, depth: seq<nat>)
  {
    && |root| == |parent| && |depth| == |parent|
    && forall x :: 0 <= x < |parent| ==>
      && parent[x] < |parent|
      && root[x] < |parent|
      && parent[root[x]] == root[x]
      && root[parent[x]] == root[x]
      && (parent[x] == x ==> root[x] == x)
      && (parent[x] != x ==> depth[parent[x]] < depth[x])
  }

  /** The depths after the tree of `rootY` is hung below a root of depth `d`. */
  ghost function LinkDepth(root: seq<nat>, depth: seq<nat>, rootY: nat, d: nat): (r: seq<nat>)
    requires |depth| == |root|
    ensures |r| == |root|
  {
    seq(|root|, z requires 0 <= z < |root| => if root[z] == rootY then depth[z] + d + 1 else depth[z])
  }

  /** Pointing one root at another keeps the links well formed. */
  lemma LinkKeepsLinked(parent: seq<nat>, root: seq<nat>, depth: seq<nat>, rootX: nat, rootY: nat)
    requires Linked(parent, root, depth) && rootX < |parent| && rootY < |parent|
    requires parent[rootX] == rootX && parent[rootY] == rootY && rootX != rootY
    ensures Linked(parent[rootY := rootX], Relabel(root, rootY, rootX), LinkDepth(root, depth, rootY, depth[rootX]))
  {
    var p, r, d := parent[rootY := rootX], Relabel(root, rootY, rootX), LinkDepth(root, depth, rootY, depth[rootX]);
    forall z | 0 <= z < |p|
      ensures p[z] < |p| && r[z] < |p| && p[r[z]] == r[z] && r[p[z]] == r[z]
      ensures (p[z] == z ==> r[z] == z) && (p[z] != z ==> d[p[z]] < d[z])
    {
      if z != rootY {
        assert p[z] == parent[z];
        assert root[parent[z]] == root[z];
      }
    }
  }

  class DisjointSets {
    var parent: array<nat>
    ghost var root: seq<nat>
    ghost var depth: seq<nat>

    ghost predicate Valid()
      reads this, parent
    {
      Linked(parent[..], root, depth)
    }

    /** `parent = list(range(n))`. */
    constructor (n: nat)
      ensures Valid() && fresh(parent) && parent.Length == n
      ensures root == Init(n).comp
    {
      parent := new nat[n](z => z);
      root := seq(n, z => z);
      depth := seq(n, z => 0);
    }

    /**
      `find(x)`: follow parents to the root, making every visited node point
      to its grandparent on the way. Only `parent` changes, and no node's
      root does.
    */
    method Find(x: nat) returns (r: nat)
      requires Valid() && x < parent.Length
      modifies parent
      ensures Valid() && r == root[x] && parent[r] == r
    {
      r := x;
      while r != parent[r]
        invariant Valid() && r < parent.Length && root[r] == root[x]
        decreases depth[r]
      {
        Halve(r);
        r := parent[r];
      }
    }

    /** `parent[x] = parent[parent[x]]` for a node x that is not a root. */
    method Halve(x: nat)
      requires Valid() && x < parent.Length && parent[x] != x
      modifies parent
      ensures Valid()
      ensures parent[x] == old(parent[parent[x]]) && depth[parent[x]] < depth[x]
      ensures forall z :: 0 <= z < parent.Length && z != x ==> parent[z] == old(parent[z])
    {
      ghost var p := parent[x];
      parent[x] := parent[parent[x]];
      assert parent[x] == old(parent[p]);
      forall z | 0 <= z < parent.Length
        ensures parent[root[z]] == root[z] && root[parent[z]] == root[z]
      {
        assert old(parent[root[z]]) == root[z];
      }
    }

    /** `parent[rootY] = rootX` for two distinct roots. */
    method Link(rootX: nat, rootY: nat)
      requires Valid() && rootX < parent.Length && rootY < parent.Length
      requires parent[rootX] == rootX && parent[rootY] == rootY && rootX != rootY
      modifies this, parent
      ensures Valid() && parent == old(parent)
      ensures root == Relabel(old(root), rootY, rootX)
    {
      LinkKeepsLinked(parent[..], root, depth, rootX, rootY);
      ghost var p := parent[..][rootY := rootX];
      parent[rootY] := rootX;
      assert parent[..] == p;
      depth := LinkDepth(root, depth, rootY, depth[rootX]);
      root := Relabel(root, rootY, rootX);
    }

    /**
      `union(x, y)`: true exactly when x and y had different roots; then every
      node with y's root takes x's root, and nothing else changes.
    */
    method Union(x: nat, y: nat) returns (merged: bool)
      requires Valid() && x < parent.Length && y < parent.Length
      modifies this, parent
      ensures Valid() && parent == old(parent)
      ensures merged <==> old(root[x]) != old(root[y])
      ensures root == if merged then Relabel(old(root), old(root[y]), old(root[x])) else old(root)
    {
      var rootX := Find(x);
      var rootY := Find(y);
      if rootX != rootY {
        Link(rootX, rootY);
        merged := true;
      } else {
        merged := false;
      }
    }
  }
}

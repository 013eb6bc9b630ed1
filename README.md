# roomgen in Dafny

`roomgen.py` is a pygame program. It lays out small rectangles ("rooms") on a
full-screen canvas and draws a minimum spanning tree over their centers.
Every frame of its main loop does four things:

- It spawns a new rectangle in the middle of the screen. This happens at most
  once every 100 ms and only while there are fewer than 200 rectangles.
- It pushes apart every pair of rectangles that are closer than 100 but not at
  the same corner, with a capped Coulomb-like force (`apply_repulsion`).
- It moves, damps and clamps every rectangle (`update`).
- It connects the rectangle centers with the lines chosen by Kruskal's
  algorithm (`connect_rectangles_mst`). That algorithm uses a sorted edge list
  and an array-backed union-find with path halving.

This project models those four steps and proves what they guarantee. It is
organised as follows:

- `node.dfy`: one rectangle as a value and as a class. It covers the force,
  the push, `apply_repulsion`, `update` and `center`.
- `pairs.dfy`: the sequence of index pairs `i < j` that the nested loops visit.
- `repulsion.dfy`: the all-pairs repulsion loop. It conserves total velocity.
- `edges.dfy`: candidate edge generation and the tuple sort.
- `graph.dfy`: walks, connectivity, acyclicity and spanning over an edge list.
- `kruskal.dfy`: the edge scan as a function over component labels. It
  carries the spanning-tree theorems.
- `unionfind.dfy`: the `parent` array with `find` and `union`, as a class.
- `mst.dfy`: `connect_rectangles_mst` as the program runs it. It uses the
  array union-find and is proved equal to the scan function of `kruskal.dfy`.
- `minimality.dfy`: the drawn tree has minimum total length among all
  spanning trees over the candidate edges.
- `simulation.dfy`: the spawn rule and one pass of the main loop.

Modelling choices:

- Arithmetic is exact arithmetic over `real`.
- `math.sqrt` is a function parameter `sqrt`. `SqrtSound` says it is
  non-negative and zero at zero. `IsSqrt` says it is the true square root.
- The direction `(cos(atan2(dy, dx)), sin(atan2(dy, dx)))` is modelled as
  `(dx / dist, dy / dist)`. Mathematically the two are the same.
- The clock reading `pygame.time.get_ticks()` is an input to each frame.
- The initial velocity that `random.uniform(-0.5, 0.5)` would give a new
  rectangle is an input too.
- Line drawing is replaced by returning the list of drawn edges.
- Repulsion measures the distance between the rectangles' top-left corners,
  as `apply_repulsion` does, and not between their centers. The two distances
  are equal (`Node.CenterDistanceIsCornerDistance`).
- The position stays inside the canvas only when the canvas is at least as
  large as the rectangle. On a smaller canvas the code pins the rectangle at
  `WIDTH - width`, a negative coordinate, and `Node.Integrate` states that
  case as it is.

- Minimality compares the drawn tree with spanning trees whose edges are
  candidate edges, each written `(distance, i, j)` with `i < j`. Up to the
  orientation of each edge, these are all spanning trees of the complete
  graph over the centers.

## Model

| member | source | states |
|---|---|---|
| Node.Midpoint | roomgen.py:82-83 | The center lies halfway between the left and right edges and between the top and bottom edges. The halves are the integer halves of the 40x20 size. |
| Node.Rectangle.Center | roomgen.py:82-83 | `center()` returns the midpoint of the rectangle's current position. |
| Node.CenterDistanceIsCornerDistance | roomgen.py:90-91 | The squared distance between two centers, which the spanning tree uses, equals the squared distance between the two corners, which repulsion uses. |
| Node.InRange | roomgen.py:53 | The repulsion guard: the distance is below MIN_DISTANCE (100) and is not 0. |
| Node.Force | roomgen.py:54 | The force is positive, at most MAX_FORCE, and at most COULOMB_CONSTANT / distance². It is always one of those two values. |
| Node.Push | roomgen.py:54-59 | `(fx, fy)`: the capped force along the unit direction `(dx, dy) / distance` from this corner to the other. Its size and direction are stated by Node.PushSize. |
| Node.Repel | roomgen.py:48-65 | `apply_repulsion` on two values: positions never change and both velocity sums are preserved. Inside the guard (0 < distance < MIN_DISTANCE) the other node gains exactly the push and this node loses it. Outside the guard both nodes are unchanged. |
| Node.PushSize | roomgen.py:54-59 | When `dist` is the true corner distance, the push has magnitude equal to the force, hence at most MAX_FORCE. It lies on the line between the two corners and points from this node towards the other. |
| Node.RepelCapsNearbyForce | roomgen.py:53-65 | Two nodes 10 apart on one axis are pushed by the capped force 5, not by 4000/10² = 40, in opposite directions along that axis. |
| Node.IsSqrtIsSound | roomgen.py:51 | A true square root has the two properties that the repulsion relies on (non-negative, zero at zero). |
| Node.Integrate | roomgen.py:67-77 | After `update` the velocity is exactly DAMPING_FACTOR times the old velocity; clamping never changes it. A moved position already inside the canvas is kept. On a canvas the node fits, a position moved below 0 becomes 0 and the node ends inside the canvas. A position moved past the far edge becomes `WIDTH - width` (`HEIGHT - height` for y) on any canvas. A node larger than the canvas is pinned at the far edge, because that clamp runs last. |
| Node.Rectangle.Update | roomgen.py:67-77 | The method changes the fields exactly as Integrate says. |
| Node.Rectangle.ApplyRepulsion | roomgen.py:48-65 | The method leaves both rectangles in the states Repel gives, with `sqrt` of the squared corner distance. |
| Node.Rectangle.constructor | roomgen.py:41-46 | The new rectangle has the given position and initial velocity. |
| Pairs.IndexPairsExactlyOnce | roomgen.py:155-156 | The nested loops visit only ordered in-range pairs. They visit every pair `i < j < n`, none of them twice, n(n-1)/2 visits in all. |
| Repulsion.RepelPair | roomgen.py:157 | One call `rect1.apply_repulsion(rect2)` on the list of values: the two nodes take the states Repel gives, and no other node changes. The list keeps its length. |
| Repulsion.RepelAll | roomgen.py:154-157 | The repulsion phase on the list of values: the calls for every pair `i < j`, in the order of the nested loop. The list keeps its length. |
| Repulsion.RepelSelfIsNoOp | roomgen.py:53 | A node paired with itself is at distance 0 and is left unchanged. |
| Repulsion.RepelPairKeeps | roomgen.py:61-65 | One `apply_repulsion` call moves no node and keeps the total velocity of the whole collection on both axes. |
| Repulsion.RepelAllConserves | roomgen.py:154-157 | The repulsion phase of a frame moves no node and conserves total velocity on both axes. |
| Repulsion.TotalPermutation | roomgen.py:155-157 | A sum over pairs has the same value for every order of the pairs. |
| Repulsion.RepelPairKick | roomgen.py:48-65 | One `apply_repulsion` call changes each node's velocity by that node's kick: the push for the second node of the pair, its negation for the first, and nothing otherwise. |
| Repulsion.KickPositions | roomgen.py:49-59 | A pair's kick depends only on the positions of the nodes. |
| Repulsion.RepelAlongKicks | roomgen.py:155-157 | After the calls for any list of pairs, every node keeps its position, and its velocity is the old one plus the kicks of all the pairs in the list. |
| Repulsion.RepelAlongPermutation | roomgen.py:155-157 | Two orders of the same pairs leave the nodes in the same states. |
| Repulsion.RepelAllAnyOrder | roomgen.py:154-157 | The order in which the repulsion phase visits the pairs does not change its outcome. Visiting every unordered pair once, in any order, gives the states of the loop's own order. In those states each node has gained the pushes of all pairs that contain it. |
| Repulsion.RepelStep | roomgen.py:157 | One call in the loop changes the list's values exactly as RepelPair says. |
| Repulsion.RepelRow | roomgen.py:156-157 | The inner loop applies the pairs `(i, i+1) .. (i, n-1)` in order. |
| Repulsion.RepelAllPairs | roomgen.py:155-157 | The nested loop leaves the rectangles in the states RepelAll gives. |
| Edges.Distance | roomgen.py:90-91 | `distance(p1, p2)`: the return value of `sqrt` on the squared distance. It is never negative, and with the true square root its square is the squared distance. |
| Edges.Candidate | roomgen.py:102 | The tuple `(distance(center1, center2), i, j)` that the loop appends for the pair `(i, j)`. |
| Edges.AllEdges | roomgen.py:96-102 | The list `edges` before the sort: the candidate edge of every pair `i < j`, in the order of the nested loop. Its properties are stated by Edges.AllEdgesExactlyOnce. |
| Edges.AllEdgesExactlyOnce | roomgen.py:99-102 | Edge generation makes n(n-1)/2 edges. Each is `(distance, i, j)` with `i < j < n`. Every such pair has its edge, and no two edges join the same pair. |
| Edges.GenerateEdges | roomgen.py:96-102 | The nested loop with the `i < j` test builds exactly AllEdges. |
| Edges.SortEdges | roomgen.py:105 | `edges.sort()`: the result is in tuple order (distance, then i, then j) and is a permutation of the input. |
| Edges.SortedUnique | roomgen.py:105 | Tuple order is total, so a list has exactly one sorted permutation. Any correct sort, Timsort included, gives the list SortEdges gives. |
| Kruskal.Init | roomgen.py:108 | `parent = list(range(n))` as component labels: every node is its own root and nothing is drawn. |
| Kruskal.Step | roomgen.py:116-128 | An edge whose ends carry different root labels is drawn, and every node labelled with j's root takes i's root. Otherwise nothing changes. |
| Kruskal.Run | roomgen.py:125-128 | The loop `for edge in edges`, one Step per edge, in list order. |
| Kruskal.SpanningTree | roomgen.py:94-128 | The lines `connect_rectangles_mst` draws for the given centers, in drawing order. Its properties are stated by SpanningTreeSpans, SpanningTreeSorted and Minimality.SpanningTreeMinimal. |
| Kruskal.SortedCandidates | roomgen.py:99-105 | The sorted list holds only candidate edges and holds every pair's edge. |
| Kruskal.InitInv | roomgen.py:108 | With `parent = list(range(n))` and nothing drawn, the scan invariant holds. |
| Kruskal.StepAcyclic | roomgen.py:125-128 | Drawing an edge only when its ends have different roots never closes a cycle. |
| Kruskal.StepInv | roomgen.py:119-128 | One scanned edge keeps the invariant. All labels remain roots. Connected means same label. Components plus drawn edges add up to n. The drawn edges stay acyclic. |
| Kruskal.RunInv | roomgen.py:125-128 | Scanning any list of in-range edges keeps the invariant. |
| Kruskal.ScanInv | roomgen.py:105-128 | After the whole scan the invariant holds, and every scanned edge lies inside one component. |
| Kruskal.SpanningTreeSpans | roomgen.py:94-128 | The drawn lines form a spanning tree. No line closes a cycle, every two centers are connected, and there are n-1 lines when n ≥ 1 and none when n = 0. |
| Kruskal.ScanDrawsInOrder | roomgen.py:125-128 | Scanning a sorted list draws only scanned edges, and draws them in sorted order. |
| Kruskal.SpanningTreeSorted | roomgen.py:105-128 | The lines are drawn shortest first, with ties broken by (i, j). Each line joins two distinct nodes and carries the distance of their centers. |
| Minimality.SortWeight | roomgen.py:105 | Sorting the edges keeps their total length. |
| Minimality.RunAcyclic | roomgen.py:125-128 | When the drawn edges followed by the scanned ones stay acyclic, the scan draws every scanned edge. |
| Minimality.AcyclicWithinComponents | roomgen.py:119-128 | An acyclic edge list whose every edge lies inside one component of a scan state has no more edges than that state has drawn. |
| Minimality.ShortEdgesBound | roomgen.py:105-128 | For every length w, an acyclic set of candidate edges has no more edges of length at most w than the scan draws from the candidates of length at most w. |
| Minimality.ShortTreeLeads | roomgen.py:105-128 | The lines drawn from the candidates of length at most w are the first lines drawn, and each of them is at most w long. |
| Minimality.Majorize | roomgen.py:105-128 | The i-th drawn line is no longer than the i-th shortest edge of any acyclic set of candidate edges with more than i edges. |
| Minimality.SpanningTreeSize | roomgen.py:94-128 | Every acyclic spanning edge list over n in-range nodes has n-1 edges, and none when n = 0. |
| Minimality.SpanningTreeMinimal | roomgen.py:94-128 | The drawn lines are a minimum spanning tree. They form a spanning tree over the candidate edges, and no such spanning tree has a smaller total length. |
| UnionFind.DisjointSets.constructor | roomgen.py:108 | `parent = list(range(n))`: every node is its own root. |
| UnionFind.DisjointSets.Halve | roomgen.py:112 | `parent[x] = parent[parent[x]]` changes only `parent[x]`, moves it one step closer to the root, and keeps every root. |
| UnionFind.DisjointSets.Find | roomgen.py:110-114 | `find(x)` returns x's root, which is its own parent. Path halving keeps every parent in range and leaves every node's root unchanged. |
| UnionFind.LinkKeepsLinked | roomgen.py:120 | Pointing one root at another keeps the parent links well formed and terminating. |
| UnionFind.DisjointSets.Link | roomgen.py:120 | `parent[rootY] = rootX`: the nodes of y's set take rootX as their root, and every other node keeps its root. |
| UnionFind.DisjointSets.Union | roomgen.py:116-122 | `union(x, y)` returns True iff x and y had different roots. Then y's set joins x's under x's root and all other sets keep their roots; otherwise nothing changes. |
| Mst.DrawEdges | roomgen.py:108-128 | The union-find loop draws exactly the edges of the scan Run. |
| Mst.ConnectMst | roomgen.py:96-128 | Generating, sorting and scanning the edges of the given centers draws exactly SpanningTree. The result is acyclic and spanning, with n-1 lines (none for n = 0). |
| Mst.CentersOf | roomgen.py:95 | `[rect.center() for rect in rectangles]` on the rectangles' values: the midpoint of each, in list order, one per rectangle. |
| Mst.Centers | roomgen.py:95 | `centers` holds each rectangle's midpoint, in list order. |
| Mst.ConnectRectanglesMst | roomgen.py:94-128 | `connect_rectangles_mst` draws the spanning tree of the rectangles' centers: acyclic, spanning, with n-1 lines. |
| Simulation.SpawnRun | roomgen.py:145-152 | The spawn check of successive frames, given their clock readings, applied in order. Its properties are stated by the SpawnRun lemmas. |
| Simulation.SpawnStep | roomgen.py:145-152 | A frame adds a node exactly when fewer than 200 exist and at least 100 ms have passed since the last spawn, and adds at most one. The spawn time moves only on a spawn, and then to the current time. The count never passes 200. |
| Simulation.SpawnRunBounds | roomgen.py:146-152 | Over any frames the count grows by at most one per frame and never passes 200. If no node was added, the spawn state is unchanged. |
| Simulation.SpawnRunSpaced | roomgen.py:146-152 | Frames at least 100 ms apart add one node each until 200 nodes exist. |
| Simulation.SpawnRunQuiet | roomgen.py:146 | Frames less than 100 ms after the last spawn add nothing. |
| Simulation.SpawnRunWindow | roomgen.py:146-152 | Frames whose clock readings all fall within one 100 ms window together add at most one node. |
| Simulation.IntegrateAll | roomgen.py:160-161 | `rect.update()` for every rectangle, on the list of values: each node takes the state Integrate gives, and the list keeps its length. |
| Simulation.AfterSpawn | roomgen.py:146-151 | The list of values after the spawn check: unchanged when the check is not due. When it is due, the same list with one new node appended at `(WIDTH // 2, HEIGHT // 2)` with the given initial velocity. |
| Simulation.UpdateAll | roomgen.py:160-161 | The loop applies `update` to every rectangle. |
| Simulation.World.constructor | roomgen.py:86-87 | The program starts with no rectangles and the last spawn time set to the start time. |
| Simulation.World.Spawn | roomgen.py:146-152 | The spawn rule changes the count and the spawn time as SpawnStep says. When due, it appends a fresh rectangle at `(WIDTH // 2, HEIGHT // 2)` and the existing rectangles are untouched. |
| Simulation.World.Tick | roomgen.py:145-165 | One frame: spawn, repel all pairs, update all rectangles, then draw the spanning tree of the new centers. The rectangles stay distinct and number at most 200. |

## Left out

- Window setup, event handling, drawing, `display.flip` and `clock.tick` are
  pygame I/O. They are not modelled, and the drawn lines are returned instead.
- `math.sqrt` is a parameter and not a computation. Every theorem holds for
  any `sqrt` that is non-negative and zero at zero (`SqrtSound`). The size of
  the push (`PushSize`) also assumes the true square root.
- `math.atan2`, `math.cos` and `math.sin` are not computed. The force
  direction is `(dx / dist, dy / dist)`, which is the same quantity.
- Floating point: the model computes in exact reals. Rounding in the
  distances, in DAMPING_FACTOR and in the sort's comparisons is not modelled.
- `random.uniform(-0.5, 0.5)` is not modelled. The initial velocity is a
  parameter of the constructor and of `Spawn`/`Tick`, and its range is not
  constrained.
- `pygame.time.get_ticks()` is not modelled. The clock reading is a
  parameter of `Spawn`/`Tick` and of the start of the program.
- Edges.SortEdges: `list.sort()` sorts in place with Timsort. The model uses a
  value-level sort function. By `SortedUnique` every correct sort gives the
  same list, but the in-place steps are not modelled.
- Convergence of the layout is not modelled. The program promises nothing
  about it.
- Python's unbounded `int` for the canvas size and clock readings matches the
  model's `int`, so nothing about integer width is left out.

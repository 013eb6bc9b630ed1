/**
  The main loop of the program, one frame at a time: the spawn rule, the
  repulsion phase, the update of every node and the spanning tree drawn over
  the centers. The clock reading of a frame is an input, and so is the
  initial velocity that a new node would draw at random.
*/
module Simulation {
  import opened Node
  import opened Edges
  import opened Kruskal
  import opened Repulsion
  import opened Mst

  const MaxRectangles: nat := 200
  /** Milliseconds between two spawns. */
  const SpawnInterval: int := 100

  /** What the spawn rule looks at: how many nodes there are and when the last one was spawned. */
  datatype Spawner = Spawner(count: nat, lastSpawn: int)

  predicate SpawnDue(s: Spawner, now: int)
  {
    s.count < MaxRectangles && now - s.lastSpawn >= SpawnInterval
  }

  /**
    One frame's spawn rule: a node is added exactly when the rule is due, at
    most one per frame; the spawn time moves only when a node is added, and
    then to the current time; the count never passes MaxRectangles.
  */
  function SpawnStep(s: Spawner, now: int): (r: Spawner)
    ensures r.count == s.count + 1 <==> SpawnDue(s, now)
    ensures s.count <= r.count <= s.count + 1
    ensures r.lastSpawn != s.lastSpawn ==> r.count == s.count + 1 && r.lastSpawn == now
    ensures SpawnDue(s, now) ==> r == Spawner(s.count + 1, now)
    ensures r.count == s.count ==> r == s
    ensures s.count <= MaxRectangles ==> r.count <= MaxRectangles
  {
    if SpawnDue(s, now) then Spawner(s.count + 1, now) else s
  }

  /** The spawn rule over the clock readings of successive frames. */
  function SpawnRun(s: Spawner, times: seq<int>): Spawner
    decreases |times|
  {
    if times == [] then s else SpawnRun(SpawnStep(s, times[0]), times[1..])
  }

  /** Over any frames, each frame adds at most one node and the count stays within MaxRectangles. */
  lemma {:induction false} SpawnRunBounds(s: Spawner, times: seq<int>)
    requires s.count <= MaxRectangles
    ensures s.count <= SpawnRun(s, times).count <= s.count + |times|
    ensures SpawnRun(s, times).count <= MaxRectangles
    ensures SpawnRun(s, times).count == s.count ==> SpawnRun(s, times) == s
    decreases |times|
  {
    if times != [] {
      SpawnRunBounds(SpawnStep(s, times[0]), times[1..]);
    }
  }

  /**
    Frames at least SpawnInterval apart, the first at least SpawnInterval
    after the last spawn, each add a node until MaxRectangles is reached.
  */
  lemma {:induction false} SpawnRunSpaced(s: Spawner, times: seq<int>)
    requires s.count <= MaxRectangles
    requires times != [] ==> times[0] - s.lastSpawn >= SpawnInterval
    requires forall k :: 0 < k < |times| ==> times[k] - times[k - 1] >= SpawnInterval
    ensures SpawnRun(s, times).count == if s.count + |times| <= MaxRectangles then s.count + |times| else MaxRectangles
    decreases |times|
  {
    if times != [] {
      var r := SpawnStep(s, times[0]);
      var rest := times[1..];
      assert rest != [] ==> rest[0] - r.lastSpawn >= SpawnInterval by {
        if rest != [] {
          assert rest[0] == times[1];
          if r.count == s.count {
            assert s.count == MaxRectangles;
            assert times[1] - times[0] >= SpawnInterval;
          }
        }
      }
      assert forall k :: 0 < k < |rest| ==> rest[k] - rest[k - 1] >= SpawnInterval by {
        forall k | 0 < k < |rest| ensures rest[k] - rest[k - 1] >= SpawnInterval {
          assert rest[k] == times[k + 1] && rest[k - 1] == times[k];
        }
      }
      SpawnRunSpaced(r, rest);
    }
  }

  /** Frames whose clock readings all fall within one SpawnInterval add at most one node together. */
  lemma {:induction false} SpawnRunWindow(s: Spawner, times: seq<int>, from: int)
    requires forall k :: 0 <= k < |times| ==> from <= times[k] < from + SpawnInterval
    ensures SpawnRun(s, times).count <= s.count + 1
    decreases |times|
  {
    if times != [] {
      var r := SpawnStep(s, times[0]);
      var rest := times[1..];
      assert forall k :: 0 <= k < |rest| ==> from <= rest[k] < from + SpawnInterval by {
        forall k | 0 <= k < |rest| ensures from <= rest[k] < from + SpawnInterval {
          assert rest[k] == times[k + 1];
        }
      }
      if r.count == s.count {
        SpawnRunWindow(r, rest, from);
      } else {
        SpawnRunQuiet(r, rest);
      }
    }
  }

  /** After a spawn, frames less than SpawnInterval later add nothing. */
  lemma {:induction false} SpawnRunQuiet(s: Spawner, times: seq<int>)
    requires forall k :: 0 <= k < |times| ==> times[k] - s.lastSpawn < SpawnInterval
    ensures SpawnRun(s, times) == s
    decreases |times|
  {
    if times != [] {
      assert SpawnStep(s, times[0]) == s;
      var rest := times[1..];
      assert forall k :: 0 <= k < |rest| ==> rest[k] - s.lastSpawn < SpawnInterval by {
        forall k | 0 <= k < |rest| ensures rest[k] - s.lastSpawn < SpawnInterval {
          assert rest[k] == times[k + 1];
        }
      }
      SpawnRunQuiet(s, rest);
    }
  }

  /** `rect.update()` on every node, as values. */
  function IntegrateAll(s: seq<Body>, canvasWidth: int, canvasHeight: int): (r: seq<Body>)
    ensures |r| == |s|
  {
    seq(|s|, k requires 0 <= k < |s| => Integrate(s[k], canvasWidth, canvasHeight))
  }

  /** The loop `for rect in rectangles: rect.update()`. */
  method UpdateAll(rects: seq<Rectangle>, canvasWidth: int, canvasHeight: int)
    requires Distinct(rects)
    modifies set r | r in rects
    ensures States(rects) == IntegrateAll(old(States(rects)), canvasWidth, canvasHeight)
  {
    ghost var s0 := States(rects);
    var k := 0;
    while k < |rects|
      invariant 0 <= k <= |rects|
      invariant forall t :: 0 <= t < k ==> rects[t].State() == Integrate(s0[t], canvasWidth, canvasHeight)
      invariant forall t :: k <= t < |rects| ==> rects[t].State() == s0[t]
    {
      rects[k].Update(canvasWidth, canvasHeight);
      k := k + 1;
    }
  }

  /** The node values after the spawn rule: a new node in the middle of the canvas when it is due. */
  function AfterSpawn(s: seq<Body>, sp: Spawner, now: int, canvasWidth: int, canvasHeight: int, vx0: real, vy0: real): (r: seq<Body>)
    ensures |r| == if SpawnDue(sp, now) then |s| + 1 else |s|
    ensures r[..|s|] == s
  {
    if SpawnDue(sp, now) then s + [Body((canvasWidth / 2) as real, (canvasHeight / 2) as real, vx0, vy0)] else s
  }

  /** The program's global state: the list of nodes and the last spawn time, on a canvas of fixed size. */
  class World {
    var rects: seq<Rectangle>
    var lastSpawn: int
    const canvasWidth: int
    const canvasHeight: int

    ghost predicate Valid()
      reads this
    {
      Distinct(rects) && |rects| <= MaxRectangles
    }

    function Spawns(): Spawner
      reads this
    {
      Spawner(|rects|, lastSpawn)
    }

    /** `rectangles = []` and `last_spawn_time = pygame.time.get_ticks()`, the clock reading passed in. */
    constructor (canvasWidth: int, canvasHeight: int, startTime: int)
      ensures Valid() && rects == [] && lastSpawn == startTime
      ensures this.canvasWidth == canvasWidth && this.canvasHeight == canvasHeight
    {
      this.canvasWidth := canvasWidth;
      this.canvasHeight := canvasHeight;
      rects := [];
      lastSpawn := startTime;
    }

    /** The spawn rule: append `Rectangle(WIDTH // 2, HEIGHT // 2)` and record the time, when due. */
    method Spawn(now: int, vx0: real, vy0: real)
      requires Valid()
      modifies this
      ensures Valid() && Spawns() == SpawnStep(old(Spawns()), now)
      ensures rects[..|old(rects)|] == old(rects)
      ensures forall r :: r in rects && r !in old(rects) ==> fresh(r)
      ensures States(rects) == AfterSpawn(old(States(rects)), old(Spawns()), now, canvasWidth, canvasHeight, vx0, vy0)
    {
      if |rects| < MaxRectangles && now - lastSpawn >= SpawnInterval {
        var r := new Rectangle((canvasWidth / 2) as real, (canvasHeight / 2) as real, vx0, vy0);
        rects := rects + [r];
        lastSpawn := now;
      }
    }

    /**
      One pass of the main loop at clock reading `now`: spawn, repel every
      pair, update every node, then return the lines of the spanning tree of
      the centers.
    */
    method Tick(now: int, vx0: real, vy0: real, sqrt: real -> real) returns (tree: seq<Edge>)
      requires Valid() && SqrtSound(sqrt)
      modifies this, set r | r in rects
      ensures Valid() && Spawns() == SpawnStep(old(Spawns()), now)
      ensures States(rects) == IntegrateAll(RepelAll(AfterSpawn(old(States(rects)), old(Spawns()), now, canvasWidth, canvasHeight, vx0, vy0), sqrt), canvasWidth, canvasHeight)
      ensures tree == SpanningTree(CentersOf(States(rects)), sqrt)
    {
      Spawn(now, vx0, vy0);
      RepelAllPairs(rects, sqrt);
      UpdateAll(rects, canvasWidth, canvasHeight);
      tree := ConnectRectanglesMst(rects, sqrt);
    }
  }
}

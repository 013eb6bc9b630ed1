/**
  One layout node: a rectangle of fixed size with a position and a velocity.
  A tick changes a node twice: pairwise repulsion adds to its velocity, and
  integration moves it by its velocity, damps the velocity and clamps the
  position into the canvas.

  All physics is exact arithmetic over `real`. The square root that the
  repulsion needs is supplied by the caller (see IsSqrt); the direction of
  the force, which the source obtains as `cos(atan2(dy, dx))` and
  `sin(atan2(dy, dx))`, is exactly `dx / dist` and `dy / dist`.
*/
module Node {

  const MinDistance: real := 100.0
  const CoulombConstant: real := 4000.0
  const MaxForce: real := 5.0
  const DampingFactor: real := 0.95
  const RectWidth: int := 40
  const RectHeight: int := 20

  type Point = (real, real)

  /** The value of a node: position (x, y) of its top-left corner, velocity (vx, vy). */
  datatype Body = Body(x: real, y: real, vx: real, vy: real)

  /** `s` is the non-negative square root of `r`. */
  predicate IsRoot(s: real, r: real)
  {
    0.0 <= s && s * s == r
  }

  /** The call `math.sqrt(r)`, with the library function passed in as `sqrt`. */
  function Sqrt(sqrt: real -> real, r: real): real
  {
    sqrt(r)
  }

  /** `sqrt` returns the non-negative square root of every non-negative real. */
  ghost predicate IsSqrt(sqrt: real -> real)
  {
    forall r: real {:trigger Sqrt(sqrt, r)} :: 0.0 <= r ==> IsRoot(Sqrt(sqrt, r), r)
  }

  /**
    The two facts about the square root that the repulsion step itself relies
    on: it is never negative (so the force is defined) and it is 0 exactly at 0
    (so a node never repels itself). The size of the push needs IsSqrt.
  */
  ghost predicate SqrtSound(sqrt: real -> real)
  {
    && Sqrt(sqrt, 0.0) == 0.0
    && forall r: real {:trigger Sqrt(sqrt, r)} :: 0.0 <= r ==> 0.0 <= Sqrt(sqrt, r)
  }

  lemma IsSqrtIsSound(sqrt: real -> real)
    requires IsSqrt(sqrt)
    ensures SqrtSound(sqrt)
  {
    assert IsRoot(Sqrt(sqrt, 0.0), 0.0);
    ZeroSquare(Sqrt(sqrt, 0.0));
  }

  function SqDist(p: Point, q: Point): real
  {
    (p.0 - q.0) * (p.0 - q.0) + (p.1 - q.1) * (p.1 - q.1)
  }

  /** Squared distances are non-negative, so the square root applies to them. */
  lemma SqDistNonNegative(p: Point, q: Point)
    ensures 0.0 <= SqDist(p, q)
  {
    var dx, dy := p.0 - q.0, p.1 - q.1;
    assert 0.0 <= dx * dx && 0.0 <= dy * dy;
  }

  /** The squared distance that repulsion measures: between the raw corners. */
  function CornerSqDist(a: Body, b: Body): real
  {
    SqDist((a.x, a.y), (b.x, b.y))
  }

  /** The midpoint of the rectangle (integer halves of the integer sizes). */
  function Midpoint(b: Body): (c: Point)
    ensures c.0 - b.x == (b.x + RectWidth as real) - c.0
    ensures c.1 - b.y == (b.y + RectHeight as real) - c.1
  {
    (b.x + (RectWidth / 2) as real, b.y + (RectHeight / 2) as real)
  }

  /** Repulsion measures corners and the spanning tree measures centers; both give the same distances. */
  lemma CenterDistanceIsCornerDistance(a: Body, b: Body)
    ensures SqDist(Midpoint(a), Midpoint(b)) == CornerSqDist(a, b)
  {
  }

  /** The Coulomb-like force magnitude, capped at MaxForce. */
  function Force(dist: real): (f: real)
    requires 0.0 < dist
    ensures 0.0 < f <= MaxForce
    ensures f <= CoulombConstant / (dist * dist)
    ensures f == MaxForce || f == CoulombConstant / (dist * dist)
  {
    var raw := CoulombConstant / (dist * dist);
    if raw < MaxForce then raw else MaxForce
  }

  /** The guard of the repulsion: the centers are apart but closer than MinDistance. */
  predicate InRange(dist: real)
  {
    dist < MinDistance && dist != 0.0
  }

  lemma UnitDirection(dx: real, dy: real, dist: real)
    requires 0.0 < dist && dist * dist == dx * dx + dy * dy
    ensures (dx / dist) * (dx / dist) + (dy / dist) * (dy / dist) == 1.0
  {
    var ux, uy := dx / dist, dy / dist;
    assert ux * dist == dx && uy * dist == dy;
    calc {
      (ux * ux + uy * uy) * (dist * dist);
      (ux * dist) * (ux * dist) + (uy * dist) * (uy * dist);
      dx * dx + dy * dy;
      1.0 * (dist * dist);
    }
  }

  lemma ZeroSquare(s: real)
    requires 0.0 <= s && s * s == 0.0
    ensures s == 0.0
  {
    if s > 0.0 {
      calc {
        0.0;
      < s * s;
      == 0.0;
      }
    }
  }

  /**
    The push `(dx / dist * force, dy / dist * force)` has magnitude `force`,
    lies on the line through the two corners and points from the first to the second.
  */
  lemma PushVector(dx: real, dy: real, dist: real, force: real, fx: real, fy: real)
    requires 0.0 < dist && dist * dist == dx * dx + dy * dy
    requires fx == dx / dist * force && fy == dy / dist * force
    ensures fx * fx + fy * fy == force * force
    ensures fx * dy == fy * dx
    ensures fx * dx + fy * dy == force * dist
  {
    var ux, uy := dx / dist, dy / dist;
    UnitDirection(dx, dy, dist);
    assert ux * dist == dx && uy * dist == dy;
    calc {
      fx * fx + fy * fy;
      (ux * ux + uy * uy) * (force * force);
      force * force;
    }
    calc {
      fx * dy;
      ux * force * (uy * dist);
      uy * force * (ux * dist);
      fy * dx;
    }
    calc {
      fx * dx + fy * dy;
      ux * force * (ux * dist) + uy * force * (uy * dist);
      (ux * ux + uy * uy) * (force * dist);
      force * dist;
    }
  }

  lemma SquareBound(f: real, m: real)
    requires 0.0 <= f <= m
    ensures f * f <= m * m
  {
    assert f * f <= f * m <= m * m;
  }

  /**
    The push that `a.ApplyRepulsion(b)` adds to b's velocity and takes from
    a's: Force(dist) along the corner-to-corner direction `(dx, dy) / dist`,
    the cosine and sine of `atan2(dy, dx)`.
  */
  function Push(a: Body, b: Body, dist: real): Point
    requires 0.0 < dist
  {
    var force := Force(dist);
    ((b.x - a.x) / dist * force, (b.y - a.y) / dist * force)
  }

  /**
    `a.ApplyRepulsion(b)` as a function of the two values: returns the new
    values of a and b. `dist` is the distance between the two corners. The
    size and direction of the push are stated by PushSize.
  */
  function Repel(a: Body, b: Body, dist: real): (r: (Body, Body))
    requires 0.0 <= dist
    // positions never change
    ensures r.0.x == a.x && r.0.y == a.y && r.1.x == b.x && r.1.y == b.y
    // equal and opposite: the velocity sums are preserved
    ensures r.0.vx + r.1.vx == a.vx + b.vx && r.0.vy + r.1.vy == a.vy + b.vy
    // inside the guard b gains the push, so a loses it; outside the guard nothing changes
    ensures InRange(dist) ==> r.1.vx == b.vx + Push(a, b, dist).0 && r.1.vy == b.vy + Push(a, b, dist).1
    ensures !InRange(dist) ==> r == (a, b)
  {
    if InRange(dist) then
      var (fx, fy) := Push(a, b, dist);
      (a.(vx := a.vx - fx, vy := a.vy - fy), b.(vx := b.vx + fx, vy := b.vy + fy))
    else
      (a, b)
  }

  /**
    When dist is the true distance of the corners, the push points along the
    line from a's corner to b's, away from a, with magnitude Force(dist),
    which never exceeds MaxForce.
  */
  lemma PushSize(a: Body, b: Body, dist: real)
    requires IsRoot(dist, CornerSqDist(a, b)) && InRange(dist)
    ensures var (fx, fy) := Push(a, b, dist);
      && fx * fx + fy * fy == Force(dist) * Force(dist) <= MaxForce * MaxForce
      && fx * (b.y - a.y) == fy * (b.x - a.x)
      && fx * (b.x - a.x) + fy * (b.y - a.y) == Force(dist) * dist
  {
    var dx, dy := b.x - a.x, b.y - a.y;
    var f := Force(dist);
    var p := Push(a, b, dist);
    assert dx * dx + dy * dy == CornerSqDist(a, b);
    PushVector(dx, dy, dist, f, p.0, p.1);
    SquareBound(f, MaxForce);
  }

  /** Two nodes 10 apart on one axis are pushed apart by the capped force 5, not by 4000/10^2. */
  lemma RepelCapsNearbyForce(vxa: real, vya: real, vxb: real, vyb: real)
    ensures var r := Repel(Body(0.0, 0.0, vxa, vya), Body(10.0, 0.0, vxb, vyb), 10.0);
      r.0.vx == vxa - 5.0 && r.1.vx == vxb + 5.0 && r.0.vy == vya && r.1.vy == vyb
  {
    assert Force(10.0) == 5.0;
  }

  /**
    `update` as a function of the node's value and the canvas size: move by
    the velocity, damp the velocity, then clamp each axis first at 0 and then
    at the far edge.
  */
  function Integrate(b: Body, canvasWidth: int, canvasHeight: int): (r: Body)
    // the velocity is damped and never altered by the clamping
    ensures r.vx == DampingFactor * b.vx && r.vy == DampingFactor * b.vy
    // when the node fits the canvas, it ends inside it
    ensures RectWidth <= canvasWidth ==> 0.0 <= r.x <= (canvasWidth - RectWidth) as real
    ensures RectHeight <= canvasHeight ==> 0.0 <= r.y <= (canvasHeight - RectHeight) as real
    // a moved position already inside the canvas is kept
    ensures 0.0 <= b.x + b.vx <= (canvasWidth - RectWidth) as real ==> r.x == b.x + b.vx
    ensures 0.0 <= b.y + b.vy <= (canvasHeight - RectHeight) as real ==> r.y == b.y + b.vy
    // a node that fits and moves past the near edge is clamped to it
    ensures RectWidth <= canvasWidth && b.x + b.vx < 0.0 ==> r.x == 0.0
    ensures RectHeight <= canvasHeight && b.y + b.vy < 0.0 ==> r.y == 0.0
    // a node that moves past the far edge is clamped to it
    ensures b.x + b.vx > (canvasWidth - RectWidth) as real ==> r.x == (canvasWidth - RectWidth) as real
    ensures b.y + b.vy > (canvasHeight - RectHeight) as real ==> r.y == (canvasHeight - RectHeight) as real
    // a node wider (higher) than the canvas is pinned at the far edge, the last clamp applied
    ensures canvasWidth < RectWidth ==> r.x == (canvasWidth - RectWidth) as real
    ensures canvasHeight < RectHeight ==> r.y == (canvasHeight - RectHeight) as real
  {
    var x, y := b.x + b.vx, b.y + b.vy;
    var vx, vy := b.vx * DampingFactor, b.vy * DampingFactor;
    var x := if x < 0.0 then 0.0 else x;
    var y := if y < 0.0 then 0.0 else y;
    var x := if x + RectWidth as real > canvasWidth as real then (canvasWidth - RectWidth) as real else x;
    var y := if y + RectHeight as real > canvasHeight as real then (canvasHeight - RectHeight) as real else y;
    Body(x, y, vx, vy)
  }

  /** A rectangle whose position and velocity the tick updates in place. */
  class Rectangle {
    var x: real
    var y: real
    var vx: real
    var vy: real

    function State(): Body
      reads this
    {
      Body(x, y, vx, vy)
    }

    /** The initial velocity, random in the source, is a parameter. */
    constructor (x0: real, y0: real, vx0: real, vy0: real)
      ensures State() == Body(x0, y0, vx0, vy0)
    {
      x, y, vx, vy := x0, y0, vx0, vy0;
    }

    method ApplyRepulsion(other: Rectangle, sqrt: real -> real)
      requires SqrtSound(sqrt)
      modifies this, other
      ensures var r := Repel(old(State()), old(other.State()), Sqrt(sqrt, CornerSqDist(old(State()), old(other.State()))));
        State() == r.0 && other.State() == r.1
    {
      var dx := other.x - x;
      var dy := other.y - y;
      var dist := Sqrt(sqrt, dx * dx + dy * dy);
      ghost var a, b := State(), other.State();
      assert dx * dx + dy * dy == CornerSqDist(a, b);
      assert dist == Sqrt(sqrt, CornerSqDist(a, b));
      if this == other {
        assert dx * dx + dy * dy == 0.0;
      }
      if dist < MinDistance && dist != 0.0 {
        var force := Force(dist);
        var fx := dx / dist * force;
        var fy := dy / dist * force;
        vx := vx - fx;
        vy := vy - fy;
        other.vx := other.vx + fx;
        other.vy := other.vy + fy;
      }
    }

    method Update(canvasWidth: int, canvasHeight: int)
      modifies this
      ensures State() == Integrate(old(State()), canvasWidth, canvasHeight)
    {
      x := x + vx;
      y := y + vy;
      vx := vx * DampingFactor;
      vy := vy * DampingFactor;
      if x < 0.0 { x := 0.0; }
      if y < 0.0 { y := 0.0; }
      if x + RectWidth as real > canvasWidth as real { x := (canvasWidth - RectWidth) as real; }
      if y + RectHeight as real > canvasHeight as real { y := (canvasHeight - RectHeight) as real; }
    }

    method Center() returns (c: Point)
      ensures c == Midpoint(State())
    {
      c := Midpoint(State());
    }
  }

  /** No rectangle occurs twice in the list. */
  ghost predicate Distinct(rects: seq<Rectangle>)
  {
    forall a, b :: 0 <= a < b < |rects| ==> rects[a] != rects[b]
  }

  /** The values of the rectangles of the list, in list order. */
  ghost function States(rects: seq<Rectangle>): (s: seq<Body>)
    reads set r | r in rects
    ensures |s| == |rects|
  {
    seq(|rects|, k reads set r | r in rects requires 0 <= k < |rects| => rects[k].State())
  }
}

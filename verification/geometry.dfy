/** Points of the walking plane and the distance helpers of `Graph`
    (Graph.cs).

    Coordinates are `real`: float rounding is not modelled. `Math.Sqrt` has no
    Dafny counterpart, so every function that takes a square root receives it
    as the parameter `root`; the lemmas that depend on what a square root is
    require `IsSqrt(root)`. */
module Geometry {
  import opened Wrappers

  /** A `GraphNode`: a position plus the scene `Point` object it was read from
      (`tag`, null for computed positions such as start, end or projections). */
  datatype GraphNode = GraphNode(x: real, y: real, tag: Option<nat>)

  /** `new GraphNode(vec)`: a computed position, not tied to a scene point. */
  function At(x: real, y: real): GraphNode {
    GraphNode(x, y, None)
  }

  /** The point `q + t (r - q)` of the line through q and r. */
  function Lerp(q: GraphNode, r: GraphNode, t: real): GraphNode {
    At(q.x + t * (r.x - q.x), q.y + t * (r.y - q.y))
  }

  function SameSpot(p: GraphNode, q: GraphNode): bool {
    p.x == q.x && p.y == q.y
  }

  /** What `Math.Sqrt` promises on non-negative arguments. */
  ghost predicate IsSqrt(root: real -> real) {
    forall v: real {:trigger root(v)} :: 0.0 <= v ==> 0.0 <= root(v) && root(v) * root(v) == v
  }

  /** Graph.DistanceSquared. */
  function DistanceSquared(p1: GraphNode, p2: GraphNode): (d: real)
    ensures 0.0 <= d
  {
    var dx := p1.x - p2.x;
    var dy := p1.y - p2.y;
    dx * dx + dy * dy
  }

  /** Graph.Distance. */
  function Distance(root: real -> real, p1: GraphNode, p2: GraphNode): (d: real)
    ensures IsSqrt(root) ==> 0.0 <= d && d * d == DistanceSquared(p1, p2)
  {
    root(DistanceSquared(p1, p2))
  }

  /** The projection parameter of p onto the line qr (Graph.cs line 74). */
  function SegmentParameter(p: GraphNode, q: GraphNode, r: GraphNode): real
    requires DistanceSquared(q, r) != 0.0
  {
    ((p.x - q.x) * (r.x - q.x) + (p.y - q.y) * (r.y - q.y)) / DistanceSquared(q, r)
  }

  /** Graph.DistanceToSegmentSquared: squared distance from p to segment qr. */
  function DistanceToSegmentSquared(p: GraphNode, q: GraphNode, r: GraphNode): (d: real)
    ensures 0.0 <= d
    ensures DistanceSquared(q, r) == 0.0 ==> d == DistanceSquared(p, r)
  {
    var l2 := DistanceSquared(q, r);
    if l2 == 0.0 then DistanceSquared(p, r)
    else
      var t := SegmentParameter(p, q, r);
      if t < 0.0 then DistanceSquared(p, q)
      else if t > 1.0 then DistanceSquared(p, r)
      else DistanceSquared(p, Lerp(q, r, t))
  }

  /** Graph.DistanceToSegment. */
  function DistanceToSegment(root: real -> real, p: GraphNode, q: GraphNode, r: GraphNode): real {
    root(DistanceToSegmentSquared(p, q, r))
  }

  // ---------------------------------------------------------------------
  // Properties

  /** DistanceSquared does not depend on the order of its arguments. */
  lemma DistanceSquaredSymmetric(p: GraphNode, q: GraphNode)
    ensures DistanceSquared(p, q) == DistanceSquared(q, p)
  {
  }

  /** Lerp with parameter 0 and 1 gives back the segment's endpoints. */
  lemma LerpEnds(q: GraphNode, r: GraphNode)
    ensures SameSpot(Lerp(q, r, 0.0), q)
    ensures SameSpot(Lerp(q, r, 1.0), r)
  {
  }

  /** DistanceToSegmentSquared measures the distance to an actual point of
      the closed segment qr: the projection of p clamped to [0, 1], or the
      endpoint r when the segment is a single point. */
  lemma SegmentDistanceIsAttained(p: GraphNode, q: GraphNode, r: GraphNode)
    returns (s: real)
    ensures 0.0 <= s <= 1.0
    ensures DistanceToSegmentSquared(p, q, r) == DistanceSquared(p, Lerp(q, r, s))
  {
    var l2 := DistanceSquared(q, r);
    if l2 == 0.0 {
      s := 1.0;
    } else {
      var t := SegmentParameter(p, q, r);
      s := if t < 0.0 then 0.0 else if t > 1.0 then 1.0 else t;
    }
  }

  /** A degenerate segment is a single point: every point is as far from
      one end as from the other. */
  lemma {:induction false} DegenerateSegmentEnds(p: GraphNode, q: GraphNode, r: GraphNode)
    requires DistanceSquared(q, r) == 0.0
    ensures DistanceSquared(p, q) == DistanceSquared(p, r)
  {
    var u, v := r.x - q.x, r.y - q.y;
    assert u * u + v * v == 0.0;
    if u != 0.0 {
      assert 0.0 < u * u;
      assert 0.0 <= v * v;
    } else if v != 0.0 {
      assert 0.0 < v * v;
    }
  }

  /** The projection at a parameter t in [0, 1] is t times the dot product
      closer to p than q is. */
  lemma {:induction false} InnerProjectionDrop(p: GraphNode, q: GraphNode, r: GraphNode)
    requires DistanceSquared(q, r) != 0.0
    requires 0.0 <= SegmentParameter(p, q, r) <= 1.0
    ensures DistanceSquared(p, Lerp(q, r, SegmentParameter(p, q, r)))
         == DistanceSquared(p, q) - SegmentParameter(p, q, r) * SegmentParameter(p, q, r) * DistanceSquared(q, r)
  {
    var a, b := p.x - q.x, p.y - q.y;
    var u, v := r.x - q.x, r.y - q.y;
    var l2 := u * u + v * v;
    var dot := a * u + b * v;
    var t := SegmentParameter(p, q, r);
    assert DistanceSquared(q, r) == l2;
    assert t * l2 == dot;
    var m := Lerp(q, r, t);
    assert DistanceSquared(p, m) == a * a + b * b - 2.0 * t * dot + t * t * l2;
    assert t * t * l2 == t * dot;
  }

  /** Projecting onto the inside of the segment never moves away from either
      end. */
  lemma {:induction false} InnerProjectionNoFarther(p: GraphNode, q: GraphNode, r: GraphNode)
    requires DistanceSquared(q, r) != 0.0
    requires 0.0 <= SegmentParameter(p, q, r) <= 1.0
    ensures DistanceSquared(p, Lerp(q, r, SegmentParameter(p, q, r))) <= DistanceSquared(p, q)
    ensures DistanceSquared(p, Lerp(q, r, SegmentParameter(p, q, r))) <= DistanceSquared(p, r)
  {
    InnerProjectionDrop(p, q, r);
    var a, b := p.x - q.x, p.y - q.y;
    var u, v := r.x - q.x, r.y - q.y;
    var l2 := DistanceSquared(q, r);
    var dot := a * u + b * v;
    var t := SegmentParameter(p, q, r);
    var drop := t * t * l2;
    assert 0.0 <= drop;
    assert t * l2 == dot;
    assert DistanceSquared(p, r) == a * a + b * b - 2.0 * dot + l2;
    assert 0.0 <= (1.0 - t) * (1.0 - t) * l2;
    assert drop <= 2.0 * dot - l2 + (1.0 - t) * (1.0 - t) * l2;
  }

  /** Past an end of the segment, that end is the nearer one. */
  lemma {:induction false} OuterProjectionNearerEnd(p: GraphNode, q: GraphNode, r: GraphNode)
    requires DistanceSquared(q, r) != 0.0
    ensures SegmentParameter(p, q, r) < 0.0 ==> DistanceSquared(p, q) <= DistanceSquared(p, r)
    ensures SegmentParameter(p, q, r) > 1.0 ==> DistanceSquared(p, r) <= DistanceSquared(p, q)
  {
    var a, b := p.x - q.x, p.y - q.y;
    var u, v := r.x - q.x, r.y - q.y;
    var l2 := u * u + v * v;
    var dot := a * u + b * v;
    var t := SegmentParameter(p, q, r);
    assert DistanceSquared(q, r) == l2;
    assert t * l2 == dot;
    assert DistanceSquared(p, q) == a * a + b * b;
    assert DistanceSquared(p, r) == a * a + b * b - 2.0 * dot + l2;
  }

  /** A point's distance to a segment is no more than its distance to
      either end of the segment (Graph.cs lines 72-77), in squared form. */
  lemma {:induction false} SegmentNoFartherThanEnds(p: GraphNode, q: GraphNode, r: GraphNode)
    ensures DistanceToSegmentSquared(p, q, r) <= DistanceSquared(p, q)
    ensures DistanceToSegmentSquared(p, q, r) <= DistanceSquared(p, r)
  {
    if DistanceSquared(q, r) == 0.0 {
      DegenerateSegmentEnds(p, q, r);
    } else {
      OuterProjectionNearerEnd(p, q, r);
      var t := SegmentParameter(p, q, r);
      if 0.0 <= t <= 1.0 {
        InnerProjectionNoFarther(p, q, r);
      }
    }
  }
}

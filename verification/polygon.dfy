/** `Polygon.cs`: a closed polygon given by its vertex list, with the
    orientation test, in-place reversal, the point-in-polygon test with a
    boundary band, the closest boundary point and vertex deletion. */
module Polygons {
  import opened Wrappers
  import opened Geometry

  /** A polygon component: its vertices (closing edge from the last vertex back
      to the first) and whether its game object is active in the hierarchy. */
  datatype Polygon = Polygon(vertices: seq<GraphNode>, active: bool)

  /** Width of the boundary band of IsInside (`epsilon = 0.005f`). */
  const Epsilon: real := 0.005

  /** Initial bound of the closest-edge search (`mindist = 100000`). */
  const FarAway: real := 100000.0

  /** Snapping radius of DestroyPoint (`epsilon = 0.4f`). */
  const DestroyRadius: real := 0.4

  // ---------------------------------------------------------------------
  // Reversal and orientation

  function Reverse<T>(s: seq<T>): (r: seq<T>)
    ensures |r| == |s|
    ensures forall i :: 0 <= i < |s| ==> r[i] == s[|s| - 1 - i]
  {
    if |s| == 0 then [] else Reverse(s[1..]) + [s[0]]
  }

  /** Polygon.ReverseVertices. */
  function ReverseVertices(p: Polygon): (r: Polygon)
    ensures |r.vertices| == |p.vertices| && r.active == p.active
    ensures forall i :: 0 <= i < |p.vertices| ==> r.vertices[i] == p.vertices[|p.vertices| - 1 - i]
  {
    p.(vertices := Reverse(p.vertices))
  }

  /** The index after i going round a polygon of n vertices, (i + 1) % n. */
  function Next(i: nat, n: nat): (r: nat)
    requires i < n
    ensures r < n && r == (i + 1) % n
  {
    if i + 1 < n then i + 1 else 0
  }

  /** The contribution of the edge a -> b to the shoelace-style sum. */
  function EdgeTerm(a: GraphNode, b: GraphNode): real {
    (b.x - a.x) * (b.y + a.y)
  }

  /** The sum of EdgeTerm over the open chain s[0] -> s[1] -> ... -> s[|s|-1]. */
  function ChainSum(s: seq<GraphNode>): real {
    if |s| < 2 then 0.0 else EdgeTerm(s[0], s[1]) + ChainSum(s[1..])
  }

  /** The sum of EdgeTerm over every edge of the closed polygon. */
  function OrientationSum(s: seq<GraphNode>): real {
    if |s| == 0 then 0.0 else ChainSum(s) + EdgeTerm(s[|s| - 1], s[0])
  }

  /** Clockwise means a positive sum (screen y growing upwards). */
  predicate IsClockwise(s: seq<GraphNode>) {
    OrientationSum(s) > 0.0
  }

  /** Polygon.IsOrientationClockwise, the loop of the source: it adds the term
      of edge i -> (i + 1) % n for every i. The debug assertion on at least
      three vertices is not a run-time check. */
  method IsOrientationClockwise(vs: seq<GraphNode>) returns (clockwise: bool)
    ensures clockwise <==> IsClockwise(vs)
  {
    var n := |vs|;
    var sum := 0.0;
    var i := 0;
    while i < n
      invariant 0 <= i <= n
      invariant i < n ==> sum == ChainSum(vs[..i + 1])
      invariant i == n ==> sum == OrientationSum(vs)
    {
      var a := vs[i];
      var b := vs[Next(i, n)];
      if i + 1 < n {
        ChainSumSnoc(vs[..i + 1], vs[i + 1]);
        assert vs[..i + 1] + [vs[i + 1]] == vs[..i + 2];
      } else {
        assert vs[..i + 1] == vs;
      }
      sum := sum + EdgeTerm(a, b);
      i := i + 1;
    }
    clockwise := sum > 0.0;
  }

  lemma EdgeTermAntisymmetric(a: GraphNode, b: GraphNode)
    ensures EdgeTerm(b, a) == -EdgeTerm(a, b)
  {
  }

  /** Extending a chain by one vertex adds the term of the new edge. */
  lemma {:induction false} ChainSumSnoc(s: seq<GraphNode>, x: GraphNode)
    requires |s| >= 1
    ensures ChainSum(s + [x]) == ChainSum(s) + EdgeTerm(s[|s| - 1], x)
  {
    if |s| == 1 {
      assert s + [x] == [s[0], x];
    } else {
      assert (s + [x])[1..] == s[1..] + [x];
      ChainSumSnoc(s[1..], x);
    }
  }

  /** Walking a chain backwards negates its sum. */
  lemma {:induction false} ChainSumReverse(s: seq<GraphNode>)
    ensures ChainSum(Reverse(s)) == -ChainSum(s)
  {
    if |s| >= 2 {
      var t := Reverse(s[1..]);
      assert Reverse(s) == t + [s[0]];
      ChainSumSnoc(t, s[0]);
      assert t[|t| - 1] == s[1];
      ChainSumReverse(s[1..]);
      EdgeTermAntisymmetric(s[0], s[1]);
    } else if |s| == 1 {
      assert Reverse(s) == s;
    }
  }

  /** ReverseVertices negates the orientation sum. */
  lemma ReverseNegatesOrientation(s: seq<GraphNode>)
    ensures OrientationSum(Reverse(s)) == -OrientationSum(s)
  {
    if |s| > 0 {
      ChainSumReverse(s);
      EdgeTermAntisymmetric(s[|s| - 1], s[0]);
    }
  }

  /** For a non-degenerate sum, reversal flips the clockwise verdict; a
      non-clockwise polygon is clockwise or degenerate after reversal. */
  lemma ReverseFlipsClockwise(s: seq<GraphNode>)
    ensures OrientationSum(s) != 0.0 ==> (IsClockwise(Reverse(s)) <==> !IsClockwise(s))
    ensures !IsClockwise(s) ==> OrientationSum(Reverse(s)) >= 0.0
  {
    ReverseNegatesOrientation(s);
  }

  /** Reversing twice restores the vertex order. */
  lemma ReverseTwice<T>(s: seq<T>)
    ensures Reverse(Reverse(s)) == s
  {
  }

  // ---------------------------------------------------------------------
  // Point in polygon

  /** The endpoints of the edge IsInside examines at step i: from the
      previous vertex (the last one for i = 0) to vertex i. */
  function EdgeFrom(vs: seq<GraphNode>, i: nat): GraphNode
    requires i < |vs|
  {
    if i == 0 then vs[|vs| - 1] else vs[i - 1]
  }

  /** The boundary band test: |p - a|^2 + |p - b|^2 + 2|p - a||p - b| - |a - b|^2,
      which is (|p - a| + |p - b|)^2 - |a - b|^2, is below Epsilon. */
  predicate InBand(root: real -> real, a: GraphNode, b: GraphNode, p: GraphNode) {
    var oldSq := DistanceSquared(a, p);
    var newSq := DistanceSquared(b, p);
    oldSq + newSq + 2.0 * root(oldSq * newSq) - DistanceSquared(b, a) < Epsilon
  }

  /** The parity test of one edge: p lies in the x-range (left.x, right.x]
      and strictly below the edge's line. */
  predicate Crosses(a: GraphNode, b: GraphNode, p: GraphNode) {
    var left := if b.x > a.x then a else b;
    var right := if b.x > a.x then b else a;
    left.x < p.x && p.x <= right.x
    && (p.y - left.y) * (right.x - left.x) < (right.y - left.y) * (p.x - left.x)
  }

  /** The band test of every edge, edge i being EdgeFrom(vs, i) -> vs[i]. */
  function BandFlags(root: real -> real, vs: seq<GraphNode>, p: GraphNode): (r: seq<bool>)
    ensures |r| == |vs|
  {
    seq(|vs|, i requires 0 <= i < |vs| => InBand(root, EdgeFrom(vs, i), vs[i], p))
  }

  /** The parity test of every edge. */
  function CrossFlags(vs: seq<GraphNode>, p: GraphNode): (r: seq<bool>)
    ensures |r| == |vs|
  {
    seq(|vs|, i requires 0 <= i < |vs| => Crosses(EdgeFrom(vs, i), vs[i], p))
  }

  /** The loop of IsInside from edge i with parity `inside`, over the
      outcomes of the two tests: the first edge in the band ends the loop
      with the tolerance flag, every other edge toggles on its parity test. */
  function ScanFrom(band: seq<bool>, cross: seq<bool>, tolerance: bool, i: nat, inside: bool): bool
    requires |band| == |cross| && i <= |band|
    decreases |band| - i
  {
    if i == |band| then inside
    else if band[i] then tolerance
    else ScanFrom(band, cross, tolerance, i + 1, inside != cross[i])
  }

  /** Polygon.IsInside(point, toleranceOnOutside). */
  function IsInside(root: real -> real, poly: Polygon, p: GraphNode, tolerance: bool): (r: bool)
    ensures |poly.vertices| < 3 ==> !r
  {
    var vs := poly.vertices;
    if |vs| < 3 then false
    else ScanFrom(BandFlags(root, vs, p), CrossFlags(vs, p), tolerance, 0, false)
  }

  /** The number of true flags among the first k. */
  function Count(flags: seq<bool>, k: nat): nat
    requires k <= |flags|
  {
    if k == 0 then 0 else Count(flags, k - 1) + (if flags[k - 1] then 1 else 0)
  }

  /** Some edge of the polygon has p in its boundary band. */
  predicate NearBoundary(root: real -> real, vs: seq<GraphNode>, p: GraphNode) {
    true in BandFlags(root, vs, p)
  }

  /** The number of edges whose parity test holds. */
  function Crossings(vs: seq<GraphNode>, p: GraphNode): nat {
    Count(CrossFlags(vs, p), |vs|)
  }

  lemma {:induction false} ScanCharacterized(band: seq<bool>, cross: seq<bool>, tolerance: bool,
                                             i: nat, inside: bool)
    requires |band| == |cross| && i <= |band|
    requires inside == (Count(cross, i) % 2 == 1)
    requires true !in band[..i]
    ensures ScanFrom(band, cross, tolerance, i, inside)
      == if true in band then tolerance else Count(cross, |cross|) % 2 == 1
    decreases |band| - i
  {
    if i == |band| {
      assert band[..i] == band;
    } else if band[i] {
    } else {
      assert band[..i + 1] == band[..i] + [band[i]];
      ScanCharacterized(band, cross, tolerance, i + 1, inside != cross[i]);
    }
  }

  /** IsInside is false for fewer than three vertices; otherwise it answers
      `tolerance` when p is in the boundary band of some edge, and else the
      even-odd parity of the edges whose parity test holds. */
  lemma IsInsideCharacterized(root: real -> real, poly: Polygon, p: GraphNode, tolerance: bool)
    ensures |poly.vertices| < 3 ==> !IsInside(root, poly, p, tolerance)
    ensures |poly.vertices| >= 3 && NearBoundary(root, poly.vertices, p) ==>
      IsInside(root, poly, p, tolerance) == tolerance
    ensures |poly.vertices| >= 3 && !NearBoundary(root, poly.vertices, p) ==>
      IsInside(root, poly, p, tolerance) == (Crossings(poly.vertices, p) % 2 == 1)
  {
    var vs := poly.vertices;
    if |vs| >= 3 {
      ScanCharacterized(BandFlags(root, vs, p), CrossFlags(vs, p), tolerance, 0, false);
    }
  }

  /** The tolerance flag matters only inside the boundary band. */
  lemma ToleranceOnlyOnBoundary(root: real -> real, poly: Polygon, p: GraphNode)
    requires !NearBoundary(root, poly.vertices, p)
    ensures IsInside(root, poly, p, true) == IsInside(root, poly, p, false)
  {
    IsInsideCharacterized(root, poly, p, true);
    IsInsideCharacterized(root, poly, p, false);
  }

  // ---------------------------------------------------------------------
  // First least element (the search loops of GetClosestPointOnEdge and DestroyPoint)

  /** d is below the optional bound (None: no bound). */
  predicate Below(d: real, bound: Option<real>) {
    bound.None? || d < bound.value
  }

  /** The search loop shared by GetClosestPointOnEdge and DestroyPoint: it
      keeps the candidate index `best` and replaces it by i when i is
      eligible and strictly below the current best distance (or, before any
      candidate, below `limit`). */
  function LeastFrom(ds: seq<real>, eligible: seq<bool>, limit: Option<real>, i: nat, best: Option<nat>): (r: Option<nat>)
    requires |eligible| == |ds| && i <= |ds|
    requires best.Some? ==> best.value < i && eligible[best.value] && Below(ds[best.value], limit)
    requires best.Some? ==> forall j :: 0 <= j < i && eligible[j] ==> ds[best.value] <= ds[j]
    requires best.Some? ==> forall j :: 0 <= j < best.value && eligible[j] ==> ds[best.value] < ds[j]
    requires best.None? ==> forall j :: 0 <= j < i && eligible[j] ==> !Below(ds[j], limit)
    ensures r.None? <==> forall j :: 0 <= j < |ds| && eligible[j] ==> !Below(ds[j], limit)
    ensures r.Some? ==> r.value < |ds| && eligible[r.value] && Below(ds[r.value], limit)
    ensures r.Some? ==> forall j :: 0 <= j < |ds| && eligible[j] ==> ds[r.value] <= ds[j]
    ensures r.Some? ==> forall j :: 0 <= j < r.value && eligible[j] ==> ds[r.value] < ds[j]
    decreases |ds| - i
  {
    if i == |ds| then best
    else
      var threshold := if best.Some? then Some(ds[best.value]) else limit;
      if eligible[i] && Below(ds[i], threshold) then
        assert best.Some? ==> ds[i] < ds[best.value];
        assert best.Some? ==> forall j :: 0 <= j < i && eligible[j] ==> ds[i] < ds[j];
        assert best.None? ==> forall j :: 0 <= j < i && eligible[j] ==> ds[i] < ds[j] by {
          if best.None? {
            forall j | 0 <= j < i && eligible[j] ensures ds[i] < ds[j] {
              assert !Below(ds[j], limit);
            }
          }
        }
        LeastFrom(ds, eligible, limit, i + 1, Some(i))
      else LeastFrom(ds, eligible, limit, i + 1, best)
  }

  /** The first eligible index of least value below `limit`, if any. */
  function FirstLeast(ds: seq<real>, eligible: seq<bool>, limit: Option<real>): (r: Option<nat>)
    requires |eligible| == |ds|
    ensures r.None? <==> forall j :: 0 <= j < |ds| && eligible[j] ==> !Below(ds[j], limit)
    ensures r.Some? ==> r.value < |ds| && eligible[r.value] && Below(ds[r.value], limit)
    ensures r.Some? ==> forall j :: 0 <= j < |ds| && eligible[j] ==> ds[r.value] <= ds[j]
    ensures r.Some? ==> forall j :: 0 <= j < r.value && eligible[j] ==> ds[r.value] < ds[j]
  {
    LeastFrom(ds, eligible, limit, 0, None)
  }

  function AllTrue(n: nat): (r: seq<bool>)
    ensures |r| == n && forall j :: 0 <= j < n ==> r[j]
  {
    seq(n, _ => true)
  }

  // ---------------------------------------------------------------------
  // Closest point on the boundary

  /** The distance GetClosestPointOnEdge compares for edge i -> i + 1. */
  function EdgeDistances(root: real -> real, vs: seq<GraphNode>, p: GraphNode): (r: seq<real>)
    ensures |r| == |vs|
  {
    seq(|vs|, i requires 0 <= i < |vs| => DistanceToSegment(root, p, vs[i], vs[Next(i, |vs|)]))
  }

  /** The index vi1 the loop of GetClosestPointOnEdge ends with (None for -1):
      the first edge of least distance among those closer than FarAway. */
  function ClosestEdge(root: real -> real, vs: seq<GraphNode>, p: GraphNode): (r: Option<nat>)
    ensures r.Some? ==> r.value < |vs|
  {
    FirstLeast(EdgeDistances(root, vs, p), AllTrue(|vs|), Some(FarAway))
  }

  /** The projection of p onto segment p1 p2, clamped to the segment. */
  function ClampedProjection(p1: GraphNode, p2: GraphNode, p: GraphNode): GraphNode
    requires DistanceSquared(p2, p1) != 0.0
  {
    var u := EdgeParameter(p1, p2, p);
    if u < 0.0 then At(p1.x, p1.y)
    else if u > 1.0 then At(p2.x, p2.y)
    else Lerp(p1, p2, u)
  }

  /** The `u` of GetClosestPointOnEdge: the projection parameter of p on the
      edge p1 p2, divided by the squared length measured from p2 to p1. */
  function EdgeParameter(p1: GraphNode, p2: GraphNode, p: GraphNode): real
    requires DistanceSquared(p2, p1) != 0.0
  {
    ((p.x - p1.x) * (p2.x - p1.x) + (p.y - p1.y) * (p2.y - p1.y)) / DistanceSquared(p2, p1)
  }

  /** GetClosestPointOnEdge's parameter is the one DistanceToSegment uses. */
  lemma EdgeParameterIsSegmentParameter(p1: GraphNode, p2: GraphNode, p: GraphNode)
    requires DistanceSquared(p2, p1) != 0.0
    ensures DistanceSquared(p1, p2) == DistanceSquared(p2, p1)
    ensures EdgeParameter(p1, p2, p) == SegmentParameter(p, p1, p2)
  {
    var dx, dy := p2.x - p1.x, p2.y - p1.y;
    assert DistanceSquared(p2, p1) == dx * dx + dy * dy;
    assert DistanceSquared(p1, p2) == dx * dx + dy * dy;
  }

  /** Polygon.GetClosestPointOnEdge. With no edge closer than FarAway the
      code reads Vertices[-1] (an exception); a zero-length chosen edge
      divides 0 by 0 and the NaN point is reported as NotANumber. */
  function GetClosestPointOnEdge(root: real -> real, poly: Polygon, p: GraphNode): (r: Result<GraphNode>)
    ensures ClosestEdge(root, poly.vertices, p).None? ==> r == Err(IndexOutOfRange)
    ensures ClosestEdge(root, poly.vertices, p).Some? ==>
      var i := ClosestEdge(root, poly.vertices, p).value;
      (r.Err? <==> DistanceSquared(poly.vertices[Next(i, |poly.vertices|)], poly.vertices[i]) == 0.0)
    ensures r.Ok? ==> r.value.tag.None?
  {
    var vs := poly.vertices;
    match ClosestEdge(root, vs, p)
    case None => Err(IndexOutOfRange)
    case Some(i) =>
      var p1 := vs[i];
      var p2 := vs[Next(i, |vs|)];
      if DistanceSquared(p2, p1) == 0.0 then Err(NotANumber)
      else Ok(ClampedProjection(p1, p2, p))
  }

  /** The clamped projection lies on the segment and realises its distance. */
  lemma ClampedProjectionOnSegment(p1: GraphNode, p2: GraphNode, p: GraphNode)
    returns (s: real)
    requires DistanceSquared(p2, p1) != 0.0
    ensures 0.0 <= s <= 1.0
    ensures SameSpot(ClampedProjection(p1, p2, p), Lerp(p1, p2, s))
    ensures DistanceSquared(p, ClampedProjection(p1, p2, p)) == DistanceToSegmentSquared(p, p1, p2)
  {
    EdgeParameterIsSegmentParameter(p1, p2, p);
    var t := SegmentParameter(p, p1, p2);
    s := if t < 0.0 then 0.0 else if t > 1.0 then 1.0 else t;
  }

  /** The edge ClosestEdge picks is no farther from p than any other edge. */
  lemma ClosestEdgeIsLeast(root: real -> real, vs: seq<GraphNode>, p: GraphNode)
    requires ClosestEdge(root, vs, p).Some?
    ensures forall j :: 0 <= j < |vs| ==>
      EdgeDistances(root, vs, p)[ClosestEdge(root, vs, p).value] <= EdgeDistances(root, vs, p)[j]
  {
  }

  /** The point GetClosestPointOnEdge returns (the clamped projection onto
      the chosen edge) lies on that edge, at parameter s, and is at least as
      close to p as every edge of the polygon. */
  lemma ClosestPointIsClosest(root: real -> real, vs: seq<GraphNode>, p: GraphNode) returns (s: real)
    requires ClosestEdge(root, vs, p).Some?
    requires var i := ClosestEdge(root, vs, p).value; DistanceSquared(vs[Next(i, |vs|)], vs[i]) != 0.0
    ensures var i := ClosestEdge(root, vs, p).value;
      var q := ClampedProjection(vs[i], vs[Next(i, |vs|)], p);
      0.0 <= s <= 1.0 && SameSpot(q, Lerp(vs[i], vs[Next(i, |vs|)], s))
      && Distance(root, p, q) == EdgeDistances(root, vs, p)[i]
      && forall j :: 0 <= j < |vs| ==> Distance(root, p, q) <= EdgeDistances(root, vs, p)[j]
  {
    var i := ClosestEdge(root, vs, p).value;
    var p1, p2 := vs[i], vs[Next(i, |vs|)];
    s := ClampedProjectionOnSegment(p1, p2, p);
    ClosestEdgeIsLeast(root, vs, p);
  }

  /** GetClosestPointOnEdge, when it succeeds, returns a point of the chosen
      edge that is at least as close to p as every edge of the polygon. */
  lemma GetClosestPointOnEdgeIsClosest(root: real -> real, poly: Polygon, p: GraphNode)
    requires GetClosestPointOnEdge(root, poly, p).Ok?
    ensures var vs := poly.vertices;
      var q := GetClosestPointOnEdge(root, poly, p).value;
      ClosestEdge(root, vs, p).Some?
      && (exists s :: 0.0 <= s <= 1.0 && SameSpot(q, Lerp(vs[ClosestEdge(root, vs, p).value], vs[Next(ClosestEdge(root, vs, p).value, |vs|)], s)))
      && forall j :: 0 <= j < |vs| ==> Distance(root, p, q) <= EdgeDistances(root, vs, p)[j]
  {
    var s := ClosestPointIsClosest(root, poly.vertices, p);
  }

  // ---------------------------------------------------------------------
  // Vertex deletion

  /** The distance of every vertex to `at`. */
  function VertexDistances(root: real -> real, vs: seq<GraphNode>, at: GraphNode): (r: seq<real>)
    ensures |r| == |vs|
  {
    seq(|vs|, i requires 0 <= i < |vs| => Distance(root, vs[i], at))
  }

  /** Which vertices carry a scene Point object. */
  function Tagged(vs: seq<GraphNode>): (r: seq<bool>)
    ensures |r| == |vs|
  {
    seq(|vs|, i requires 0 <= i < |vs| => vs[i].tag.Some?)
  }

  /** Polygon.DestroyPoint(vec): refuses polygons of three or fewer vertices;
      otherwise finds the first vertex of least distance to `at` among those
      carrying a scene Point (minDis starts at float.MaxValue, so any such
      vertex qualifies) and deletes it when it lies within DestroyRadius.
      Returns whether a vertex went, and the vertex list afterwards. */
  function DestroyPoint(root: real -> real, vs: seq<GraphNode>, at: GraphNode): (r: (bool, seq<GraphNode>))
    ensures |vs| <= 3 ==> r == (false, vs)
    ensures !r.0 ==> r.1 == vs
    ensures r.0 ==> 3 < |vs| && |r.1| == |vs| - 1
  {
    if |vs| <= 3 then (false, vs)
    else
      var ds := VertexDistances(root, vs, At(at.x, at.y));
      match FirstLeast(ds, Tagged(vs), None)
      case Some(c) =>
        if ds[c] <= DestroyRadius then (true, vs[..c] + vs[c + 1..]) else (false, vs)
      case None => (false, vs)
  }

  /** Vertex c carries a scene Point and no other such vertex is nearer. */
  predicate NearestTagged(vs: seq<GraphNode>, ds: seq<real>, c: int)
    requires |ds| == |vs|
  {
    0 <= c < |vs| && vs[c].tag.Some?
    && forall j :: 0 <= j < |vs| && vs[j].tag.Some? ==> ds[c] <= ds[j]
  }

  /** DestroyPoint deletes a vertex exactly when the polygon has more than
      three, and a nearest vertex carrying a scene Point lies within
      DestroyRadius; it then deletes the first such nearest one and nothing
      else. */
  lemma DestroyPointRemovesNearest(root: real -> real, vs: seq<GraphNode>, at: GraphNode)
    ensures var ds := VertexDistances(root, vs, At(at.x, at.y));
      DestroyPoint(root, vs, at).0 <==>
        |vs| > 3 && exists c :: NearestTagged(vs, ds, c) && ds[c] <= DestroyRadius
    ensures !DestroyPoint(root, vs, at).0 ==> DestroyPoint(root, vs, at).1 == vs
    ensures var ds := VertexDistances(root, vs, At(at.x, at.y));
      DestroyPoint(root, vs, at).0 ==>
        exists c :: NearestTagged(vs, ds, c) && ds[c] <= DestroyRadius
          && (forall j :: 0 <= j < c && vs[j].tag.Some? ==> ds[c] < ds[j])
          && DestroyPoint(root, vs, at).1 == vs[..c] + vs[c + 1..]
  {
    var ds := VertexDistances(root, vs, At(at.x, at.y));
    var tagged := Tagged(vs);
    if |vs| > 3 {
      var n := FirstLeast(ds, tagged, None);
      if n.Some? {
        var c := n.value;
        assert tagged[c];
        assert NearestTagged(vs, ds, c);
        forall c' | NearestTagged(vs, ds, c') && ds[c'] <= DestroyRadius
          ensures ds[c] <= DestroyRadius
        {
          assert tagged[c'];
        }
      } else {
        forall c | 0 <= c < |vs| ensures !tagged[c] {
        }
      }
    }
  }
}

/** `PathFinder.cs`: builds the visibility graph of a walkable map (start,
    end, the convex corners of the main polygon and the concave corners of
    the obstacles), links every two nodes in line of sight, runs A* and
    turns the result into waypoints with segment lengths. */
module PathFinding {
  import opened Wrappers
  import opened Geometry
  import opened Graphs
  import opened Polygons
  import opened WalkableMaps
  import opened AStarSearch

  // ---------------------------------------------------------------------
  // Corner classification

  /** The cross product of the edge into `cur` and the edge out of it. */
  function Turn(prev: GraphNode, cur: GraphNode, next: GraphNode): real {
    (cur.x - prev.x) * (next.y - cur.y) - (cur.y - prev.y) * (next.x - cur.x)
  }

  /** PathFinder.IsVertexConcave: the turn at vertex i, whose neighbours wrap
      around the ends of the list, is negative. */
  function IsVertexConcave(vs: seq<GraphNode>, i: nat): (r: bool)
    requires i < |vs|
    ensures SameSpot(EdgeFrom(vs, i), vs[i]) ==> !r
    ensures SameSpot(vs[i], vs[Next(i, |vs|)]) ==> !r
  {
    Turn(EdgeFrom(vs, i), vs[i], vs[Next(i, |vs|)]) < 0.0
  }

  lemma TurnReversed(prev: GraphNode, cur: GraphNode, next: GraphNode)
    ensures Turn(next, cur, prev) == -Turn(prev, cur, next)
  {
  }

  /** Reversing the vertex order turns every strictly concave corner into a
      strictly convex one and back, which is why the orientation is fixed
      before corners are classified. */
  lemma ConcaveFlipsOnReverse(vs: seq<GraphNode>, i: nat)
    requires i < |vs|
    ensures var rs := Reverse(vs);
      Turn(EdgeFrom(rs, |vs| - 1 - i), rs[|vs| - 1 - i], rs[Next(|vs| - 1 - i, |vs|)])
        == -Turn(EdgeFrom(vs, i), vs[i], vs[Next(i, |vs|)])
    ensures Turn(EdgeFrom(vs, i), vs[i], vs[Next(i, |vs|)]) != 0.0 ==>
      (IsVertexConcave(Reverse(vs), |vs| - 1 - i) <==> !IsVertexConcave(vs, i))
  {
    var rs := Reverse(vs);
    var j := |vs| - 1 - i;
    assert rs[Next(j, |vs|)] == EdgeFrom(vs, i);
    assert EdgeFrom(rs, j) == vs[Next(i, |vs|)];
    TurnReversed(EdgeFrom(vs, i), vs[i], vs[Next(i, |vs|)]);
  }

  // ---------------------------------------------------------------------
  // Segment crossing

  /** 0 < n / den < 1, written without the division. */
  predicate StrictlyBetween(n: real, den: real) {
    (0.0 < den && 0.0 < n < den) || (den < 0.0 && den < n < 0.0)
  }

  lemma SignOfProduct(a: real, b: real)
    requires b != 0.0
    ensures 0.0 < a * b <==> (0.0 < a && 0.0 < b) || (a < 0.0 && b < 0.0)
    ensures a * b < 0.0 <==> (0.0 < a && b < 0.0) || (a < 0.0 && 0.0 < b)
  {
    if 0.0 < a && 0.0 < b { assert 0.0 < a * b; }
    if a < 0.0 && b < 0.0 { assert 0.0 < a * b; }
    if 0.0 < a && b < 0.0 { assert a * b < 0.0; }
    if a < 0.0 && 0.0 < b { assert a * b < 0.0; }
    if a == 0.0 { assert a * b == 0.0; }
  }

  lemma QuotientBetween(n: real, den: real)
    requires den != 0.0
    ensures (0.0 < n / den < 1.0) <==> StrictlyBetween(n, den)
  {
    var q := n / den;
    assert q * den == n;
    assert (q - 1.0) * den == n - den;
    SignOfProduct(q, den);
    SignOfProduct(q - 1.0, den);
  }

  /** The decision of PathFinder.LineSegmentsCross once its denominator and
      the two numerators are known: r = n1 / den and s = n2 / den must both
      lie strictly between 0 and 1; a zero denominator or numerator answers
      false. */
  function CrossVerdict(den: real, n1: real, n2: real): bool {
    if den == 0.0 then false
    else if n1 == 0.0 || n2 == 0.0 then false
    else
      var r := n1 / den;
      var s := n2 / den;
      0.0 < r < 1.0 && 0.0 < s < 1.0
  }

  /** The crossing verdict without divisions: the denominator is non-zero
      and both numerators lie strictly between 0 and it. */
  lemma CrossVerdictCharacterized(den: real, n1: real, n2: real)
    ensures CrossVerdict(den, n1, n2) <==> den != 0.0 && StrictlyBetween(n1, den) && StrictlyBetween(n2, den)
  {
    if den != 0.0 {
      QuotientBetween(n1, den);
      QuotientBetween(n2, den);
    }
  }

  /** The denominator and the two numerators of PathFinder.LineSegmentsCross
      for segments ab and cd. */
  function Denominator(a: GraphNode, b: GraphNode, c: GraphNode, d: GraphNode): real {
    (b.x - a.x) * (d.y - c.y) - (b.y - a.y) * (d.x - c.x)
  }

  function Numerator1(a: GraphNode, b: GraphNode, c: GraphNode, d: GraphNode): real {
    (a.y - c.y) * (d.x - c.x) - (a.x - c.x) * (d.y - c.y)
  }

  function Numerator2(a: GraphNode, b: GraphNode, c: GraphNode, d: GraphNode): real {
    (a.y - c.y) * (b.x - a.x) - (a.x - c.x) * (b.y - a.y)
  }

  /** PathFinder.LineSegmentsCross: segments ab and cd cross at a point
      strictly inside both; parallel segments and touching endpoints do not
      count. */
  function LineSegmentsCross(a: GraphNode, b: GraphNode, c: GraphNode, d: GraphNode): (r: bool)
    ensures r ==> Denominator(a, b, c, d) != 0.0
  {
    CrossVerdict(Denominator(a, b, c, d), Numerator1(a, b, c, d), Numerator2(a, b, c, d))
  }

  /** Reversing the first segment negates the denominator and the second
      numerator and shifts the first (r becomes 1 - r): the verdict stays. */
  lemma VerdictReversed(den: real, n1: real, n2: real)
    ensures CrossVerdict(den, n1, n2) == CrossVerdict(-den, n1 - den, -n2)
  {
    CrossVerdictCharacterized(den, n1, n2);
    CrossVerdictCharacterized(-den, n1 - den, -n2);
    assert StrictlyBetween(n1 - den, -den) == StrictlyBetween(n1, den);
    assert StrictlyBetween(-n2, -den) == StrictlyBetween(n2, den);
  }

  /** Exchanging the segments negates the denominator and swaps the
      numerators with their signs flipped (r and s trade places). */
  lemma VerdictSwapped(den: real, n1: real, n2: real)
    ensures CrossVerdict(den, n1, n2) == CrossVerdict(-den, -n2, -n1)
  {
    CrossVerdictCharacterized(den, n1, n2);
    CrossVerdictCharacterized(-den, -n2, -n1);
    assert StrictlyBetween(-n2, -den) == StrictlyBetween(n2, den);
    assert StrictlyBetween(-n1, -den) == StrictlyBetween(n1, den);
  }

  lemma TermsReversed(a: GraphNode, b: GraphNode, c: GraphNode, d: GraphNode)
    ensures Denominator(b, a, c, d) == -Denominator(a, b, c, d)
    ensures Numerator1(b, a, c, d) == Numerator1(a, b, c, d) - Denominator(a, b, c, d)
    ensures Numerator2(b, a, c, d) == -Numerator2(a, b, c, d)
  {
  }

  lemma TermsSwapped(a: GraphNode, b: GraphNode, c: GraphNode, d: GraphNode)
    ensures Denominator(c, d, a, b) == -Denominator(a, b, c, d)
    ensures Numerator1(c, d, a, b) == -Numerator2(a, b, c, d)
    ensures Numerator2(c, d, a, b) == -Numerator1(a, b, c, d)
  {
  }

  /** The crossing test does not depend on the direction of ab. */
  lemma CrossSymmetric(a: GraphNode, b: GraphNode, c: GraphNode, d: GraphNode)
    ensures LineSegmentsCross(a, b, c, d) == LineSegmentsCross(b, a, c, d)
  {
    TermsReversed(a, b, c, d);
    VerdictReversed(Denominator(a, b, c, d), Numerator1(a, b, c, d), Numerator2(a, b, c, d));
  }

  /** Swapping the two segments does not change the verdict. */
  lemma CrossSwapSegments(a: GraphNode, b: GraphNode, c: GraphNode, d: GraphNode)
    ensures LineSegmentsCross(a, b, c, d) == LineSegmentsCross(c, d, a, b)
  {
    TermsSwapped(a, b, c, d);
    VerdictSwapped(Denominator(a, b, c, d), Numerator1(a, b, c, d), Numerator2(a, b, c, d));
  }

  /** Segments that share an endpoint never cross. */
  lemma SharedEndpointNoCross(a: GraphNode, b: GraphNode, c: GraphNode, d: GraphNode)
    requires SameSpot(a, c) || SameSpot(a, d) || SameSpot(b, c) || SameSpot(b, d)
    ensures !LineSegmentsCross(a, b, c, d)
  {
    CrossSymmetric(a, b, c, d);
    CrossSwapSegments(a, b, c, d);
    CrossSymmetric(c, d, a, b);
    CrossSwapSegments(b, a, c, d);
    CrossSymmetric(d, c, b, a);
    CrossSwapSegments(a, b, d, c);
  }

  // ---------------------------------------------------------------------
  // Line of sight

  /** The component a reference names, when it is not null and active. */
  predicate Active(store: seq<Polygon>, r: Ref) {
    r.Some? && r.value < |store| && store[r.value].active
  }

  /** An edge v1 v2 blocks the sight line start-end: the segments cross and
      neither end is within Epsilon of the edge. */
  predicate EdgeBlocks(root: real -> real, start: GraphNode, end: GraphNode, v1: GraphNode, v2: GraphNode) {
    LineSegmentsCross(start, end, v1, v2)
    && DistanceToSegment(root, start, v1, v2) > Epsilon
    && DistanceToSegment(root, end, v1, v2) > Epsilon
  }

  /** Some edge of the polygon blocks the sight line. */
  predicate PolygonBlocks(root: real -> real, poly: Polygon, start: GraphNode, end: GraphNode) {
    exists i :: 0 <= i < |poly.vertices|
      && EdgeBlocks(root, start, end, poly.vertices[i], poly.vertices[Next(i, |poly.vertices|)])
  }

  /** Some edge of some active polygon of the array blocks the sight line. */
  predicate SightBlocked(root: real -> real, store: seq<Polygon>, polys: seq<Ref>, start: GraphNode, end: GraphNode) {
    exists k :: 0 <= k < |polys| && Active(store, polys[k])
      && PolygonBlocks(root, store[polys[k].value], start, end)
  }

  /** The point lies inside an active obstacle (polygons after the first),
      whose boundary band counts as outside. */
  predicate InObstacle(root: real -> real, store: seq<Polygon>, polys: seq<Ref>, p: GraphNode) {
    exists k :: 1 <= k < |polys| && Active(store, polys[k])
      && IsInside(root, store[polys[k].value], p, false)
  }

  function Midpoint(a: GraphNode, b: GraphNode): GraphNode {
    At((a.x + b.x) / 2.0, (a.y + b.y) / 2.0)
  }

  /** PathFinder.IsInLineOfSight. The polygon array must have a first,
      non-null entry (otherwise the code throws); both ends must be inside it
      (its boundary band counts as inside); ends closer than Epsilon see each
      other; otherwise an edge of an active polygon that the line crosses
      strictly, with both ends more than Epsilon from it, blocks the sight,
      and failing that the midpoint decides: it must lie in the first polygon
      and in no active obstacle. */
  function IsInLineOfSight(root: real -> real, store: seq<Polygon>, m: WalkableMap,
                           start: GraphNode, end: GraphNode): (r: Result<bool>)
    requires MapOk(store, m)
    ensures r.Err? <==> |m.polygons| == 0 || m.polygons[0].None?
    ensures r.Err? ==> r.fault == (if |m.polygons| == 0 then IndexOutOfRange else NullReference)
    ensures r == Ok(true) ==>
      IsInside(root, store[m.polygons[0].value], start, true) && IsInside(root, store[m.polygons[0].value], end, true)
    ensures (r.Ok? && IsInside(root, store[m.polygons[0].value], start, true)
             && IsInside(root, store[m.polygons[0].value], end, true)) ==>
      && (Distance(root, start, end) < Epsilon ==> r.value)
      && (Distance(root, start, end) >= Epsilon && SightBlocked(root, store, m.polygons, start, end) ==> !r.value)
      && (Distance(root, start, end) >= Epsilon && !SightBlocked(root, store, m.polygons, start, end) ==>
            (r.value <==> IsInside(root, store[m.polygons[0].value], Midpoint(start, end), true)
                          && !InObstacle(root, store, m.polygons, Midpoint(start, end))))
  {
    var polys := m.polygons;
    if |polys| == 0 then Err(IndexOutOfRange)
    else if polys[0].None? then Err(NullReference)
    else
      var main := store[polys[0].value];
      if !IsInside(root, main, start, true) || !IsInside(root, main, end, true) then Ok(false)
      else if Distance(root, start, end) < Epsilon then Ok(true)
      else if SightBlocked(root, store, polys, start, end) then Ok(false)
      else
        var mid := Midpoint(start, end);
        Ok(IsInside(root, main, mid, true) && !InObstacle(root, store, polys, mid))
  }

  lemma EdgeBlocksSymmetric(root: real -> real, a: GraphNode, b: GraphNode, v1: GraphNode, v2: GraphNode)
    ensures EdgeBlocks(root, a, b, v1, v2) == EdgeBlocks(root, b, a, v1, v2)
  {
    CrossSymmetric(a, b, v1, v2);
  }

  lemma SightBlockedSymmetric(root: real -> real, store: seq<Polygon>, polys: seq<Ref>, a: GraphNode, b: GraphNode)
    ensures SightBlocked(root, store, polys, a, b) == SightBlocked(root, store, polys, b, a)
  {
    forall v1, v2 ensures EdgeBlocks(root, a, b, v1, v2) == EdgeBlocks(root, b, a, v1, v2) {
      EdgeBlocksSymmetric(root, a, b, v1, v2);
    }
  }

  /** Line of sight is symmetric, so testing each pair of nodes once (i < j)
      loses nothing. */
  lemma LineOfSightSymmetric(root: real -> real, store: seq<Polygon>, m: WalkableMap, a: GraphNode, b: GraphNode)
    requires MapOk(store, m)
    ensures IsInLineOfSight(root, store, m, a, b) == IsInLineOfSight(root, store, m, b, a)
  {
    DistanceSymmetric(root, a, b);
    SightBlockedSymmetric(root, store, m.polygons, a, b);
    assert Midpoint(a, b) == Midpoint(b, a);
  }

  // ---------------------------------------------------------------------
  // Collecting the corners

  /** The vertices from index i on whose concavity equals `flag`, in order:
      the inner loop of Run that adds nodes to the graph. */
  function PickFrom(vs: seq<GraphNode>, flag: bool, i: nat): (r: seq<GraphNode>)
    requires i <= |vs|
    ensures |r| <= |vs| - i
    ensures forall x :: x in r ==> exists j :: i <= j < |vs| && vs[j] == x && IsVertexConcave(vs, j) == flag
    decreases |vs| - i
  {
    if i == |vs| then []
    else (if IsVertexConcave(vs, i) == flag then [vs[i]] else []) + PickFrom(vs, flag, i + 1)
  }

  /** Every vertex of the right kind is picked. */
  lemma {:induction false} PickFromComplete(vs: seq<GraphNode>, flag: bool, i: nat, j: nat)
    requires i <= j < |vs| && IsVertexConcave(vs, j) == flag
    ensures vs[j] in PickFrom(vs, flag, i)
    decreases j - i
  {
    if i < j {
      PickFromComplete(vs, flag, i + 1, j);
    }
  }

  lemma ReverseMembers<T>(s: seq<T>, x: T)
    ensures x in Reverse(s) <==> x in s
  {
    var r := Reverse(s);
    if x in s {
      var i :| 0 <= i < |s| && s[i] == x;
      assert r[|s| - 1 - i] == x;
    }
    if x in r {
      var i :| 0 <= i < |r| && r[i] == x;
      assert s[|s| - 1 - i] == x;
    }
  }

  /** Every reference of the array is null or names a component. */
  predicate RefsOk(store: seq<Polygon>, polys: seq<Ref>) {
    forall q :: 0 <= q < |polys| ==> RefOk(store, polys[q])
  }

  /** A component the corner loop works on: active, with more than two
      vertices. */
  predicate Valid(store: seq<Polygon>, r: Ref) {
    Active(store, r) && |store[r.value].vertices| > 2
  }

  /** The polygons after the corner loop and the nodes it added. */
  datatype Collected = Collected(store: seq<Polygon>, nodes: seq<GraphNode>)

  /** The polygon loop of PathFinder.Run from entry k on: null and inactive
      entries are skipped; a valid polygon is turned clockwise in place if it
      is not, then contributes the vertices whose concavity equals
      `mainDone` (false only for the first polygon not skipped, so the main
      area gives its convex and the obstacles their concave corners). */
  function CollectFrom(store: seq<Polygon>, polys: seq<Ref>, k: nat, mainDone: bool): (c: Collected)
    requires k <= |polys| && RefsOk(store, polys)
    ensures |c.store| == |store|
    decreases |polys| - k
  {
    if k == |polys| then Collected(store, [])
    else if !Active(store, polys[k]) then CollectFrom(store, polys, k + 1, mainDone)
    else if |store[polys[k].value].vertices| <= 2 then CollectFrom(store, polys, k + 1, true)
    else
      var store' := Orient(store, polys[k].value);
      var rest := CollectFrom(store', polys, k + 1, true);
      Collected(rest.store, PickFrom(store'[polys[k].value].vertices, mainDone, 0) + rest.nodes)
  }

  /** One valid polygon turned clockwise in place. */
  function Orient(store: seq<Polygon>, id: nat): (r: seq<Polygon>)
    requires id < |store|
    ensures |r| == |store|
  {
    var vs := store[id].vertices;
    store[id := store[id].(vertices := if IsClockwise(vs) then vs else Reverse(vs))]
  }

  lemma OrientStep(store: seq<Polygon>, id: nat)
    requires id < |store|
    ensures Orient(store, id)[id].active == store[id].active
    ensures Orient(store, id)[id].vertices == store[id].vertices || Orient(store, id)[id].vertices == Reverse(store[id].vertices)
    ensures OrientationSum(Orient(store, id)[id].vertices) >= 0.0
    ensures forall j :: 0 <= j < |store| && j != id ==> Orient(store, id)[j] == store[j]
  {
    ReverseFlipsClockwise(store[id].vertices);
  }

  /** The corner loop keeps each polygon's activity and its vertices, in the
      same or the reversed order. */
  lemma {:induction false} CollectKeepsShape(store: seq<Polygon>, polys: seq<Ref>, k: nat, mainDone: bool)
    requires k <= |polys| && RefsOk(store, polys)
    ensures var c := CollectFrom(store, polys, k, mainDone);
      forall j :: 0 <= j < |store| ==>
        c.store[j].active == store[j].active
        && (c.store[j].vertices == store[j].vertices || c.store[j].vertices == Reverse(store[j].vertices))
    decreases |polys| - k
  {
    if k < |polys| && Active(store, polys[k]) && |store[polys[k].value].vertices| > 2 {
      var id := polys[k].value;
      var store' := Orient(store, id);
      OrientStep(store, id);
      CollectKeepsShape(store', polys, k + 1, true);
      var c := CollectFrom(store, polys, k, mainDone);
      assert c.store == CollectFrom(store', polys, k + 1, true).store;
      ReverseTwice(store[id].vertices);
    } else if k < |polys| {
      CollectKeepsShape(store, polys, k + 1, if Active(store, polys[k]) then true else mainDone);
    }
  }

  /** A polygon whose orientation sum is non-negative keeps it so through the
      corner loop, and every valid polygon the loop visits ends with a
      non-negative sum (clockwise, or degenerate). */
  lemma {:induction false} CollectOrients(store: seq<Polygon>, polys: seq<Ref>, k: nat, mainDone: bool)
    requires k <= |polys| && RefsOk(store, polys)
    ensures var c := CollectFrom(store, polys, k, mainDone);
      forall j :: 0 <= j < |store| && OrientationSum(store[j].vertices) >= 0.0 ==>
        OrientationSum(c.store[j].vertices) >= 0.0
    ensures var c := CollectFrom(store, polys, k, mainDone);
      forall q :: k <= q < |polys| && Valid(store, polys[q]) ==> OrientationSum(c.store[polys[q].value].vertices) >= 0.0
    decreases |polys| - k
  {
    if k < |polys| && Active(store, polys[k]) && |store[polys[k].value].vertices| > 2 {
      var id := polys[k].value;
      var store' := Orient(store, id);
      OrientStep(store, id);
      ReverseNegatesOrientation(store[id].vertices);
      CollectOrients(store', polys, k + 1, true);
      var c := CollectFrom(store, polys, k, mainDone);
      assert c.store == CollectFrom(store', polys, k + 1, true).store;
      assert forall j :: 0 <= j < |store| && OrientationSum(store[j].vertices) >= 0.0 ==>
        OrientationSum(store'[j].vertices) >= 0.0;
      forall q | k < q < |polys| && Valid(store, polys[q])
        ensures Valid(store', polys[q])
      {
        assert store'[polys[q].value].active == store[polys[q].value].active;
        assert |store'[polys[q].value].vertices| == |store[polys[q].value].vertices|;
      }
    } else if k < |polys| {
      CollectOrients(store, polys, k + 1, if Active(store, polys[k]) then true else mainDone);
    }
  }

  /** Every node the corner loop adds is a vertex of a valid polygon it
      visits. */
  lemma {:induction false} CollectedAreCorners(store: seq<Polygon>, polys: seq<Ref>, k: nat, mainDone: bool, x: GraphNode)
    requires k <= |polys| && RefsOk(store, polys)
    requires x in CollectFrom(store, polys, k, mainDone).nodes
    ensures exists q :: k <= q < |polys| && Valid(store, polys[q]) && x in store[polys[q].value].vertices
    decreases |polys| - k
  {
    if !Active(store, polys[k]) {
      CollectedAreCorners(store, polys, k + 1, mainDone, x);
    } else if |store[polys[k].value].vertices| <= 2 {
      CollectedAreCorners(store, polys, k + 1, true, x);
    } else {
      var id := polys[k].value;
      var vs := store[id].vertices;
      var store' := Orient(store, id);
      OrientStep(store, id);
      ReverseMembers(vs, x);
      if x in PickFrom(store'[id].vertices, mainDone, 0) {
        assert x in vs;
      } else {
        CollectedAreCorners(store', polys, k + 1, true, x);
        var q :| k + 1 <= q < |polys| && Valid(store', polys[q]) && x in store'[polys[q].value].vertices;
        if polys[q].value == id {
          assert x in vs;
          assert Valid(store, polys[k]);
        } else {
          assert Valid(store, polys[q]);
        }
      }
    }
  }

  /** The store after the corner loop has handled entries k up to q - 1:
      each valid polygon among them turned clockwise in turn. */
  function StoreAt(store: seq<Polygon>, polys: seq<Ref>, k: nat, q: nat): (r: seq<Polygon>)
    requires k <= q <= |polys| && RefsOk(store, polys)
    ensures |r| == |store|
    decreases q - k
  {
    if k == q then store
    else
      var next := if Valid(store, polys[k]) then Orient(store, polys[k].value) else store;
      StoreAt(next, polys, k + 1, q)
  }

  /** Some entry from k up to q - 1 is active. */
  predicate ActiveBefore(store: seq<Polygon>, polys: seq<Ref>, k: nat, q: nat) {
    exists i :: k <= i < q && i < |polys| && Active(store, polys[i])
  }

  /** Node x is vertex j of entry q's polygon, as oriented at its turn, and
      was picked because its concavity is false for the first active entry
      and true for every later one. */
  predicate PickedAt(store: seq<Polygon>, polys: seq<Ref>, k: nat, mainDone: bool, q: nat, j: nat, x: GraphNode)
    requires k <= |polys| && RefsOk(store, polys)
  {
    k <= q < |polys| && Valid(store, polys[q])
    && var vs := Orient(StoreAt(store, polys, k, q), polys[q].value)[polys[q].value].vertices;
    j < |vs| && vs[j] == x
    && IsVertexConcave(vs, j) == (mainDone || ActiveBefore(store, polys, k, q))
  }

  /** An entry the loop skips (null or inactive) changes neither the store
      nor the flag. */
  lemma PickedAfterSkip(store: seq<Polygon>, polys: seq<Ref>, k: nat, mainDone: bool, q: nat, j: nat, x: GraphNode)
    requires k < |polys| && RefsOk(store, polys) && !Active(store, polys[k])
    requires PickedAt(store, polys, k + 1, mainDone, q, j, x)
    ensures PickedAt(store, polys, k, mainDone, q, j, x)
  {
    assert StoreAt(store, polys, k, q) == StoreAt(store, polys, k + 1, q);
    assert ActiveBefore(store, polys, k + 1, q) ==> ActiveBefore(store, polys, k, q);
    assert ActiveBefore(store, polys, k, q) ==> ActiveBefore(store, polys, k + 1, q) by {
      if ActiveBefore(store, polys, k, q) {
        var i :| k <= i < q && i < |polys| && Active(store, polys[i]);
        assert i != k;
      }
    }
  }

  /** An active entry with too few vertices adds nothing but ends the main
      area. */
  lemma PickedAfterSmall(store: seq<Polygon>, polys: seq<Ref>, k: nat, mainDone: bool, q: nat, j: nat, x: GraphNode)
    requires k < |polys| && RefsOk(store, polys) && Active(store, polys[k]) && !Valid(store, polys[k])
    requires PickedAt(store, polys, k + 1, true, q, j, x)
    ensures PickedAt(store, polys, k, mainDone, q, j, x)
  {
    assert StoreAt(store, polys, k, q) == StoreAt(store, polys, k + 1, q);
    assert ActiveBefore(store, polys, k, q);
  }

  /** A node picked after a valid entry k was picked as an obstacle corner. */
  lemma PickedAfterValid(store: seq<Polygon>, polys: seq<Ref>, k: nat, mainDone: bool, q: nat, j: nat, x: GraphNode)
    requires k < |polys| && RefsOk(store, polys) && Valid(store, polys[k])
    requires PickedAt(Orient(store, polys[k].value), polys, k + 1, true, q, j, x)
    ensures PickedAt(store, polys, k, mainDone, q, j, x)
  {
    var store' := Orient(store, polys[k].value);
    OrientStep(store, polys[k].value);
    assert StoreAt(store, polys, k, q) == StoreAt(store', polys, k + 1, q);
    assert Valid(store, polys[q]) by {
      assert store'[polys[q].value].active == store[polys[q].value].active;
      assert |store'[polys[q].value].vertices| == |store[polys[q].value].vertices|;
    }
    assert ActiveBefore(store, polys, k, q);
  }

  /** A node picked from entry k itself carries the current flag. */
  lemma PickedHere(store: seq<Polygon>, polys: seq<Ref>, k: nat, mainDone: bool, x: GraphNode) returns (j: nat)
    requires k < |polys| && RefsOk(store, polys) && Valid(store, polys[k])
    requires x in PickFrom(Orient(store, polys[k].value)[polys[k].value].vertices, mainDone, 0)
    ensures PickedAt(store, polys, k, mainDone, k, j, x)
  {
    var vs := Orient(store, polys[k].value)[polys[k].value].vertices;
    j :| 0 <= j < |vs| && vs[j] == x && IsVertexConcave(vs, j) == mainDone;
    assert !ActiveBefore(store, polys, k, k);
  }

  /** Every node the corner loop adds comes from a valid polygon, and its
      concavity is false exactly when that polygon is the first active entry
      (the main walkable area) and true for the obstacles after it. */
  lemma {:induction false} CollectedFlags(store: seq<Polygon>, polys: seq<Ref>, k: nat, mainDone: bool, x: GraphNode)
    requires k <= |polys| && RefsOk(store, polys)
    requires x in CollectFrom(store, polys, k, mainDone).nodes
    ensures exists q, j :: PickedAt(store, polys, k, mainDone, q, j, x)
    decreases |polys| - k
  {
    if !Active(store, polys[k]) {
      CollectedFlags(store, polys, k + 1, mainDone, x);
      var q, j :| PickedAt(store, polys, k + 1, mainDone, q, j, x);
      PickedAfterSkip(store, polys, k, mainDone, q, j, x);
    } else if !Valid(store, polys[k]) {
      CollectedFlags(store, polys, k + 1, true, x);
      var q, j :| PickedAt(store, polys, k + 1, true, q, j, x);
      PickedAfterSmall(store, polys, k, mainDone, q, j, x);
    } else {
      var store' := Orient(store, polys[k].value);
      if x in PickFrom(store'[polys[k].value].vertices, mainDone, 0) {
        var j := PickedHere(store, polys, k, mainDone, x);
      } else {
        CollectedFlags(store', polys, k + 1, true, x);
        var q, j :| PickedAt(store', polys, k + 1, true, q, j, x);
        PickedAfterValid(store, polys, k, mainDone, q, j, x);
      }
    }
  }

  // ---------------------------------------------------------------------
  // Start and end constraints

  /** Polygons[0].GetClosestPointOnEdge(p): the array access throws when the
      array is empty or its first entry is null. */
  function ClosestOnFirst(root: real -> real, store: seq<Polygon>, m: WalkableMap, p: GraphNode): (r: Result<GraphNode>)
    requires MapOk(store, m)
    ensures |m.polygons| == 0 ==> r == Err(IndexOutOfRange)
    ensures |m.polygons| > 0 && m.polygons[0].None? ==> r == Err(NullReference)
    ensures |m.polygons| > 0 && m.polygons[0].Some? ==> r == GetClosestPointOnEdge(root, store[m.polygons[0].value], p)
  {
    if |m.polygons| == 0 then Err(IndexOutOfRange)
    else if m.polygons[0].None? then Err(NullReference)
    else GetClosestPointOnEdge(root, store[m.polygons[0].value], p)
  }

  /** The test of one end against the main walkable polygon: with the flag
      set and the point outside MainWalkablePolygon (a null main polygon
      throws), the end moves to the closest point on the edges of
      Polygons[0]. */
  function ConstrainToMain(root: real -> real, store: seq<Polygon>, m: WalkableMap, flag: bool, p: GraphNode): (r: Result<GraphNode>)
    requires MapOk(store, m)
    ensures !flag ==> r == Ok(p)
    ensures flag && m.main.None? ==> r == Err(NullReference)
    ensures flag && m.main.Some? && IsInside(root, store[m.main.value], p, true) ==> r == Ok(p)
    ensures flag && m.main.Some? && !IsInside(root, store[m.main.value], p, true) ==> r == ClosestOnFirst(root, store, m, p)
  {
    if !flag then Ok(p)
    else if m.main.None? then Err(NullReference)
    else if IsInside(root, store[m.main.value], p, true) then Ok(p)
    else ClosestOnFirst(root, store, m, p)
  }

  /** Obstacle q catches point p: it is active, its flag is set and p is
      inside it (boundary band included). */
  predicate Catches(root: real -> real, store: seq<Polygon>, m: WalkableMap, q: nat, flag: bool, p: GraphNode)
    requires MapOk(store, m) && q < |m.obstacles|
  {
    flag && Active(store, m.obstacles[q]) && IsInside(root, store[m.obstacles[q].value], p, true)
  }

  /** The obstacle loop of PathFinder.MakeConstraints from obstacle k on.
      `start` and `end` are the points as given (the code tests the original
      nodes, not the moved ones); s and e are the current graph ends. */
  function ConstrainObstacles(root: real -> real, store: seq<Polygon>, m: WalkableMap, k: nat,
                              start: GraphNode, end: GraphNode, s: GraphNode, e: GraphNode): (r: Result<(GraphNode, GraphNode)>)
    requires MapOk(store, m) && k <= |m.obstacles|
    ensures (NoCatch(root, store, m, k, m.constrainStartObstacles, start)
             && NoCatch(root, store, m, k, m.constrainEndObstacles, end)) ==> r == Ok((s, e))
    decreases |m.obstacles| - k
  {
    if k == |m.obstacles| then Ok((s, e))
    else if !Active(store, m.obstacles[k]) then ConstrainObstacles(root, store, m, k + 1, start, end, s, e)
    else
      var poly := store[m.obstacles[k].value];
      var s' :- if Catches(root, store, m, k, m.constrainStartObstacles, start) then GetClosestPointOnEdge(root, poly, start) else Ok(s);
      var e' :- if Catches(root, store, m, k, m.constrainEndObstacles, end) then GetClosestPointOnEdge(root, poly, end) else Ok(e);
      ConstrainObstacles(root, store, m, k + 1, start, end, s', e')
  }

  /** PathFinder.MakeConstraints: the final positions of graph nodes 0 and 1
      (the code moves them with UpdateStart and UpdateEnd). */
  function MakeConstraints(root: real -> real, store: seq<Polygon>, m: WalkableMap,
                           start: GraphNode, end: GraphNode): (r: Result<(GraphNode, GraphNode)>)
    requires MapOk(store, m)
    ensures m.constrainStartMain && m.main.None? ==> r == Err(NullReference)
  {
    var s :- ConstrainToMain(root, store, m, m.constrainStartMain, start);
    var e :- ConstrainToMain(root, store, m, m.constrainEndMain, end);
    ConstrainObstacles(root, store, m, 0, start, end, s, e)
  }

  /** No obstacle from k on catches p. */
  predicate NoCatch(root: real -> real, store: seq<Polygon>, m: WalkableMap, k: nat, flag: bool, p: GraphNode)
    requires MapOk(store, m)
  {
    forall q :: k <= q < |m.obstacles| ==> !Catches(root, store, m, q, flag, p)
  }

  /** Obstacle q, at or after k, is the last one that catches p. */
  predicate LastCatch(root: real -> real, store: seq<Polygon>, m: WalkableMap, k: nat, q: nat, flag: bool, p: GraphNode)
    requires MapOk(store, m)
  {
    k <= q < |m.obstacles| && Catches(root, store, m, q, flag, p) && NoCatch(root, store, m, q + 1, flag, p)
  }

  /** The obstacle loop followed for one end alone: from obstacle k on,
      every obstacle that catches the original point p moves this end to the
      closest point on its edges. */
  function Track(root: real -> real, store: seq<Polygon>, m: WalkableMap, k: nat,
                 flag: bool, p: GraphNode, cur: GraphNode): (r: Result<GraphNode>)
    requires MapOk(store, m) && k <= |m.obstacles|
    decreases |m.obstacles| - k
  {
    if k == |m.obstacles| then Ok(cur)
    else if !Catches(root, store, m, k, flag, p) then Track(root, store, m, k + 1, flag, p, cur)
    else
      var c :- GetClosestPointOnEdge(root, store[m.obstacles[k].value], p);
      Track(root, store, m, k + 1, flag, p, c)
  }

  /** The two ends do not influence each other: when the obstacle loop
      succeeds, each end is where following it alone puts it. */
  lemma {:induction false} EndsIndependent(root: real -> real, store: seq<Polygon>, m: WalkableMap, k: nat,
                                           start: GraphNode, end: GraphNode, s: GraphNode, e: GraphNode)
    requires MapOk(store, m) && k <= |m.obstacles|
    requires ConstrainObstacles(root, store, m, k, start, end, s, e).Ok?
    ensures Track(root, store, m, k, m.constrainStartObstacles, start, s)
         == Ok(ConstrainObstacles(root, store, m, k, start, end, s, e).value.0)
    ensures Track(root, store, m, k, m.constrainEndObstacles, end, e)
         == Ok(ConstrainObstacles(root, store, m, k, start, end, s, e).value.1)
    decreases |m.obstacles| - k
  {
    if k < |m.obstacles| {
      if !Active(store, m.obstacles[k]) {
        EndsIndependent(root, store, m, k + 1, start, end, s, e);
      } else {
        var poly := store[m.obstacles[k].value];
        var cs := Catches(root, store, m, k, m.constrainStartObstacles, start);
        var ce := Catches(root, store, m, k, m.constrainEndObstacles, end);
        var s' := if cs then GetClosestPointOnEdge(root, poly, start).value else s;
        var e' := if ce then GetClosestPointOnEdge(root, poly, end).value else e;
        assert ConstrainObstacles(root, store, m, k, start, end, s, e)
            == ConstrainObstacles(root, store, m, k + 1, start, end, s', e');
        EndsIndependent(root, store, m, k + 1, start, end, s', e');
      }
    }
  }

  /** The obstacles do not accumulate: the last obstacle that catches the
      original point decides where the end goes, and when none does it
      keeps the position it had. */
  lemma {:induction false} LastObstacleWins(root: real -> real, store: seq<Polygon>, m: WalkableMap, k: nat,
                                            flag: bool, p: GraphNode, cur: GraphNode)
    requires MapOk(store, m) && k <= |m.obstacles|
    requires Track(root, store, m, k, flag, p, cur).Ok?
    ensures NoCatch(root, store, m, k, flag, p) ==> Track(root, store, m, k, flag, p, cur) == Ok(cur)
    ensures forall q: nat :: LastCatch(root, store, m, k, q, flag, p) ==>
      GetClosestPointOnEdge(root, store[m.obstacles[q].value], p) == Track(root, store, m, k, flag, p, cur)
    decreases |m.obstacles| - k
  {
    if k < |m.obstacles| {
      var r := Track(root, store, m, k, flag, p, cur);
      assert NoCatch(root, store, m, k, flag, p) ==> NoCatch(root, store, m, k + 1, flag, p);
      if !Catches(root, store, m, k, flag, p) {
        LastObstacleWins(root, store, m, k + 1, flag, p, cur);
        forall q: nat | LastCatch(root, store, m, k, q, flag, p)
          ensures LastCatch(root, store, m, k + 1, q, flag, p)
        {
        }
      } else {
        var c := GetClosestPointOnEdge(root, store[m.obstacles[k].value], p).value;
        assert r == Track(root, store, m, k + 1, flag, p, c);
        LastObstacleWins(root, store, m, k + 1, flag, p, c);
        forall q: nat | LastCatch(root, store, m, k, q, flag, p)
          ensures GetClosestPointOnEdge(root, store[m.obstacles[q].value], p) == r
        {
          if q > k {
            assert LastCatch(root, store, m, k + 1, q, flag, p);
          }
        }
      }
    }
  }

  /** PathFinder.UpdateStart: graph node 0 and the graph's start become the
      new position; nothing else changes. */
  function UpdateStart(g: Graph, pos: GraphNode): (r: Graph)
    requires |g.nodes| >= 1
    ensures |r.nodes| == |g.nodes| && r.nodes[0] == pos && r.start == pos
    ensures forall i :: 1 <= i < |g.nodes| ==> r.nodes[i] == g.nodes[i]
    ensures r.end == g.end && r.neighbors == g.neighbors && r.edges == g.edges
  {
    g.(nodes := g.nodes[0 := pos], start := pos)
  }

  /** PathFinder.UpdateEnd: graph node 1 and the graph's end become the new
      position; nothing else changes. */
  function UpdateEnd(g: Graph, pos: GraphNode): (r: Graph)
    requires |g.nodes| >= 2
    ensures |r.nodes| == |g.nodes| && r.nodes[1] == pos && r.end == pos
    ensures forall i :: 0 <= i < |g.nodes| && i != 1 ==> r.nodes[i] == g.nodes[i]
    ensures r.start == g.start && r.neighbors == g.neighbors && r.edges == g.edges
  {
    g.(nodes := g.nodes[1 := pos], end := pos)
  }

  /** Moving nodes is harmless while the graph has no edge yet. */
  lemma MoveKeepsWf(root: real -> real, g: Graph, g': Graph)
    requires Wf(root, g) && g.edges == map[]
    requires |g'.nodes| == |g.nodes| && g'.neighbors == g.neighbors && g'.edges == g.edges
    ensures Wf(root, g')
  {
    assert LinksOk(g');
  }

  // ---------------------------------------------------------------------
  // The visibility graph

  /** Graph.AddNode for each node of the list, in order. */
  function AddNodes(g: Graph, ns: seq<GraphNode>): (r: Graph)
    ensures r.nodes == g.nodes + ns
    ensures |r.neighbors| == |g.neighbors| + |ns|
    ensures r.edges == g.edges && r.start == g.start && r.end == g.end
    decreases |ns|
  {
    if |ns| == 0 then g else AddNodes(AddNode(g, ns[0]), ns[1..])
  }

  lemma {:induction false} AddNodesWf(root: real -> real, g: Graph, ns: seq<GraphNode>)
    requires Wf(root, g)
    ensures Wf(root, AddNodes(g, ns))
    decreases |ns|
  {
    if |ns| > 0 {
      AddNodeWf(root, g, ns[0]);
      AddNodesWf(root, AddNode(g, ns[0]), ns[1..]);
    }
  }

  /** The two points see each other. */
  predicate Sees(root: real -> real, store: seq<Polygon>, m: WalkableMap, a: GraphNode, b: GraphNode)
    requires MapOk(store, m)
  {
    IsInLineOfSight(root, store, m, a, b) == Ok(true)
  }

  /** The line-of-sight test cannot be evaluated at all. */
  predicate NoFirstPolygon(m: WalkableMap) {
    |m.polygons| == 0 || m.polygons[0].None?
  }

  /** The pair loop has visited (u, v) before reaching (c1, c2). */
  predicate Visited(u: int, v: int, c1: int, c2: int) {
    u < c1 || (u == c1 && v < c2)
  }

  /** Edges so far: a pair u < v is linked exactly when the loop has visited
      it and its nodes see each other; no node is linked to itself. */
  ghost predicate EdgesSoFar(root: real -> real, store: seq<Polygon>, m: WalkableMap, cur: Graph, c1: int, c2: int)
    requires MapOk(store, m)
  {
    (forall u, v :: 0 <= u < v < |cur.nodes| ==>
      (HasEdge(cur, u, v) <==> Visited(u, v, c1, c2) && Sees(root, store, m, cur.nodes[u], cur.nodes[v])))
    && (forall u :: 0 <= u < |cur.nodes| ==> !HasEdge(cur, u, u))
  }

  lemma AddEdgeStep(root: real -> real, store: seq<Polygon>, m: WalkableMap, cur: Graph, c1: nat, c2: nat)
    requires MapOk(store, m) && Wf(root, cur)
    requires c1 < c2 < |cur.nodes|
    requires EdgesSoFar(root, store, m, cur, c1, c2)
    requires Sees(root, store, m, cur.nodes[c1], cur.nodes[c2])
    ensures Wf(root, AddEdge(root, cur, c1, c2))
    ensures EdgesSoFar(root, store, m, AddEdge(root, cur, c1, c2), c1, c2 + 1)
  {
    var next := AddEdge(root, cur, c1, c2);
    AddEdgeWf(root, cur, c1, c2);
    AddEdgeFinds(root, cur, c1, c2);
    forall u, v | 0 <= u < v < |cur.nodes|
      ensures HasEdge(next, u, v) <==> Visited(u, v, c1, c2 + 1) && Sees(root, store, m, cur.nodes[u], cur.nodes[v])
    {
      if HasEdge(next, u, v) {
        AddEdgeOnlyAdds(root, cur, c1, c2, u, v);
      }
      if HasEdge(cur, u, v) {
        AddEdgeKeepsEdges(root, cur, c1, c2, u, v);
      }
    }
    forall u | 0 <= u < |cur.nodes|
      ensures !HasEdge(next, u, u)
    {
      if HasEdge(next, u, u) {
        AddEdgeOnlyAdds(root, cur, c1, c2, u, u);
      }
    }
  }

  /** A pair out of sight is passed over: the edges so far stay as they are. */
  lemma SkipEdgeStep(root: real -> real, store: seq<Polygon>, m: WalkableMap, cur: Graph, c1: nat, c2: nat)
    requires MapOk(store, m) && c1 < c2 < |cur.nodes|
    requires EdgesSoFar(root, store, m, cur, c1, c2)
    requires !Sees(root, store, m, cur.nodes[c1], cur.nodes[c2])
    ensures EdgesSoFar(root, store, m, cur, c1, c2 + 1)
  {
  }

  lemma NextRow(root: real -> real, store: seq<Polygon>, m: WalkableMap, cur: Graph, c1: int)
    requires MapOk(store, m) && EdgesSoFar(root, store, m, cur, c1, |cur.nodes|)
    ensures EdgesSoFar(root, store, m, cur, c1 + 1, c1 + 2)
  {
  }

  /** Once every pair is visited, the edges are exactly the pairs of distinct
      nodes in sight of each other, in either order. */
  lemma EdgesSoFarDone(root: real -> real, store: seq<Polygon>, m: WalkableMap, cur: Graph, c1: int)
    requires MapOk(store, m) && EdgesSoFar(root, store, m, cur, c1, c1 + 1) && c1 >= |cur.nodes|
    ensures forall u, v :: 0 <= u < |cur.nodes| && 0 <= v < |cur.nodes| ==>
      (HasEdge(cur, u, v) <==> u != v && Sees(root, store, m, cur.nodes[u], cur.nodes[v]))
  {
    forall u, v | 0 <= u < |cur.nodes| && 0 <= v < |cur.nodes|
      ensures HasEdge(cur, u, v) <==> u != v && Sees(root, store, m, cur.nodes[u], cur.nodes[v])
    {
      if v < u {
        FindEdgeSymmetric(cur, u, v);
        LineOfSightSymmetric(root, store, m, cur.nodes[u], cur.nodes[v]);
      }
    }
  }

  /** The inner loop of the edge loop: row c1 of the pair matrix. */
  method ConnectRow(root: real -> real, store: seq<Polygon>, m: WalkableMap, g: Graph, c1: nat) returns (r: Result<Graph>)
    requires MapOk(store, m) && Wf(root, g) && c1 < |g.nodes|
    requires EdgesSoFar(root, store, m, g, c1, c1 + 1) && EdgesLinked(g)
    ensures r.Err? <==> c1 + 1 < |g.nodes| && NoFirstPolygon(m)
    ensures r.Ok? ==> Wf(root, r.value) && r.value.nodes == g.nodes && r.value.start == g.start && r.value.end == g.end
    ensures r.Ok? ==> EdgesSoFar(root, store, m, r.value, c1 + 1, c1 + 2) && EdgesLinked(r.value)
  {
    var n := |g.nodes|;
    var cur := g;
    var c2 := c1 + 1;
    while c2 < n
      invariant c1 + 1 <= c2 <= n
      invariant Wf(root, cur) && cur.nodes == g.nodes && cur.start == g.start && cur.end == g.end
      invariant EdgesSoFar(root, store, m, cur, c1, c2) && EdgesLinked(cur)
      invariant NoFirstPolygon(m) ==> c2 == c1 + 1
    {
      var los := IsInLineOfSight(root, store, m, cur.nodes[c1], cur.nodes[c2]);
      if los.Err? {
        return Err(los.fault);
      }
      if los.value {
        AddEdgeStep(root, store, m, cur, c1, c2);
        AddEdgeLinked(root, cur, c1, c2);
        cur := AddEdge(root, cur, c1, c2);
      } else {
        SkipEdgeStep(root, store, m, cur, c1, c2);
      }
      c2 := c2 + 1;
    }
    NextRow(root, store, m, cur, c1);
    return Ok(cur);
  }

  /** The edge loop of PathFinder.Run: every pair of nodes c1 < c2 in line
      of sight gets an edge. The first test throws when there is no first
      polygon, so the loop fails exactly then (given two nodes or more). */
  method BuildEdges(root: real -> real, store: seq<Polygon>, m: WalkableMap, g: Graph) returns (r: Result<Graph>)
    requires MapOk(store, m) && Wf(root, g) && g.edges == map[]
    ensures r.Err? <==> |g.nodes| >= 2 && NoFirstPolygon(m)
    ensures r.Ok? ==> Wf(root, r.value) && r.value.nodes == g.nodes && r.value.start == g.start && r.value.end == g.end
    ensures r.Ok? ==> forall u, v :: 0 <= u < |g.nodes| && 0 <= v < |g.nodes| ==>
      (HasEdge(r.value, u, v) <==> u != v && Sees(root, store, m, g.nodes[u], g.nodes[v]))
    ensures r.Ok? ==> EdgesLinked(r.value)
  {
    var n := |g.nodes|;
    var cur := g;
    var c1 := 0;
    while c1 < n
      invariant 0 <= c1 <= n || n == 0
      invariant Wf(root, cur) && cur.nodes == g.nodes && cur.start == g.start && cur.end == g.end
      invariant EdgesSoFar(root, store, m, cur, c1, c1 + 1) && EdgesLinked(cur)
      invariant n >= 2 && NoFirstPolygon(m) ==> c1 == 0
    {
      r := ConnectRow(root, store, m, cur, c1);
      if r.Err? {
        return;
      }
      cur := r.value;
      c1 := c1 + 1;
    }
    EdgesSoFarDone(root, store, m, cur, c1);
    return Ok(cur);
  }

  // ---------------------------------------------------------------------
  // Waypoints

  /** `PathLength`: the waypoints and the length of each leg between them. */
  datatype PathLength = PathLength(nodes: seq<GraphNode>, lengths: seq<real>)

  /** The loop of PathFinder.GetPath from index i on: each further path
      entry adds its graph node (an index outside the node list throws) and
      the length of the edge from the previous entry (a missing bucket throws
      KeyNotFound, a missing edge dereferences null). */
  function GetPathFrom(g: Graph, path: seq<int>, i: nat, acc: PathLength): (r: Result<PathLength>)
    requires 1 <= i
    ensures r.Ok? ==> |r.value.nodes| - |acc.nodes| == |r.value.lengths| - |acc.lengths|
    ensures r.Ok? ==> |acc.nodes| <= |r.value.nodes| && r.value.nodes[..|acc.nodes|] == acc.nodes
    decreases |path| - i
  {
    if i >= |path| then Ok(acc)
    else if !(0 <= path[i] < |g.nodes|) then Err(IndexOutOfRange)
    else match FindEdge(g, path[i - 1], path[i])
      case Err(f) => Err(f)
      case Ok(None) => Err(NullReference)
      case Ok(Some(e)) =>
        GetPathFrom(g, path, i + 1, PathLength(acc.nodes + [g.nodes[path[i]]], acc.lengths + [e.length]))
  }

  /** PathFinder.GetPath: the start node, then one waypoint and one length per
      further entry of the A* result. */
  function GetPath(g: Graph, path: seq<int>): (r: Result<PathLength>)
    ensures |g.nodes| == 0 ==> r == Err(IndexOutOfRange)
    ensures r.Ok? ==> |r.value.nodes| == |r.value.lengths| + 1 && r.value.nodes[0] == g.nodes[0]
    ensures |g.nodes| >= 1 && |path| <= 1 ==> r == Ok(PathLength([g.nodes[0]], []))
  {
    if |g.nodes| == 0 then Err(IndexOutOfRange)
    else GetPathFrom(g, path, 1, PathLength([g.nodes[0]], []))
  }

  /** Every leg of the path has a findable edge whose length is the distance
      between its ends, and every entry after the first names a node. */
  ghost predicate LegsOk(root: real -> real, g: Graph, path: seq<int>) {
    forall j :: 0 < j < |path| ==> LegOk(root, g, path, j)
  }

  ghost predicate LegOk(root: real -> real, g: Graph, path: seq<int>, j: int)
    requires 0 < j < |path|
  {
    0 <= path[j] < |g.nodes| && 0 <= path[j - 1] < |g.nodes|
    && FindEdge(g, path[j - 1], path[j]).Ok? && FindEdge(g, path[j - 1], path[j]).value.Some?
    && FindEdge(g, path[j - 1], path[j]).value.value.length == Distance(root, g.nodes[path[j - 1]], g.nodes[path[j]])
  }

  /** When every leg is backed by an edge the waypoint loop cannot fail:
      entry j of the path becomes waypoint j, and leg j is as long as the
      distance between its waypoints. */
  lemma {:induction false} GetPathFromOfLegs(root: real -> real, g: Graph, path: seq<int>, i: nat, acc: PathLength)
    requires LegsOk(root, g, path) && 0 < |path|
    requires forall j :: 0 <= j < |path| ==> 0 <= path[j] < |g.nodes|
    requires 1 <= i <= |path|
    requires |acc.nodes| == i && |acc.lengths| == i - 1
    requires forall j :: 0 <= j < i ==> acc.nodes[j] == g.nodes[path[j]]
    requires forall j :: 0 <= j < i - 1 ==> acc.lengths[j] == Distance(root, g.nodes[path[j]], g.nodes[path[j + 1]])
    ensures GetPathFrom(g, path, i, acc).Ok?
    ensures var r := GetPathFrom(g, path, i, acc).value;
      |r.nodes| == |path| && |r.lengths| == |path| - 1
      && (forall j :: 0 <= j < |path| ==> r.nodes[j] == g.nodes[path[j]])
      && (forall j :: 0 <= j < |path| - 1 ==> r.lengths[j] == Distance(root, g.nodes[path[j]], g.nodes[path[j + 1]]))
    decreases |path| - i
  {
    if i < |path| {
      assert LegOk(root, g, path, i);
      var e := FindEdge(g, path[i - 1], path[i]).value.value;
      var acc' := PathLength(acc.nodes + [g.nodes[path[i]]], acc.lengths + [e.length]);
      assert GetPathFrom(g, path, i, acc) == GetPathFrom(g, path, i + 1, acc');
      GetPathFromOfLegs(root, g, path, i + 1, acc');
    }
  }

  /** A neighbour link of a well-formed graph is backed by an edge whose
      length is the distance between its ends. */
  lemma WalkLeg(root: real -> real, g: Graph, u: int, v: int)
    requires Wf(root, g) && 0 <= u < |g.neighbors| && v in g.neighbors[u]
    ensures 0 <= v < |g.nodes|
    ensures FindEdge(g, u, v).Ok? && FindEdge(g, u, v).value.Some?
    ensures FindEdge(g, u, v).value.value.length == Distance(root, g.nodes[u], g.nodes[v])
  {
    assert LinkOk(g, u, v);
    var e := FindEdge(g, u, v).value.value;
    assert EdgeOk(root, g, Min(u, v), e);
    DistanceSymmetric(root, g.nodes[u], g.nodes[v]);
  }

  lemma GetPathOfWalk(root: real -> real, g: Graph, path: seq<int>)
    requires Wf(root, g) && IsWalk(g, path) && path[0] == 0
    ensures GetPath(g, path).Ok?
    ensures var r := GetPath(g, path).value;
      |r.nodes| == |path|
      && (forall j :: 0 <= j < |path| ==> r.nodes[j] == g.nodes[path[j]])
      && (forall j :: 0 <= j < |path| - 1 ==> r.lengths[j] == Distance(root, g.nodes[path[j]], g.nodes[path[j + 1]]))
  {
    forall j | 0 < j < |path|
      ensures LegOk(root, g, path, j)
    {
      WalkLeg(root, g, path[j - 1], path[j]);
    }
    GetPathFromOfLegs(root, g, path, 1, PathLength([g.nodes[0]], []));
  }

  lemma WfNeighborsInRange(root: real -> real, g: Graph)
    requires Wf(root, g)
    ensures NeighborsInRange(g)
  {
    forall u, v | 0 <= u < |g.neighbors| && v in g.neighbors[u]
      ensures 0 <= v < |g.nodes|
    {
      assert LinkOk(g, u, v);
    }
  }

  // ---------------------------------------------------------------------
  // The whole run

  /** The waypoints of a result: they start at `s`, end at `e` when there is
      more than one, each leg is as long as the distance between its ends and
      the ends of every leg see each other. */
  ghost predicate GoodRoute(root: real -> real, store: seq<Polygon>, m: WalkableMap, p: PathLength, s: GraphNode, e: GraphNode)
    requires MapOk(store, m)
  {
    |p.nodes| == |p.lengths| + 1 && p.nodes[0] == s
    && (|p.nodes| > 1 ==> p.nodes[|p.nodes| - 1] == e)
    && (forall j :: 0 <= j < |p.lengths| ==>
          p.lengths[j] == Distance(root, p.nodes[j], p.nodes[j + 1])
          && Sees(root, store, m, p.nodes[j], p.nodes[j + 1]))
  }

  /** A route through the points by their indices, each hop between two
      different points that see each other. */
  ghost predicate SightWalk(root: real -> real, store: seq<Polygon>, m: WalkableMap, nodes: seq<GraphNode>, p: seq<int>)
    requires MapOk(store, m)
  {
    |p| >= 1
    && (forall i :: 0 <= i < |p| ==> 0 <= p[i] < |nodes|)
    && (forall i :: 0 < i < |p| ==> p[i - 1] != p[i] && Sees(root, store, m, nodes[p[i - 1]], nodes[p[i]]))
  }

  /** Point 1 can be reached from point 0 by hops in line of sight. */
  ghost predicate SightReachable(root: real -> real, store: seq<Polygon>, m: WalkableMap, nodes: seq<GraphNode>)
    requires MapOk(store, m)
  {
    exists p :: SightWalk(root, store, m, nodes, p) && p[0] == StartIdx && p[|p| - 1] == EndIdx
  }

  /** In the visibility graph, A*'s reachability is reachability by hops in
      line of sight. */
  lemma ReachableBySight(root: real -> real, store: seq<Polygon>, m: WalkableMap, g: Graph)
    requires MapOk(store, m) && Wf(root, g) && EdgesLinked(g)
    requires forall u, v :: 0 <= u < |g.nodes| && 0 <= v < |g.nodes| ==>
      (HasEdge(g, u, v) <==> u != v && Sees(root, store, m, g.nodes[u], g.nodes[v]))
    ensures Reachable(g, EndIdx) <==> SightReachable(root, store, m, g.nodes)
  {
    if Reachable(g, EndIdx) {
      var p :| IsWalk(g, p) && p[0] == StartIdx && p[|p| - 1] == EndIdx;
      forall i | 0 < i < |p|
        ensures p[i - 1] != p[i] && Sees(root, store, m, g.nodes[p[i - 1]], g.nodes[p[i]])
      {
        assert LinkOk(g, p[i - 1], p[i]);
      }
      assert SightWalk(root, store, m, g.nodes, p);
    }
    if SightReachable(root, store, m, g.nodes) {
      var p :| SightWalk(root, store, m, g.nodes, p) && p[0] == StartIdx && p[|p| - 1] == EndIdx;
      forall i | 0 < i < |p|
        ensures p[i] in g.neighbors[p[i - 1]]
      {
        assert HasEdge(g, p[i - 1], p[i]);
      }
      assert IsWalk(g, p);
    }
  }

  /** A walk from the start node to the end node of a graph whose edges join
      exactly the points in line of sight reads back as a route: consecutive
      points see each other and each leg has their distance as its length. */
  lemma WalkIsRoute(root: real -> real, store: seq<Polygon>, m: WalkableMap, g: Graph, walk: seq<int>)
    requires MapOk(store, m) && Wf(root, g)
    requires IsWalk(g, walk) && walk[0] == StartIdx && walk[|walk| - 1] == EndIdx
    requires forall u, v :: 0 <= u < |g.nodes| && 0 <= v < |g.nodes| ==>
      (HasEdge(g, u, v) <==> u != v && Sees(root, store, m, g.nodes[u], g.nodes[v]))
    ensures GetPath(g, walk).Ok?
    ensures GoodRoute(root, store, m, GetPath(g, walk).value, g.nodes[StartIdx], g.nodes[EndIdx])
    ensures forall i :: 0 <= i < |GetPath(g, walk).value.nodes| ==> GetPath(g, walk).value.nodes[i] in g.nodes
  {
    GetPathOfWalk(root, g, walk);
    forall j | 0 <= j < |walk| - 1
      ensures Sees(root, store, m, g.nodes[walk[j]], g.nodes[walk[j + 1]])
    {
      assert walk[j + 1] in g.neighbors[walk[j]];
      assert LinkOk(g, walk[j], walk[j + 1]);
    }
  }

  /** PathFinder.Run(vStart, vEnd). The polygons come back reoriented (the
      code turns them clockwise in place); `fuel` bounds the A* loop. The
      graph's points are the constrained start and end followed by the
      collected corners; a single waypoint comes back exactly when the end
      cannot be reached by hops in line of sight. */
  method Run(root: real -> real, store: seq<Polygon>, m: WalkableMap, vStart: GraphNode, vEnd: GraphNode, fuel: nat)
    returns (r: Result<PathLength>, store': seq<Polygon>, ghost nodes: seq<GraphNode>)
    requires MapOk(store, m) && NonNegativeRoot(root)
    ensures store' == CollectFrom(store, m.polygons, 0, false).store && MapOk(store', m)
    ensures NoFirstPolygon(m) ==> r.Err?
    ensures var ends := MakeConstraints(root, store', m, At(vStart.x, vStart.y), At(vEnd.x, vEnd.y));
      ends.Err? ==> r == Err(ends.fault)
    ensures var ends := MakeConstraints(root, store', m, At(vStart.x, vStart.y), At(vEnd.x, vEnd.y));
      ends.Ok? && !NoFirstPolygon(m) ==> r.Ok? || r == Err(OutOfFuel)
    ensures r.Ok? ==>
      var ends := MakeConstraints(root, store', m, At(vStart.x, vStart.y), At(vEnd.x, vEnd.y));
      ends.Ok? && GoodRoute(root, store', m, r.value, ends.value.0, ends.value.1)
      && nodes == [ends.value.0, ends.value.1] + CollectFrom(store, m.polygons, 0, false).nodes
      && (|r.value.nodes| == 1 <==> !SightReachable(root, store', m, nodes))
      && (forall i :: 0 <= i < |r.value.nodes| ==> r.value.nodes[i] in nodes)
  {
    var nStart := At(vStart.x, vStart.y);
    var nEnd := At(vEnd.x, vEnd.y);
    var g := NewGraph(nStart, nEnd);
    NewGraphWf(root, nStart, nEnd);
    AddNodeWf(root, g, nStart);
    g := AddNode(g, nStart);
    AddNodeWf(root, g, nEnd);
    g := AddNode(g, nEnd);

    var c := CollectFrom(store, m.polygons, 0, false);
    store' := c.store;
    nodes := [];
    AddNodesWf(root, g, c.nodes);
    g := AddNodes(g, c.nodes);

    var ends := MakeConstraints(root, store', m, nStart, nEnd);
    if ends.Err? {
      r := Err(ends.fault);
      return;
    }
    var g1 := UpdateEnd(UpdateStart(g, ends.value.0), ends.value.1);
    MoveKeepsWf(root, g, g1);
    nodes := g1.nodes;
    assert nodes == [ends.value.0, ends.value.1] + c.nodes;

    var built := BuildEdges(root, store', m, g1);
    if built.Err? {
      r := Err(built.fault);
      return;
    }
    var g2 := built.value;
    WfNeighborsInRange(root, g2);
    ReachableBySight(root, store', m, g2);
    var path := FindShortestPath(root, g2, fuel);
    if path.Err? {
      r := Err(path.fault);
      return;
    }
    var walk := path.value;
    r := GetPath(g2, walk);
    if walk != [] {
      assert Reachable(g2, EndIdx);
      WalkIsRoute(root, store', m, g2, walk);
    }
  }

  /** PathFinder.Run(vStart): a run whose start and end are the same point. */
  method RunAt(root: real -> real, store: seq<Polygon>, m: WalkableMap, v: GraphNode, fuel: nat)
    returns (r: Result<PathLength>, store': seq<Polygon>, ghost nodes: seq<GraphNode>)
    requires MapOk(store, m) && NonNegativeRoot(root)
    ensures store' == CollectFrom(store, m.polygons, 0, false).store && MapOk(store', m)
    ensures NoFirstPolygon(m) ==> r.Err?
    ensures var ends := MakeConstraints(root, store', m, At(v.x, v.y), At(v.x, v.y));
      ends.Err? ==> r == Err(ends.fault)
    ensures var ends := MakeConstraints(root, store', m, At(v.x, v.y), At(v.x, v.y));
      ends.Ok? && !NoFirstPolygon(m) ==> r.Ok? || r == Err(OutOfFuel)
    ensures r.Ok? ==>
      var ends := MakeConstraints(root, store', m, At(v.x, v.y), At(v.x, v.y));
      ends.Ok? && GoodRoute(root, store', m, r.value, ends.value.0, ends.value.1)
      && nodes == [ends.value.0, ends.value.1] + CollectFrom(store, m.polygons, 0, false).nodes
      && (|r.value.nodes| == 1 <==> !SightReachable(root, store', m, nodes))
      && (forall i :: 0 <= i < |r.value.nodes| ==> r.value.nodes[i] in nodes)
  {
    r, store', nodes := Run(root, store, m, v, v, fuel);
  }
}

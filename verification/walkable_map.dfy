/** `WalkableMap.cs`: the polygons of a scene's walkable area.

    Polygon components are shared objects: the obstacle list, the polygon
    array and the main-polygon field may all refer to the same component, and
    an in-place reversal is seen through every reference. The model keeps
    the components in a store and refers to them by index; `None` is a null
    (or destroyed) reference. */
module WalkableMaps {
  import opened Wrappers
  import opened Polygons

  type Ref = Option<nat>

  /** The serialized state of a WalkableMap, with its constraint flags
      (`ConstrainStartMain`, ... read them unchanged). */
  datatype WalkableMap = WalkableMap(
    obstacles: seq<Ref>,        // obstaclePolygons
    polygons: seq<Ref>,         // polygons: the main polygon, then the obstacles
    main: Ref,                  // mainWalkablePolygon
    constrainStartMain: bool,
    constrainEndMain: bool,
    constrainStartObstacles: bool,
    constrainEndObstacles: bool)

  /** A reference is null or names a component of the store. */
  predicate RefOk(store: seq<Polygon>, r: Ref) {
    r.None? || r.value < |store|
  }

  /** Every reference of the map names a component of the store. */
  predicate MapOk(store: seq<Polygon>, m: WalkableMap) {
    RefOk(store, m.main)
    && (forall i :: 0 <= i < |m.obstacles| ==> RefOk(store, m.obstacles[i]))
    && (forall i :: 0 <= i < |m.polygons| ==> RefOk(store, m.polygons[i]))
  }

  /** The non-null references of s, in order. */
  function NonNull(s: seq<Ref>): (r: seq<Ref>)
    ensures |r| <= |s|
  {
    if |s| == 0 then []
    else (if s[0].Some? then [s[0]] else []) + NonNull(s[1..])
  }

  /** NonNull keeps exactly the non-null references. */
  lemma {:induction false} NonNullMembers(s: seq<Ref>)
    ensures forall x :: x in NonNull(s) <==> x in s && x.Some?
  {
    if |s| > 0 {
      NonNullMembers(s[1..]);
      assert s == [s[0]] + s[1..];
    }
  }

  /** One step of the backward removal loop. */
  lemma RemoveStep(s: seq<Ref>, i: int, cur: seq<Ref>)
    requires 0 <= i < |s| && cur == s[..i + 1] + NonNull(s[i + 1..])
    ensures cur[i] == s[i]
    ensures (if cur[i].None? then cur[..i] + cur[i + 1..] else cur) == s[..i] + NonNull(s[i..])
  {
    assert s[i..] == [s[i]] + s[i + 1..];
    NonNullAppend([s[i]], s[i + 1..]);
    assert s[..i + 1] == s[..i] + [s[i]];
    assert NonNull([s[i]]) == if s[i].Some? then [s[i]] else [];
    if s[i].None? {
      assert cur[..i] == s[..i];
      assert cur[i + 1..] == NonNull(s[i + 1..]);
    }
  }

  /** NonNull keeps the order: it distributes over concatenation. */
  lemma {:induction false} NonNullAppend(a: seq<Ref>, b: seq<Ref>)
    ensures NonNull(a + b) == NonNull(a) + NonNull(b)
  {
    if |a| > 0 {
      assert (a + b)[1..] == a[1..] + b;
      NonNullAppend(a[1..], b);
    } else {
      assert a + b == b;
    }
  }

  /** Nothing is removed from a list without null references. */
  lemma {:induction false} NonNullOfNonNull(s: seq<Ref>)
    requires forall i :: 0 <= i < |s| ==> s[i].Some?
    ensures NonNull(s) == s
  {
    if |s| > 0 {
      NonNullOfNonNull(s[1..]);
      assert s == [s[0]] + s[1..];
    }
  }

  /** The removal loop of RemoveNullPolygons: from the last index down to 0,
      RemoveAt(i) whenever entry i is null. */
  method DropNulls(s: seq<Ref>) returns (r: seq<Ref>)
    ensures r == NonNull(s)
  {
    r := s;
    var i := |s| - 1;
    while i >= 0
      invariant -1 <= i < |s|
      invariant r == s[..i + 1] + NonNull(s[i + 1..])
    {
      RemoveStep(s, i, r);
      if r[i] == None {
        r := r[..i] + r[i + 1..];
      }
      i := i - 1;
    }
    assert s[0..] == s;
  }

  /** WalkableMap.RemoveNullPolygons: removes the null obstacles, walking the
      list backwards with RemoveAt, and rebuilds `polygons` as the main
      polygon followed by the obstacles when anything was removed or the
      array does not have one slot more than the obstacle list. */
  method RemoveNullPolygons(m: WalkableMap) returns (r: WalkableMap)
    ensures r.obstacles == NonNull(m.obstacles)
    ensures |r.polygons| == |r.obstacles| + 1
    ensures r.polygons == m.polygons || r.polygons == [m.main] + r.obstacles
    ensures |r.obstacles| == |m.obstacles| && |m.polygons| == |m.obstacles| + 1 ==> r.polygons == m.polygons
    ensures |r.obstacles| != |m.obstacles| || |m.polygons| != |m.obstacles| + 1 ==> r.polygons == [m.main] + r.obstacles
    ensures r.main == m.main
    ensures r.constrainStartMain == m.constrainStartMain && r.constrainEndMain == m.constrainEndMain
    ensures r.constrainStartObstacles == m.constrainStartObstacles && r.constrainEndObstacles == m.constrainEndObstacles
  {
    var cnt := |m.obstacles|;
    var obstacles := DropNulls(m.obstacles);
    r := m.(obstacles := obstacles);
    if cnt != |obstacles| || |m.polygons| != cnt + 1 {
      r := r.(polygons := [m.main] + obstacles);
    }
  }

  /** Once the obstacle list holds no null reference and the array has the
      right length, RemoveNullPolygons changes nothing. */
  method RemoveNullPolygonsTwice(m: WalkableMap) returns (r: WalkableMap, r': WalkableMap)
    ensures r' == r
  {
    r := RemoveNullPolygons(m);
    NonNullMembers(m.obstacles);
    assert forall i :: 0 <= i < |r.obstacles| ==> r.obstacles[i] in NonNull(m.obstacles);
    NonNullOfNonNull(r.obstacles);
    r' := RemoveNullPolygons(r);
  }

  /** RemoveNullPolygons keeps every reference of the map valid. */
  method RemoveNullPolygonsKeepsRefs(store: seq<Polygon>, m: WalkableMap) returns (r: WalkableMap)
    requires MapOk(store, m)
    ensures forall x :: x in r.obstacles <==> x in m.obstacles && x.Some?
    ensures MapOk(store, r)
  {
    r := RemoveNullPolygons(m);
    NonNullMembers(m.obstacles);
    assert forall i :: 0 <= i < |r.obstacles| ==> r.obstacles[i] in m.obstacles;
  }
}

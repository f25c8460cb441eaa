/** `AStar.cs`: A* search from node 0 (the start) to node 1 (the end) of a
    path-finding graph, with the straight-line distance to the graph's end
    point as heuristic.

    The score arrays of the source are sequences updated in place; a node
    whose gScore is still `float.MaxValue` is one whose `known` flag is
    false. The main loop is bounded by `fuel`. */
module AStarSearch {
  import opened Wrappers
  import opened Geometry
  import opened Graphs
  import opened Polygons
  import Lists

  /** Node 0 is the start (`StartIdx`), node 1 the end (`EndIdx`). */
  const StartIdx: int := 0
  const EndIdx: int := 1

  /** Every neighbour index names a node, and there is one list per node. */
  ghost predicate NeighborsInRange(g: Graph) {
    |g.neighbors| == |g.nodes|
    && forall u, v :: 0 <= u < |g.neighbors| && v in g.neighbors[u] ==> 0 <= v < |g.nodes|
  }

  /** `Math.Sqrt` never returns a negative number. */
  ghost predicate NonNegativeRoot(root: real -> real) {
    forall v {:trigger root(v)} :: 0.0 <= root(v)
  }

  /** A walk through the graph: indices of nodes, each one a neighbour of
      the one before. */
  ghost predicate IsWalk(g: Graph, p: seq<int>) {
    |p| >= 1
    && (forall i :: 0 <= i < |p| ==> 0 <= p[i] < |g.nodes| && p[i] < |g.neighbors|)
    && (forall i :: 0 < i < |p| ==> p[i] in g.neighbors[p[i - 1]])
  }

  /** Some walk leads from the start node to `target`. */
  ghost predicate Reachable(g: Graph, target: int) {
    exists p :: IsWalk(g, p) && p[0] == StartIdx && p[|p| - 1] == target
  }

  /** AStar.Heuristic: the straight-line distance to the graph's end point. */
  function Heuristic(root: real -> real, g: Graph, node: GraphNode): (h: real)
    requires NonNegativeRoot(root)
    ensures 0.0 <= h
  {
    Distance(root, node, g.end)
  }

  /** AStar.LowestNode: the earliest element of the open set whose fScore is
      least. */
  function LowestNode(open: seq<int>, f: seq<real>): (r: int)
    requires |open| > 0
    requires forall i :: 0 <= i < |open| ==> 0 <= open[i] < |f|
    ensures r in open
    ensures forall x :: x in open ==> f[r] <= f[x]
    ensures exists k :: 0 <= k < |open| && open[k] == r && forall j :: 0 <= j < k ==> f[r] < f[open[j]]
  {
    var scores := seq(|open|, i requires 0 <= i < |open| => f[open[i]]);
    var k := FirstLeast(scores, AllTrue(|open|), None).value;
    assert forall x :: x in open ==> exists j :: 0 <= j < |open| && open[j] == x && scores[j] == f[x];
    assert forall j :: 0 <= j < k ==> f[open[k]] < f[open[j]] by {
      forall j | 0 <= j < k ensures f[open[k]] < f[open[j]] {
        assert scores[j] == f[open[j]];
      }
    }
    open[k]
  }

  /** No element occurs twice. */
  ghost predicate NoDuplicates(s: seq<int>) {
    forall x :: multiset(s)[x] <= 1
  }

  // ---------------------------------------------------------------------
  // The search state

  /** The order in which cameFrom links point: (gScore, time of the last
      update) strictly increases from a node's predecessor to the node. */
  ghost predicate KeyLess(gs: seq<real>, t: seq<nat>, u: int, v: int)
    requires 0 <= u < |gs| && 0 <= v < |gs| && |t| == |gs|
  {
    gs[u] < gs[v] || (gs[u] == gs[v] && t[u] < t[v])
  }

  /** The cameFrom link of a discovered node v other than the start. */
  ghost predicate ParentOk(g: Graph, known: seq<bool>, cf: seq<int>, gs: seq<real>, t: seq<nat>, v: int)
    requires |known| == |cf| == |gs| == |t| == |g.nodes| == |g.neighbors|
    requires 0 <= v < |g.nodes|
  {
    0 <= cf[v] < |g.nodes| && known[cf[v]] && v in g.neighbors[cf[v]] && KeyLess(gs, t, cf[v], v)
  }

  ghost predicate Linked(g: Graph, known: seq<bool>, cf: seq<int>, gs: seq<real>, t: seq<nat>)
    requires |known| == |cf| == |gs| == |t| == |g.nodes| == |g.neighbors|
  {
    forall v :: 0 < v < |g.nodes| && known[v] ==> ParentOk(g, known, cf, gs, t, v)
  }

  /** Every discovered node that is no longer open has all its neighbours
      discovered. */
  ghost predicate Closed(g: Graph, known: seq<bool>, open: seq<int>)
    requires |known| == |g.nodes| && NeighborsInRange(g)
  {
    forall v, w :: 0 <= v < |g.nodes| && known[v] && v !in open && w in g.neighbors[v] ==> known[w]
  }

  /** The cameFrom, gScore, known and time-stamp sequences agree with each
      other and with the graph. */
  ghost predicate SearchInv(g: Graph, known: seq<bool>, cf: seq<int>, gs: seq<real>, t: seq<nat>, clock: nat)
  {
    |known| == |cf| == |gs| == |t| == |g.nodes| == |g.neighbors| >= 1
    && known[StartIdx] && gs[StartIdx] == 0.0 && cf[StartIdx] == -1
    && (forall v :: 0 <= v < |gs| && known[v] ==> 0.0 <= gs[v])
    && (forall v :: 0 <= v < |t| ==> t[v] < clock)
    && Linked(g, known, cf, gs, t)
  }

  /** Lowering the gScore of w to `tentative` through `cur` keeps SearchInv. */
  lemma UpdateKeepsInv(root: real -> real, g: Graph, known: seq<bool>, cf: seq<int>, gs: seq<real>,
                       t: seq<nat>, clock: nat, cur: int, w: int, tentative: real)
    requires SearchInv(g, known, cf, gs, t, clock) && NeighborsInRange(g)
    requires 0 <= cur < |g.nodes| && known[cur] && w in g.neighbors[cur]
    requires gs[cur] <= tentative
    requires !known[w] || tentative < gs[w]
    ensures 0 < w < |g.nodes|
    ensures SearchInv(g, known[w := true], cf[w := cur], gs[w := tentative], t[w := clock], clock + 1)
  {
    var known', cf', gs', t' := known[w := true], cf[w := cur], gs[w := tentative], t[w := clock];
    assert w != StartIdx;
    forall v | 0 < v < |g.nodes| && known'[v]
      ensures ParentOk(g, known', cf', gs', t', v)
    {
      if v != w {
        assert ParentOk(g, known, cf, gs, t, v);
      }
    }
  }

  /** From a discovered node, following cameFrom links reaches the start:
      the links are acyclic. Builds the path front-first, which gives the
      list the source builds back-to-front and then reverses. */
  method ConstructPath(g: Graph, ghost known: seq<bool>, cf: seq<int>, ghost gs: seq<real>,
                       ghost t: seq<nat>, ghost clock: nat, target: int)
    returns (path: seq<int>)
    requires SearchInv(g, known, cf, gs, t, clock) && NeighborsInRange(g)
    requires 0 <= target < |g.nodes| && known[target]
    ensures IsWalk(g, path) && path[0] == StartIdx && path[|path| - 1] == target
  {
    var n := |g.nodes|;
    path := [target];
    var cur := target;
    while cur != StartIdx
      invariant 0 <= cur < n && known[cur]
      invariant IsWalk(g, path) && path[0] == cur && path[|path| - 1] == target
      decreases |set w | 0 <= w < n && known[w] && KeyLess(gs, t, w, cur)|
    {
      assert ParentOk(g, known, cf, gs, t, cur);
      var prev := cf[cur];
      ghost var below := set w | 0 <= w < n && known[w] && KeyLess(gs, t, w, cur);
      ghost var below' := set w | 0 <= w < n && known[w] && KeyLess(gs, t, w, prev);
      assert below' <= below && prev in below - below';
      SubsetSmaller(below', below);
      path := [prev] + path;
      cur := prev;
    }
  }

  lemma SubsetSmaller(a: set<int>, b: set<int>)
    requires a <= b && b - a != {}
    ensures |a| < |b|
  {
    assert b == a + (b - a);
  }

  /** A closed set of discovered nodes that holds the start holds every node
      a walk from the start reaches. */
  lemma {:induction false} ClosedHoldsWalks(g: Graph, known: seq<bool>, p: seq<int>)
    requires |known| == |g.nodes| && NeighborsInRange(g)
    requires Closed(g, known, [])
    requires IsWalk(g, p) && known[p[0]]
    ensures known[p[|p| - 1]]
  {
    if |p| > 1 {
      var q := p[..|p| - 1];
      assert IsWalk(g, q);
      ClosedHoldsWalks(g, known, q);
      assert p[|p| - 1] in g.neighbors[q[|q| - 1]];
    }
  }

  /** The open set holds distinct discovered nodes. */
  ghost predicate OpenOk(open: seq<int>, known: seq<bool>)
  {
    NoDuplicates(open) && forall x :: x in open ==> 0 <= x < |known| && known[x]
  }

  /** Closed, except possibly for node c, whose neighbours are being visited. */
  ghost predicate ClosedExcept(g: Graph, known: seq<bool>, open: seq<int>, c: int)
    requires |known| == |g.nodes| && NeighborsInRange(g)
  {
    forall v, w :: 0 <= v < |g.nodes| && v != c && known[v] && v !in open && w in g.neighbors[v] ==> known[w]
  }

  /** No discovered node is forgotten. */
  ghost predicate KnownGrows(known: seq<bool>, known': seq<bool>) {
    |known'| == |known| && forall x :: 0 <= x < |known| && known[x] ==> known'[x]
  }

  /** The neighbours already visited stay discovered when one more is. */
  lemma KnownGrowsPrefix(known: seq<bool>, known': seq<bool>, nbs: seq<int>, j: int)
    requires KnownGrows(known, known') && 0 <= j < |nbs|
    requires forall i :: 0 <= i < |nbs| ==> 0 <= nbs[i] < |known|
    requires (forall i :: 0 <= i < j ==> known[nbs[i]]) && known'[nbs[j]]
    ensures forall i :: 0 <= i <= j ==> known'[nbs[i]]
  {
  }

  /** One neighbour w of `cur`: when w is new or reached more cheaply through
      `cur`, it gets `cur` as cameFrom, its new gScore and fScore, and joins
      the open set if absent. */
  method Relax(root: real -> real, g: Graph, cur: int, w: int, open: seq<int>, cf: seq<int>, gs: seq<real>,
               known: seq<bool>, f: seq<real>, ghost t: seq<nat>, ghost clock: nat)
    returns (open': seq<int>, cf': seq<int>, gs': seq<real>, known': seq<bool>, f': seq<real>,
             ghost t': seq<nat>, ghost clock': nat)
    requires NonNegativeRoot(root) && NeighborsInRange(g)
    requires SearchInv(g, known, cf, gs, t, clock) && |f| == |g.nodes|
    requires 0 <= cur < |g.nodes| && known[cur] && cur !in open && w in g.neighbors[cur]
    requires OpenOk(open, known) && ClosedExcept(g, known, open, cur)
    requires |g.nodes| > EndIdx && known[EndIdx] ==> EndIdx in open
    ensures SearchInv(g, known', cf', gs', t', clock') && |f'| == |g.nodes|
    ensures known'[cur] && cur !in open' && known'[w] && KnownGrows(known, known')
    ensures OpenOk(open', known') && ClosedExcept(g, known', open', cur)
    ensures |g.nodes| > EndIdx && known'[EndIdx] ==> EndIdx in open'
  {
    open', cf', gs', known', f', t', clock' := open, cf, gs, known, f, t, clock;
    var tentative := gs[cur] + Distance(root, g.nodes[cur], g.nodes[w]);
    if !known[w] || tentative < gs[w] {
      UpdateKeepsInv(root, g, known, cf, gs, t, clock, cur, w, tentative);
      cf' := cf[w := cur];
      gs' := gs[w := tentative];
      known' := known[w := true];
      f' := f[w := tentative + Heuristic(root, g, g.nodes[w])];
      t' := t[w := clock];
      clock' := clock + 1;
      if w !in open {
        assert multiset(open)[w] == 0;
        open' := open + [w];
      }
    }
  }

  /** The loop over the neighbours of `cur` in FindShortestPath: Relax for
      each of them, after which `cur` is closed. */
  method Expand(root: real -> real, g: Graph, cur: int, open: seq<int>, cf: seq<int>, gs: seq<real>,
                known: seq<bool>, f: seq<real>, ghost t: seq<nat>, ghost clock: nat)
    returns (open': seq<int>, cf': seq<int>, gs': seq<real>, known': seq<bool>, f': seq<real>,
             ghost t': seq<nat>, ghost clock': nat)
    requires NonNegativeRoot(root) && NeighborsInRange(g)
    requires SearchInv(g, known, cf, gs, t, clock) && |f| == |g.nodes|
    requires 0 <= cur < |g.nodes| && known[cur] && cur !in open
    requires OpenOk(open, known) && ClosedExcept(g, known, open, cur)
    requires |g.nodes| > EndIdx && known[EndIdx] ==> EndIdx in open
    ensures SearchInv(g, known', cf', gs', t', clock') && |f'| == |g.nodes|
    ensures OpenOk(open', known') && Closed(g, known', open')
    ensures |g.nodes| > EndIdx && known'[EndIdx] ==> EndIdx in open'
  {
    open', cf', gs', known', f', t', clock' := open, cf, gs, known, f, t, clock;
    var nbs := g.neighbors[cur];
    assert forall i :: 0 <= i < |nbs| ==> nbs[i] in g.neighbors[cur];
    var j := 0;
    while j < |nbs|
      invariant 0 <= j <= |nbs|
      invariant forall i :: 0 <= i < |nbs| ==> 0 <= nbs[i] < |g.nodes|
      invariant SearchInv(g, known', cf', gs', t', clock') && |f'| == |g.nodes|
      invariant known'[cur] && cur !in open'
      invariant OpenOk(open', known') && ClosedExcept(g, known', open', cur)
      invariant forall i :: 0 <= i < j ==> known'[nbs[i]]
      invariant |g.nodes| > EndIdx && known'[EndIdx] ==> EndIdx in open'
    {
      ghost var before := known';
      assert nbs[j] in g.neighbors[cur];
      open', cf', gs', known', f', t', clock' := Relax(root, g, cur, nbs[j], open', cf', gs', known', f', t', clock');
      KnownGrowsPrefix(before, known', nbs, j);
      j := j + 1;
    }
    forall w | w in g.neighbors[cur] ensures known'[w] {
      var i :| 0 <= i < |nbs| && nbs[i] == w;
    }
  }

  /** Taking the current node out of the open set leaves the open set valid
      and every other closed node closed. */
  lemma RemoveKeepsInv(g: Graph, known: seq<bool>, open: seq<int>, cur: int)
    requires |known| == |g.nodes| && NeighborsInRange(g)
    requires OpenOk(open, known) && Closed(g, known, open) && cur in open && cur != EndIdx
    requires |g.nodes| > EndIdx && known[EndIdx] ==> EndIdx in open
    ensures var open' := Lists.RemoveFirst(open, cur).0;
      OpenOk(open', known) && ClosedExcept(g, known, open', cur) && cur !in open'
      && (|g.nodes| > EndIdx && known[EndIdx] ==> EndIdx in open')
  {
    var open' := Lists.RemoveFirst(open, cur).0;
    Lists.RemoveFirstMultiset(open, cur);
    assert multiset(open)[cur] == 1;
    assert cur !in multiset(open');
    forall x | x in open' ensures x in open {
      assert x in multiset(open');
    }
    forall x ensures multiset(open')[x] <= 1 {
    }
    if |g.nodes| > EndIdx && known[EndIdx] {
      assert EndIdx in multiset(open);
      assert EndIdx in multiset(open');
    }
    forall v, w | 0 <= v < |g.nodes| && v != cur && known[v] && v !in open' && w in g.neighbors[v]
      ensures known[w]
    {
      assert v !in multiset(open');
    }
  }

  /** AStar.FindShortestPath. On success, a non-empty result is a walk from
      node 0 to node 1; the empty result means node 1 cannot be reached from
      node 0 at all. */
  method FindShortestPath(root: real -> real, g: Graph, fuel: nat) returns (r: Result<seq<int>>)
    requires NonNegativeRoot(root)
    requires |g.nodes| >= 1 && NeighborsInRange(g)
    ensures r.Ok? && r.value != [] ==> IsWalk(g, r.value) && r.value[0] == StartIdx && r.value[|r.value| - 1] == EndIdx
    ensures r.Ok? && r.value == [] ==> !Reachable(g, EndIdx)
    ensures r.Err? ==> r.fault == OutOfFuel
  {
    var n := |g.nodes|;
    var open := [StartIdx];
    var cf := seq(n, _ => -1);
    var gs := seq(n, _ => 0.0);
    var known := seq(n, i => i == StartIdx);
    var f := seq(n, _ => 0.0)[StartIdx := Heuristic(root, g, g.start)];
    ghost var t: seq<nat> := seq(n, _ => 0);
    ghost var clock: nat := 1;
    var fuelLeft := fuel;

    while |open| != 0
      invariant SearchInv(g, known, cf, gs, t, clock) && |f| == n
      invariant OpenOk(open, known) && Closed(g, known, open)
      invariant n > EndIdx && known[EndIdx] ==> EndIdx in open
      decreases fuelLeft
    {
      if fuelLeft == 0 {
        return Err(OutOfFuel);
      }
      fuelLeft := fuelLeft - 1;

      assert forall i :: 0 <= i < |open| ==> open[i] in open;
      var cur := LowestNode(open, f);
      if cur == EndIdx {
        var path := ConstructPath(g, known, cf, gs, t, clock, cur);
        return Ok(path);
      }
      RemoveKeepsInv(g, known, open, cur);
      open := Lists.RemoveFirst(open, cur).0;
      open, cf, gs, known, f, t, clock := Expand(root, g, cur, open, cf, gs, known, f, t, clock);
    }

    forall p | IsWalk(g, p) && p[0] == StartIdx && p[|p| - 1] == EndIdx
      ensures false
    {
      ClosedHoldsWalks(g, known, p);
    }
    return Ok([]);
  }
}

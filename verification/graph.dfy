/** The undirected visibility graph of `Graph.cs`: nodes, per-node neighbour
    lists and edges filed under the smaller of their two node indices. */
module Graphs {
  import opened Wrappers
  import opened Geometry

  /** A `GraphEdge`: its node indices in ascending order and its length. */
  datatype GraphEdge = GraphEdge(n1: int, n2: int, length: real)

  datatype Graph = Graph(
    nodes: seq<GraphNode>,
    neighbors: seq<seq<int>>,
    edges: map<int, seq<GraphEdge>>,
    start: GraphNode,
    end: GraphNode)

  /** The `GraphEdge` constructor: whatever the argument order, the smaller
      index is stored first. */
  function NewEdge(a: int, b: int, length: real): (e: GraphEdge)
    ensures e.n1 <= e.n2
    ensures (e.n1 == a && e.n2 == b) || (e.n1 == b && e.n2 == a)
    ensures e.length == length
  {
    GraphEdge(Min(a, b), Max(a, b), length)
  }

  /** `new Graph(start, end)`: no nodes, no edges. */
  function NewGraph(start: GraphNode, end: GraphNode): (g: Graph)
    ensures |g.nodes| == 0 && |g.neighbors| == 0 && g.edges == map[]
  {
    Graph([], [], map[], start, end)
  }

  /** Graph.AddNode: one more node, with an empty neighbour list. */
  function AddNode(g: Graph, node: GraphNode): (r: Graph)
    ensures |r.nodes| == |g.nodes| + 1 && r.nodes[|g.nodes|] == node
    ensures r.nodes[..|g.nodes|] == g.nodes
    ensures r.neighbors == g.neighbors + [[]]
    ensures r.edges == g.edges && r.start == g.start && r.end == g.end
  {
    g.(nodes := g.nodes + [node], neighbors := g.neighbors + [[]])
  }

  /** The bucket an edge is filed under (`FindIdx`). */
  function Bucket(g: Graph, k: int): seq<GraphEdge> {
    if k in g.edges then g.edges[k] else []
  }

  /** Graph.AddEdge(n1, n2): files an edge of length Distance(node n1, node n2)
      under the smaller index and makes both ends neighbours of each other
      (`AddNeigbors`). Indexing outside the node list throws in C#; callers
      only pass indices of existing nodes. */
  function AddEdge(root: real -> real, g: Graph, n1: int, n2: int): (r: Graph)
    requires 0 <= n1 < |g.nodes| && 0 <= n2 < |g.nodes|
    requires |g.neighbors| == |g.nodes|
    ensures r.nodes == g.nodes && r.start == g.start && r.end == g.end
    ensures |r.neighbors| == |g.neighbors|
    ensures n2 in r.neighbors[n1] && n1 in r.neighbors[n2]
    ensures forall u :: 0 <= u < |g.neighbors| && u != n1 && u != n2 ==> r.neighbors[u] == g.neighbors[u]
    ensures forall u :: 0 <= u < |g.neighbors| ==>
      multiset(r.neighbors[u]) == multiset(g.neighbors[u])
        + (if u == n1 then multiset{n2} else multiset{})
        + (if u == n2 then multiset{n1} else multiset{})
    ensures Bucket(r, Min(n1, n2))
      == Bucket(g, Min(n1, n2)) + [GraphEdge(Min(n1, n2), Max(n1, n2), Distance(root, g.nodes[n1], g.nodes[n2]))]
    ensures forall k :: k != Min(n1, n2) ==> Bucket(r, k) == Bucket(g, k)
  {
    var e := NewEdge(n1, n2, Distance(root, g.nodes[n1], g.nodes[n2]));
    var k := e.n1;
    var nb := g.neighbors[e.n1 := g.neighbors[e.n1] + [e.n2]];
    var nb' := nb[e.n2 := nb[e.n2] + [e.n1]];
    g.(edges := g.edges[k := Bucket(g, k) + [e]], neighbors := nb')
  }

  /** The first edge of a bucket whose second index is `hi`. */
  function FirstTo(es: seq<GraphEdge>, hi: int): (r: Option<GraphEdge>)
    ensures r.Some? ==> r.value in es && r.value.n2 == hi
    ensures r.None? <==> forall e :: e in es ==> e.n2 != hi
    ensures r.Some? ==> exists i :: 0 <= i < |es| && es[i] == r.value && forall j :: 0 <= j < i ==> es[j].n2 != hi
  {
    if |es| == 0 then None
    else if es[0].n2 == hi then Some(es[0])
    else
      var rest := FirstTo(es[1..], hi);
      assert forall j :: 1 <= j < |es| ==> es[j] == es[1..][j - 1];
      rest
  }

  /** Graph.FindEdge(n1, n2). A missing bucket is a KeyNotFoundException; a
      bucket without the edge trips a debug-only assertion and returns null. */
  function FindEdge(g: Graph, n1: int, n2: int): (r: Result<Option<GraphEdge>>)
    ensures r.Err? <==> Min(n1, n2) !in g.edges
    ensures r.Err? ==> r.fault == KeyNotFound
    ensures r.Ok? && r.value.Some? ==>
      r.value.value in g.edges[Min(n1, n2)] && r.value.value.n2 == Max(n1, n2)
    ensures r.Ok? ==> (r.value.None? <==> forall e :: e in g.edges[Min(n1, n2)] ==> e.n2 != Max(n1, n2))
    ensures r.Ok? && r.value.Some? ==>
      var es := g.edges[Min(n1, n2)];
      exists i :: 0 <= i < |es| && es[i] == r.value.value && forall j :: 0 <= j < i ==> es[j].n2 != Max(n1, n2)
  {
    var lo := Min(n1, n2);
    var hi := Max(n1, n2);
    if lo !in g.edges then Err(KeyNotFound) else Ok(FirstTo(g.edges[lo], hi))
  }

  /** An edge between u and v can be found. */
  predicate HasEdge(g: Graph, u: int, v: int) {
    var r := FindEdge(g, u, v);
    r.Ok? && r.value.Some?
  }

  /** A neighbour link u -> v is in range, mirrored by v -> u and backed by a
      findable edge. */
  predicate LinkOk(g: Graph, u: int, v: int) {
    0 <= v < |g.nodes| && 0 <= v < |g.neighbors| && u in g.neighbors[v] && HasEdge(g, u, v)
  }

  /** An edge filed under k has k as its smaller end, both ends in range and
      the Euclidean distance of its ends as length. */
  ghost predicate EdgeOk(root: real -> real, g: Graph, k: int, e: GraphEdge) {
    e.n1 == k && 0 <= e.n1 <= e.n2 < |g.nodes|
    && e.length == Distance(root, g.nodes[e.n1], g.nodes[e.n2])
  }

  /** The shape every graph built by AddNode/AddEdge keeps: one neighbour list
      per node, every link well formed and every edge correctly filed. */
  ghost predicate Wf(root: real -> real, g: Graph) {
    |g.neighbors| == |g.nodes| && LinksOk(g) && EdgesOk(root, g)
  }

  ghost predicate LinksOk(g: Graph) {
    forall u, v :: 0 <= u < |g.neighbors| && v in g.neighbors[u] ==> LinkOk(g, u, v)
  }

  ghost predicate EdgesOk(root: real -> real, g: Graph) {
    forall k, e :: k in g.edges && e in g.edges[k] ==> EdgeOk(root, g, k, e)
  }

  // ---------------------------------------------------------------------
  // Properties

  /** The argument order of an edge is irrelevant. */
  lemma NewEdgeUnordered(a: int, b: int, length: real)
    ensures NewEdge(a, b, length) == NewEdge(b, a, length)
  {
  }

  /** FindEdge(a, b) and FindEdge(b, a) agree. */
  lemma FindEdgeSymmetric(g: Graph, a: int, b: int)
    ensures FindEdge(g, a, b) == FindEdge(g, b, a)
  {
  }

  lemma DistanceSymmetric(root: real -> real, p: GraphNode, q: GraphNode)
    ensures Distance(root, p, q) == Distance(root, q, p)
  {
    DistanceSquaredSymmetric(p, q);
  }

  /** Appending to a bucket never hides an edge that was already found. */
  lemma {:induction false} FirstToAppend(es: seq<GraphEdge>, e: GraphEdge, hi: int)
    ensures FirstTo(es + [e], hi) == if FirstTo(es, hi).Some? then FirstTo(es, hi)
                                     else if e.n2 == hi then Some(e) else None
  {
    if |es| == 0 {
      assert es + [e] == [e];
    } else {
      assert (es + [e])[1..] == es[1..] + [e];
      FirstToAppend(es[1..], e, hi);
    }
  }

  /** The empty graph is well formed. */
  lemma NewGraphWf(root: real -> real, start: GraphNode, end: GraphNode)
    ensures Wf(root, NewGraph(start, end))
  {
  }

  /** AddNode keeps the graph well formed and leaves the new node isolated. */
  lemma AddNodeWf(root: real -> real, g: Graph, node: GraphNode)
    requires Wf(root, g)
    ensures Wf(root, AddNode(g, node))
    ensures AddNode(g, node).neighbors[|g.nodes|] == []
  {
    var r := AddNode(g, node);
    forall u, v | 0 <= u < |r.neighbors| && v in r.neighbors[u]
      ensures LinkOk(r, u, v)
    {
      assert u < |g.neighbors| && r.neighbors[u] == g.neighbors[u];
      assert v in g.neighbors[u];
      assert 0 <= v < |g.nodes| && u in g.neighbors[v] && HasEdge(g, u, v);
      assert r.neighbors[v] == g.neighbors[v];
      assert FindEdge(r, u, v) == FindEdge(g, u, v);
    }
  }

  /** Edges found before AddEdge are still found after it. */
  lemma AddEdgeKeepsEdges(root: real -> real, g: Graph, n1: int, n2: int, u: int, v: int)
    requires 0 <= n1 < |g.nodes| && 0 <= n2 < |g.nodes|
    requires |g.neighbors| == |g.nodes|
    requires HasEdge(g, u, v)
    ensures HasEdge(AddEdge(root, g, n1, n2), u, v)
  {
    var e := GraphEdge(Min(n1, n2), Max(n1, n2), Distance(root, g.nodes[n1], g.nodes[n2]));
    FirstToAppend(Bucket(g, Min(u, v)), e, Max(u, v));
  }

  /** AddEdge(n1, n2) adds no edge other than n1-n2. */
  lemma AddEdgeOnlyAdds(root: real -> real, g: Graph, n1: int, n2: int, u: int, v: int)
    requires 0 <= n1 < |g.nodes| && 0 <= n2 < |g.nodes|
    requires |g.neighbors| == |g.nodes|
    requires HasEdge(AddEdge(root, g, n1, n2), u, v)
    ensures HasEdge(g, u, v) || (Min(u, v) == Min(n1, n2) && Max(u, v) == Max(n1, n2))
  {
    var e := GraphEdge(Min(n1, n2), Max(n1, n2), Distance(root, g.nodes[n1], g.nodes[n2]));
    FirstToAppend(Bucket(g, Min(u, v)), e, Max(u, v));
  }

  /** After AddEdge(n1, n2) the edge n1-n2 is found, with the distance of its
      ends as length. */
  lemma AddEdgeFinds(root: real -> real, g: Graph, n1: int, n2: int)
    requires Wf(root, g)
    requires 0 <= n1 < |g.nodes| && 0 <= n2 < |g.nodes|
    ensures HasEdge(AddEdge(root, g, n1, n2), n1, n2)
    ensures HasEdge(AddEdge(root, g, n1, n2), n2, n1)
    ensures FindEdge(AddEdge(root, g, n1, n2), n1, n2).value.value.length
      == Distance(root, g.nodes[n1], g.nodes[n2])
  {
    var r := AddEdge(root, g, n1, n2);
    var lo, hi := Min(n1, n2), Max(n1, n2);
    var e := GraphEdge(lo, hi, Distance(root, g.nodes[n1], g.nodes[n2]));
    FirstToAppend(Bucket(g, lo), e, hi);
    FindEdgeSymmetric(r, n1, n2);
    var f := FindEdge(r, n1, n2).value.value;
    if f != e {
      assert f in g.edges[lo];
      DistanceSymmetric(root, g.nodes[n1], g.nodes[n2]);
    }
  }

  /** One neighbour link after AddEdge is in range, mirrored and backed by an
      edge. */
  lemma AddEdgeNeighbor(root: real -> real, g: Graph, n1: int, n2: int, u: int, v: int)
    requires Wf(root, g)
    requires 0 <= n1 < |g.nodes| && 0 <= n2 < |g.nodes|
    requires 0 <= u < |g.neighbors| && v in AddEdge(root, g, n1, n2).neighbors[u]
    ensures LinkOk(AddEdge(root, g, n1, n2), u, v)
  {
    var r := AddEdge(root, g, n1, n2);
    assert v in multiset(r.neighbors[u]);
    if v in g.neighbors[u] {
      AddEdgeKeepsEdges(root, g, n1, n2, u, v);
      assert u in g.neighbors[v];
      assert u in multiset(g.neighbors[v]);
      assert u in multiset(r.neighbors[v]);
    } else {
      assert (u == n1 && v == n2) || (u == n2 && v == n1);
      AddEdgeFinds(root, g, n1, n2);
    }
  }

  /** The neighbour lists after AddEdge stay in range, symmetric and backed
      by edges. */
  lemma AddEdgeNeighbors(root: real -> real, g: Graph, n1: int, n2: int)
    requires Wf(root, g)
    requires 0 <= n1 < |g.nodes| && 0 <= n2 < |g.nodes|
    ensures LinksOk(AddEdge(root, g, n1, n2))
  {
    var r := AddEdge(root, g, n1, n2);
    forall u, v | 0 <= u < |r.neighbors| && v in r.neighbors[u]
      ensures LinkOk(r, u, v)
    {
      AddEdgeNeighbor(root, g, n1, n2, u, v);
    }
  }

  /** The edge buckets after AddEdge keep their filing and lengths. */
  lemma AddEdgeBuckets(root: real -> real, g: Graph, n1: int, n2: int)
    requires Wf(root, g)
    requires 0 <= n1 < |g.nodes| && 0 <= n2 < |g.nodes|
    ensures EdgesOk(root, AddEdge(root, g, n1, n2))
  {
    var r := AddEdge(root, g, n1, n2);
    var lo := Min(n1, n2);
    var e := GraphEdge(lo, Max(n1, n2), Distance(root, g.nodes[n1], g.nodes[n2]));
    DistanceSymmetric(root, g.nodes[n1], g.nodes[n2]);
    forall k, f | k in r.edges && f in r.edges[k]
      ensures EdgeOk(root, r, k, f)
    {
      assert f in Bucket(r, k);
      if k == lo && f !in Bucket(g, k) {
        assert f == e;
      } else {
        assert f in Bucket(g, k);
      }
    }
  }

  /** AddEdge keeps the graph well formed. */
  lemma AddEdgeWf(root: real -> real, g: Graph, n1: int, n2: int)
    requires Wf(root, g)
    requires 0 <= n1 < |g.nodes| && 0 <= n2 < |g.nodes|
    ensures Wf(root, AddEdge(root, g, n1, n2))
  {
    AddEdgeNeighbors(root, g, n1, n2);
    AddEdgeBuckets(root, g, n1, n2);
  }

  /** Every edge that can be found is listed among its first end's
      neighbours: AddEdge files the edge and links both ends together. */
  ghost predicate EdgesLinked(g: Graph) {
    forall u, v :: 0 <= u < |g.neighbors| && HasEdge(g, u, v) ==> v in g.neighbors[u]
  }

  /** AddEdge keeps every findable edge mirrored in the neighbour lists. */
  lemma AddEdgeLinked(root: real -> real, g: Graph, n1: int, n2: int)
    requires 0 <= n1 < |g.nodes| && 0 <= n2 < |g.nodes|
    requires |g.neighbors| == |g.nodes| && EdgesLinked(g)
    ensures EdgesLinked(AddEdge(root, g, n1, n2))
  {
    var r := AddEdge(root, g, n1, n2);
    forall u, v | 0 <= u < |r.neighbors| && HasEdge(r, u, v)
      ensures v in r.neighbors[u]
    {
      AddEdgeOnlyAdds(root, g, n1, n2, u, v);
      if HasEdge(g, u, v) {
        assert v in multiset(g.neighbors[u]);
        assert v in multiset(r.neighbors[u]);
      } else {
        assert (u == n1 && v == n2) || (u == n2 && v == n1);
      }
    }
  }
}

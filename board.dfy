/** The board's data model: the generator's constants, cities (nodes),
    roads (edges), and the read-only helpers over the edge list
    (`edgeExists`, `getNeighbors`, `wouldIntersect`). */
module Board {
  import opened Arithmetic
  import opened Geometry

  const NODE_COUNT: nat := 15
  const PLAYER_COUNT: nat := 2
  const MAX_CONNECTION_DISTANCE: nat := 220
  const MIN_CONNECTIONS: nat := 2
  const MAP_PADDING: nat := 80
  const MIN_CITY_DISTANCE: nat := 130
  /** The attempt budget of the spaced placement loop. */
  const MAX_ATTEMPTS: nat := 5000

  /** `null` before ownership is assigned, a player id afterwards. */
  datatype Owner = Neutral | Player(id: nat)

  datatype Node = Node(id: nat, pos: Point, owner: Owner, units: int)

  /** A road, stored in the direction it was pushed: from `a` to `b`. */
  datatype Edge = Edge(a: nat, b: nat)

  /** `distance(p, q) < limit`, compared on squares. */
  predicate CloserThan(p: Point, q: Point, limit: nat) {
    SqDist(p, q) < limit * limit
  }

  /** Comparing on squares is comparing distances: for the non-negative
      root d of SqDist(p, q), that is `distance(p, q)`, d < limit exactly
      when CloserThan(p, q, limit). */
  lemma CloserThanMatchesDistance(p: Point, q: Point, limit: nat, d: real)
    requires d >= 0.0 && d * d == SqDist(p, q) as real
    ensures d < limit as real <==> CloserThan(p, q, limit)
  {
    SquareMonotone(d, limit as real);
    assert (limit * limit) as real == (limit as real) * (limit as real);
  }

  /** The edge links u and v, in either direction. */
  predicate Joins(e: Edge, u: nat, v: nat) {
    (e.a == u && e.b == v) || (e.a == v && e.b == u)
  }

  /** `edgeExists(u, v)`: some edge links u and v, in either direction. */
  function EdgeExists(edges: seq<Edge>, u: nat, v: nat): (r: bool)
    ensures r <==> exists k :: 0 <= k < |edges| && Joins(edges[k], u, v)
  {
    if edges == [] then false
    else
      var init := edges[..|edges| - 1];
      assert forall k :: 0 <= k < |init| ==> init[k] == edges[k];
      EdgeExists(init, u, v) || Joins(edges[|edges| - 1], u, v)
  }

  /** `getNeighbors(v)`: one entry per incident edge, in edge order. */
  function Neighbors(edges: seq<Edge>, v: nat): (r: seq<nat>)
    ensures forall w :: w in r <==> exists k :: 0 <= k < |edges| && Joins(edges[k], v, w)
  {
    if edges == [] then []
    else
      var init, e := edges[..|edges| - 1], edges[|edges| - 1];
      assert forall k :: 0 <= k < |init| ==> init[k] == edges[k];
      Neighbors(init, v) + (if e.a == v then [e.b] else []) + (if e.b == v then [e.a] else [])
  }

  /** The neighbour count that the augmentation compares with MIN_CONNECTIONS. */
  function Degree(edges: seq<Edge>, v: nat): nat {
    |Neighbors(edges, v)|
  }

  /** Indices of the edges that touch v. */
  function Incident(edges: seq<Edge>, v: nat): set<nat> {
    set k: nat | k < |edges| && (edges[k].a == v || edges[k].b == v)
  }

  predicate NoSelfLoops(edges: seq<Edge>) {
    forall k :: 0 <= k < |edges| ==> edges[k].a != edges[k].b
  }

  /** No later edge links the same unordered pair as an earlier one. */
  predicate NoDuplicates(edges: seq<Edge>) {
    forall k, l :: 0 <= k < l < |edges| ==> !Joins(edges[l], edges[k].a, edges[k].b)
  }

  predicate Simple(edges: seq<Edge>) {
    NoSelfLoops(edges) && NoDuplicates(edges)
  }

  /** Every endpoint is the index of a node. */
  predicate EdgesIn(edges: seq<Edge>, n: nat) {
    forall k :: 0 <= k < |edges| ==> edges[k].a < n && edges[k].b < n
  }

  predicate SharesEndpoint(e: Edge, a: nat, b: nat) {
    e.a == a || e.b == a || e.a == b || e.b == b
  }

  /** The check inside `wouldIntersect` for one existing edge e against the
      proposed edge from a to b. */
  predicate Crosses(nodes: seq<Node>, a: nat, b: nat, e: Edge)
    requires a < |nodes| && b < |nodes| && e.a < |nodes| && e.b < |nodes|
  {
    !SharesEndpoint(e, a, b) && LinesIntersect(nodes[a].pos, nodes[b].pos, nodes[e.a].pos, nodes[e.b].pos)
  }

  /** What `wouldIntersect(a, b)` answers: some existing edge with no
      endpoint in common with a-b is reported as crossing it. */
  function AnyCrossing(nodes: seq<Node>, edges: seq<Edge>, a: nat, b: nat): (r: bool)
    requires a < |nodes| && b < |nodes| && EdgesIn(edges, |nodes|)
    ensures r <==> exists k :: 0 <= k < |edges| && Crosses(nodes, a, b, edges[k])
  {
    if edges == [] then false
    else
      var init := edges[..|edges| - 1];
      assert forall k :: 0 <= k < |init| ==> init[k] == edges[k];
      AnyCrossing(nodes, init, a, b) || Crosses(nodes, a, b, edges[|edges| - 1])
  }

  /** Each edge was checked against every edge before it when it was
      pushed: no edge crosses an earlier edge it shares no endpoint with. */
  predicate NoCrossing(nodes: seq<Node>, edges: seq<Edge>) {
    EdgesIn(edges, |nodes|) &&
    forall k, l :: 0 <= k < l < |edges| ==> !Crosses(nodes, edges[l].a, edges[l].b, edges[k])
  }

  /** Pushing an edge adds its endpoints, and nothing else, to the
      neighbour lists. */
  lemma DegreeAfterPush(edges: seq<Edge>, e: Edge, v: nat)
    ensures Degree(edges + [e], v) == Degree(edges, v) + (if e.a == v then 1 else 0) + (if e.b == v then 1 else 0)
  {
    assert (edges + [e])[..|edges|] == edges;
  }

  /** Without self-loops, the neighbour count is the number of incident edges. */
  lemma {:induction false} DegreeCountsIncidentEdges(edges: seq<Edge>, v: nat)
    requires NoSelfLoops(edges)
    ensures Degree(edges, v) == |Incident(edges, v)|
  {
    if edges != [] {
      var n := |edges| - 1;
      var init := edges[..n];
      assert forall k :: 0 <= k < |init| ==> init[k] == edges[k];
      DegreeCountsIncidentEdges(init, v);
      if edges[n].a == v || edges[n].b == v {
        assert Incident(edges, v) == Incident(init, v) + {n};
      } else {
        assert Incident(edges, v) == Incident(init, v);
      }
    }
  }

  /** Pushing i-j when i != j and `edgeExists(i, j)` is false keeps the edge
      list free of self-loops and duplicate pairs. */
  lemma PushKeepsSimple(edges: seq<Edge>, i: nat, j: nat)
    requires Simple(edges) && i != j && !EdgeExists(edges, i, j)
    ensures Simple(edges + [Edge(i, j)])
  {
    var edges' := edges + [Edge(i, j)];
    forall k, l | 0 <= k < l < |edges'|
      ensures !Joins(edges'[l], edges'[k].a, edges'[k].b)
    {
      if l == |edges| {
        assert !Joins(edges[k], i, j);
      }
    }
  }

  /** Pushing a-b when no existing edge crosses it keeps NoCrossing. */
  lemma PushKeepsNoCrossing(nodes: seq<Node>, edges: seq<Edge>, a: nat, b: nat)
    requires NoCrossing(nodes, edges) && a < |nodes| && b < |nodes|
    requires !AnyCrossing(nodes, edges, a, b)
    ensures NoCrossing(nodes, edges + [Edge(a, b)])
  {
    var edges' := edges + [Edge(a, b)];
    forall k, l | 0 <= k < l < |edges'|
      ensures !Crosses(nodes, edges'[l].a, edges'[l].b, edges'[k])
    {
      if l == |edges| {
        assert edges'[k] == edges[k];
      }
    }
  }

  /** The edge list is planar: no two edges without a common endpoint cross
      at a point interior to both, whatever their order and direction. */
  lemma NoProperCrossings(nodes: seq<Node>, edges: seq<Edge>, k: nat, l: nat)
    requires NoCrossing(nodes, edges) && k < |edges| && l < |edges|
    requires !SharesEndpoint(edges[k], edges[l].a, edges[l].b)
    ensures !ProperlyCross(nodes[edges[l].a].pos, nodes[edges[l].b].pos, nodes[edges[k].a].pos, nodes[edges[k].b].pos)
  {
    var p1, p2 := nodes[edges[l].a].pos, nodes[edges[l].b].pos;
    var p3, p4 := nodes[edges[k].a].pos, nodes[edges[k].b].pos;
    if k < l {
      assert !Crosses(nodes, edges[l].a, edges[l].b, edges[k]);
    } else {
      assert !Crosses(nodes, edges[k].a, edges[k].b, edges[l]);
      LinesIntersectSymmetric(p3, p4, p1, p2);
    }
    if ProperlyCross(p1, p2, p3, p4) {
      ProperCrossingDetected(p1, p2, p3, p4);
    }
  }
}

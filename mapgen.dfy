/** The map-generation pipeline: the module-level `nodes` and `edges` arrays
    become fields of a GameMap object, and each generator step is a method
    that pushes to them or rewrites them in place. */
module MapGen {
  import opened Geometry
  import opened Chance
  import opened Board
  import opened Connectivity
  import opened Ownership

  /** v lies in the interval covered by lo + Math.random() * span. */
  predicate WithinSpan(v: int, lo: int, span: int) {
    if span > 0 then lo <= v < lo + span
    else span + lo <= v <= lo
  }

  predicate InPlayArea(p: Point, width: int, height: int) {
    WithinSpan(p.x, MAP_PADDING, width - MAP_PADDING * 2) &&
    WithinSpan(p.y, MAP_PADDING, height - MAP_PADDING * 2)
  }

  /** The position drawn for a city from draws t (x) and t + 1 (y). */
  function Candidate(rand: nat -> Draw, t: nat, width: int, height: int): (p: Point)
    ensures InPlayArea(p, width, height)
  {
    Point(Uniform(rand(t), width - MAP_PADDING * 2) + MAP_PADDING,
          Uniform(rand(t + 1), height - MAP_PADDING * 2) + MAP_PADDING)
  }

  /** A city as the generator creates it: its index as id, no owner, one unit. */
  predicate FreshCity(c: Node, k: nat, width: int, height: int) {
    c.id == k && c.owner == Neutral && c.units == 1 && InPlayArea(c.pos, width, height)
  }

  /** No city in `cities` is closer than MIN_CITY_DISTANCE to p. */
  predicate FarFromAll(cities: seq<Node>, p: Point) {
    forall k :: 0 <= k < |cities| ==> !CloserThan(cities[k].pos, p, MIN_CITY_DISTANCE)
  }

  /** The cities the spaced placement loop holds after `tries` attempts:
      attempt t draws candidate 2t and keeps it exactly when it is far from
      every city kept so far. */
  function FirstLoop(rand: nat -> Draw, width: int, height: int, tries: nat): (cities: seq<Node>)
    ensures |cities| <= tries
    ensures forall k :: 0 <= k < |cities| ==> FreshCity(cities[k], k, width, height)
  {
    if tries == 0 then []
    else
      var cities := FirstLoop(rand, width, height, tries - 1);
      var candidate := Node(|cities|, Candidate(rand, 2 * (tries - 1), width, height), Neutral, 1);
      if FarFromAll(cities, candidate.pos) then cities + [candidate] else cities
  }

  /** Every city is at least MIN_CITY_DISTANCE from every city before it. */
  predicate Spaced(cities: seq<Node>) {
    forall k, l :: 0 <= k < l < |cities| ==> !CloserThan(cities[k].pos, cities[l].pos, MIN_CITY_DISTANCE)
  }

  /** The roads added after a prefix all link cities closer than
      MAX_CONNECTION_DISTANCE. */
  predicate ShortAfter(nodes: seq<Node>, edges: seq<Edge>, from: nat)
    requires EdgesIn(edges, |nodes|)
  {
    forall k :: from <= k < |edges| ==>
      CloserThan(nodes[edges[k].a].pos, nodes[edges[k].b].pos, MAX_CONNECTION_DISTANCE)
  }

  /** The first loop only ever keeps cities that are pairwise spaced. */
  lemma {:induction false} FirstLoopSpaced(rand: nat -> Draw, width: int, height: int, tries: nat)
    ensures Spaced(FirstLoop(rand, width, height, tries))
  {
    if tries > 0 {
      FirstLoopSpaced(rand, width, height, tries - 1);
    }
  }

  function Max(x: nat, y: nat): nat {
    if x < y then y else x
  }

  /** The edges list of `before` grown only by edges leaving node i. */
  predicate GrownFrom(before: seq<Edge>, after: seq<Edge>, i: nat) {
    before <= after && forall k :: |before| <= k < |after| ==> after[k].a == i
  }

  class GameMap {
    /** The drawing surface's clientWidth and clientHeight. */
    const width: int
    const height: int
    var nodes: seq<Node>
    var edges: seq<Edge>

    constructor (width: int, height: int)
      ensures this.width == width && this.height == height
      ensures nodes == [] && edges == []
    {
      this.width := width;
      this.height := height;
      nodes := [];
      edges := [];
    }

    /** `generateNodes`: rejection sampling with an attempt budget, then an
        unchecked fallback. `spaced` is the number of cities the first loop
        placed and `attempts` the candidates it drew. */
    method GenerateNodes(rand: nat -> Draw) returns (ghost spaced: nat, ghost attempts: nat)
      modifies this`nodes
      ensures |nodes| == NODE_COUNT
      ensures forall k :: 0 <= k < |nodes| ==> FreshCity(nodes[k], k, width, height)
      ensures spaced <= NODE_COUNT && attempts <= MAX_ATTEMPTS
      ensures nodes[..spaced] == FirstLoop(rand, width, height, attempts)
      ensures spaced == NODE_COUNT || attempts == MAX_ATTEMPTS
      ensures forall t :: 0 <= t < attempts ==> |FirstLoop(rand, width, height, t)| < NODE_COUNT
      ensures Spaced(nodes[..spaced])
      ensures forall k :: spaced <= k < NODE_COUNT ==>
        nodes[k].pos == Candidate(rand, 2 * (attempts + k - spaced), width, height)
    {
      var tries := PlaceSpaced(rand);
      spaced, attempts := |nodes|, tries;
      FirstLoopSpaced(rand, width, height, tries);
      var t := 2 * tries;
      ghost var first := nodes;
      while |nodes| < NODE_COUNT
        invariant spaced <= |nodes| <= NODE_COUNT && t == 2 * (attempts + |nodes| - spaced)
        invariant nodes[..spaced] == first
        invariant forall k :: 0 <= k < |nodes| ==> FreshCity(nodes[k], k, width, height)
        invariant forall k :: spaced <= k < |nodes| ==>
          nodes[k].pos == Candidate(rand, 2 * (attempts + k - spaced), width, height)
      {
        nodes := nodes + [Node(|nodes|, Candidate(rand, t, width, height), Neutral, 1)];
        t := t + 2;
      }
    }

    /** The first loop of `generateNodes`: draw candidates until 15 cities
        are placed or MAX_ATTEMPTS candidates were drawn; `tries` is the
        number drawn. */
    method PlaceSpaced(rand: nat -> Draw) returns (tries: nat)
      modifies this`nodes
      ensures tries <= MAX_ATTEMPTS && |nodes| <= NODE_COUNT
      ensures nodes == FirstLoop(rand, width, height, tries)
      ensures |nodes| == NODE_COUNT || tries == MAX_ATTEMPTS
      ensures forall s :: 0 <= s < tries ==> |FirstLoop(rand, width, height, s)| < NODE_COUNT
    {
      nodes := [];
      tries := 0;
      while |nodes| < NODE_COUNT && tries < MAX_ATTEMPTS
        invariant |nodes| <= NODE_COUNT && tries <= MAX_ATTEMPTS
        invariant nodes == FirstLoop(rand, width, height, tries)
        invariant forall s :: 0 <= s < tries ==> |FirstLoop(rand, width, height, s)| < NODE_COUNT
      {
        var candidate := Node(|nodes|, Candidate(rand, 2 * tries, width, height), Neutral, 1);
        tries := tries + 1;
        var valid := IsFarFromPlaced(candidate.pos);
        if valid {
          nodes := nodes + [candidate];
        }
      }
    }

    /** The inner scan of `generateNodes`: stop at the first placed city
        closer than MIN_CITY_DISTANCE to p. */
    method IsFarFromPlaced(p: Point) returns (valid: bool)
      ensures valid == FarFromAll(nodes, p)
    {
      valid := true;
      for m := 0 to |nodes|
        invariant valid
        invariant forall k :: 0 <= k < m ==> !CloserThan(nodes[k].pos, p, MIN_CITY_DISTANCE)
      {
        if CloserThan(nodes[m].pos, p, MIN_CITY_DISTANCE) {
          valid := false;
          break;
        }
      }
    }

    /** The spanning-tree phase of `generateConnectedGraph`. Each iteration
        draws a connected node a and a remaining node b and, unless a-b
        would cross an existing edge, pushes a-b and moves b across. The
        source loops until `remaining` is empty; here at most `fuel`
        iterations run and `done` tells whether `remaining` emptied. */
    method BuildSpanningTree(rand: nat -> Draw, fuel: nat) returns (done: bool, steps: nat)
      requires edges == []
      modifies this`edges
      ensures steps <= fuel && (!done ==> steps == fuel)
      ensures edges == TreeRun(nodes, rand, fuel).edges
      ensures done <==> |TreeRun(nodes, rand, fuel).remaining| == 0
      ensures EdgesIn(edges, |nodes|) && Simple(edges) && NoCrossing(nodes, edges)
      ensures TreeShaped(edges)
      ensures forall k :: 0 <= k < |edges| ==> Reachable(edges, 0, edges[k].a) && Reachable(edges, 0, edges[k].b)
      ensures done ==> |edges| == (if |nodes| == 0 then 0 else |nodes| - 1)
      ensures done ==> Connected(|nodes|, edges)
    {
      var n := |nodes|;
      var connected: seq<nat> := [0];
      var remaining: seq<nat> := [];
      var i := 1;
      while i < n
        invariant 1 <= i <= (if n == 0 then 1 else n)
        invariant remaining == Upto(i)
      {
        remaining := remaining + [i];
        i := i + 1;
      }
      assert TreeLoop(edges, connected, remaining) == TreeRun(nodes, rand, 0);
      done, steps := GrowTree(rand, fuel, connected, remaining);
      TreeOutcome(nodes, rand, fuel);
    }

    /** The `while (remaining.length > 0)` loop of `generateConnectedGraph`,
        run for at most `fuel` iterations from the state `TreeRun(0)`. */
    method GrowTree(rand: nat -> Draw, fuel: nat, connected0: seq<nat>, remaining0: seq<nat>)
      returns (done: bool, steps: nat)
      requires TreeLoop(edges, connected0, remaining0) == TreeRun(nodes, rand, 0)
      modifies this`edges
      ensures steps <= fuel && (!done ==> steps == fuel)
      ensures edges == TreeRun(nodes, rand, fuel).edges
      ensures done <==> |TreeRun(nodes, rand, fuel).remaining| == 0
    {
      var connected, remaining := connected0, remaining0;
      steps := 0;
      while |remaining| > 0 && steps < fuel
        invariant steps <= fuel
        invariant TreeLoop(edges, connected, remaining) == TreeRun(nodes, rand, steps)
        decreases fuel - steps
      {
        connected, remaining := TreeIteration(rand, steps, connected, remaining);
        steps := steps + 1;
      }
      done := |remaining| == 0;
      if done {
        TreeRunSettles(nodes, rand, steps, fuel);
      }
    }

    /** Iteration s of the spanning-tree loop: a is drawn from `connected`
        with draw 2s, b from `remaining` with draw 2s + 1, and a-b is pushed
        and b moved across unless `WouldIntersect(a, b)`. */
    method TreeIteration(rand: nat -> Draw, s: nat, connected0: seq<nat>, remaining0: seq<nat>)
      returns (connected: seq<nat>, remaining: seq<nat>)
      requires TreeLoop(edges, connected0, remaining0) == TreeRun(nodes, rand, s) && |remaining0| > 0
      modifies this`edges
      ensures TreeLoop(edges, connected, remaining) == TreeRun(nodes, rand, s + 1)
    {
      connected, remaining := connected0, remaining0;
      var aIndex := Uniform(rand(2 * s), |connected|);
      var bIndex := Uniform(rand(2 * s + 1), |remaining|);
      TreeAdvance(nodes, rand, s, edges, connected, remaining, aIndex, bIndex);
      var a := connected[aIndex];
      var b := remaining[bIndex];
      var crossing := WouldIntersect(a, b);
      if !crossing {
        edges := edges + [Edge(a, b)];
        connected := connected + [b];
        remaining := remaining[..bIndex] + remaining[bIndex + 1..];
      }
    }

    /** The augmentation phase of `generateConnectedGraph`: one pass per
        node i in index order. `passes[i]` is the edge list when i's pass
        starts. */
    method AddNearbyEdges() returns (ghost passes: seq<seq<Edge>>)
      requires EdgesIn(edges, |nodes|) && Simple(edges) && NoCrossing(nodes, edges)
      modifies this`edges
      ensures old(edges) <= edges
      ensures EdgesIn(edges, |nodes|) && Simple(edges) && NoCrossing(nodes, edges)
      ensures ShortAfter(nodes, edges, |old(edges)|)
      ensures |passes| == |nodes| + 1 && passes[0] == old(edges) && passes[|nodes|] == edges
      ensures forall i :: 0 <= i < |nodes| ==> PassOf(nodes, passes[i], passes[i + 1], i)
    {
      passes := [edges];
      for i := 0 to |nodes|
        invariant |passes| == i + 1 && passes[0] == old(edges) && passes[i] == edges
        invariant old(edges) <= edges
        invariant EdgesIn(edges, |nodes|) && Simple(edges) && NoCrossing(nodes, edges)
        invariant ShortAfter(nodes, edges, |old(edges)|)
        invariant forall x :: 0 <= x < i ==> PassOf(nodes, passes[x], passes[x + 1], x)
      {
        AddEdgesFrom(i);
        passes := passes + [edges];
      }
    }

    /** Node i's pass of the augmentation loop: for each other node j, push
        i-j when the pair is not yet linked, is closer than
        MAX_CONNECTION_DISTANCE, i has fewer than MIN_CONNECTIONS neighbours
        and i-j crosses no edge that shares no endpoint with it. */
    method AddEdgesFrom(i: nat)
      requires i < |nodes|
      requires EdgesIn(edges, |nodes|) && Simple(edges) && NoCrossing(nodes, edges)
      modifies this`edges
      ensures PassOf(nodes, old(edges), edges, i)
      ensures EdgesIn(edges, |nodes|) && Simple(edges) && NoCrossing(nodes, edges)
      ensures ShortAfter(nodes, edges, |old(edges)|)
    {
      var neighbors := GetNeighbors(i);
      PassStart(nodes, edges, i);
      for j := 0 to |nodes|
        invariant PassState(nodes, old(edges), edges, i, j)
        invariant neighbors == Neighbors(edges, i)
      {
        neighbors := ConsiderTarget(old(edges), i, j, neighbors);
      }
    }

    /** One iteration j of node i's pass: i-j is pushed when j is another
        node, not yet linked to i, closer than MAX_CONNECTION_DISTANCE, i has
        fewer than MIN_CONNECTIONS neighbours and `WouldIntersect(i, j)` is
        false; `neighbors` is then recomputed. */
    method ConsiderTarget(ghost before: seq<Edge>, i: nat, j: nat, neighbors: seq<nat>) returns (neighbors': seq<nat>)
      requires PassState(nodes, before, edges, i, j) && j < |nodes| && neighbors == Neighbors(edges, i)
      modifies this`edges
      ensures PassState(nodes, before, edges, i, j + 1) && neighbors' == Neighbors(edges, i)
      ensures edges == old(edges) || edges == old(edges) + [Edge(i, j)]
    {
      neighbors' := neighbors;
      if i != j && !EdgeExists(edges, i, j)
        && CloserThan(nodes[i].pos, nodes[j].pos, MAX_CONNECTION_DISTANCE) && |neighbors| < MIN_CONNECTIONS
      {
        var crossing := WouldIntersect(i, j);
        if !crossing {
          PassPush(nodes, before, edges, i, j);
          edges := edges + [Edge(i, j)];
          neighbors' := GetNeighbors(i);
        } else {
          PassSkip(nodes, before, edges, i, j);
        }
      } else {
        PassSkip(nodes, before, edges, i, j);
      }
    }

    /** `getNeighbors(v)`: the other endpoint of every edge at v, in edge
        order, once per incident edge. */
    method GetNeighbors(v: nat) returns (result: seq<nat>)
      ensures result == Neighbors(edges, v)
      ensures forall w :: w in result <==> EdgeExists(edges, v, w)
    {
      result := [];
      for k := 0 to |edges|
        invariant result == Neighbors(edges[..k], v)
      {
        assert edges[..k + 1][..k] == edges[..k];
        var e := edges[k];
        if e.a == v {
          result := result + [e.b];
        }
        if e.b == v {
          result := result + [e.a];
        }
      }
      assert edges[..|edges|] == edges;
    }

    /** `wouldIntersect(a, b)`: scans the edges in order, skips those that
        share an endpoint with a-b and reports the first that
        `linesIntersect` flags. */
    method WouldIntersect(a: nat, b: nat) returns (r: bool)
      requires a < |nodes| && b < |nodes| && EdgesIn(edges, |nodes|)
      ensures r <==> exists k :: 0 <= k < |edges| && Crosses(nodes, a, b, edges[k])
      ensures r == AnyCrossing(nodes, edges, a, b)
    {
      for k := 0 to |edges|
        invariant forall l :: 0 <= l < k ==> !Crosses(nodes, a, b, edges[l])
      {
        var e := edges[k];
        if e.a == a || e.b == a || e.a == b || e.b == b {
          continue;
        }
        if LinesIntersect(nodes[a].pos, nodes[b].pos, nodes[e.a].pos, nodes[e.b].pos) {
          return true;
        }
      }
      return false;
    }

    /** `generateConnectedGraph`: a random spanning tree, then nearby edges.
        If the tree phase has not finished within `fuel` iterations the source
        would still be looping, so the augmentation phase is not reached. */
    method GenerateConnectedGraph(rand: nat -> Draw, fuel: nat)
      returns (done: bool, ghost treeSize: nat, ghost passes: seq<seq<Edge>>)
      modifies this`edges
      ensures EdgesIn(edges, |nodes|) && Simple(edges) && NoCrossing(nodes, edges)
      ensures done <==> |TreeRun(nodes, rand, fuel).remaining| == 0
      ensures treeSize <= |edges| && edges[..treeSize] == TreeRun(nodes, rand, fuel).edges
      ensures !done ==> treeSize == |edges|
      ensures done ==> treeSize == (if |nodes| == 0 then 0 else |nodes| - 1)
      ensures done ==> TreeShaped(edges[..treeSize])
      ensures done ==> Connected(|nodes|, edges[..treeSize]) && Connected(|nodes|, edges)
      ensures done ==> ShortAfter(nodes, edges, treeSize)
      ensures done ==> |passes| == |nodes| + 1 && passes[0] == edges[..treeSize] && passes[|nodes|] == edges
      ensures done ==> forall i :: 0 <= i < |nodes| ==> PassOf(nodes, passes[i], passes[i + 1], i)
    {
      edges := [];
      var steps;
      done, steps := BuildSpanningTree(rand, fuel);
      treeSize := |edges|;
      passes := [];
      if done {
        ghost var tree := edges;
        passes := AddNearbyEdges();
        assert edges == tree + edges[|tree|..] && edges[..treeSize] == tree;
        ConnectedGrows(|nodes|, tree, edges[|tree|..]);
      }
    }

    /** `assignOwnership`: the node at position i of the shuffled order
        `shuffle` gets owner i % PLAYER_COUNT; nothing else changes. */
    method AssignOwnership(shuffle: seq<nat>)
      requires IsPermutation(shuffle, |nodes|)
      modifies this`nodes
      ensures |nodes| == |old(nodes)|
      ensures forall k :: 0 <= k < |nodes| ==> nodes[k] == old(nodes)[k].(owner := nodes[k].owner)
      ensures forall i :: 0 <= i < |nodes| ==> nodes[shuffle[i]].owner == Player(i % PLAYER_COUNT)
      ensures forall p :: 0 <= p < PLAYER_COUNT ==>
        OwnerCount(nodes, p) == |nodes| / PLAYER_COUNT + (if p < |nodes| % PLAYER_COUNT then 1 else 0)
      ensures Balanced(nodes, PLAYER_COUNT)
    {
      for i := 0 to |shuffle|
        invariant |nodes| == |old(nodes)|
        invariant forall k :: 0 <= k < |nodes| ==> nodes[k] == old(nodes)[k].(owner := nodes[k].owner)
        invariant forall x :: 0 <= x < i ==> nodes[shuffle[x]].owner == Player(x % PLAYER_COUNT)
      {
        var k := shuffle[i];
        nodes := nodes[k := nodes[k].(owner := Player(i % PLAYER_COUNT))];
      }
      BalancedAssignment(nodes, shuffle, PLAYER_COUNT);
    }

    /** `startGame`'s generation steps in order: place the cities, build the
        roads, share the cities out. `done` is false when the spanning-tree
        phase had not finished within `fuel` iterations. */
    method StartGame(placement: nat -> Draw, tree: nat -> Draw, fuel: nat, shuffle: seq<nat>)
      returns (done: bool, ghost placed: seq<Node>)
      requires IsPermutation(shuffle, NODE_COUNT)
      modifies this
      ensures |placed| == |nodes| == NODE_COUNT
      ensures forall k :: 0 <= k < NODE_COUNT ==> nodes[k] == placed[k].(owner := nodes[k].owner)
      ensures done <==> |TreeRun(placed, tree, fuel).remaining| == 0
      ensures EdgesIn(edges, NODE_COUNT) && Simple(edges) && NoCrossing(nodes, edges)
      ensures done ==> Connected(NODE_COUNT, edges) && Balanced(nodes, PLAYER_COUNT)
      ensures forall k :: 0 <= k < NODE_COUNT ==> nodes[k].id == k && nodes[k].units == 1
    {
      ghost var spaced, attempts := GenerateNodes(placement);
      placed := nodes;
      ghost var treeSize;
      ghost var passes;
      done, treeSize, passes := GenerateConnectedGraph(tree, fuel);
      if done {
        AssignOwnership(shuffle);
        assert forall k :: 0 <= k < |nodes| ==> nodes[k].pos == placed[k].pos;
      }
    }
  }

  /** Node i's pass has nothing left to add below m: every other node j < m
      closer than MAX_CONNECTION_DISTANCE is linked to i already, or a-b
      would cross an existing edge. */
  predicate Exhausted(nodes: seq<Node>, edges: seq<Edge>, i: nat, m: nat) {
    i < |nodes| && m <= |nodes| && EdgesIn(edges, |nodes|) &&
    forall j :: 0 <= j < m && j != i && CloserThan(nodes[i].pos, nodes[j].pos, MAX_CONNECTION_DISTANCE) ==>
      EdgeExists(edges, i, j) || AnyCrossing(nodes, edges, i, j)
  }

  /** Node i's pass took the edge list from `before` to `after`: it only
      appended edges leaving i, left i with at most max(its degree before,
      MIN_CONNECTIONS) neighbours, and if i still has fewer than
      MIN_CONNECTIONS it added every edge it could. */
  predicate PassOf(nodes: seq<Node>, before: seq<Edge>, after: seq<Edge>, i: nat) {
    GrownFrom(before, after, i) && LowestFirst(nodes, before, after, i) &&
    Degree(after, i) <= Max(Degree(before, i), MIN_CONNECTIONS) &&
    (Degree(after, i) < MIN_CONNECTIONS ==> Exhausted(nodes, after, i, |nodes|))
  }

  /** The edges appended after `before` go to increasing targets, and each
      target t was the lowest-indexed node left: every node below t within
      MAX_CONNECTION_DISTANCE of i is linked to i or blocked by a crossing. */
  predicate LowestFirst(nodes: seq<Node>, before: seq<Edge>, after: seq<Edge>, i: nat) {
    (forall k :: |before| <= k < |after| - 1 ==> after[k].b < after[k + 1].b) &&
    (forall k :: |before| <= k < |after| ==> Exhausted(nodes, after, i, after[k].b))
  }

  /** The state of node i's pass once nodes below j were considered. */
  predicate PassState(nodes: seq<Node>, before: seq<Edge>, edges: seq<Edge>, i: nat, j: nat) {
    i < |nodes| && j <= |nodes| &&
    GrownFrom(before, edges, i) && LowestFirst(nodes, before, edges, i) &&
    (forall k :: |before| <= k < |edges| ==> edges[k].b < j) &&
    Degree(before, i) <= Degree(edges, i) <= Max(Degree(before, i), MIN_CONNECTIONS) &&
    EdgesIn(edges, |nodes|) && Simple(edges) && NoCrossing(nodes, edges) &&
    ShortAfter(nodes, edges, |before|) &&
    (Degree(edges, i) < MIN_CONNECTIONS ==> Exhausted(nodes, edges, i, j))
  }

  /** Before node i's pass nothing is appended and no node is considered. */
  lemma PassStart(nodes: seq<Node>, edges: seq<Edge>, i: nat)
    requires i < |nodes| && EdgesIn(edges, |nodes|) && Simple(edges) && NoCrossing(nodes, edges)
    ensures PassState(nodes, edges, edges, i, 0)
  {
    assert Exhausted(nodes, edges, i, 0);
  }

  /** Pushing i-j under the source's conditions keeps the pass state. */
  lemma PassPush(nodes: seq<Node>, before: seq<Edge>, edges: seq<Edge>, i: nat, j: nat)
    requires PassState(nodes, before, edges, i, j) && j < |nodes| && i != j
    requires !EdgeExists(edges, i, j) && Degree(edges, i) < MIN_CONNECTIONS
    requires CloserThan(nodes[i].pos, nodes[j].pos, MAX_CONNECTION_DISTANCE)
    requires !AnyCrossing(nodes, edges, i, j)
    ensures PassState(nodes, before, edges + [Edge(i, j)], i, j + 1)
  {
    var edges' := edges + [Edge(i, j)];
    PushKeepsSimple(edges, i, j);
    PushKeepsNoCrossing(nodes, edges, i, j);
    DegreeAfterPush(edges, Edge(i, j), i);
    ExhaustedPush(nodes, edges, i, j);
    LowestFirstPush(nodes, before, edges, i, j);
    assert GrownFrom(before, edges', i);
    assert ShortAfter(nodes, edges', |before|);
  }

  /** Not pushing j keeps the pass state when j is i, already linked, too
      far, blocked by a crossing, or i already has MIN_CONNECTIONS
      neighbours. */
  lemma PassSkip(nodes: seq<Node>, before: seq<Edge>, edges: seq<Edge>, i: nat, j: nat)
    requires PassState(nodes, before, edges, i, j) && j < |nodes|
    requires j == i || EdgeExists(edges, i, j) || Degree(edges, i) >= MIN_CONNECTIONS ||
             !CloserThan(nodes[i].pos, nodes[j].pos, MAX_CONNECTION_DISTANCE) ||
             AnyCrossing(nodes, edges, i, j)
    ensures PassState(nodes, before, edges, i, j + 1)
  {
    if Degree(edges, i) < MIN_CONNECTIONS {
      ExhaustedSkip(nodes, edges, i, j);
    }
  }

  /** Pushing i-j, with every earlier target below j and every node below j
      settled, keeps the targets increasing and each one lowest-indexed. */
  lemma LowestFirstPush(nodes: seq<Node>, before: seq<Edge>, edges: seq<Edge>, i: nat, j: nat)
    requires LowestFirst(nodes, before, edges, i) && |before| <= |edges| && j < |nodes|
    requires forall k :: |before| <= k < |edges| ==> edges[k].b < j
    requires Exhausted(nodes, edges, i, j)
    ensures LowestFirst(nodes, before, edges + [Edge(i, j)], i)
  {
    var edges' := edges + [Edge(i, j)];
    forall k | |before| <= k < |edges'|
      ensures Exhausted(nodes, edges', i, edges'[k].b)
    {
      if k < |edges| {
        ExhaustedGrows(nodes, edges, Edge(i, j), i, edges[k].b);
      } else {
        ExhaustedGrows(nodes, edges, Edge(i, j), i, j);
      }
    }
    assert forall k :: |before| <= k < |edges| ==> edges'[k] == edges[k];
  }

  /** A link or a crossing, once there, survives any later push. */
  lemma ExhaustedGrows(nodes: seq<Node>, edges: seq<Edge>, e: Edge, i: nat, m: nat)
    requires Exhausted(nodes, edges, i, m) && e.a < |nodes| && e.b < |nodes|
    ensures Exhausted(nodes, edges + [e], i, m)
  {
    var edges' := edges + [e];
    forall j | 0 <= j < m && j != i && CloserThan(nodes[i].pos, nodes[j].pos, MAX_CONNECTION_DISTANCE)
      ensures EdgeExists(edges', i, j) || AnyCrossing(nodes, edges', i, j)
    {
      if EdgeExists(edges, i, j) {
        EdgeExistsGrows(edges, [e], i, j);
      } else {
        var k :| 0 <= k < |edges| && Crosses(nodes, i, j, edges[k]);
        assert edges'[k] == edges[k];
      }
    }
  }

  /** Pushing i-j settles j as well as every node before it. */
  lemma ExhaustedPush(nodes: seq<Node>, edges: seq<Edge>, i: nat, j: nat)
    requires Exhausted(nodes, edges, i, j) && j < |nodes|
    ensures Exhausted(nodes, edges + [Edge(i, j)], i, j + 1)
  {
    ExhaustedGrows(nodes, edges, Edge(i, j), i, j);
    assert Joins((edges + [Edge(i, j)])[|edges|], i, j);
  }

  /** A node j that the pass does not link to i is i itself, already linked,
      too far, or blocked by a crossing. */
  lemma ExhaustedSkip(nodes: seq<Node>, edges: seq<Edge>, i: nat, j: nat)
    requires Exhausted(nodes, edges, i, j) && j < |nodes|
    requires j == i || EdgeExists(edges, i, j) || AnyCrossing(nodes, edges, i, j) ||
             !CloserThan(nodes[i].pos, nodes[j].pos, MAX_CONNECTION_DISTANCE)
    ensures Exhausted(nodes, edges, i, j + 1)
  {
  }

  /** `connected` and `remaining` split the node indices (node 0 is always
      in `connected`), do not overlap, and `remaining` has no repeats. */
  ghost predicate Partition(connected: seq<nat>, remaining: seq<nat>, n: nat) {
    (forall v: nat :: (v in connected || v in remaining) <==> (v < n || v == 0)) &&
    (forall v :: v in connected ==> v !in remaining) &&
    0 in connected &&
    (forall x, y :: 0 <= x < y < |remaining| ==> remaining[x] != remaining[y]) &&
    |connected| + |remaining| == (if n == 0 then 1 else n)
  }

  /** Edge e, pushed after `earlier`, leaves node 0 or a node an earlier edge
      attached, and attaches a node other than 0 that no earlier edge touches. */
  predicate Attaches(earlier: seq<Edge>, e: Edge) {
    e.b != 0 &&
    (forall l :: 0 <= l < |earlier| ==> earlier[l].a != e.b && earlier[l].b != e.b) &&
    (e.a == 0 || exists l :: 0 <= l < |earlier| && earlier[l].b == e.a)
  }

  /** Every edge attaches to the edges before it. */
  predicate TreeShaped(edges: seq<Edge>) {
    forall k :: 0 <= k < |edges| ==> Attaches(edges[..k], edges[k])
  }

  /** The spanning-tree loop's variables: the edges pushed so far and the
      two node lists. */
  datatype TreeLoop = TreeLoop(edges: seq<Edge>, connected: seq<nat>, remaining: seq<nat>)

  /** The node indices 1 .. n-1 in order: `remaining` before the loop. */
  function Upto(n: nat): (r: seq<nat>)
    ensures |r| == (if n == 0 then 0 else n - 1)
    ensures forall k :: 0 <= k < |r| ==> r[k] == k + 1
  {
    if n <= 1 then [] else Upto(n - 1) + [n - 1]
  }

  /** The spanning-tree loop after s iterations: iteration s draws a from
      `connected` with draw 2s and b from `remaining` with draw 2s + 1, and
      pushes a-b exactly when no existing edge is reported as crossing it.
      Once `remaining` is empty the loop has ended and nothing changes. */
  ghost function TreeRun(nodes: seq<Node>, rand: nat -> Draw, s: nat): (r: TreeLoop)
    ensures TreeBounds(nodes, r)
  {
    if s == 0 then TreeLoop([], [0], Upto(|nodes|))
    else TreeNext(nodes, rand, s - 1, TreeRun(nodes, rand, s - 1))
  }

  /** Iteration s of the spanning-tree loop from state p. */
  ghost function TreeNext(nodes: seq<Node>, rand: nat -> Draw, s: nat, p: TreeLoop): (r: TreeLoop)
    requires TreeBounds(nodes, p)
    ensures TreeBounds(nodes, r)
    ensures |p.remaining| == 0 ==> r == p
    ensures p.edges <= r.edges && |r.edges| <= |p.edges| + 1
    ensures |r.remaining| + |r.edges| == |p.remaining| + |p.edges|
  {
    if |p.remaining| == 0 then p
    else
      var aIndex := Uniform(rand(2 * s), |p.connected|);
      var bIndex := Uniform(rand(2 * s + 1), |p.remaining|);
      var a, b := p.connected[aIndex], p.remaining[bIndex];
      assert a in p.connected && b in p.remaining;
      if AnyCrossing(nodes, p.edges, a, b) then p
      else
        var remaining' := p.remaining[..bIndex] + p.remaining[bIndex + 1..];
        assert forall k :: 0 <= k < |remaining'| ==> remaining'[k] in p.remaining;
        TreeLoop(p.edges + [Edge(a, b)], p.connected + [b], remaining')
  }

  /** What `TreeRun` needs to be well defined: `connected` is never empty
      and every index in the loop state other than the initial 0 names a
      node. */
  ghost predicate TreeBounds(nodes: seq<Node>, r: TreeLoop) {
    |r.connected| >= 1 && EdgesIn(r.edges, |nodes|) &&
    (forall v :: v in r.connected ==> v == 0 || v < |nodes|) &&
    (forall v :: v in r.remaining ==> v < |nodes|)
  }

  /** `TreeState` of a whole loop state. */
  ghost predicate TreeKept(nodes: seq<Node>, r: TreeLoop) {
    TreeState(nodes, r.edges, r.connected, r.remaining)
  }

  /** Every state of the run keeps the loop's state predicate. */
  lemma {:induction false} TreeRunState(nodes: seq<Node>, rand: nat -> Draw, s: nat)
    ensures TreeKept(nodes, TreeRun(nodes, rand, s))
  {
    if s == 0 {
      TreeStart(nodes);
    } else {
      TreeRunState(nodes, rand, s - 1);
      TreeRunStateStep(nodes, rand, s - 1);
    }
  }

  lemma TreeRunStateStep(nodes: seq<Node>, rand: nat -> Draw, s: nat)
    requires TreeKept(nodes, TreeRun(nodes, rand, s))
    ensures TreeKept(nodes, TreeRun(nodes, rand, s + 1))
  {
    TreeNextState(nodes, rand, s, TreeRun(nodes, rand, s));
  }

  /** One iteration keeps the loop's state predicate. */
  lemma TreeNextState(nodes: seq<Node>, rand: nat -> Draw, s: nat, p: TreeLoop)
    requires TreeBounds(nodes, p) && TreeState(nodes, p.edges, p.connected, p.remaining)
    ensures var r := TreeNext(nodes, rand, s, p); TreeState(nodes, r.edges, r.connected, r.remaining)
  {
    if |p.remaining| > 0 {
      var aIndex := Uniform(rand(2 * s), |p.connected|);
      var bIndex := Uniform(rand(2 * s + 1), |p.remaining|);
      TreeStateBounds(nodes, p.edges, p.connected, p.remaining, aIndex, bIndex);
      if !AnyCrossing(nodes, p.edges, p.connected[aIndex], p.remaining[bIndex]) {
        TreeStep(nodes, p.edges, p.connected, p.remaining, aIndex, bIndex);
      }
    }
  }

  /** Before the loop: only node 0 is connected and no edge exists. */
  lemma TreeStart(nodes: seq<Node>)
    ensures TreeState(nodes, [], [0], Upto(|nodes|))
  {
    PartitionStart(|nodes|);
    ReachableRefl([], 0);
  }

  /** [0] and 1 .. n-1 split the node indices. */
  lemma PartitionStart(n: nat)
    ensures Partition([0], Upto(n), n)
  {
    var remaining := Upto(n);
    forall v: nat | 1 <= v < n
      ensures v in remaining
    {
      assert remaining[v - 1] == v;
    }
    assert forall v :: v in remaining ==> 1 <= v < n;
  }

  /** Iteration s from a loop state that equals `TreeRun(s)`: the drawn
      indices are in range, and the next state pushes a-b exactly when a-b
      crosses no existing edge. */
  lemma TreeAdvance(nodes: seq<Node>, rand: nat -> Draw, s: nat, edges: seq<Edge>, connected: seq<nat>,
                    remaining: seq<nat>, aIndex: nat, bIndex: nat)
    requires TreeLoop(edges, connected, remaining) == TreeRun(nodes, rand, s) && |remaining| > 0
    requires aIndex == Uniform(rand(2 * s), |connected|) && bIndex == Uniform(rand(2 * s + 1), |remaining|)
    ensures aIndex < |connected| && bIndex < |remaining|
    ensures connected[aIndex] < |nodes| && remaining[bIndex] < |nodes| && EdgesIn(edges, |nodes|)
    ensures !AnyCrossing(nodes, edges, connected[aIndex], remaining[bIndex]) ==>
      TreeRun(nodes, rand, s + 1) == TreeLoop(edges + [Edge(connected[aIndex], remaining[bIndex])],
        connected + [remaining[bIndex]], remaining[..bIndex] + remaining[bIndex + 1..])
    ensures AnyCrossing(nodes, edges, connected[aIndex], remaining[bIndex]) ==>
      TreeRun(nodes, rand, s + 1) == TreeLoop(edges, connected, remaining)
  {
    assert connected[aIndex] in connected && remaining[bIndex] in remaining;
    assert TreeRun(nodes, rand, s + 1) == TreeNext(nodes, rand, s, TreeRun(nodes, rand, s));
  }

  /** A finished loop has n-1 edges and reaches every node from node 0. */
  lemma TreeOutcome(nodes: seq<Node>, rand: nat -> Draw, s: nat)
    ensures var r := TreeRun(nodes, rand, s);
      EdgesIn(r.edges, |nodes|) && Simple(r.edges) && NoCrossing(nodes, r.edges) && TreeShaped(r.edges) &&
      (forall k :: 0 <= k < |r.edges| ==> Reachable(r.edges, 0, r.edges[k].a) && Reachable(r.edges, 0, r.edges[k].b))
    ensures var r := TreeRun(nodes, rand, s);
      |r.remaining| == 0 ==>
        |r.edges| == (if |nodes| == 0 then 0 else |nodes| - 1) && Connected(|nodes|, r.edges)
  {
    var r := TreeRun(nodes, rand, s);
    TreeRunState(nodes, rand, s);
    forall k | 0 <= k < |r.edges|
      ensures Reachable(r.edges, 0, r.edges[k].a) && Reachable(r.edges, 0, r.edges[k].b)
    {
      assert r.edges[k].b == r.connected[k + 1];
    }
    if |r.remaining| == 0 {
      forall v | 0 <= v < |nodes|
        ensures Reachable(r.edges, 0, v)
      {
        assert v in r.connected;
      }
    }
  }

  /** Once `remaining` is empty, later iterations change nothing. */
  lemma {:induction false} TreeRunSettles(nodes: seq<Node>, rand: nat -> Draw, s: nat, s': nat)
    requires s <= s' && |TreeRun(nodes, rand, s).remaining| == 0
    ensures TreeRun(nodes, rand, s') == TreeRun(nodes, rand, s)
    decreases s' - s
  {
    if s < s' {
      TreeRunHalts(nodes, rand, s);
      TreeRunSettles(nodes, rand, s + 1, s');
    }
  }

  /** An iteration that starts with `remaining` empty changes nothing. */
  lemma TreeRunHalts(nodes: seq<Node>, rand: nat -> Draw, s: nat)
    requires |TreeRun(nodes, rand, s).remaining| == 0
    ensures TreeRun(nodes, rand, s + 1) == TreeRun(nodes, rand, s)
  {
    assert TreeRun(nodes, rand, s + 1) == TreeNext(nodes, rand, s, TreeRun(nodes, rand, s));
  }

  /** The first draw is always accepted: with no edges nothing can cross. */
  lemma FirstTreeDrawAccepted(nodes: seq<Node>, rand: nat -> Draw)
    requires |nodes| >= 2
    ensures |TreeRun(nodes, rand, 1).edges| == 1 && |TreeRun(nodes, rand, 1).remaining| == |nodes| - 2
  {
    var p := TreeRun(nodes, rand, 0);
    assert p.edges == [] && |p.remaining| == |nodes| - 1;
  }

  /** Each iteration pushes at most one edge and never removes one. */
  lemma TreeRunStep(nodes: seq<Node>, rand: nat -> Draw, s: nat)
    ensures var p, q := TreeRun(nodes, rand, s), TreeRun(nodes, rand, s + 1);
      p.edges <= q.edges && |q.edges| <= |p.edges| + 1 && |q.remaining| + |q.edges| == |p.remaining| + |p.edges|
  {
    assert TreeRun(nodes, rand, s + 1) == TreeNext(nodes, rand, s, TreeRun(nodes, rand, s));
  }

  /** The state the spanning-tree loop keeps: `connected` lists node 0 and
      then the node each edge attached, every edge starts in `connected`, and
      every node in `connected` is reachable from node 0. */
  ghost predicate TreeState(nodes: seq<Node>, edges: seq<Edge>, connected: seq<nat>, remaining: seq<nat>) {
    Partition(connected, remaining, |nodes|) &&
    |edges| == |connected| - 1 && connected[0] == 0 &&
    (forall k :: 0 <= k < |edges| ==> connected[k + 1] == edges[k].b && edges[k].a in connected) &&
    EdgesIn(edges, |nodes|) && Simple(edges) && NoCrossing(nodes, edges) && TreeShaped(edges) &&
    (forall v :: v in connected ==> Reachable(edges, 0, v))
  }

  /** The drawn endpoints are node indices, on opposite sides of the split. */
  lemma TreeStateBounds(nodes: seq<Node>, edges: seq<Edge>, connected: seq<nat>, remaining: seq<nat>, aIndex: nat, bIndex: nat)
    requires TreeState(nodes, edges, connected, remaining)
    requires aIndex < |connected| && bIndex < |remaining|
    ensures remaining[bIndex] != 0 && remaining[bIndex] < |nodes| && connected[aIndex] < |nodes|
    ensures remaining[bIndex] !in connected
  {
    assert remaining[bIndex] in remaining && connected[aIndex] in connected;
  }

  /** One accepted draw keeps the loop's state: a-b is pushed, b moves from
      `remaining` to `connected`. */
  lemma TreeStep(nodes: seq<Node>, edges: seq<Edge>, connected: seq<nat>, remaining: seq<nat>, aIndex: nat, bIndex: nat)
    requires TreeState(nodes, edges, connected, remaining)
    requires aIndex < |connected| && bIndex < |remaining|
    requires remaining[bIndex] < |nodes| && connected[aIndex] < |nodes|
    requires !AnyCrossing(nodes, edges, connected[aIndex], remaining[bIndex])
    ensures TreeState(nodes, edges + [Edge(connected[aIndex], remaining[bIndex])],
                      connected + [remaining[bIndex]], remaining[..bIndex] + remaining[bIndex + 1..])
  {
    var a, b := connected[aIndex], remaining[bIndex];
    var edges', connected' := edges + [Edge(a, b)], connected + [b];
    TreeStateBounds(nodes, edges, connected, remaining, aIndex, bIndex);
    TreeEdgeIsNew(edges, connected, a, b);
    PushKeepsSimple(edges, a, b);
    PushKeepsNoCrossing(nodes, edges, a, b);
    PartitionStep(connected, remaining, |nodes|, bIndex);
    TreePushKeepsShape(edges, connected, aIndex, b);
    TreeReachStep(edges, connected, a, b);
    forall k | 0 <= k < |edges'|
      ensures connected'[k + 1] == edges'[k].b && edges'[k].a in connected'
    {
      if k < |edges| {
        assert edges'[k] == edges[k] && connected'[k + 1] == connected[k + 1];
      }
    }
  }

  /** Moving the drawn node from `remaining` to `connected` keeps the split. */
  lemma PartitionStep(connected: seq<nat>, remaining: seq<nat>, n: nat, bIndex: nat)
    requires Partition(connected, remaining, n) && bIndex < |remaining|
    ensures Partition(connected + [remaining[bIndex]], remaining[..bIndex] + remaining[bIndex + 1..], n)
  {
    var b := remaining[bIndex];
    var connected', remaining' := connected + [b], remaining[..bIndex] + remaining[bIndex + 1..];
    RemoveAt(remaining, bIndex);
    assert b in remaining;
    assert forall v :: v in connected' <==> v in connected || v == b;
    assert forall v :: v in connected' ==> v !in remaining';
    assert 0 in connected';
  }

  /** Every connected node, and the newly attached b, stays reachable once a-b
      is pushed. */
  lemma TreeReachStep(edges: seq<Edge>, connected: seq<nat>, a: nat, b: nat)
    requires a in connected && forall v :: v in connected ==> Reachable(edges, 0, v)
    ensures forall v :: v in connected + [b] ==> Reachable(edges + [Edge(a, b)], 0, v)
  {
    var edges' := edges + [Edge(a, b)];
    forall v | v in connected
      ensures Reachable(edges', 0, v)
    {
      ReachableGrows(edges, [Edge(a, b)], 0, v);
    }
    assert Joins(edges'[|edges|], a, b);
    ReachableStep(edges', 0, a, b);
  }

  lemma TreePushKeepsShape(edges: seq<Edge>, connected: seq<nat>, aIndex: nat, b: nat)
    requires TreeShaped(edges) && |edges| == |connected| - 1 && connected[0] == 0
    requires forall k :: 0 <= k < |edges| ==> connected[k + 1] == edges[k].b && edges[k].a in connected
    requires aIndex < |connected| && b != 0 && b !in connected
    ensures TreeShaped(edges + [Edge(connected[aIndex], b)])
  {
    var a := connected[aIndex];
    var edges' := edges + [Edge(a, b)];
    forall k | 0 <= k < |edges|
      ensures Attaches(edges'[..k], edges'[k])
    {
      assert edges'[..k] == edges[..k] && edges'[k] == edges[k];
    }
    assert edges'[..|edges|] == edges;
    if aIndex > 0 {
      assert edges[aIndex - 1].b == a;
    }
    forall l | 0 <= l < |edges|
      ensures edges[l].a != b && edges[l].b != b
    {
      assert connected[l + 1] == edges[l].b;
    }
    assert Attaches(edges, Edge(a, b));
  }

  /** An edge from the tree to a node outside it is new. */
  lemma TreeEdgeIsNew(edges: seq<Edge>, connected: seq<nat>, a: nat, b: nat)
    requires forall k :: 0 <= k < |edges| ==> edges[k].a in connected && edges[k].b in connected
    requires b !in connected
    ensures !EdgeExists(edges, a, b)
  {
  }

  /** Removing position i from a list without repeats removes exactly that
      element and keeps the list free of repeats. */
  lemma RemoveAt(s: seq<nat>, i: nat)
    requires i < |s| && forall x, y :: 0 <= x < y < |s| ==> s[x] != s[y]
    ensures var r := s[..i] + s[i + 1..];
      |r| == |s| - 1 &&
      (forall v :: v in r <==> v in s && v != s[i]) &&
      (forall x, y :: 0 <= x < y < |r| ==> r[x] != r[y])
  {
    var r := s[..i] + s[i + 1..];
    assert forall x :: 0 <= x < |r| ==> r[x] == if x < i then s[x] else s[x + 1];
    forall v | v in s && v != s[i]
      ensures v in r
    {
      var x :| 0 <= x < |s| && s[x] == v;
      if x < i {
        assert r[x] == v;
      } else {
        assert r[x - 1] == v;
      }
    }
  }
}

# Map generator model

This project models the map generator of a two-player territory game. The generator runs in three steps:

- It places 15 cities in a padded rectangle. It uses rejection sampling with a minimum spacing and an attempt budget of 5000. If the budget runs out before 15 cities are placed, it places the rest without the spacing check.
- It builds the road network. First it draws a random spanning tree. Then it adds short roads from each city in index order while that city has fewer than two neighbours. Before any road is pushed it is tested with `wouldIntersect` against every earlier road that shares no endpoint with it, and rejected when the test reports a crossing. Roads sharing an endpoint are never tested, and the test can miss touching or collinear contact in one direction. What the model proves is therefore that no two roads without a common endpoint cross at a point interior to both.
- It assigns ownership by shuffling the cities and giving the city at shuffled position i to player `i % 2`.

Module layout:

- `Geometry`: integer points, squared distance and the `ccw`/`linesIntersect` crossing test.
- `Chance`: `Math.random()` modelled as an integer draw scaled by 2^53.
- `Board`: constants, cities, roads, `edgeExists`, and the reference functions that specify `getNeighbors` and `wouldIntersect`.
- `Connectivity`: paths and reachability over the undirected roads.
- `Ownership`: counting lemmas for the balanced split.
- `MapGen`: class `GameMap`. It holds the generator's `nodes` and `edges` arrays as fields. Each generator step is a method that pushes to these fields or rewrites them.

The random source is a parameter `rand: nat -> Draw`. Draws `2t` and `2t + 1` give the x and y of the t-th candidate, or the two indices of the t-th spanning-tree draw.

The shuffle that `assignOwnership` obtains by sorting with a random comparator is passed in as an arbitrary permutation. Every property about ownership therefore holds for every shuffle.

The drawing surface's width and height are arguments of the `GameMap` constructor.

Two comments in the code state what the generator is for. The model checks both against what the code does:

- **"Spanning tree (guarantees connectivity)"** (main.js:98). A draw whose road would cross an existing road is skipped and redrawn, so nothing in the code bounds how long the loop runs. The model bounds the loop by a `fuel` argument and reports whether `remaining` emptied. When it did, the tree has n-1 edges and connects every city.
- **"Add nearby edges without crossings"** (main.js:111). Each new road is checked only against earlier roads, in the direction it is about to be pushed, and only against roads that share no endpoint with it. The model proves this directional statement (`NoCrossing`). It also proves the direction-free consequence that no two roads without a common endpoint cross at a point interior to both (`NoProperCrossings`). With three collinear points the code's test does depend on direction (`DirectionMattersWhenCollinear`).

## Model

| member | source | states |
|---|---|---|
| `Geometry.SqDist` | main.js:186-190 | The squared distance is zero exactly when the two points coincide. `distance(a, b) < t` is compared as `SqDist < t * t`. |
| `Geometry.Ccw` | main.js:160-162 | The `ccw` comparison with the source's products in the source's order; its meaning, a counter-clockwise turn, is stated by `CcwIsPositiveOrientation`. |
| `Geometry.LinesIntersect` | main.js:159-168 | The two `ccw` disagreements of `linesIntersect`; `ProperCrossingDetected`, `LinesIntersectSymmetric`, `SharedStartNeverIntersects` and `DirectionMattersWhenCollinear` state what it does and does not detect. |
| `Geometry.CcwIsPositiveOrientation` | main.js:160-162 | `ccw(a, b, c)` holds exactly when a, b, c turn counter-clockwise (positive signed area). |
| `Geometry.LinesIntersectSymmetric` | main.js:159-168 | `linesIntersect` gives the same answer whichever of the two segments is passed first. |
| `Geometry.ProperCrossingDetected` | main.js:159-168 | Two segments that cross at a point interior to both are reported, with either segment first and either endpoint of the first segment first. |
| `Geometry.ProperlyCrossSymmetric` | main.js:159-168 | A proper crossing does not depend on the order of the segments or of their endpoints. |
| `Geometry.SharedStartNeverIntersects` | main.js:159-168 | Two segments that start at the same point are never reported. |
| `Geometry.SharedEndpointMayRegister` | main.js:145-153 | Some segments that meet end to start are reported as crossing, which is why `wouldIntersect` skips edges sharing an endpoint. |
| `Geometry.ReverseInGeneralPosition` | main.js:159-168 | When the first segment is not collinear with either end of the second, reversing the first segment does not change the answer. |
| `Geometry.DirectionMattersWhenCollinear` | main.js:159-168 | With three collinear points, reversing the first segment can change the answer. |
| `Chance.Uniform` | main.js:100-101 | `Math.floor(Math.random() * len)`, taken on the exact product of the draw and `len`, lies in `0..len-1` for `len > 0`. A scaled draw over a negative span lies between the span and 0. |
| `Board.CloserThan` | main.js:66 | `distance(a, b) < limit`, compared on squared distances; `CloserThanMatchesDistance` shows the two comparisons agree. |
| `Board.CloserThanMatchesDistance` | main.js:186-190 | For the non-negative real root d of the squared distance, which is `distance(p, q)`, `d < limit` holds exactly when `CloserThan(p, q, limit)`. This covers the tests at lines 66 and 122. |
| `Board.Degree` | main.js:123 | `neighbors.length`, the size of `getNeighbors(i)`; `DegreeAfterPush` and `DegreeCountsIncidentEdges` state how it counts. |
| `Board.EdgeExists` | main.js:203-207 | True exactly when some edge links the two nodes, in either direction. |
| `Board.Neighbors` | main.js:192-201 | w is listed exactly when some edge links v and w. |
| `Board.AnyCrossing` | main.js:137-157 | True exactly when some existing edge without a common endpoint is reported by `linesIntersect` against a-b. |
| `Board.DegreeAfterPush` | main.js:126-127 | Pushing an edge adds one neighbour per endpoint equal to v, and nothing else. |
| `Board.DegreeCountsIncidentEdges` | main.js:192-201 | Without self-loops, the neighbour count of v is the number of edges incident to v. |
| `Board.PushKeepsSimple` | main.js:116-117 | Pushing i-j with `i != j` and no existing i-j edge keeps the edge list free of self-loops and duplicate pairs. |
| `Board.PushKeepsNoCrossing` | main.js:121-126 | Pushing a-b when `wouldIntersect(a, b)` is false keeps every edge clear of the earlier edges it shares no endpoint with. |
| `Board.NoProperCrossings` | main.js:137-168 | In an edge list built that way, no two edges without a common endpoint cross at a point interior to both, in any order or direction. |
| `Connectivity.ReachableStep` | main.js:104-107 | A node reachable from u, joined by a pushed edge to b, makes b reachable from u. |
| `Connectivity.ReachableSymmetric` | main.js:192-207 | Roads are undirected: a path can be walked backwards. |
| `Connectivity.ReachableTrans` | main.js:192-207 | Two paths that meet join into one. |
| `Connectivity.ConnectedGrows` | main.js:111-130 | Appending edges keeps a connected graph connected. |
| `Connectivity.ConnectedAllPairs` | main.js:98-109 | A graph where every node is reachable from node 0 links every pair of nodes. |
| `Ownership.PermutationOnto` | main.js:175 | A shuffle of n positions contains every index below n. |
| `Ownership.ImageSize` | main.js:175-179 | A shuffle maps a set of positions onto a set of cities of the same size. |
| `Ownership.ResidueSize` | main.js:177-179 | Exactly `n / P` positions below n fall to player p, plus one when `p < n % P`. |
| `Ownership.BalancedAssignment` | main.js:174-180 | After the assignment, player p owns exactly `n / P + (p < n % P ? 1 : 0)` cities. Every city has an owner below P, and counts differ by at most one. |
| `MapGen.Candidate` | main.js:55-61 | A candidate position lies within the padded play area on both axes. |
| `MapGen.GameMap.constructor` | main.js:12-18 | A map starts with the surface's width and height and no cities or roads. |
| `MapGen.FirstLoop` | main.js:52-73 | Reference for the first loop: after t attempts it holds at most t cities, each with its index as id, no owner, one unit and a position in the play area. Candidate t is kept exactly when it is at least 130 from every city kept before it. |
| `MapGen.FirstLoopSpaced` | main.js:63-72 | The cities the first loop keeps are pairwise at least 130 apart. |
| `MapGen.GameMap.GenerateNodes` | main.js:46-84 | Exactly 15 cities, with ids 0..14, no owner, one unit each, all inside the play area. The first `spaced` cities are exactly what the first loop keeps after `attempts` draws: a candidate is placed if and only if it is at least 130 from every placed city. The loop stops at the first attempt count that gives 15 cities, or at 5000 attempts, so they are pairwise at least 130 apart. The fallback cities are the next candidates, with no spacing check. |
| `MapGen.GameMap.PlaceSpaced` | main.js:49-73 | After the first loop, `nodes` is the reference `FirstLoop` after `tries` attempts. `tries` is at most 5000, every earlier attempt count gave fewer than 15 cities, and the loop ended with 15 cities or 5000 attempts. |
| `MapGen.GameMap.IsFarFromPlaced` | main.js:63-70 | The scan with `break` answers true exactly when no placed city is closer than 130 to the candidate. |
| `MapGen.GameMap.GetNeighbors` | main.js:192-201 | Returns the other endpoint of each incident edge in edge order, so w is returned exactly when an edge links v and w. |
| `MapGen.GameMap.WouldIntersect` | main.js:137-157 | Returns true exactly when some existing edge without a common endpoint is reported by `linesIntersect` against a-b. |
| `MapGen.GameMap.BuildSpanningTree` | main.js:93-109 | The edge list is exactly the one `TreeRun` gives after `fuel` iterations, and `done` holds exactly when `remaining` is empty by then. It reports unfinished only after all `fuel` iterations ran. The list is free of self-loops, duplicates and checked crossings, and every endpoint is reachable from node 0. When done there are exactly n-1 edges and every node is reachable from node 0. |
| `MapGen.GameMap.GrowTree` | main.js:99-109 | Starting from the state before the loop, the `while (remaining.length > 0)` loop leaves the edges of `TreeRun` after `fuel` iterations, and ends early exactly when `remaining` empties. |
| `MapGen.GameMap.TreeIteration` | main.js:100-108 | One iteration takes the loop state from `TreeRun(s)` to `TreeRun(s + 1)`: a-b is pushed and b moved across exactly when `wouldIntersect(a, b)` is false. |
| `MapGen.Upto` | main.js:94-96 | `remaining` before the loop lists 1 .. n-1 in order. |
| `MapGen.TreeNext` | main.js:99-108 | Reference for one iteration: with `remaining` empty nothing changes; otherwise at most one edge is appended, nothing is removed, and the number of edges plus remaining nodes is unchanged. Every index stays a node index. |
| `MapGen.TreeRun` | main.js:93-109 | Reference for the loop after s iterations. Iteration s uses draws 2s and 2s + 1. Every index in the state names a node. |
| `MapGen.TreeStart` | main.js:93-96 | Before the loop the state is `[0]`, 1 .. n-1 and no edges, and it satisfies the loop's state predicate. |
| `MapGen.PartitionStart` | main.js:93-96 | `[0]` and 1 .. n-1 split the node indices. |
| `MapGen.TreeNextState` | main.js:100-108 | Every iteration, accepted or rejected, keeps the loop's state predicate. |
| `MapGen.TreeRunStateStep` | main.js:100-108 | If the state after s iterations satisfies the loop's state predicate, so does the state after s + 1. |
| `MapGen.TreeRunState` | main.js:99-109 | After any number of iterations the loop state is a split of the nodes, one edge per connected node after 0, tree-shaped, simple, crossing-checked, and every connected node is reachable from node 0. |
| `MapGen.TreeAdvance` | main.js:100-108 | From a loop state equal to `TreeRun(s)`, the drawn indices are in range, the endpoints are node indices, and `TreeRun(s + 1)` pushes a-b exactly when no crossing is reported. |
| `MapGen.TreeOutcome` | main.js:98-109 | After any number of iterations the edges are simple, crossing-checked and tree-shaped with every endpoint reachable from 0. Once `remaining` is empty there are n-1 edges and the graph is connected. |
| `MapGen.TreeRunHalts` | main.js:99 | An iteration that starts with `remaining` empty changes nothing. |
| `MapGen.TreeRunSettles` | main.js:99 | Once `remaining` is empty, every later iteration count gives the same state. |
| `MapGen.FirstTreeDrawAccepted` | main.js:100-107 | With at least two cities the first draw is always accepted: after one iteration there is one edge and n-2 nodes remain. |
| `MapGen.TreeRunStep` | main.js:103-108 | Each iteration appends at most one edge, removes none, and moves exactly as many nodes out of `remaining` as it pushes edges. |
| `MapGen.GameMap.AddEdgesFrom` | main.js:113-129 | Node i's pass only appends edges leaving i, each shorter than 220, to targets in increasing order. Each target t is the lowest-indexed candidate left: every node below t closer than 220 is linked to i or blocked by a crossing. The pass keeps the list simple and crossing-checked, and leaves i with at most `max(previous degree, 2)` neighbours. If i ends with fewer than 2 neighbours, every other node closer than 220 is linked to i or blocked by a crossing, so the pass added every edge it could. |
| `MapGen.GameMap.ConsiderTarget` | main.js:115-127 | One iteration j of node i's pass appends i-j or nothing, keeps the pass state with j settled, and keeps `neighbors` equal to `getNeighbors(i)`. |
| `MapGen.GameMap.AddNearbyEdges` | main.js:111-130 | The augmentation only appends. Every added edge is shorter than 220. Each pass i appends only edges leaving i, to increasing targets each of which is the lowest-indexed candidate left, keeps i's degree at most `max(degree before the pass, 2)`, and adds every possible edge if i stays below 2 neighbours. Simplicity and crossing checks are kept. |
| `MapGen.GameMap.GenerateConnectedGraph` | main.js:90-131 | The tree phase ends exactly when `TreeRun` after `fuel` iterations has emptied `remaining`, and the first `treeSize` edges are that run's edges. When the tree phase finishes, the first n-1 edges form a spanning tree that connects all nodes and the full edge list stays connected. Every later edge is short. The per-pass edge lists show that each pass only added edges leaving its node, to increasing lowest-indexed targets, bounded that node's degree, and added every possible edge while the node stayed below 2 neighbours. The list is simple and crossing-checked whatever happens. |
| `MapGen.GameMap.AssignOwnership` | main.js:174-180 | Only owners change. The city at shuffled position i gets player `i % 2`. Player p then owns exactly `n / 2 + (p < n % 2 ? 1 : 0)` cities, which is 8 and 7 for 15 cities. |
| `MapGen.GameMap.StartGame` | main.js:23-29 | The three steps in order leave 15 cities with ids 0..14 and one unit each, and a simple, crossing-checked road list. Only owners differ from the placed cities. The tree phase finishes exactly when `TreeRun` over the placed cities empties `remaining` within `fuel` iterations, and then the network is connected and the split balanced. |
| `MapGen.PassStart` | main.js:113-115 | Before node i's pass no node is settled and nothing is appended, which is the pass state for j = 0. |
| `MapGen.LowestFirstPush` | main.js:114-126 | Pushing i-j after targets below j, with every node below j settled, keeps the targets increasing and each one lowest-indexed. |
| `MapGen.PassPush` | main.js:121-127 | Pushing i-j when j differs from i, is unlinked, is closer than 220, i has fewer than 2 neighbours and no crossing is reported keeps the pass state with j settled. |
| `MapGen.PassSkip` | main.js:116-124 | Skipping j because it is i, is already linked, is too far, i has 2 neighbours, or a crossing is reported keeps the pass state with j settled. |
| `MapGen.ExhaustedGrows` | main.js:117-124 | A link or a reported crossing, once present, stays present after any later push. |
| `MapGen.ExhaustedPush` | main.js:126 | After i-j is pushed, j and every node settled before it are linked to i or blocked. |
| `MapGen.ExhaustedSkip` | main.js:116-124 | A node the pass does not link because it is i, linked, too far or blocked counts as settled. |
| `MapGen.TreeStateBounds` | main.js:100-102 | The drawn a is a connected node and the drawn b a remaining node other than 0, both valid indices, on opposite sides of the split. |
| `MapGen.TreeStep` | main.js:104-108 | An accepted draw keeps the loop's state: the split, one edge per connected node after 0, tree shape, simplicity, crossing checks and reachability from 0. |
| `MapGen.PartitionStep` | main.js:106-107 | Moving b from `remaining` to `connected` keeps the two lists a split of the node indices. |
| `MapGen.TreeReachStep` | main.js:105-106 | After a-b is pushed, every connected node and b are reachable from node 0. |
| `MapGen.TreePushKeepsShape` | main.js:105-106 | The pushed edge leaves a tree node and attaches a node that no earlier edge touches. |
| `MapGen.TreeEdgeIsNew` | main.js:104-105 | An edge from the tree to a node outside it is not yet in the list. |
| `MapGen.RemoveAt` | main.js:107 | `splice(bIndex, 1)` removes exactly the element at bIndex and keeps the list free of repeats. |

## Left out

- Rendering (`render`, `drawEdges`, `drawNodes`), the DOM lookup of the drawing surface and the `console.log` call are left out. They are I/O; the surface's size becomes constructor arguments.
- `createPlayers` is left out. It only fixes the two player ids 0 and 1 and their colours; the ids appear as `PLAYER_COUNT`.
- Randomness is left out. `Math.random()` is an oracle argument, and the sort-with-random-comparator shuffle is an arbitrary permutation argument. The quality or distribution of either is not modelled.
- Floating point and `Math.sqrt` are not modelled. `Chance.Uniform` rounds down the exact product of the draw and the length, while JavaScript first rounds `Math.random() * len` to a double; when the exact product lies just below a whole number, rounding it up to that whole number makes JavaScript's index one larger. City coordinates are `Math.random() * span + MAP_PADDING` rounded down to integers (toward minus infinity, which differs from truncation only when the surface is narrower than twice the padding), and distance thresholds are compared on squared integer distances.
- MapGen.GameMap.BuildSpanningTree: runs at most `fuel` iterations instead of looping until `remaining` is empty, because the source loop has no termination guarantee when draws are rejected. Its completion properties are stated under `done`.
- MapGen.GameMap.GenerateConnectedGraph: runs the augmentation only when the bounded tree phase finished. If the tree phase had not finished, the source would still be in the tree loop.
- MapGen.GameMap.StartGame: connectivity and balance are promised only when the bounded tree phase finished, for the same reason.
- Board.NoProperCrossings: states the absence of crossings at points interior to both edges. It does not cover touching or collinear overlaps, which the source's directional `ccw` test does not detect consistently.

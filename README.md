# Bipartite matching by maximum flow

This project models a small Java program, `src/Main.java`, which computes a
maximum matching of a bipartite graph. The graph has left vertices `1..x` and
right vertices `x+1..x+y`. The program turns the graph into a unit-capacity
flow network and runs the Edmonds–Karp maximum-flow algorithm on it: a
breadth-first search for a path with spare capacity, then a walk back along
that path to push flow. It then reads the matching off the pairing edges that
carry flow. The model proves the following about that algorithm:

- The pairs it reports form a matching of the input.
- Their number equals the value of the maximum flow.
- No matching of the input is larger.

The model keeps the program's imperative form. Class `FlowNetwork.Network`
holds the solver's state:

- the arcs, in an `array<Arc>`;
- the adjacency lists;
- the BFS `parent` array and queue;
- the running flow value;
- the answer list.

Its methods are the construction loops of `solve()`, `BFS()` and `maxFlow()`.
Each method is proved against specification functions and predicates. Those
live in five value-level modules:

- `Residual`: arcs, residual capacity, paired arcs, flow sums over vertex sets.
- `Layout`: the vertex numbering and the arcs and adjacency lists the construction creates.
- `Paths`: residual paths, their bottleneck, and vertex sets that no residual arc leaves.
- `Augmenting`: what one walk back along a path does to the flows and to the answer list.
- `Matching`: matchings, and the proof that the final answer is a maximum matching.

### Representation

- **Edges.** Each Java `Edge` object becomes an `Arc` value stored at a fixed
  index (its id) of the arc array.
  - A reference `otherDir` becomes the index `other` of the paired arc;
    `NoPair` stands for `null`.
  - Ids follow the order in which `solve()` creates the edges. Input pair `i`
    gives the forward arc `2i` and its reverse arc `2i+1`.
  - With `e` input pairs, the source arc of left vertex `u` and the sink arc
    of right vertex `u` both have id `2e+u-1`.
  - The adjacency lists hold arc ids.
- **Parent entries.** An entry of `parent[]` is a `Parent`: `Unreached` (null),
  `Root`, or `Via(id)`. `Root` stands for the sentinel edge `source -> source`
  that `BFS()` stores at the source.
- **The walk-back loop.** The Java loop runs while `b.to != source`. The model
  runs while the parent entry is not `Root`. The two tests agree because no arc
  of the network enters the source (`Layout.ShapedStructure`).
- **Flow value.** This is the ghost predicate `FlowValue(a, f, s, t)`: every
  vertex set `S` has net inflow `f` if it holds the sink but not the source,
  `-f` in the opposite case, and `0` otherwise. This states conservation and
  the flow value as a single fact.
- **The searched subset.** When BFS finds no path, the set of vertices it
  reached contains the source but not the sink, and no arc with residual
  capacity leaves it. `FlowNetwork.SearchFails` proves this, and
  `Matching.MatchingMaximum` uses that set as a minimum cut.

### Choices the code makes

- Each input pair `(a, b)` is used as given: `src/Main.java:147-158` builds
  the edge `a -> b` with `b` taken unchanged as a vertex id, with no offset.
  So `Layout.ValidInput` asks for `1 <= a <= x` and `x+1 <= b <= x+y`.
- The matched pairs are not found by a final pass over all forward edges.
  The code collects candidates in `answer` during each walk back
  (`src/Main.java:79-83`) and keeps those with `flow > 0` at the end
  (`src/Main.java:183-188`). `Matching.CarryingIsCarried` proves that this
  is exactly the set of pairing arcs that carry flow.

## Model

| member | source | states |
|---|---|---|
| Residual.ResCap | src/Main.java:32-35 | the residual capacity is positive exactly when the arc carries less than its capacity |
| Residual.ResidualInRange | src/Main.java:32-35 | in a valid flow, the residual capacity `capacity - flow` of every arc lies between 0 and the capacity |
| Residual.Push | src/Main.java:75-77 | pushing m units along an arc changes only that arc and its paired arc, and keeps every arc's endpoints, capacity, direction, pairing and saved flag |
| Residual.PushNet | src/Main.java:75-77 | pushing m units along an arc raises the net inflow of every vertex set containing its head by m and lowers that of every set containing its tail by m; the update of the paired arc cancels out |
| Residual.FlowValueAdds | src/Main.java:71 | a flow of value f plus an augmentation of m units from source to sink is a flow of value f + m, matching `max_flow += m` |
| Layout.InitialArc | src/Main.java:153-175 | every created arc has capacity 1 and is unsaved; forward arcs start with flow 0 and reverse arcs with flow 1; only input-pair arcs are paired, the even ids being the forward ones |
| Layout.ArcsFromMembers | src/Main.java:149-176 | the adjacency list of u holds exactly the ids of the arcs leaving u, in increasing creation order |
| Layout.ListedByCreation | src/Main.java:149-176 | lists built in creation order list every arc under its tail, and only there |
| Layout.ShapedStructure | src/Main.java:153-177 | the built network has symmetric pairing and unit capacities; no arc enters the source or leaves the sink; forward arcs go source→left, left→right or right→sink; reverse arcs go right→left |
| Layout.ShapedDegrees | src/Main.java:162-177 | x arcs leave the source, y arcs enter the sink, one arc enters each left vertex and one arc leaves each right vertex |
| Layout.InitialFlows | src/Main.java:153-176 | right after construction, flows are within capacity, paired flows sum to 1, reverse arcs have residual capacity 0, no arc is saved, and every vertex set has net inflow 0 |
| Paths.Bottleneck | src/Main.java:95-110 | the `M[]` value of a path never exceeds `Integer.MAX_VALUE` nor the residual capacity of any of its arcs |
| Paths.BottleneckIsMin | src/Main.java:95-110 | the value M accumulates along a path is positive, at most `Integer.MAX_VALUE`, at most every arc's residual capacity, and equal to one of them |
| Paths.PathStaysInside | src/Main.java:100-118 | a residual path from a vertex inside a set that no residual arc leaves stays inside that set |
| Paths.ClosedNoPath | src/Main.java:100-118 | when such a set holds the source but not the sink, no residual path joins them |
| Augmenting.Eligible | src/Main.java:79 | only arcs between a left and a right vertex pass the recording test, and a saved arc never passes it again |
| Augmenting.Recorded | src/Main.java:79-83 | one walk appends at most as many arcs as the path has, each an arc of the path that passes the recording test |
| Augmenting.RecordedExactly | src/Main.java:79-83 | the walk appends exactly the unsaved pairing arcs it passes, source and sink arcs excluded, with no repeats when the path has none |
| Augmenting.WalkStep | src/Main.java:73-84 | one iteration of the walk pushes m along the current arc, moves to the parent arc of its tail, and records that arc exactly when it is an unsaved pairing arc; the walk invariant is kept |
| Augmenting.AugmentedShape | src/Main.java:75-82 | a finished walk keeps every arc's shape and the adjacency lists |
| Augmenting.AugmentedFlows | src/Main.java:75-77 | pushing m ≤ every residual capacity along a path with no repeated arcs or vertices keeps flows within capacity and paired flows summing to 1 |
| Augmenting.AugmentedAnswer | src/Main.java:79-83 | after a walk the answer list holds distinct pairing arcs, exactly the saved arcs, and every pairing arc carrying flow is saved |
| Augmenting.Carrying | src/Main.java:183-186 | the arcs the final pass keeps are in range and carry positive flow |
| Augmenting.Endpoints | src/Main.java:187 | one printed pair per kept arc, in order, each the arc's tail and head |
| Augmenting.CarryingExactly | src/Main.java:183-186 | the final pass keeps exactly the answer arcs with `flow > 0`, without repeats when the answer has none |
| FlowNetwork.AugmentedConsistent | src/Main.java:72-84 | a walk along an augmenting path keeps the network's shape, adjacency lists and flow validity |
| FlowNetwork.TreeGrows | src/Main.java:107-110 | recording `parent[b.to] = b` and `M[b.to] = min(M[b.from], resCap)` keeps every reached vertex on a residual path from the source, simple and with bottleneck M, that the parent chain retraces |
| FlowNetwork.SearchFinds | src/Main.java:107-114 | when the sink is reached, the returned M is the positive bottleneck of a simple residual path to the sink that the parent chain retraces |
| FlowNetwork.SearchExplores | src/Main.java:102-116 | after a vertex's list is scanned, every residual arc leaving it ends at a reached vertex |
| FlowNetwork.SearchFails | src/Main.java:100-118 | when the queue empties, the reached set holds the source but not the sink and no residual arc leaves it, so no augmenting path exists |
| FlowNetwork.FlowBound | src/Main.java:62-86 | the value of any valid flow in the built network is at most x and at most y |
| FlowNetwork.ParentOfTail | src/Main.java:78 | along the found path, `parent[b.from]` is the previous path arc, or the sentinel at the first arc |
| FlowNetwork.Network.constructor | src/Main.java:130-177 | builds exactly the arcs of the layout, with the adjacency lists listing each vertex's arcs in creation order; the flow is valid and the answer empty |
| FlowNetwork.Network.CreateArcs | src/Main.java:141-177 | the three construction loops produce the layout's arcs and lists |
| FlowNetwork.Network.CreatePairArcs | src/Main.java:141-159 | for each pair, the forward arc (flow 0) and the reverse arc (flow 1), each listed under its tail |
| FlowNetwork.Network.CreateSourceArcs | src/Main.java:162-168 | an arc from the source to each left vertex |
| FlowNetwork.Network.CreateSinkArcs | src/Main.java:171-177 | an arc from each right vertex to the sink |
| FlowNetwork.Network.FindPath | src/Main.java:89-119 | returns 0 exactly when no residual source–sink path exists, and then the reached set is a cut that no residual arc leaves; otherwise returns the bottleneck of a simple residual path that `parent` retraces |
| FlowNetwork.Network.Visit | src/Main.java:102-116 | scans one dequeued vertex; either reaches the sink along such a path or marks the vertex explored, keeping the search invariant |
| FlowNetwork.Network.Augment | src/Main.java:72-84 | pushes m along the path, raises the flow value from source to sink by m, appends exactly the newly passed unsaved pairing arcs to the answer, and keeps the network valid |
| FlowNetwork.Network.Walk | src/Main.java:73-84 | the walk-back loop from the sink arc to the sentinel, with its loop invariant |
| FlowNetwork.Network.PushArc | src/Main.java:75-77 | the arc array after one push is `Push` of the old array |
| FlowNetwork.Network.Record | src/Main.java:81-82 | appends the arc to the answer and marks it saved, changing nothing else |
| FlowNetwork.Network.MaxFlow | src/Main.java:62-86 | ends with a valid flow of value `maxFlow` (at most x and y), no augmenting path left, a separating cut, and a consistent answer list |
| FlowNetwork.Network.Rounds | src/Main.java:65-85 | each round keeps the flow value equal to `maxFlow` and the answer consistent; the loop stops only when no augmenting path remains |
| FlowNetwork.Network.Extract | src/Main.java:181-188 | returns the endpoints of the answer arcs carrying flow and their count k |
| Matching.PairingArc | src/Main.java:153 | a forward arc off the source and sink is the forward arc of an input pair, joining a left and a right vertex |
| Matching.AtMostOneEach | src/Main.java:183-188 | in a valid flow two pairing arcs with flow share neither a left nor a right vertex |
| Matching.MatchingValid | src/Main.java:183-188 | the reported pairs are input pairs and form a matching |
| Matching.CarryingIsCarried | src/Main.java:79-84 | the filtered answer list is exactly the set of pairing arcs with flow, listed once each |
| Matching.CarriedIsFlow | src/Main.java:62-86 | the number of pairing arcs with flow equals the flow value |
| Matching.MatchingSize | src/Main.java:182-186 | the reported count k equals the maximum-flow value |
| Matching.CutSaturated | src/Main.java:100-118 | across a cut that no residual arc leaves, the net inflow is minus the number of forward arcs leaving it: each leaving arc is saturated and each entering arc is empty |
| Matching.CutBound | src/Main.java:141-177 | every matching of the input has at most as many pairs as there are arcs leaving a source–sink cut |
| Matching.MatchingMaximum | src/Main.java:62-118 | when BFS fails, no matching of the input is larger than the flow value |
| Matching.Solve | src/Main.java:121-193 | the reported pairs form a matching of the input, k is their number, no matching is larger, and k ≤ x, k ≤ y |

## Left out

- Reading `x`, `y` and the pairs from standard input, the prompts, and the
  printed result (`src/Main.java:44-51`, `123-128`, `140-147`, `181-192`,
  `194-198`). These are I/O: the model takes the numbers as parameters and
  returns the matching and its size.
- `Edge.toString` (`src/Main.java:37-41`): formatting for output only.
- The field `e` and the constants `unvisited`/`visited`: the program never
  reads them.
- Input outside the stated ranges (`a` outside `1..x`, `b` outside
  `x+1..x+y`): `Layout.ValidInput` is a precondition. In Java such input
  either indexes outside `graph` or builds a different network.
- Java `int` overflow is not modelled. `v = x+y+3`, the edge count and the
  flow value are unbounded integers. `Integer.MAX_VALUE` is kept as the
  constant `Paths.Infinity`, and no sum reaches it.
- Object identity is replaced by arc ids. Two `Edge` objects are never the
  same, and the arena makes that explicit. Null adjacency lists are empty
  sequences. The `LinkedList` queue is a sequence.
- `Visit`, `Walk`, `PushArc`, `Record`, `Rounds` and the three `Create*`
  methods are separate methods for the bodies of loops that Java writes
  inline. Their order of effects is Java's.
- FlowNetwork.Network.FindPath: does not prove that the path found is a
  shortest one, which is Edmonds–Karp's breadth-first property. The
  proofs need only that it is a simple residual path.
- FlowNetwork.Network.Rounds: termination is argued by `x - maxFlow`,
  because the flow value is bounded by x. This gives no bound on the
  running time.

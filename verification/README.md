# lab4 graphs: a Dafny model

This project models the graph library of `lab4`.

- **The `Graph` class** of `lab4/Graph.cs`:
  - nodes identified by their ids `0 .. Length-1`;
  - per-node lists of incident edges, and the `Edge` objects they share;
  - directional and non-directional connection;
  - the adjacency matrix, incidence matrix, adjacency list and edge list views;
  - `Edges`;
  - `MakeGraph`.
- **The random generator** `Generator.GenerateGraph` of `lab4/Generator.cs`.
- **The two walks** `NodeExtensions.DepthSearch` and `BreadthSearch` of `lab4/Program.cs`.

Modules:

- `Outcomes` (`outcomes.dfy`): the exceptions the code throws, as a `Result` datatype.
- `GraphSpec` (`graph_spec.dfy`): the graph state as a value.
  - `Structure` holds the edge store and, per node, the indices of its registered edges.
  - It defines the connect operations and every view as functions.
  - It proves lemmas about them: what each connect changes; symmetry of the adjacency relation for non-directional graphs; `Edges` listing every edge once; what `MakeGraph` builds.
- `GraphModel` (`graph.dfy`): `class Graph`, whose fields the connect methods update in place.
  - Every view is the nested loop of the source.
  - Each view method is proved equal to the `GraphSpec` function on the current state.
- `Generator` (`generator.dfy`):
  - The random draws are inputs: the two counts, plus a list of candidate pairs standing for the successive `Random.Next` results.
  - `Sample` is the sampling loop, and `Outcome` the whole method, including each exception.
  - `SampleEdges`/`GenerateGraph` run the loop over an `int[,]` matrix and are proved equal to them.
  - Lemmas state what the accepted pairs satisfy.
- `Traversal` (`traversal.dfy`):
  - One specification function `Search` covers both walks, parameterised by stack or queue discipline.
  - The two loop methods are proved equal to it.
  - Lemmas prove what is emitted:
    - no node twice;
    - the target last;
    - only nodes reachable from the start;
    - when the target is not met, every reachable node.

## Model

| member | source | states |
|---|---|---|
| GraphSpec.OtherNode | lab4/Graph.cs:19-35 | succeeds exactly when the node is an endpoint (`IsIncident`, lines 19-22); the result and the node are the two endpoints; seen from `From` it is `To` |
| GraphSpec.OtherNodeInvolution | lab4/Graph.cs:30-35 | taking the other node twice returns to the starting endpoint |
| GraphSpec.Empty | lab4/Graph.cs:110-113 | `new Graph(n)`: a well-formed state with n nodes, no edges, every list empty |
| GraphSpec.ConnectDirectional | lab4/Graph.cs:78-84 | the result is well-formed and keeps the node count |
| GraphSpec.ConnectNonDirectional | lab4/Graph.cs:94-101 | the result is well-formed and keeps the node count |
| GraphSpec.Connect | lab4/Graph.cs:260-270 | the connect `MakeGraph` applies for its flag keeps the state well-formed |
| GraphSpec.IncidentEdges | lab4/Graph.cs:62-68 | every listed edge is stored and has the node as an endpoint |
| GraphSpec.IncidentNodes | lab4/Graph.cs:51-57 | one entry per registered edge, each a node id, each `OtherNode` of that edge (never throws in a well-formed state) |
| GraphSpec.ConnectDirectionalEffect | lab4/Graph.cs:78-84 | exactly one edge (i, j) is added, node i gains neighbour j at the end, every other node's neighbours are unchanged |
| GraphSpec.ConnectNonDirectionalEffect | lab4/Graph.cs:94-101 | one edge (i, j) is added and registered with both ends: i gains j, j gains i (i gains i twice for a self-loop), nothing else changes |
| GraphSpec.Flatten | lab4/Graph.cs:207-213 | the concatenation has the total length and exactly the elements of the lists |
| GraphSpec.Registrations | lab4/Graph.cs:204-216 | `MakeEdgeList` has one entry per registration |
| GraphSpec.RegistrationsAreStoredEdges | lab4/Graph.cs:204-216 | `MakeEdgeList` holds every stored edge and nothing else |
| GraphSpec.Distinct | lab4/Graph.cs:246 | `Distinct` keeps exactly the input's elements, without repeats |
| GraphSpec.DistinctKeepsFirstOccurrenceOrder | lab4/Graph.cs:246 | `Distinct` lists elements in the order of their first occurrence |
| GraphSpec.Edges | lab4/Graph.cs:242-248 | `Edges` has no repeats and holds exactly the stored edges |
| GraphSpec.NoDuplicatesLength | lab4/Graph.cs:242-248 | a repeat-free list of exactly the ids below m has length m |
| GraphSpec.EdgesListsEveryEdgeOnce | lab4/Graph.cs:242-248 | `Edges` lists every stored edge exactly once, so its length is the number of connect calls |
| GraphSpec.AdjacencyList | lab4/Graph.cs:185-198 | one pair per registration, each (node, one of the node's `IncidentNodes`) |
| GraphSpec.AdjacencyListFacts | lab4/Graph.cs:185-198 | one pair per registration; every pair is (node, incident node); the pair (a, b) is listed iff b is among a's `IncidentNodes` |
| GraphSpec.AdjacencySymmetric | lab4/Graph.cs:135-150 | when every edge is registered with both ends, j is adjacent to i iff i is adjacent to j |
| GraphSpec.ConnectNonDirectionalKeepsShared | lab4/Graph.cs:94-101 | non-directional connection keeps every edge registered with both endpoints |
| GraphSpec.EmptyAllShared | lab4/Graph.cs:110-113 | a fresh graph trivially has every edge registered with both endpoints |
| GraphSpec.PairsOf | lab4/Graph.cs:158-169 | at most one recorded pair per registration, each the (From, To) of a stored edge |
| GraphSpec.IncidencePairs | lab4/Graph.cs:156-179 | at most one column per registration; both rows of each column are node ids |
| GraphSpec.PairsOfCoverRegistrations | lab4/Graph.cs:158-169 | every registered edge is represented by its own pair or by the reverse pair recorded before it |
| GraphSpec.Max | lab4/Graph.cs:259 | `Max()` is an element of the list and no element exceeds it |
| GraphSpec.Replay | lab4/Graph.cs:260-270 | connecting the pairs of a list keeps the state well-formed and the node count |
| GraphSpec.Build | lab4/Graph.cs:257-273 | `MakeGraph` builds a well-formed graph of `Max() + 1` nodes |
| GraphSpec.ReplayEdges | lab4/Graph.cs:260-270 | the k-th edge added is (l[2k], l[2k+1]), one per complete pair, after the edges already stored |
| GraphSpec.ReplayRegistrations | lab4/Graph.cs:260-270 | the connects add one registration per pair when directional, two otherwise |
| GraphSpec.ConnectRegistrations | lab4/Graph.cs:223-236 | one connect adds one registration when directional, two otherwise |
| GraphSpec.ReplayAllShared | lab4/Graph.cs:266-270 | non-directional replay keeps every edge registered with both ends |
| GraphSpec.BuildEdges | lab4/Graph.cs:257-273 | `MakeGraph` stores exactly the complete pairs of the list, in order; a trailing odd id is ignored |
| GraphSpec.BuildRegistrations | lab4/Graph.cs:257-273 | after `MakeGraph`, `MakeEdgeList` has one entry per edge when directional and two otherwise, while `Edges` has one |
| GraphSpec.BuildShared | lab4/Graph.cs:266-270 | a non-directional `MakeGraph` registers every edge with both ends |
| GraphSpec.TwoEdgeExampleState | lab4/Graph.cs:266-270 | `MakeGraph(false, [0, 1, 2, 3])` is the connect (0, 1) followed by the connect (2, 3) on 4 nodes |
| GraphSpec.TwoEdgeExampleNeighbours | lab4/Graph.cs:94-101 | after those connects, nodes 0, 1, 2, 3 have the neighbours [1], [0], [3], [2] |
| GraphSpec.AdjacencyListExample | lab4/Graph.cs:185-198 | `MakeGraph(false, [0, 1, 2, 3]).MakeAdjacencyList()` is [(0,1), (1,0), (2,3), (3,2)] |
| GraphSpec.IncidenceDuplicateColumnsExample | lab4/Graph.cs:164-167 | only the reverse pair is looked for, so one non-directional edge (0, 1) yields two identical columns |
| GraphModel.Graph.constructor | lab4/Graph.cs:110-113 | the new graph has `nodesCount` nodes and the empty state |
| GraphModel.Graph.DirectionalConnect | lab4/Graph.cs:223-226 | the new state is `ConnectDirectional` of the old, with the new edge (index1, index2) stored last; like the C# method it returns nothing |
| GraphModel.Graph.NonDirectionalConnect | lab4/Graph.cs:233-236 | the new state is `ConnectNonDirectional` of the old, with the new edge (index1, index2) stored last; like the C# method it returns nothing |
| GraphModel.Graph.MakeAdjacencyMatrix | lab4/Graph.cs:135-150 | cell [j, i] is 1 iff j is among node i's `IncidentNodes`; the matrix is symmetric when every edge is registered with both ends |
| GraphModel.Graph.CollectIncidencePairs | lab4/Graph.cs:158-169 | the nested walk over nodes and their edges records exactly `IncidencePairs` |
| GraphModel.Graph.MakeIncidenceMatrix | lab4/Graph.cs:156-179 | one column per recorded pair, holding 1 exactly in the rows of its two endpoints |
| GraphModel.Graph.MakeAdjacencyList | lab4/Graph.cs:185-198 | the loop returns `AdjacencyList` of the current state |
| GraphModel.Graph.MakeEdgeList | lab4/Graph.cs:204-216 | the loop returns every registration, grouped by node id |
| GraphModel.Graph.MakeGraph | lab4/Graph.cs:257-273 | a fresh graph of `Max() + 1` nodes whose state is `Build` |
| Generator.Successor | lab4/Generator.cs:33-34 | `max + 1` in unchecked Int32 is congruent to max + 1 modulo 2^32 |
| Generator.DrawInRange | lab4/Generator.cs:33-34 | `Next(min, max + 1)` lies in [min, max] when max is below the Int32 maximum |
| Generator.TriangularSum | lab4/Generator.cs:39-42 | 1 + ... + e is never below e, so the "too many edges" guard never holds |
| Generator.TriangularClosedForm | lab4/Generator.cs:39 | 2 (1 + ... + e) = e (e + 1) |
| Generator.SumOverflowsExactlyFrom | lab4/Generator.cs:39 | the checked sum leaves Int32 exactly when e >= 65536 |
| Generator.ColumnCount | lab4/Generator.cs:68-77 | a column count is at most the number of rows |
| Generator.CountEndingAt | lab4/Generator.cs:64 | at most the number of accepted pairs |
| Generator.CountStartingAt | lab4/Generator.cs:65 | at most the number of accepted pairs |
| Generator.AcceptsAsWritten | lab4/Generator.cs:56-82 | an accepted pair is new in both directions, and its target's column count was at most `maxEgdesAboveNode` |
| Generator.Degree | lab4/Generator.cs:64-65 | a node's edges in both directions number at most twice the accepted pairs |
| Generator.Sample | lab4/Generator.cs:51-99 | the loop throws `IndexOutOfRange`, runs out of draws, or returns exactly `countOfEdges` pairs, more than it started with and at most one per draw |
| Generator.SampleResult | lab4/Generator.cs:51-99 | a returned list extends the starting pairs, and each pair is a node-id pair accepted against its predecessors |
| Generator.ValidDrawsStayOnMatrix | lab4/Generator.cs:54-61 | draws from `Next(countOfNodes)` never index outside the matrix |
| Generator.AcceptedPairsAreDistinct | lab4/Generator.cs:56-61 | no two accepted pairs are equal or reverses of each other |
| Generator.AsWrittenCountsAtAcceptance | lab4/Generator.cs:64-82 | at acceptance, when directional, the in-count of u and the out-count of v were within their limits; both column counts were at most `maxEgdesAboveNode` |
| Generator.ColumnCountAfterAccept | lab4/Generator.cs:85-95 | accepting (u, v) grows only v's column (and u's when undirected), by at most one |
| Generator.AsWrittenColumnBound | lab4/Generator.cs:68-95 | as written, every column count stays at most `maxEgdesAboveNode + 1` |
| Generator.DegreeAfterAccept | lab4/Generator.cs:95 | accepting (u, v) adds one edge to u and one to v (two to u for a self-loop), one outgoing to u, one incoming to v; other nodes are unchanged |
| Generator.IntendedKeepsCaps | lab4/Generator.cs:64-82 | with the corrected test, every node's edges in both directions, out-degree and in-degree stay within their caps |
| Generator.IntendedCapsAreLimits | lab4/Generator.cs:80-82 | once a pair is accepted by the corrected test, the caps are the configured limits |
| Generator.IntendedSampleRespectsCaps | lab4/Generator.cs:51-99 | the loop with the corrected test returns pairs giving every node at most `maxEgdesAboveNode` edges in both directions, and, when directional, at most `maxOutEdges` outgoing and `maxInEdges` incoming |
| Generator.Outcome | lab4/Generator.cs:26-99 | a success holds exactly `countOfEdges` pairs, at least one; "too many edges" is never thrown |
| Generator.GuardsThrowExactly | lab4/Generator.cs:39-48 | past the argument checks, `OverflowException` exactly when e >= 65536, else "too many egdes above node" exactly when e - 1 < `maxEgdesAboveNode` |
| Generator.OutcomeFacts | lab4/Generator.cs:26-99 | success means exactly `countOfEdges` accepted node-id pairs, no pair or reverse twice, column counts at most `maxEgdesAboveNode + 1` |
| Generator.ColumnCounts | lab4/Generator.cs:68-77 | the loop counts the nonzero cells of the columns of u and v, as `ColumnCount` says |
| Generator.EnterPair | lab4/Generator.cs:85-93 | after the update the matrix mirrors the accepted pairs with (u, v) added: a cell (a, b) is nonzero exactly when (a, b) was accepted, or, in undirected mode, (b, a) was (`Present`) |
| Generator.SampleEdges | lab4/Generator.cs:35-99 | the matrix loop returns `Sample` of the draws |
| Generator.Interleave | lab4/Generator.cs:101-106 | `nodeList` has two entries per pair, Item1 and Item2 of the k-th pair at 2k and 2k+1 |
| Generator.FlattenPairs | lab4/Generator.cs:101-106 | the loop returns `Interleave` of the pairs |
| Generator.ReplayRegistrationsAt | lab4/Graph.cs:260-270 | replaying the pairs registers, at each node, one edge per pair starting there and, when undirected, one per pair ending there |
| Generator.BuiltRegistrations | lab4/Generator.cs:108 | in the built graph a node's list has its out-degree entries when directional and its total degree when undirected |
| Generator.IntendedGraphRespectsCaps | lab4/Generator.cs:101-108 | the graph built from pairs the corrected test accepted has at most `maxEgdesAboveNode` neighbours per node, and at most `maxOutEdges` when directional |
| Generator.CheckedRangeSum | lab4/Generator.cs:39 | `Range(1, e).Sum()` is 1 + ... + e, or `OverflowException` exactly when that leaves Int32 |
| Generator.GraphOfPairs | lab4/Generator.cs:101-108 | the state is `MakeGraph` of the interleaved pairs: max id + 1 nodes (at most `countOfNodes`), the k-th edge the k-th pair, both ends registered when undirected |
| Generator.GenerateGraph | lab4/Generator.cs:26-109 | throws exactly as `Outcome` says; otherwise the graph is `MakeGraph` of the interleaved accepted pairs, with max id + 1 nodes (at most `countOfNodes`) |
| Generator.ColumnCapExceededExample | lab4/Generator.cs:80-81 | `GenerateGraph(4,4,3,3,2,false,2,2)` with draws (0,1), (0,2), (0,3) accepts all three, and node 0 ends with 3 edges |
| Generator.InOutCountsSwappedExample | lab4/Generator.cs:64-65 | directed with both limits 0: draws (0,1), (0,2) are accepted, so node 0 has 2 outgoing edges |
| Traversal.Next | lab4/Program.cs:155 | `Pop`/`Dequeue` returns an entry of the worklist |
| Traversal.Remaining | lab4/Program.cs:155 | `Pop`/`Dequeue` leaves one entry fewer, and the rest together with the returned entry is the old worklist as a multiset |
| Traversal.Search | lab4/Program.cs:148-169 | every emitted id is a node id |
| Traversal.TargetStep | lab4/Program.cs:157-161 | taking the target completes the emitted path |
| Traversal.SkipStep | lab4/Program.cs:163 | skipping a visited node leaves the rest of the path to come unchanged |
| Traversal.EmitStep | lab4/Program.cs:164-167 | a new node is emitted, visited, and its neighbours queued behind the rest |
| Traversal.PushAll | lab4/Program.cs:166-167 | pushing the neighbours appends them in order |
| Traversal.DepthSearch | lab4/Program.cs:148-169 | the stack loop emits exactly `Search` with stack discipline |
| Traversal.BreadthSearch | lab4/Program.cs:177-198 | the queue loop emits exactly `Search` with queue discipline |
| Traversal.SearchFresh | lab4/Program.cs:163-165 | no node is emitted twice or after being visited; the target, if emitted, is last and only there |
| Traversal.SearchReaches | lab4/Program.cs:166-167 | everything emitted is reachable from the worklist's origin |
| Traversal.SearchCloses | lab4/Program.cs:148-169 | when the target is not emitted, the worklist and every neighbour of an emitted node end up visited or emitted |
| Traversal.SearchFromStart | lab4/Program.cs:148-169 | from `start`: the start comes first, the target last, nothing twice, all reachable; when the target is missed, exactly the reachable nodes |
| Traversal.PathInside | lab4/Program.cs:166-167 | a path starting in a neighbour-closed set stays in it |
| Traversal.TriangleSearch | lab4/Program.cs:148-198 | on the cycle 0 -> 1 -> 2 -> 0 both walks from 0 to 2 emit [0, 1, 2] |
| Traversal.TriangleTail | lab4/Program.cs:155-167 | from node 1, whose only neighbour is the target 2, either walk emits [1, 2] |
| Traversal.TriangleExample | lab4/Program.cs:148-198 | on `MakeGraph(true, [0,1,1,2,2,0])` both walks from 0 to 2 emit [0, 1, 2] |

## Left out

- Randomness:
  - `Random` is replaced by its results: the two counts are parameters and the candidate pairs a list.
  - `GenerateGraph` takes the counts as given. `DrawInRange` states what `Random.Next` guarantees about them.
  - The distribution of draws is not modelled.
- The infinite sampling loop:
  - when the draws run out before `countOfEdges` pairs are accepted, the model returns `Exhausted`;
  - the source would keep drawing forever when no further pair can ever be accepted. This includes `countOfEdges == 0` with `maxEgdesAboveNode <= -1`, where the source never reaches its `edges.Count == countOfEdges` test with a count of 0.
- Node objects: nodes are their ids.
  - `Graph()` with no nodes, the indexer, the `Nodes` enumeration and the `graph.Nodes.Contains` checks of `Node.DirectionalConnect`/`NonDirectionalConnect` are represented by the precondition that both ids are below `Length`.
  - The `ArgumentException` for a foreign node is not modelled.
  - Edge objects are indices into the edge store, so `Distinct` compares references as the source does.
- `IEnumerable` laziness: `IncidentNodes`, `IncidentEdges`, `Nodes`, `Edges` and the two walks are eager sequences. The walks' `yield return`/`yield break` become the returned list.
- `GraphModel.Graph.MakeGraph`: requires a non-empty list. `Max()` of an empty list throws `InvalidOperationException`, which is not modelled.
- Ids are `nat`; negative ids in `MakeGraph`'s list are not modelled. In the source their effect varies:
  - a negative trailing odd id is never read;
  - the list `[-1]`, which has no complete pair, builds an empty graph;
  - a maximum below -1 makes `new Graph` throw `ArgumentOutOfRangeException` from `Enumerable.Range` with a negative count;
  - a negative id inside a complete pair with maximum at least -1 throws `IndexOutOfRangeException`, for example `[-1, -1]` or `[-2, -1]`, which index `nodes[-1]` or `nodes[-2]` of a `Graph(0)`.
- `GraphModel.Graph.MakeGraph` and `GraphSpec.Build` do not model the Int32 overflow of `incidentNodes.Max() + 1` (Graph.cs:259). With the id 2147483647 the unchecked sum wraps to `int.MinValue`, and `Enumerable.Range` in `new Graph` then throws `ArgumentOutOfRangeException`; the model builds a graph of 2^31 nodes instead. `Generator.GenerateGraph` is not affected, since its ids are below `countOfNodes`.
- `OutOfMemoryException` for large matrices is not modelled.
- `lab4/Program.cs` outside `NodeExtensions` (console I/O, the demo `Main`) is not part of this model.
- `Generator.GraphOfPairs` and `Generator.GenerateGraph` do not promise a graph of `countOfNodes` nodes. They promise `Length == Max(Interleave(E)) + 1 <= countOfNodes`, because `MakeGraph` sizes the graph as the largest accepted id + 1. The graph can therefore have fewer nodes than `countOfNodes`: for example, a triangle among ids 0, 1, 2 when 4 nodes were drawn.
- A directional graph whose edges happen to be registered both ways also has a symmetric adjacency matrix. `GraphModel.Graph.MakeAdjacencyMatrix` proves symmetry only in the direction that holds: registration with both ends implies symmetry.
- `Generator.OutcomeFacts` bounds the matrix column counts, not the lengths of the built graph's edge lists. An undirected self-loop (u, u) sets one cell of u's column but is registered twice with u. With cap 2, accepting (0, 1), (0, 2), (0, 0) leaves node 0 with four registrations. The corrected test counts a self-loop twice (`Generator.Degree`), and `Generator.IntendedGraphRespectsCaps` bounds the lists.
- `MakeEdgeList` lists a non-directional edge twice (once per endpoint), unlike `Edges`. `GraphSpec.BuildRegistrations` states both counts.

## Findings

| source | as written | input that shows it | evidently intended | confidence | as-written member | corrected member |
|---|---|---|---|---|---|---|
| lab4/Generator.cs:80-81 | a pair is rejected only when a column count taken before insertion is strictly above `maxEgdesAboveNode`, so a node can end with `maxEgdesAboveNode + 1` edges; in directional mode the column count is only the node's in-degree, so outgoing edges are not capped at all | `GenerateGraph(4,4,3,3,2,false,2,2)` with 4 nodes, 3 edges and draws (0,1), (0,2), (0,3): all accepted, node 0 has 3 edges | no node has more than `maxEgdesAboveNode` edges, counted in both directions (reject a pair when accepting it would pass the limit) | high; not executed | Generator.ColumnCapExceededExample | Generator.IntendedSampleRespectsCaps |
| lab4/Generator.cs:64-65 | `inEdges` counts pairs ending at the new pair's source and `outEdges` pairs starting at its target, so the limits are checked at the wrong ends | `GenerateGraph(3,3,2,2,1,true,0,0)` with 3 nodes, 2 edges and draws (0,1), (0,2): both accepted, node 0 has 2 outgoing edges although `maxOutEdges` is 0 | the source's out-degree is kept within `maxOutEdges` and the target's in-degree within `maxInEdges` | medium; not executed | Generator.InOutCountsSwappedExample | Generator.IntendedSampleRespectsCaps |

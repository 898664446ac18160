# City navigation and emergency route planning — a Dafny model

This project models the computational core of the City Navigation and Emergency Route Planning Tool. The code is in four places:

- **Backend graph and router** (backend/app.js):
  - The `Location` and `Solution` classes. Locations carry their attached edges. `addEdge` attaches an edge to both endpoints.
  - `floydWarshall`, exactly as written:
    - It seeds sparse `distances`/`nextNodes` maps keyed on `edge.node1`.
    - It relaxes them with a k/i/j triple loop in which a stored 0 counts as unset.
    - It follows `nextNodes` from the start node.
    - It stitches one unblocked edge per consecutive pair of nodes.
  - The `/locations` nearest-location scan.
- **Frontend-server router** (frontend/server.js): a conventional Floyd–Warshall.
  - The `nodes` object built from the node rows, and the order in which `for...in` visits it.
  - `findClosestNode`.
  - The dense `dist`/`next` initialisation.
  - Directed seeding.
  - Relaxation on strict improvement.
  - The reconstruction that pairs each hop with an edge of `edges[currentNode]`.
- **Graph cleaning** (scripts/process_graph_data.py):
  - It drops dangling edges.
  - It drops nodes that no edge uses.
  - It computes `weight` and its truncated `normalized_weight`.
- **OSM to CSV** (scripts/json_to_csv.py): the element loop. It writes one edge row per consecutive pair of node refs of a named way and one node row per node, with its flags.

Files:

| file | contents |
|---|---|
| `wrappers.dfy` | `Option` |
| `numerals.dfy` | decimal numerals: `str` of a number, and reading digits back |
| `js_object.dfy` | a JavaScript object as a sequence of assignments: its keys, values and `for...in` order |
| `frontend_router.dfy` | the frontend router: defining functions and the loops proved against them |
| `frontend_proofs.dfy` | the frontend router's properties: triangle inequality, next-hop invariant, path shape, 400 branch, node order |
| `backend_routing.dfy` | `floydWarshall` as written: defining functions and the loops proved against them |
| `backend_proofs.dfy` | the backend router's properties: result shape, stitched edges, relaxation |
| `backend_seeding.dfy` | seeding keyed on the neighbour (the corrected form), and the single-edge example behind the finding |
| `backend_graph.dfy` | the `Location` and `Solution` classes and the nearest-location scan |
| `graph_cleaning.dfy` | process_graph_data.py as pure filters and weights |
| `osm_to_csv.dfy` | json_to_csv.py: row writers and the element loop, proved against the row functions |

Modelling conventions:

- **Nested objects become flat maps.** Each nested JavaScript object of objects (`dist[u][v]`, `distances[i][j]`) is a flat map keyed by the pair.
  - Frontend: a row `dist[u]` exists exactly when `u` is a key of `nodes`.
  - Backend: every location's row exists, and an entry is present only once something has been written to it.
- **Infinity.** `Infinity` is the `Inf` case of a `Dist` datatype.
- **The `nodes` object.** The frontend's `nodes` is a JavaScript object filled by `nodes[row.id] = ...`, one assignment per CSV row (`JsObject.Run`).
  - A repeated id is one key, holding the last row with that id.
  - `for (const u in nodes)` visits the keys in property order (ECMA-262, sections 6.1.7 and 10.1.11.1). Keys that are array indices (canonical decimal numerals below 4294967295, that is 2^32 - 1) come first, in ascending numeric order. The other keys follow in the order they were first assigned; these include OSM ids of 4294967295 and above, which are not array indices.
  - Every loop over `nodes` walks `LoadNodes(rows).keys`, that order.
- **Arrays.** A `forEach` or `for` over an array walks the sequence in index order.
- **Walks use fuel.** Each walk along the next-hop chain carries a step bound `fuel`. A walk that runs out of fuel reports it.
- **Absent query parameters.** The route's `startNode` and `endNode` are `Option` values: `None` is a parameter the query does not carry. Like `""`, it fails the `startNode && endNode` test.
- **Loops.** Every loop of the source is a `method` with invariants. Its `ensures` ties the result to a recursive function over the prefix it has processed. The properties are proved about those functions.

## Model

| member | source | states |
|---|---|---|
| JsObject.ArrayIndexOfNumeral | frontend/server.js:55 | a key is an array index with value `v` iff it is the decimal numeral of `v` and `v` is below 2^32 - 1 |
| JsObject.InsertPos | frontend/server.js:55 | a new array-index key with value `v` is placed after the leading index keys below `v`, before the first key that is not one |
| JsObject.Put | frontend/server.js:55 | `obj[k] = x`: an existing key keeps its place, a new array-index key is inserted after the smaller index keys, and any other new key goes last. Its meaning over a whole sequence of assignments is stated by `RunShape` |
| JsObject.Run | frontend/server.js:48-56 | the object after a sequence of assignments, starting from `{}`. `RunShape` states its keys, values and key order |
| JsObject.FirstAt | frontend/server.js:55 | the position of the first assignment to a key, and the number of assignments iff there is none |
| JsObject.LastAt | frontend/server.js:55 | the position of the last assignment to a key, `-1` iff there is none |
| JsObject.RunShape | frontend/server.js:48-56 | after the assignments, the object has exactly the keys assigned, a repeated key once. Each key holds the value of its last assignment, and the keys are in property order: array indices first and ascending, then the other keys by first assignment |
| FrontendRouter.FindClosestNode | frontend/server.js:28-45 | over the keys of the `nodes` object, in `for...in` order: `null` exactly when there are none. Otherwise a key whose distance is minimal over all keys and strictly below that of every key visited before it, so the first minimum in that order |
| FrontendRouter.ReadNodes | frontend/server.js:52-56 | the row loop builds `LoadNodes(rows)`: the object after `nodes[row.id] = ...` for each row in turn |
| FrontendRouter.NodeWrites | frontend/server.js:54-55 | one assignment `nodes[row.id] = row` per node row, in file order |
| FrontendRouter.LoadNodes | frontend/server.js:48-56 | the `nodes` object after all node rows. `ReadNodes` is proved equal to it, and `NodeRowIsKey` and `NodeOrder` state its keys and their order |
| FrontendRouter.OutEdges | frontend/server.js:60-68 | a row is in the list iff it is an input row whose `node1` is `u` |
| FrontendRouter.OutEdgesCounts | frontend/server.js:60-68 | every row leaving `u` appears as many times as in the input, and no other row appears |
| FrontendRouter.GroupBySourceAt | frontend/server.js:60-68 | `edges[u]` exists iff some row leaves `u`, and then holds exactly the rows leaving `u`, in input order |
| FrontendRouter.GroupBySource | frontend/server.js:60-68 | the `edges` object: the push loop over the edge rows. Its meaning is stated by `GroupBySourceAt` |
| FrontendRouter.InitRow | frontend/server.js:88-91 | the inner loop defines `dist[u][v]` and `next[u][v]` for exactly the columns visited: 0 on the diagonal, `Infinity` elsewhere, `null` hops. Other entries are unchanged |
| FrontendRouter.InitAll | frontend/server.js:85-92 | the outer loop defines exactly the rows visited times all columns, with the initial values |
| FrontendRouter.InitialTables | frontend/server.js:85-92 | after initialisation, every node pair is defined: `dist[u][u] = 0`, `dist[u][v] = Infinity` for `u != v`, every `next[u][v]` is `null`, and nothing else is defined |
| FrontendRouter.InitializeRow | frontend/server.js:88-91 | the inner loop's result is `InitRow` over the whole node order |
| FrontendRouter.InitializeMatrices | frontend/server.js:85-92 | the initialisation loops produce `InitialTables` |
| FrontendRouter.LastEdgeTo | frontend/server.js:97-101 | an edge of the list leading to `v`, `None` iff there is none |
| FrontendRouter.LastEdgeToAt | frontend/server.js:97-101 | the position of the last edge of the list leading to `v`: `-1`, or an edge leading to `v` after which no edge does |
| FrontendRouter.LastEdgeToIsLast | frontend/server.js:97-101 | `LastEdgeTo` is the edge at `LastEdgeToAt`, the last one leading to `v`, whose write survives |
| FrontendRouter.SeedRow | frontend/server.js:97-101 | seeding row `u` writes exactly the pairs `(u, v)` some edge of `edges[u]` leads to: the last such edge's weight, and hop `v`. Every other entry is unchanged |
| FrontendRouter.SeedAll | frontend/server.js:95-103 | seeding is directed: only `(node1, node2)` entries of nodes with an `edges` list change, the last edge per pair wins, and the hop is `node2` |
| FrontendRouter.SeedEdges | frontend/server.js:95-103 | the seeding loops produce `SeedAll` |
| FrontendRouter.Step | frontend/server.js:109-112 | when `dist[i][k] + dist[k][j] < dist[i][j]` (with `Infinity` absorbing) it writes that sum and copies `next[i][k]` into `next[i][j]`; otherwise nothing changes. No other entry changes and the key sets stay the same |
| FrontendRouter.RelaxRow | frontend/server.js:108-113 | the `j` loop keeps the key sets, and no `dist` entry increases |
| FrontendRouter.RelaxRound | frontend/server.js:107-114 | the `i` loop keeps the key sets, and no `dist` entry increases |
| FrontendRouter.RelaxAll | frontend/server.js:106-115 | the triple loop keeps the key sets, and no `dist` entry ever increases |
| FrontendRouter.RelaxRowLoop | frontend/server.js:108-113 | the `j` loop, updating on strict improvement and copying `next[i][k]`, computes `RelaxRow` |
| FrontendRouter.RelaxRoundLoop | frontend/server.js:107-114 | the `i` loop computes `RelaxRound` |
| FrontendRouter.FloydWarshall | frontend/server.js:106-115 | the triple loop computes `RelaxAll` over the node order |
| FrontendRouter.FindEdgeTo | frontend/server.js:132 | an edge of the list leading to `v`, `undefined` iff there is none |
| FrontendRouter.FindEdgeToAt | frontend/server.js:132 | the position of the first edge leading to `v`: no earlier edge leads there, and the length of the list iff none does |
| FrontendRouter.FindEdgeToIsFirst | frontend/server.js:132 | `FindEdgeTo` is the edge at `FindEdgeToAt`, the first one leading to `v`, as `find` returns |
| FrontendRouter.WalkFrom | frontend/server.js:125-134 | the `while` loop from `cur`: stop at `endNode`, break on a falsy hop, a TypeError on a missing `next[cur]` row or `edges[cur]` list, else push the hop and the edge `find` returns. Its properties are stated by `WalkFollowsEdges` and `FuelSuffices` |
| FrontendRouter.ReconstructPath | frontend/server.js:121-134 | the reconstruction loop produces the walk function's result prefixed with `[startNode]`. A finished walk has `pathNodes[0] == startNode` and `pathEdges.length == pathNodes.length - 1` |
| FrontendRouter.ComputedTables | frontend/server.js:81-115 | the matrices the handler walks are dense over the node square |
| FrontendRouter.PathAdmitted | frontend/server.js:120 | the test `dist[startNode] && dist[startNode][endNode] !== Infinity`. `AnswerInvalid` states what it means |
| FrontendRouter.Answer | frontend/server.js:120-146 | the admission test, then the walk prefixed with `startNode`, or the 400 reply. Its properties are stated by `AnswerFollowsEdges`, `AnswerInvalid` and `AnswerToSelf` |
| FrontendRouter.Truthy | frontend/server.js:118 | one operand of `startNode && endNode`: the parameter is given and is not `""`. `InvalidWhenUnreachable` and `RouteFollowsRows` state the route in terms of it |
| FrontendRouter.Route | frontend/server.js:118-146 | the route branch on the node and edge rows: the `startNode && endNode` test, then `Answer` on the computed matrices. Its properties are stated by `RouteFollowsRows`, `InvalidWhenUnreachable` and `RouteToSelf` |
| FrontendRouter.PathQuery | frontend/server.js:118-146 | the handler's computation, run step by step, equals `Route` |
| FrontendProofs.RowEffect | frontend/server.js:108-113 | while `dist[k][k]` is not negative, the `j` loop relaxes each entry of row `i` exactly once against the matrix it started from |
| FrontendProofs.RoundEffect | frontend/server.js:107-114 | a round through `k` relaxes every entry of the node square exactly once against the matrix it started from |
| FrontendProofs.TriangleCase | frontend/server.js:109-111 | one round through `k'` keeps the inequality for an earlier relay `k` and establishes it for `k'` |
| FrontendProofs.RoundsEstablishTriangle | frontend/server.js:106-115 | after the rounds for `ks`, entries stay non-negative and `dist[i][j] <= dist[i][k] + dist[k][j]` holds for every relay `k` in `ks` |
| FrontendProofs.RoundKeepsTriangle | frontend/server.js:106-115 | one round keeps the entries non-negative and extends the set of relays for which the inequality holds |
| FrontendProofs.SeededNonNegative | frontend/server.js:95-103 | with non-negative weights, every seeded entry of the node square is defined and non-negative |
| FrontendProofs.SeedKeepsNonNegative | frontend/server.js:95-103 | seeding non-negative weights keeps a dense, non-negative matrix dense and non-negative |
| FrontendProofs.TriangleInequality | frontend/server.js:81-115 | with non-negative integer weights, after the triple loop `dist[i][j] <= dist[i][k] + dist[k][j]` for all nodes `i`, `j`, `k` |
| FrontendProofs.InitialHops | frontend/server.js:85-92 | the all-`null` hops satisfy the next-hop invariant |
| FrontendProofs.SeedHops | frontend/server.js:97-100 | seeding keeps the invariant: every non-null `next[u][v]` is the `node2` of an edge in `edges[u]` |
| FrontendProofs.RowHops | frontend/server.js:108-113 | the `j` loop's copy `next[i][j] = next[i][k]` keeps the invariant |
| FrontendProofs.RoundHops | frontend/server.js:107-114 | the `i` loop keeps the invariant |
| FrontendProofs.AllHops | frontend/server.js:106-115 | the triple loop keeps the invariant |
| FrontendProofs.ComputedHops | frontend/server.js:81-115 | the walked matrices satisfy the invariant, so the `find` at line 132 always finds an edge |
| FrontendProofs.WalkFollowsEdges | frontend/server.js:125-134 | under the invariant, a walk from a node never raises a TypeError. Each pushed edge is an edge of the stop it leaves that leads to the next stop. The walk ends at `endNode` or at a null hop |
| FrontendProofs.FuelSuffices | frontend/server.js:125-134 | more fuel does not change a walk that finished with less |
| FrontendProofs.AnswerFollowsEdges | frontend/server.js:120-143 | on matrices that satisfy the invariant, the answer is never a TypeError, and a returned path is a chain of edges from `edges` |
| FrontendProofs.LinkedPath | frontend/server.js:121-143 | a linked chain from `startNode` puts, at every position, an edge that leaves that node and leads to the next node |
| FrontendProofs.RouteFollowsRows | frontend/server.js:118-143 | a route never raises a TypeError. A path starts at the given `startNode`, has one edge fewer than nodes, and each edge is an input row from one path node to the next |
| FrontendProofs.AnswerInvalid | frontend/server.js:120-146 | on any matrices, the 400 reply is sent iff the start has no row or its distance to the end is `Infinity` |
| FrontendProofs.InvalidWhenUnreachable | frontend/server.js:118-146 | the route answers 400 iff both parameters are truthy and either the start is not a key of `nodes` or the computed distance is `Infinity` |
| FrontendProofs.DiagonalFinite | frontend/server.js:89-111 | a node's diagonal entry stays finite through the triple loop |
| FrontendProofs.AnswerToSelf | frontend/server.js:120-143 | with a finite diagonal, a query from a node to itself is that node alone, with no edges |
| FrontendProofs.RouteToSelf | frontend/server.js:118-143 | a route from the id of some node row to itself is `[startNode]` with no edges |
| FrontendProofs.NodeRowIsKey | frontend/server.js:55 | the id of every node row is a key of `nodes`, so a `for...in` loop visits it |
| FrontendProofs.NodeOrder | frontend/server.js:85 | in the order `for (const u in nodes)` visits ids: ids that are array indices come first and in ascending numeric order, and the other ids follow in the order of their first row |
| BackendRouting.LastFrom | backend/app.js:84-87 | an edge with `node1 == x`, `None` iff there is none |
| BackendRouting.LastFromAt | backend/app.js:84-87 | the position of the last edge with `node1 == x`: `-1`, or such an edge after which no edge has that `node1` |
| BackendRouting.LastFromIsLast | backend/app.js:84-87 | `LastFrom` is the edge at `LastFromAt`: the last edge per column, whose write survives |
| BackendRouting.LastRow | backend/app.js:80-82 | a location with id `u`, `None` iff there is none |
| BackendRouting.LastRowAt | backend/app.js:80-82 | the position of the last location with id `u`: `-1`, or such a location after which no location has that id |
| BackendRouting.LastRowIsLast | backend/app.js:80-82 | `LastRow` is the location at `LastRowAt`: the last one with the id, whose fresh `{}` row replaces the earlier ones |
| BackendRouting.SeedRowAsWritten | backend/app.js:84-87 | a location's edges write `distances[id][edge.node1]` and `nextNodes[id][edge.node1] = edge.node2`, and the last edge per column wins |
| BackendRouting.SeedAsWritten | backend/app.js:80-88 | entry `(u, x)` is defined iff the last location with id `u` has an edge with `node1 == x`. The value is that edge's weight and the hop is its `node2`. `distances` and `nextNodes` have the same keys |
| BackendRouting.Step | backend/app.js:93-100 | an iteration either changes nothing, or both `distances[i][k]` and `distances[k][j]` are defined and it writes their sum into `distances[i][j]` and copies `nextNodes[i][k]`. A change to a defined non-zero entry writes a strictly smaller sum. The keys of the two maps stay equal |
| BackendRouting.RelaxRow | backend/app.js:92-101 | the `j` loop keeps the key sets equal and never removes an entry |
| BackendRouting.RelaxRound | backend/app.js:91-102 | the `i` loop keeps the key sets equal and never removes an entry |
| BackendRouting.RelaxAll | backend/app.js:90-103 | the triple loop keeps the key sets equal and never removes an entry |
| BackendRouting.FindJoining | backend/app.js:132-136 | an unblocked edge of `this.edges` joining the two nodes in either orientation, `undefined` iff there is none |
| BackendRouting.FindJoiningAt | backend/app.js:132-136 | the position of the first unblocked edge joining the two nodes: no earlier edge is one, and the length of the list iff none is |
| BackendRouting.FindJoiningIsFirst | backend/app.js:132-136 | `FindJoining` is the edge at `FindJoiningAt`, the first match, as `find` returns |
| BackendRouting.StitchPairs | backend/app.js:128-140 | the first `n` pairs yield at most `n` edges |
| BackendRouting.Stitch | backend/app.js:128-140 | at most `nodes.length - 1` edges, and none for a path of at most one node |
| BackendRouting.WalkFrom | backend/app.js:117-126 | the `while` loop from `cur`: stop at the end, return early on an undefined hop, a TypeError on a missing row, else push `cur` and move to `nextNodes[cur][end]`. `WalkShape` and `FuelSuffices` state its properties |
| BackendRouting.Compute | backend/app.js:90-142 | relaxation, the walk and the stitching on seeded matrices. `ComputeShape` states its properties |
| BackendRouting.RouteAsWritten | backend/app.js:76-142 | `floydWarshall` on a snapshot of the locations and `this.edges`: seeding as written, then `Compute`. `RouteTables` and `Solution.FloydWarshall` are proved equal to it |
| BackendRouting.SeedRowLoop | backend/app.js:84-87 | the edge loop computes `SeedRowAsWritten` |
| BackendRouting.SeedTables | backend/app.js:80-88 | the seeding loop computes `SeedAsWritten` |
| BackendRouting.RelaxRowLoop | backend/app.js:92-101 | the `j` loop computes `RelaxRow` |
| BackendRouting.RelaxCell | backend/app.js:93-100 | the imperative body of the innermost iteration computes `Step` |
| BackendRouting.RelaxRoundLoop | backend/app.js:91-102 | the `i` loop computes `RelaxRound` |
| BackendRouting.RelaxTables | backend/app.js:90-103 | the triple loop computes `RelaxAll` |
| BackendRouting.WalkTables | backend/app.js:117-126 | the `while` loop computes the walk function |
| BackendRouting.StitchEdges | backend/app.js:128-140 | the `for` loop computes `Stitch` |
| BackendRouting.RouteTables | backend/app.js:76-142 | the whole method, run step by step, equals `RouteAsWritten` |
| BackendProofs.PairsSound | backend/app.js:128-140 | every stitched edge is an unblocked edge of `this.edges` that joins some consecutive pair |
| BackendProofs.StitchSound | backend/app.js:128-140 | every returned edge is in `this.edges`, is not blocked, and joins some consecutive pair of the path, so a blocked edge is never returned |
| BackendProofs.PairsComplete | backend/app.js:128-140 | when every pair has a joining edge, the first `n` pairs yield exactly the first joining edge of each pair, in order |
| BackendProofs.StitchComplete | backend/app.js:128-140 | when every pair has an unblocked joining edge, the list has exactly `nodes.length - 1` entries, the first joining edge of each pair, in path order |
| BackendProofs.WalkShape | backend/app.js:117-126 | a walk that reaches the end is empty iff start equals end. It begins at the start, visits only location ids other than the end, and each next stop is `nextNodes[stop][endNodeId]` |
| BackendProofs.SelfHopDiverges | backend/app.js:119-125 | a row whose hop towards the end points back at itself keeps the loop running for any number of steps |
| BackendProofs.FuelSuffices | backend/app.js:119-125 | more fuel does not change a walk that finished with less |
| BackendProofs.ComputeShape | backend/app.js:117-142 | the result is `{nodes: [], edges: []}` exactly when the walk meets an undefined hop. Otherwise the path runs from start to end along `nextNodes`, and its edges are unblocked joining edges, at most one per step. An id without a row is a TypeError. An endless walk runs out of fuel |
| BackendProofs.ComputeToSelf | backend/app.js:117-126 | start equal to end gives `[start]` with no edges |
| BackendProofs.ComputeUnknownStart | backend/app.js:119-120 | a start id with no location, different from the end, throws at `nextNodes[currentNode][endNodeId]` |
| BackendProofs.RowPositive | backend/app.js:92-101 | with positive entries, the `j` loop keeps them positive and never raises one |
| BackendProofs.RoundPositive | backend/app.js:91-102 | with positive entries, the `i` loop keeps them positive and never raises one |
| BackendProofs.RelaxPositive | backend/app.js:90-103 | with positive entries, the triple loop keeps every entry positive and never raises one, so the falsy-0 test only ever sees `undefined` |
| BackendProofs.SeedPositive | backend/app.js:84-87 | positive edge weights give positive seeded entries |
| BackendSeeding.LastTo | backend/app.js:84-87 | an edge of `u` whose other endpoint is `x`, `None` iff there is none |
| BackendSeeding.LastToAt | backend/app.js:84-87 | the position of the last edge of `u` towards `x`: `-1`, or such an edge after which no edge leads to `x` |
| BackendSeeding.LastToIsLast | backend/app.js:84-87 | `LastTo` is the edge at `LastToAt`, the last one towards `x` |
| BackendSeeding.SeedRowNeighbours | backend/app.js:84-87 | seeding keyed on the neighbour writes exactly `(u, x)` for the neighbours `x` of `u`, with hop `x` |
| BackendSeeding.SeedNeighbours | backend/app.js:80-88 | corrected seeding: `(u, x)` is defined iff `u`'s last row has an edge to `x`, with that weight and hop `x` |
| BackendSeeding.RouteNeighbours | backend/app.js:76-142 | `floydWarshall` with the corrected seeding, then `Compute`. `NeighbourPathsJoined` states its property |
| BackendSeeding.SeedNeighboursJoin | backend/app.js:84-87 | with consistent adjacency lists and no blocked edge, every seeded hop has an unblocked edge joining it to its row |
| BackendSeeding.RowJoin | backend/app.js:92-101 | the `j` loop keeps that invariant |
| BackendSeeding.RoundJoin | backend/app.js:91-102 | the `i` loop keeps that invariant |
| BackendSeeding.RelaxJoin | backend/app.js:90-103 | the triple loop keeps that invariant |
| BackendSeeding.NeighbourPathsJoined | backend/app.js:117-140 | with corrected seeding, a non-empty path has exactly one stitched edge per step, joining that step's two nodes |
| BackendSeeding.AsWrittenSeed | backend/app.js:80-88 | as written, the two-location graph seeds only `(1, 1)` and `(2, 1)`, both with hop 2 |
| BackendSeeding.AsWrittenRoutes | backend/app.js:90-142 | on those tables, route 1 to 2 is empty and route 2 to 1 never ends |
| BackendSeeding.AsWrittenStable | backend/app.js:90-103 | on the as-written tables, no relaxation step changes anything |
| BackendSeeding.AsWrittenSingleEdge | backend/app.js:84-87 | one edge 1–2: route 1 to 2 gives `{nodes: [], edges: []}` and route 2 to 1 loops forever |
| BackendSeeding.NeighbourSeed | backend/app.js:80-88 | corrected seeding of the example gives `(1, 2)` with hop 2 and `(2, 1)` with hop 1 |
| BackendSeeding.StableRow | backend/app.js:92-101 | a `j` loop whose steps change nothing leaves the tables unchanged |
| BackendSeeding.StableRound | backend/app.js:91-102 | likewise for the `i` loop |
| BackendSeeding.StableAll | backend/app.js:90-103 | likewise for the triple loop |
| BackendSeeding.DirectRoute | backend/app.js:117-140 | a hop straight to the end gives the two-node path with the edges stitched for it |
| BackendSeeding.NeighbourRoutes | backend/app.js:117-142 | on tables that hop straight across the road, both directions return the road |
| BackendSeeding.NeighbourSingleEdge | backend/app.js:84-87 | corrected seeding gives route 1 to 2 as `[1, 2]` and route 2 to 1 as `[2, 1]`, each with the one edge |
| BackendSeeding.NeighbourRelaxation | backend/app.js:90-103 | the triple loop on the corrected example adds only the round trips `(1, 1)` and `(2, 2)` and keeps the direct hops |
| BackendSeeding.NeighbourRoundOne | backend/app.js:90-103 | the round through location 1 fills in only `(2, 2)`, with hop 1 |
| BackendSeeding.NeighbourRoundTwo | backend/app.js:90-103 | the round through location 2 fills in only `(1, 1)`, with hop 2 |
| BackendGraph.Location.constructor | backend/app.js:10-17 | copies the fields, and the edge list starts empty |
| BackendGraph.Location.AddEdge | backend/app.js:19-21 | appends the edge to this location's list |
| BackendGraph.Location.CalculateDistance | backend/app.js:23-39 | exactly 0 when the coordinates are equal, never negative, and otherwise the great-circle distance |
| BackendGraph.FindLocation | backend/app.js:66-67 | the first location with the id, `undefined` iff there is none |
| BackendGraph.Attached | backend/app.js:66-71 | the copies of an edge that `addEdge` pushes onto a location: one per endpoint that location is, and none unless both endpoints resolve. `Solution.AddEdge` states its effect with it |
| BackendGraph.Solution.constructor | backend/app.js:55-58 | no locations and no edges, and the solution is consistent (`Valid`) |
| BackendGraph.Solution.ValidRows | backend/app.js:64-88 | in a consistent solution, every edge attached to a location is in `this.edges` and has that location as an endpoint, which is what the routing lemmas assume of the rows |
| BackendGraph.Solution.AddLocation | backend/app.js:60-62 | appends the location. A fresh location keeps every attached edge consistent |
| BackendGraph.Solution.AddEdge | backend/app.js:64-72 | the edge always joins `this.edges`. If both endpoints resolve, it is attached to exactly those two locations (twice for a self-loop). Otherwise no adjacency changes. Consistency of attached edges is preserved |
| BackendGraph.Solution.FloydWarshall | backend/app.js:75-143 | the method's result is `RouteAsWritten` over the current locations and edges, and nothing in the solution changes |
| BackendGraph.Solution.NearestLocation | backend/app.js:199-208 | `null` iff there are no locations. Otherwise the first location of minimal distance (strict `<`). An exact coordinate match gives a location at distance 0 |
| GraphCleaning.Filter | scripts/process_graph_data.py:13 | a row is in the result iff it is an input row satisfying the mask |
| GraphCleaning.FilterCounts | scripts/process_graph_data.py:13 | every row satisfying the mask is kept as many times as it occurs, and no other row is kept |
| GraphCleaning.FilterSubsequence | scripts/process_graph_data.py:13-19 | filtering only removes rows and keeps the rest in input order |
| GraphCleaning.SubsequenceOfLonger | scripts/process_graph_data.py:13 | appending a row to the frame keeps a subsequence a subsequence |
| GraphCleaning.SubsequenceDropLast | scripts/process_graph_data.py:13 | dropping the last row of a subsequence leaves a subsequence |
| GraphCleaning.FilterKeepsAll | scripts/process_graph_data.py:13-19 | a mask that holds everywhere keeps the whole frame |
| GraphCleaning.Clean | scripts/process_graph_data.py:10-19 | an edge is kept iff both endpoints are input node ids. A node is kept iff it was input and some kept edge touches it. Every kept edge joins two kept nodes |
| GraphCleaning.CleanKeepsOrder | scripts/process_graph_data.py:13-19 | both filters keep the surviving rows in their input order |
| GraphCleaning.CleanIdempotent | scripts/process_graph_data.py:13-19 | applying both filters again to their own output changes nothing |
| GraphCleaning.FirstWithId | scripts/process_graph_data.py:23-25 | a row with the id, `None` (an `IndexError`) iff no row has it |
| GraphCleaning.FirstWithIdAt | scripts/process_graph_data.py:23-25 | the position of the first row with the id: no earlier row has it, and the length of the frame iff none does |
| GraphCleaning.FirstWithIdIsFirst | scripts/process_graph_data.py:23-25 | `FirstWithId` is the row at `FirstWithIdAt`, the first match, which `.values[0]` reads |
| GraphCleaning.CalculateWeight | scripts/process_graph_data.py:22-27 | defined iff both endpoints have rows. Never negative, and 0 iff the two rows are at the same point |
| GraphCleaning.Truncate | scripts/process_graph_data.py:33 | `astype(int)` truncates towards zero: the integer part of a non-negative value, and minus the integer part of its negation otherwise |
| GraphCleaning.NormalizedWeight | scripts/process_graph_data.py:33 | for a non-negative weight, a non-negative integer whose distance below `weight * 100000` is less than 1 |
| GraphCleaning.Weigh | scripts/process_graph_data.py:22-33 | `apply` over a frame of edges, row by row: it succeeds iff every edge has rows for both endpoints. Then there is one row per edge, in order, with its weight and truncated normalized weight, both non-negative |
| GraphCleaning.AssignWeights | scripts/process_graph_data.py:30-33 | line 30 succeeds iff the frame is not empty and every edge has rows for both endpoints. On an empty frame `apply` returns the frame with its four columns, and assigning it to `weight` raises a `ValueError` |
| GraphCleaning.Process | scripts/process_graph_data.py:10-33 | the whole script: cleaning, then the weights of the kept edges. `ProcessSucceeds` states its properties |
| GraphCleaning.ProcessSucceeds | scripts/process_graph_data.py:10-33 | the script succeeds iff some input edge has both endpoints among the node ids; with no such edge the kept frame is empty and line 30 raises. On success the nodes are the cleaned nodes and every kept edge gets one row, in order, with non-negative `weight` and `normalized_weight` |
| Numerals.NatToString | scripts/json_to_csv.py:28 | `str` of a number is a non-empty string of decimal digits without a leading zero |
| Numerals.NatToStringRoundTrip | scripts/json_to_csv.py:28 | reading those digits back gives the number |
| Numerals.DigitChar | scripts/json_to_csv.py:28 | each digit below ten becomes the character whose offset from `0` is that digit |
| OsmToCsv.IntToString | scripts/json_to_csv.py:28-41 | Python `str` of an integer id or node ref: a minus sign before the digits of a negative number. `PairRowsShape` and `EdgeIdsCollide` state the rows built from it |
| OsmToCsv.PairRows | scripts/json_to_csv.py:37-43 | the rows of the first `n` iterations of the pair loop. `PairRowsShape` states their shape |
| OsmToCsv.WayRows | scripts/json_to_csv.py:37-43 | all the pair rows of a named way. `NamedWay` states what they are |
| OsmToCsv.Flags | scripts/json_to_csv.py:45-52 | the `traffic_signals` and `stop` flags from the `highway` tag. `NodeElement` states their values |
| OsmToCsv.Emit | scripts/json_to_csv.py:25-59 | what one iteration writes, and whether it raises. `NamedWay`, `UnnamedWay`, `NodeElement`, `OtherElement` and `RaisingElement` state it case by case |
| OsmToCsv.EmitAll | scripts/json_to_csv.py:24-59 | the loop, leaving at the first element that raises. `EmitAllExtend`, `StopsAtFailure`, `CompletesIffNoneRaise` and `OneRowPerNode` state its properties |
| OsmToCsv.Convert | scripts/json_to_csv.py:20-59 | both files after the script: the headers, then the loop's rows. `ConvertHeaders` and `ConvertData` state its properties |
| OsmToCsv.RowWriter.constructor | scripts/json_to_csv.py:17-18 | a fresh writer has written no rows |
| OsmToCsv.RowWriter.WriteRow | scripts/json_to_csv.py:43-59 | `writerow` appends exactly that row |
| OsmToCsv.WriteWay | scripts/json_to_csv.py:37-43 | the inner loop appends exactly the way's pair rows |
| OsmToCsv.WriteElement | scripts/json_to_csv.py:25-59 | one iteration appends exactly the element's rows to each writer and reports whether it raised |
| OsmToCsv.WriteNext | scripts/json_to_csv.py:24-59 | after a prefix that did not raise, one more iteration extends both files to the loop function over one more element |
| OsmToCsv.WriteElements | scripts/json_to_csv.py:24-59 | the element loop appends exactly `EmitAll`'s rows and reports whether it ran to the end |
| OsmToCsv.EmitAllExtend | scripts/json_to_csv.py:24-59 | after a prefix that did not raise, the next element's rows are appended and its outcome is the loop's |
| OsmToCsv.ConvertData | scripts/json_to_csv.py:20-59 | the headers plus the loop's rows, stopping at the first element that raises, equal `Convert` |
| OsmToCsv.StopsAtFailure | scripts/json_to_csv.py:24-66 | once an element raises, later elements write nothing |
| OsmToCsv.ConvertHeaders | scripts/json_to_csv.py:21-22 | edges.csv starts with `id,name,node1,node2` and nodes.csv with `id,lat,lon,traffic_signals,stop` |
| OsmToCsv.PairRowsShape | scripts/json_to_csv.py:37-43 | iteration `k` writes `[wayId + refs[k] + refs[k+1], name, refs[k], refs[k+1]]`, one row per iteration |
| OsmToCsv.NamedWay | scripts/json_to_csv.py:33-43 | a named way with `n >= 1` refs writes exactly `n - 1` edge rows, pairing `nodes[i]` with `nodes[i+1]` in order, with id the concatenation of the way id and both refs, and no node row |
| OsmToCsv.UnnamedWay | scripts/json_to_csv.py:33 | a way without tags or without a `name` tag writes nothing |
| OsmToCsv.NodeElement | scripts/json_to_csv.py:44-59 | a node writes exactly one row with its id, lat and lon. `traffic_signals` is TRUE iff `highway` is `traffic_signals`, and `stop` is TRUE iff it is `stop`. Both are otherwise FALSE, and never both TRUE |
| OsmToCsv.OtherElement | scripts/json_to_csv.py:30-44 | an element that is neither a way nor a node writes nothing |
| OsmToCsv.RaisingElement | scripts/json_to_csv.py:25-57 | an iteration raises iff `type` or `id` is missing, a named way has no `nodes`, or a node lacks `lat` or `lon`. It then writes nothing |
| OsmToCsv.CompletesIffNoneRaise | scripts/json_to_csv.py:24-61 | the loop runs to the end iff no element raises |
| OsmToCsv.OneRowPerNode | scripts/json_to_csv.py:44-59 | a completed run writes exactly one node row per `node` element |
| OsmToCsv.EdgeIdsCollide | scripts/json_to_csv.py:43 | the concatenated id does not identify the way and its pair: way 1 over refs 23, 4 and way 12 over refs 3, 4 both give `1234` |

## Left out

- **I/O.** Not modelled:
  - the HTTP servers, request bodies and status codes, except the 400 branch of the route handler;
  - CSV parsing and writing (Papa.parse, csv-parser, pandas, `csv.writer` files);
  - JSON parsing;
  - the `floy.json` dump.

  The model starts from the parsed rows. The writers are row sequences.
- **Concurrency.** The race between the two asynchronous `readFile` callbacks of backend/app.js is not modelled; all locations are added before any edge.
- **Floating point.** The haversine formula and `Math.sqrt` become a caller-supplied non-negative function. Only the equality short-circuit of `calculateDistance` is computed.
- **Real arithmetic instead of float64.** Coordinates and `weight` are exact reals.
  - GraphCleaning.NormalizedWeight: it truncates the exact product. The float64 product can round across an integer boundary, and `astype(int)` of a huge value overflows int64; neither is modelled.
- **Non-numeric and mixed inputs.**
  - `parseInt`/`parseFloat` of non-numeric text (`NaN`) is not modelled.
  - The `!isNaN(...)` random-endpoint branch of frontend/server.js is not modelled, because it depends on `Math.random`.
  - The override of `startNode`/`endNode` by `findClosestNode` when coordinates are given is not modelled. Routes take endpoint ids.
- **Inherited properties.** A JavaScript object also answers for the properties it inherits from `Object.prototype` (`constructor`, `toString`, `__proto__`, ...). The model's objects have only their own keys.
  - FrontendRouter.Route: for `startNode=constructor`, `dist[startNode]` is a function and truthy in the source, which then replies with a path. The model answers 400 (`InvalidNodeIds`), because `constructor` is not a key. Likewise, a `node1` column equal to such a name makes `edges[row.node1].push` raise in the source, while the model groups that row like any other.
- **Node objects in the reply.** FrontendRouter.Answer: the reply carries node ids, not the node objects `nodes[startNode]`, `nodes[endNode]` and `pathNodes.map(...)` of lines 136-143. It is the same path: each node object is the last row with that id (JsObject.RunShape).
- **Ids are one type.** JavaScript compares ids of mixed types; the model does not. Backend location and edge ids are integers on both sides of `===`. Frontend ids are strings.
- **Fuel bounds.** FrontendRouter.ReconstructPath, BackendRouting.WalkTables and BackendGraph.Solution.FloydWarshall take a step bound `fuel`. A walk longer than the bound is reported as out of fuel instead of running on. The source runs on there, possibly forever: BackendProofs.SelfHopDiverges shows that some walks never end.
- **Blocking.** The `blockedEdges` argument and the unused `graphs` array have no effect, so they are not modelled. `is_blocked` is an input field of each edge.
- **Not modelled at all:**
  - frontend/src/App.js, the user interface;
  - graph.py, a plotting script;
  - the `print` calls of scripts/json_to_csv.py;
  - the `FileNotFoundError` branch, which is file I/O.
- **Value types stand in for JSON values.**
  - OsmToCsv.Element: element fields are either present or missing. A `type` that is not a string, or `tags` that is not an object, would raise a `TypeError` that the model does not represent. `lat`/`lon` are the text `str()` gives for them.
  - FrontendRouter.Node and BackendRouting.Edge: fields the routers never read (names, flags) are dropped or kept as plain data.

## Findings

| source | as written | input that shows it | evidently intended | confidence | as-written member | corrected member |
|---|---|---|---|---|---|---|
| backend/app.js:84-87 | seeding writes `distances[location.id][edge.node1]` and `nextNodes[location.id][edge.node1] = edge.node2`, keyed on the edge's first endpoint instead of the location's neighbour | locations 1 and 2 joined by one edge `node1 = 1, node2 = 2` of weight 5: route 1 to 2 returns `{nodes: [], edges: []}`, and route 2 to 1 never terminates because `nextNodes[2][1] = 2` | seed the entry towards the other endpoint with that endpoint as the hop, so both directions return `[1, 2]` / `[2, 1]` with the edge | not executed | BackendSeeding.AsWrittenSingleEdge | BackendSeeding.NeighbourSingleEdge |

The corrected seeding is BackendSeeding.SeedNeighbours. BackendSeeding.NeighbourPathsJoined proves the general property for it: every path has one stitched edge per step, and that edge joins that step's two nodes.

## Behaviour of the code the model records

The model follows the code as written, including where it is surprising:

- **Seeding.** backend/app.js seeds entries keyed on each attached edge's `node1`, and the last edge per `node1` wins. It never initialises the diagonal to 0. An edge whose `node1` is the location itself seeds that location's diagonal entry, as `(1, 1)` in BackendSeeding.AsWrittenSeed. frontend/server.js seeds only the `node1 -> node2` direction.
- **Blocking.** backend/app.js ignores `blockedEdges`. Only the `is_blocked` filter of the stitching excludes an edge.
- **Missing edges.** When a pair of consecutive path nodes has no unblocked joining edge, the stitching skips it without an error.
- **Dangling edges.** An edge with an unknown endpoint stays in `this.edges` and is attached to no location.
- **Empty graph.** The nearest scan over no locations yields `null`, and the handler then throws reading `closestNode.id`.
- **Node order.** The frontend visits node ids below 4294967295 first, in ascending numeric order, not in file order. Larger ids, and ids that are not numerals, follow in the order of their first row. So which of several equally short paths it returns can depend on the ids (FrontendProofs.NodeOrder).

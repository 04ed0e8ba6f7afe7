# A verified model of `makstamoian/graph`

The crate keeps a weighted graph in memory. The store is a
`HashMap<u32, HashSet<(u32, u32)>>`: each node id maps to its set of
`(neighbour, weight)` pairs. On top of that sit:

- mutations: `add_node`, `add_edge_directed`, `add_edge`,
  `drop_edge_directed`, `drop_edge`, `drop_node`, `clear`;
- queries: `has_node`, `has_edge_directed`, `has_edge`,
  `get_node_adjacents`, `get_leaf_nodes`, `is_connected`;
- an iterative depth-first search, a breadth-first "reachability" search,
  and a lazy-deletion Dijkstra search (`shortest_path`) with
  `restore_path`.

This project models all of `src/graph.rs` except `serialize`, in Dafny, and
proves what each operation computes.

- `casts.dfy` (module `Casts`): the `u32` and `i32` ranges and the two
  `as` casts between them, which keep the 32 bits and reread them. An id
  below 2^31 keeps its value; `u32::MAX` reads as -1.
- `graph_store.dfy` (module `GraphStore`): the store, as a datatype over
  `map<u32, set<(u32, u32)>>`.
  - Every mutation is a pure function. Its contract gives the new key set
    and the new edge relation `IsEdge`, which together determine the graph
    (`GraphStore.GraphExt`).
  - The queries are predicates and functions.
  - `Closed(g)` means that every neighbour named in a set is a key. The
    mutations keep it, except `drop_node` (see Findings).
- `walks.dfy` (module `Walks`): the reference semantics.
  - Walks are sequences of stored pairs, with a total weight `Cost`.
  - `Reachable` means some walk leads from one node to another.
  - `IsShortestCost` means a cost is attained by a walk and undercut by
    none.
- `traversal.dfy` (module `Traversal`):
  - each search expands nodes by looking them up, and looking up a missing
    key panics, so the searches require `ClosedFrom(g, start)`: every node
    reachable from the start is a key. Dangling pairs out of reach are
    allowed, as in `Scenarios.DanglingDisconnectedScenario`;
  - `depth_first_search` and `is_connected`;
  - `breadth_first_search` as written, with fuel, since it need not
    terminate;
  - the same search with the visited check it evidently intends.
- `dijkstra.dfy` (module `Dijkstra`): the heap order of `DijkstraState`,
  `BinaryHeap::pop`, `restore_path` and `shortest_path`.
  - The search requires the whole store to be `Closed`.
  - The parent table holds `u as i32` for each parent `u`, and
    `restore_path` reads it back with `as u32`. The two casts undo each
    other (`Casts.U32RoundTrip`), so parent ids of any size survive the
    table.
  - The main loop keeps an invariant: every expanded node sits at its
    cheapest cost, and every parent link is backed by a stored pair whose
    weight accounts for the difference in distance.
  - From that invariant the search is proved to return a cost exactly when
    the target is reachable. The cost is the cheapest walk weight, and the
    parent table leads back along a walk of that weight.
- `fixtures.dfy` (module `Fixtures`) and `scenarios.dfy` (module
  `Scenarios`): the graphs the unit tests in `src/main.rs` build, and the
  tests' expectations proved against the model. This includes the
  shortest-path costs 11 and 13, proved with a potential-function
  certificate.

Behaviour of the code that the model reproduces and that is easy to
miss:

- **Heap ties.** The `Ord` at `src/graph.rs:37-41` makes the max-heap pop
  the *larger* id among equally cheap states (`Dijkstra.Cmp`,
  `Scenarios.HeapTieScenario`). The returned cost does not depend on it.
- **`drop_node`.** The code removes the key. It then drops the pairs whose
  *weight* equals the node id (`src/graph.rs:93`), not the pairs whose
  neighbour is the node (`GraphStore.DropNode`). See Findings.
- **`shortest_path` with `source == target`.** The code returns the literal
  table `{0: 0}` whatever the source is (`src/graph.rs:181-183`,
  `Dijkstra.ShortestPath`).
- **`breadth_first_search`'s return value.** The search returns
  `target as i32` (`src/graph.rs:157`). For a target of `u32::MAX` that is
  -1, the same value as "not found" (`Scenarios.BfsLargestIdScenario`).
  Any target of 2^31 or more comes back negative.

## Model

| member | source | states |
|---|---|---|
| Casts.AsI32 | src/graph.rs:157 | `n as i32` on a `u32` is the `i32` with the same residue modulo 2^32; it is non-negative exactly when `n < 2^31` |
| Casts.AsU32 | src/graph.rs:174 | `x as u32` on an `i32` is the `u32` with the same residue modulo 2^32 |
| Casts.U32RoundTrip | src/graph.rs:174-220 | reading back with `as u32` an id stored with `as i32` gives the id |
| Casts.I32RoundTrip | src/graph.rs:174-220 | every `i32` is the `as i32` reading of the id it reads back as |
| Casts.AsI32Collisions | src/graph.rs:157 | the `i32` reading of an id is -1 exactly for `u32::MAX`, and equals the id exactly below 2^31 |
| GraphStore.GraphExt | src/graph.rs:20-23 | two stores with the same keys and the same `(node, neighbour, weight)` triples are equal, so the key set and edge relation in the mutation contracts pin down the result |
| GraphStore.Empty | src/graph.rs:50-54 | a new store has no node and is trivially closed |
| GraphStore.AddNode | src/graph.rs:56-58 | the key set gains `n`; `n`'s pairs are gone, even if it existed with pairs; every other pair is kept |
| GraphStore.AddNodeResets | src/graph.rs:56-58 | after `add_node(n)`, `n` is a key with an empty set, and adding it again changes nothing |
| GraphStore.AddEdgeDirected | src/graph.rs:60-68 | no change when `s == t` or `s` is not a key; otherwise the pair `(t, w)` joins `s`'s set; keys never change and `t` need not be a key |
| GraphStore.AddEdgeDirectedKeepsOtherWeights | src/graph.rs:64-66 | an existing pair `(t, w')` survives adding `(t, w)`, so two weights to one neighbour coexist |
| GraphStore.AddEdgeDirectedIdempotent | src/graph.rs:60-68 | adding the same pair twice equals adding it once |
| GraphStore.AddEdgeDirectedIsOneWay | src/graph.rs:60-68 | between two distinct keys, the directed edge `a -> b` appears and whether `b -> a` holds is unchanged |
| GraphStore.AddEdge | src/graph.rs:70-73 | the pair is added from `s` (if a key) to `t` and from `t` (if a key) to `s`; nothing else changes; `s == t` is a no-op |
| GraphStore.AddEdgeIsSymmetric | src/graph.rs:70-73 | for two distinct keys, `has_edge` holds both ways after `add_edge` |
| GraphStore.AddEdgeIgnoresSelfLoop | src/graph.rs:61 | `add_edge(a, a, w)` never creates a self-loop |
| GraphStore.DropEdgeDirected | src/graph.rs:75-82 | exactly the pairs of `a` naming `b`, of any weight, are removed; keys and all other pairs stay |
| GraphStore.DropEdgeDirectedRemoves | src/graph.rs:75-82 | afterwards `has_edge_directed(a, b)` is false and no pair `a -> b` of any weight remains |
| GraphStore.AddThenDropEdgeDirected | src/graph.rs:60-82 | dropping `a -> b` right after adding it restores the store when no pair `a -> b` existed before |
| GraphStore.DropEdge | src/graph.rs:84-87 | the pairs `a -> b` and `b -> a` are removed, nothing else |
| GraphStore.DropEdgeRemovesBoth | src/graph.rs:84-87 | afterwards neither direction holds and `has_edge(a, b)` is false |
| GraphStore.DropNode | src/graph.rs:89-96 | as written: key `n` is removed, and a pair survives iff it left another key and its weight differs from `n` |
| GraphStore.DropNodeRemovesKey | src/graph.rs:89-96 | `has_node(n)` is false afterwards; every remaining set is a subset of its old value and keeps each pair whose weight is not `n` |
| GraphStore.DropNodeKeepsIncomingEdge | src/graph.rs:92-94 | a pair pointing at `n` whose weight is not `n` survives, so the store is no longer closed |
| GraphStore.DropNodeScrubbed | src/graph.rs:89-96 | corrected: key `n` and every pair pointing at `n` are removed |
| GraphStore.DropNodeScrubbedRemoves | src/graph.rs:89-96 | corrected: no pair points at `n` afterwards |
| GraphStore.DropNodeScrubbedPreservesClosed | src/graph.rs:89-96 | corrected: a closed store stays closed |
| GraphStore.Clear | src/graph.rs:241-245 | no key and no pair remain |
| GraphStore.ClearEmpties | src/graph.rs:241-245 | the cleared store is the empty store, with no directed edge |
| GraphStore.HasEdgeDirected | src/graph.rs:102-108 | true only when both endpoints are keys |
| GraphStore.HasEdgeDirectedMeansEdge | src/graph.rs:102-108 | `has_edge_directed(a, b)` iff `b` is a key and `a` stores a pair to `b` of some weight |
| GraphStore.HasEdgeMeansBothPairs | src/graph.rs:110-112 | `has_edge(a, b)` iff both are keys and each stores a pair to the other, of any weights; hence `has_edge` is symmetric |
| GraphStore.HasNodeTracksKeys | src/graph.rs:98-100 | `has_node` follows the keys: `add_node(m)` adds `m`, `drop_node(m)` removes `m`, `clear` removes all, and the edge mutations change none |
| GraphStore.GetNodeAdjacents | src/graph.rs:114-116 | for a key, the returned set holds exactly that key's stored pairs |
| GraphStore.Neighbours | src/graph.rs:139-141 | the ids pushed when a node is expanded are exactly those it has a pair to |
| GraphStore.GetLeafNodes | src/graph.rs:118-128 | a node is returned iff it is a key whose set has exactly one pair |
| GraphStore.AddNodePreservesClosed | src/graph.rs:56-58 | adding a node keeps a store closed |
| GraphStore.AddEdgePreservesClosed | src/graph.rs:60-73 | adding a pair between two keys keeps a store closed |
| GraphStore.DropEdgePreservesClosed | src/graph.rs:75-87 | dropping edges keeps a store closed |
| Traversal.PushNeighbours | src/graph.rs:139-141 | the old stack or queue is kept as a prefix, every neighbour of the node is appended, and only neighbours are appended |
| Traversal.PushUnvisited | src/graph.rs:160-163 | corrected inner loop: the visited set grows by exactly the node's neighbours; each newly visited node is appended, and only those |
| Traversal.DepthFirstSearch | src/graph.rs:130-146 | when every node reachable from `start` is a key, the returned set is exactly the set of nodes reachable from `start`, all of them keys |
| Traversal.IsConnected | src/graph.rs:229-235 | when node 0 is a key and every node reachable from it is a key: true iff every key is reachable from node 0 |
| Traversal.BreadthFirstSearch | src/graph.rs:148-167 | as written: a returned value is either `target as i32` with `target` reachable, or -1 with `target` unreachable and no cycle reachable; `target as i32` is returned at once when `target` is the start |
| Traversal.BreadthFirstSearchVisited | src/graph.rs:148-167 | corrected: always terminates; returns `target as i32` if `target` is reachable, and -1 otherwise |
| Dijkstra.CompareInt | src/graph.rs:39 | `Less` iff `a < b`, `Greater` iff `a > b` |
| Dijkstra.Cmp | src/graph.rs:37-41 | the cheaper state is greater; on equal cost the larger node id is greater; `Equal` iff the states are equal |
| Dijkstra.CmpIsTotalOrder | src/graph.rs:37-47 | swapping the arguments reverses the order, and it is transitive |
| Dijkstra.HeapPop | src/graph.rs:203 | removes one occurrence of a greatest entry: no entry is cheaper, no equally cheap entry has a larger id, and the rest is the heap minus that entry |
| Dijkstra.RestorePath | src/graph.rs:169-178 | given a chain from `source` to `target` in which each node's entry, read back with `as u32`, is its predecessor, returns exactly that chain |
| Dijkstra.SearchStarts | src/graph.rs:185-201 | the initial heap, distances and parents (source 0, every other key -1) satisfy the loop invariant |
| Dijkstra.StaleStep | src/graph.rs:207-209 | dropping an entry costlier than its node's tentative distance keeps the invariant |
| Dijkstra.RelaxPair | src/graph.rs:212-222 | the state for one pair is pushed and recorded, with the popped node's id `as i32` as parent, exactly when it beats the tentative distance |
| Dijkstra.Relax | src/graph.rs:211-223 | afterwards every pair of the popped node is relaxed; no distance grows; an improved node has the popped node as parent, a matching pair, and a heap entry; other parents stay; nothing changes when all pairs were already relaxed |
| Dijkstra.TargetPopped | src/graph.rs:204-206 | when the target is popped, its cost is its tentative distance and the cheapest walk weight, and the parents lead back along a walk of that weight |
| Dijkstra.Exhausted | src/graph.rs:203-226 | when the heap runs dry the target is unreachable |
| Dijkstra.Advance | src/graph.rs:203-223 | one non-returning loop pass keeps the invariant, and either settles a new key or shrinks the heap, so the loop terminates |
| Dijkstra.Search | src/graph.rs:185-226 | for a closed store and distinct endpoints: a cost is returned iff the target is reachable; it is the cheapest walk weight; the parents cover every key, map the source to 0, and, read back with `as u32`, lead from the target along a walk of that weight |
| Dijkstra.ShortestPath | src/graph.rs:180-227 | `{cost: 0, parents: {0: 0}}` when source and target coincide; otherwise the answer of the search |
| Dijkstra.ShortestRoute | src/graph.rs:169-227 | searching and then restoring the path yields the cheapest cost and the node list of a walk of that cost iff the target is reachable, and nothing otherwise |
| Fixtures.TestGraphBuilt | src/main.rs:13-24 | the shared test graph is the store `{0: {(1,1)}, 1: {(0,1),(2,2)}, 2: {(1,2)}}` |
| Fixtures.SplitGraphBuilt | src/main.rs:67-80 | the disconnected fixture is `{0: {(1,3)}, 1: {(0,3)}, 2: {}}` |
| Fixtures.PathGraphBuilt | src/main.rs:82-98 | the path fixtures 0 - 1 - 2 - 3 hold exactly two pairs per edge |
| Fixtures.DetourGraphBuilt | src/main.rs:136-176 | the shortest-path fixtures hold exactly two pairs per edge |
| Fixtures.OneWayGraphBuilt | src/main.rs:178-192 | the directed-edge fixture holds the one-way pair `2 -> 3` and no `3 -> 2` |
| Scenarios.TestGraphEdges | src/main.rs:26-58 | the test graph has the edges 1 - 2 and 0 - 1 but not 0 - 2, and is closed |
| Scenarios.ClearScenario | src/main.rs:33-40 | clearing the test graph leaves an empty map |
| Scenarios.DropEdgeScenario | src/main.rs:100-118 | after `drop_edge(2, 3)` the edge 2 - 3 is gone and 1 - 2 remains |
| Scenarios.DropNodeScenario | src/main.rs:120-127 | after `drop_node(2)` node 2 is gone, and 0 and 1 remain |
| Scenarios.DirectedEdgeScenario | src/main.rs:178-201 | `2 -> 3` holds, `3 -> 2` and `has_edge(2, 3)` do not, and `drop_edge(2, 3)` removes `2 -> 3` |
| Scenarios.LeavesScenario | src/main.rs:82-98 | the leaves of the path 0 - 1 - 2 - 3 are `{0, 3}` |
| Scenarios.ConnectedScenario | src/main.rs:60-65 | the test graph is connected |
| Scenarios.DisconnectedScenario | src/main.rs:67-80 | the split fixture is not connected |
| Scenarios.DanglingPairFacts | src/graph.rs:89-96 | `drop_node(2)` on nodes 0, 1, 2 with the edge 1 - 2 of weight 5 leaves `{0: {}, 1: {(2, 5)}}`: not closed, yet every node reachable from 0 is a key |
| Scenarios.DanglingDisconnectedScenario | src/graph.rs:229-235 | on that store `is_connected` answers false |
| Scenarios.BfsScenario | src/main.rs:129-134 | the corrected search finds 2 from 0 in the test graph |
| Scenarios.BfsNeverReturnsScenario | src/graph.rs:155-166 | on the split fixture, the search as written for the unreachable 2 has not returned after any number of iterations |
| Scenarios.BfsVisitedScenario | src/graph.rs:148-167 | the corrected search returns -1 on the same input |
| Scenarios.BfsLargestIdScenario | src/graph.rs:156-158 | in the store `{u32::MAX: {}}`, the search from `u32::MAX` for itself returns -1 |
| Scenarios.DropNodeDanglingScenario | src/graph.rs:89-96 | `drop_node(1)` on the edge 0 - 1 of weight 5 leaves the pair `(1, 5)` dangling in node 0's set; the corrected removal does not |
| Scenarios.DetourCost | src/main.rs:136-176 | in the shortest-path fixtures the cheapest cost from 0 to 2 is the smaller of the direct weight and the detour 6 + 7 |
| Scenarios.ShortestPathScenarioDirect | src/main.rs:136-155 | `shortest_path(0, 2)` costs 11 on the first fixture |
| Scenarios.ShortestPathScenarioDetour | src/main.rs:157-176 | `shortest_path(0, 2)` costs 13 on the second fixture |
| Scenarios.HeapTieScenario | src/graph.rs:37-41 | of two entries with cost 5, node 2 pops before node 1 |

## Left out

- `serialize` (`src/graph.rs:237-239`): a thin wrapper over `serde_json`
  whose output format is defined outside the crate.
- `src/main.rs`'s empty `main`, `src/test.rs` (it does not compile) and the
  Criterion benchmark: they carry no behaviour of their own. The tests in
  `src/main.rs` appear only as the scenarios above.
- A* and Bellman-Ford: the crate has no code for them.
- Panics. `get_node_adjacents` on an unknown key, `is_connected` without
  a node 0, and a search that expands a node that is not a key all panic.
  Preconditions exclude these runs; the panics themselves are not
  modelled. For `depth_first_search` and `is_connected` the precondition
  `ClosedFrom` is exact: they expand every reachable node, so they panic
  exactly when a reachable node is not a key.
- Traversal.BreadthFirstSearch: requires every node reachable from the
  start to be a key. The source also returns without a panic when the
  missing key is the target itself, or is dequeued only after the target.
- Traversal.BreadthFirstSearchVisited: the same precondition, for the same
  reason.
- Dijkstra.Search: requires the whole store to be `Closed`. The source
  only needs every pair it relaxes before the target is popped to name a
  key; a dangling pair elsewhere does no harm.
- Hash-map, hash-set and heap iteration order. Every loop over a set picks
  an arbitrary element, so every order is covered. The heap is a sequence
  whose greatest entry is found by a scan. No contract depends on the
  order.
- Dijkstra.Search: the `i32` cost arithmetic is not modelled. The casts
  of node ids into and out of the parent table are modelled, but the cost
  casts are not. Costs are unbounded integers, and the `i32::MAX` sentinel
  is a missing entry of the distance table. The model agrees with the code
  only while every weight and every tentative cost stays below
  2^31 - 1. Beyond that the code's `weight as i32 + cost` and
  `cost as u32` wrap, and the model says nothing about it.
- Dijkstra.ShortestPath: the same limits on weights, costs and closure as
  `Search`.
- Dijkstra.RestorePath: requires that the table hold a parent chain from
  `source` to `target`. The code's behaviour on other tables is not
  modelled: a missing entry panics on `unwrap`, and a cycle loops forever.
- Traversal.BreadthFirstSearch: modelled with a fuel bound. `OutOfFuel`
  means the loop had not ended after `fuel` iterations. The contract does
  not state that a reachable target is eventually returned given enough
  fuel. It states only what a returned value means, and that -1 never
  comes back while a cycle is reachable.
- Scenarios.BfsScenario: the `breadth_first_search(0, 2) == 2` test is
  stated for the corrected search. The contract of the search as written
  only says that `2`, if returned, is correct.
- GraphStore.Clear: the reference to the emptied map that `clear` returns
  is not modelled; the function returns the cleared store.

## Findings

| source | as written | input that shows it | evidently intended | confidence | as-written member | corrected member |
|---|---|---|---|---|---|---|
| src/graph.rs:92-94 | `drop_node` keeps the pairs whose weight (`adjacent.1`) differs from the dropped node | the edge 0 - 1 of weight 5, then `drop_node(1)`: node 0 keeps the pair `(1, 5)` pointing at a missing key, and a later search from 0 panics | drop every pair whose neighbour (`adjacent.0`) is the dropped node | not executed | GraphStore.DropNode, Scenarios.DropNodeDanglingScenario | GraphStore.DropNodeScrubbed, GraphStore.DropNodeScrubbedPreservesClosed |
| src/graph.rs:160-163 | `breadth_first_search` inserts into its visited set but never reads it, so every expansion re-enqueues all neighbours | nodes 0, 1, 2 with the single edge 0 - 1, then `breadth_first_search(0, 2)`: 0 and 1 re-enqueue each other forever and -1 is never returned | enqueue a neighbour only when it has not been visited | not executed | Traversal.BreadthFirstSearch, Scenarios.BfsNeverReturnsScenario | Traversal.BreadthFirstSearchVisited, Scenarios.BfsVisitedScenario |

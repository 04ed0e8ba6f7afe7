/**
 The fixtures of the crate's unit tests, and the two inputs that show where
 the code departs from what it evidently intends, stated against the model.
 */
module Scenarios {
  import opened Casts
  import opened GraphStore
  import opened Walks
  import opened Traversal
  import opened Dijkstra
  import opened Fixtures

  // ---------------------------------------------------------------------
  // Store operations
  // ---------------------------------------------------------------------

  /** The test graph holds both of its edges in both directions. */
  lemma TestGraphEdges()
    ensures HasEdge(TestGraph(), 0, 1) && HasEdge(TestGraph(), 1, 2)
    ensures !HasEdgeDirected(TestGraph(), 0, 2) && !HasEdgeDirected(TestGraph(), 2, 0)
    ensures Closed(TestGraph())
  {
    var g := TestGraph();
    assert (1, 1) in g.nodes[0] && (0, 1) in g.nodes[1] && (2, 2) in g.nodes[1] && (1, 2) in g.nodes[2];
  }

  /** Clearing the test graph leaves the empty store. */
  lemma ClearScenario()
    ensures Clear(TestGraph()).nodes == map[]
  {
    ClearEmpties(TestGraph());
  }

  /** Dropping the edge 2 - 3 of the path removes it in both directions
      and keeps the others. */
  lemma DropEdgeScenario()
    ensures !HasEdge(DropEdge(PathGraph(6, 7, 8), 2, 3), 2, 3)
    ensures HasEdge(DropEdge(PathGraph(6, 7, 8), 2, 3), 1, 2)
  {
    var g := DropEdge(PathGraph(6, 7, 8), 2, 3);
    DropEdgeRemovesBoth(PathGraph(6, 7, 8), 2, 3);
    assert IsEdge(PathGraph(6, 7, 8), 1, 2, 7) && IsEdge(PathGraph(6, 7, 8), 2, 1, 7);
    assert IsEdge(g, 1, 2, 7) && IsEdge(g, 2, 1, 7);
    HasEdgeDirectedMeansEdge(g, 1, 2);
    HasEdgeDirectedMeansEdge(g, 2, 1);
  }

  /** Dropping node 2 of the test graph removes its key and keeps the
      others. */
  lemma DropNodeScenario()
    ensures !HasNode(DropNode(TestGraph(), 2), 2)
    ensures DropNode(TestGraph(), 2).nodes.Keys == {0, 1}
  {
  }

  /** The one-way pair 2 -> 3 is a directed edge but not an edge, and
      dropping the edge 2 - 3 removes it. */
  lemma DirectedEdgeScenario()
    ensures HasEdgeDirected(OneWayGraph(), 2, 3)
    ensures !HasEdgeDirected(OneWayGraph(), 3, 2)
    ensures !HasEdge(OneWayGraph(), 2, 3)
    ensures !HasEdgeDirected(DropEdge(OneWayGraph(), 2, 3), 2, 3)
  {
    var g := OneWayGraph();
    assert (3, 8) in g.nodes[2];
    DropEdgeRemovesBoth(g, 2, 3);
  }

  /** The path's end points are its leaves: each holds a single pair. */
  method LeavesScenario() returns (leaves: set<Node>)
    ensures leaves == {0, 3}
  {
    var g := PathGraph(4, 5, 6);
    leaves := GetLeafNodes(g);
    assert |g.nodes[0]| == 1 && |g.nodes[3]| == 1;
    assert |g.nodes[1]| == 2 && |g.nodes[2]| == 2;
  }

  // ---------------------------------------------------------------------
  // Searches
  // ---------------------------------------------------------------------

  /** The test graph is connected: the search from 0 reaches 1 and 2. */
  method ConnectedScenario() returns (connected: bool)
    ensures connected
  {
    var g := TestGraph();
    TestGraphEdges();
    var p1 := [Hop(0, 1, 1)];
    var p2 := [Hop(0, 1, 1), Hop(1, 2, 2)];
    assert IsWalk(g, [], 0, 0) && IsWalk(g, p1, 0, 1) && IsWalk(g, p2, 0, 2);
    connected := IsConnected(g);
  }

  /** The split graph is a closed store; 2 is out of reach from 0, while 0
      lies on the cycle 0 -> 1 -> 0. */
  lemma SplitGraphFacts()
    ensures Closed(SplitGraph())
    ensures !Reachable(SplitGraph(), 0, 2)
    ensures ReachesCycle(SplitGraph(), 0)
  {
    var g := SplitGraph();
    assert ClosedUnderEdges(g, {0, 1});
    if Reachable(g, 0, 2) {
      var p: seq<Hop> :| IsWalk(g, p, 0, 2);
      ClosedSetContainsReachable(g, {0, 1}, p, 0, 2);
    }
    var c := [Hop(0, 1, 3), Hop(1, 0, 3)];
    assert (1, 3) in g.nodes[0] && (0, 3) in g.nodes[1];
    assert IsWalk(g, [], 0, 0) && IsWalk(g, c, 0, 0);
  }

  /** The split graph is not connected. */
  method DisconnectedScenario() returns (connected: bool)
    ensures !connected
  {
    SplitGraphFacts();
    connected := IsConnected(SplitGraph());
  }

  /** Nodes 0, 1, 2 with the single edge 1 - 2 of weight 5, after
      `drop_node(2)`. */
  function DanglingPair(): Graph {
    DropNode(Graph(map[0 := {}, 1 := {(2, 5)}, 2 := {(1, 5)}]), 2)
  }

  /** The pair (2, 5) survives in node 1's set, so the store is not
      closed; but nothing leaves node 0, so a search from 0 never meets
      the dangling pair and 1 is out of its reach. */
  lemma DanglingPairFacts()
    ensures DanglingPair().nodes == map[0 := {}, 1 := {(2, 5)}]
    ensures !Closed(DanglingPair())
    ensures ClosedFrom(DanglingPair(), 0)
    ensures !Reachable(DanglingPair(), 0, 1)
  {
    var g := DanglingPair();
    var h := Graph(map[0 := {}, 1 := {(2, 5)}]);
    GraphExt(g, h);
    assert IsEdge(g, 1, 2, 5);
    assert ClosedUnderEdges(g, {0});
    forall v | Reachable(g, 0, v)
      ensures v == 0
    {
      var p: seq<Hop> :| IsWalk(g, p, 0, v);
      ClosedSetContainsReachable(g, {0}, p, 0, v);
    }
  }

  /** On that store `is_connected` runs without a panic and answers
      false. */
  method DanglingDisconnectedScenario() returns (connected: bool)
    ensures !connected
  {
    DanglingPairFacts();
    connected := IsConnected(DanglingPair());
  }

  /** The corrected breadth-first search finds 2 from 0 in the test
      graph. */
  method BfsScenario() returns (r: int)
    ensures r == 2
  {
    var g := TestGraph();
    TestGraphEdges();
    assert IsWalk(g, [Hop(0, 1, 1), Hop(1, 2, 2)], 0, 2);
    r := BreadthFirstSearchVisited(g, 0, 2);
  }

  /** The breadth-first search as written never returns on the split graph
      for the unreachable target 2: whatever number of iterations is
      modelled, it has not finished. */
  method BfsNeverReturnsScenario(fuel: nat) returns (r: Outcome)
    ensures r == OutOfFuel
  {
    SplitGraphFacts();
    r := BreadthFirstSearch(SplitGraph(), 0, 2, fuel);
  }

  /** The corrected search returns -1 on the same input. */
  method BfsVisitedScenario() returns (r: int)
    ensures r == -1
  {
    SplitGraphFacts();
    r := BreadthFirstSearchVisited(SplitGraph(), 0, 2);
  }

  /** A store holding only `u32::MAX`: the search from it finds it at
      once, and its answer `u32::MAX as i32` is -1, the answer for a
      target out of reach. */
  method BfsLargestIdScenario() returns (r: Outcome)
    ensures r == Returned(-1)
  {
    var g := Graph(map[U32_MAX := {}]);
    assert Closed(g);
    r := BreadthFirstSearch(g, U32_MAX, U32_MAX, 1);
  }

  // ---------------------------------------------------------------------
  // Dropping a node
  // ---------------------------------------------------------------------

  /** The single edge 0 - 1 of weight 5. */
  function WeightFiveEdge(): Graph {
    Graph(map[0 := {(1, 5)}, 1 := {(0, 5)}])
  }

  /** `drop_node(1)` on the single edge 0 - 1 of weight 5 removes key 1
      but keeps the pair (1, 5) in node 0's set, since its weight is not 1,
      so the store is no longer closed; the corrected removal drops the
      pair. */
  lemma DropNodeDanglingScenario()
    ensures !HasNode(DropNode(WeightFiveEdge(), 1), 1)
    ensures IsEdge(DropNode(WeightFiveEdge(), 1), 0, 1, 5)
    ensures !Closed(DropNode(WeightFiveEdge(), 1))
    ensures !IsEdge(DropNodeScrubbed(WeightFiveEdge(), 1), 0, 1, 5)
    ensures Closed(DropNodeScrubbed(WeightFiveEdge(), 1))
  {
    var g := WeightFiveEdge();
    assert IsEdge(g, 0, 1, 5);
    DropNodeKeepsIncomingEdge(g, 0, 1, 5);
    DropNodeScrubbedPreservesClosed(g, 1);
  }

  // ---------------------------------------------------------------------
  // Shortest paths
  // ---------------------------------------------------------------------

  /** In the detour graph, the cheapest cost from 0 to 2 is the smaller of
      the direct edge and the detour through 1 (6 + 7). */
  lemma DetourCost(direct: Weight, c: nat)
    requires IsShortestCost(DetourGraph(direct), 0, 2, c)
    ensures c == if direct < 13 then direct else 13
  {
    var g := DetourGraph(direct);
    var best := if direct < 13 then direct else 13;
    assert (2, direct) in g.nodes[0] && (1, 6) in g.nodes[0] && (2, 7) in g.nodes[1];
    if direct < 13 {
      var p := [Hop(0, 2, direct)];
      assert p[..0] == [];
      assert IsWalk(g, p, 0, 2) && Cost(p) == best;
    } else {
      var p := [Hop(0, 1, 6), Hop(1, 2, 7)];
      assert p[..1] == [Hop(0, 1, 6)] && p[..1][..0] == [];
      assert IsWalk(g, p, 0, 2) && Cost(p) == best;
    }
    var phi := map[0 := 0, 1 := 6, 2 := best, 3 := best + 8];
    var q: seq<Hop> :| IsWalk(g, q, 0, 2) && Cost(q) == c;
    PotentialBoundsWalk(g, phi, q, 0, 2);
  }

  /** The detour graph is closed and 2 is reachable from 0 in it. */
  lemma DetourFacts(direct: Weight)
    ensures Closed(DetourGraph(direct)) && 0 in DetourGraph(direct).nodes
    ensures Reachable(DetourGraph(direct), 0, 2)
  {
    var g := DetourGraph(direct);
    assert (2, direct) in g.nodes[0];
    assert IsWalk(g, [Hop(0, 2, direct)], 0, 2);
  }

  /** The first shortest-path fixture: the direct edge of weight 11 beats
      the detour of weight 13. */
  method ShortestPathScenarioDirect() returns (cost: Option<nat>)
    ensures cost == Some(11)
  {
    DetourFacts(11);
    var r := ShortestPath(DetourGraph(11), 0, 2);
    DetourCost(11, r.cost.value);
    cost := r.cost;
  }

  /** The second fixture: with a direct edge of weight 16 the detour of
      weight 13 wins. */
  method ShortestPathScenarioDetour() returns (cost: Option<nat>)
    ensures cost == Some(13)
  {
    DetourFacts(16);
    var r := ShortestPath(DetourGraph(16), 0, 2);
    DetourCost(16, r.cost.value);
    cost := r.cost;
  }

  /** Among heap entries of equal cost the larger node id pops first. */
  method HeapTieScenario() returns (top: DijkstraState)
    ensures top == DijkstraState(2, 5)
  {
    var rest;
    top, rest := HeapPop([DijkstraState(1, 5), DijkstraState(2, 5), DijkstraState(3, 7)]);
  }
}

/**
 The graphs the crate's unit tests build, written out as literal stores,
 each with a lemma that the test's sequence of `add_node` and `add_edge`
 calls produces exactly that store.
 */
module Fixtures {
  import opened GraphStore

  /** The common test graph: 0 - 1 of weight 1 and 1 - 2 of weight 2. */
  function TestGraph(): Graph {
    Graph(map[0 := {(1, 1)}, 1 := {(0, 1), (2, 2)}, 2 := {(1, 2)}])
  }

  /** Three nodes and the single edge 0 - 1 of weight 3: node 2 is cut off. */
  function SplitGraph(): Graph {
    Graph(map[0 := {(1, 3)}, 1 := {(0, 3)}, 2 := {}])
  }

  /** The path 0 - 1 - 2 - 3 with weights `a`, `b`, `c`. */
  function PathGraph(a: Weight, b: Weight, c: Weight): Graph {
    Graph(map[0 := {(1, a)}, 1 := {(0, a), (2, b)}, 2 := {(1, b), (3, c)}, 3 := {(2, c)}])
  }

  /** The shortest-path fixtures: 0 - 1 (6), 0 - 2 (`direct`), 1 - 2 (7),
      2 - 3 (8). */
  function DetourGraph(direct: Weight): Graph {
    Graph(map[0 := {(1, 6), (2, direct)}, 1 := {(0, 6), (2, 7)}, 2 := {(0, direct), (1, 7), (3, 8)}, 3 := {(2, 8)}])
  }

  /** The directed-edge fixture: 0 - 1 (6), 0 - 2 (16), 1 - 2 (7) and the
      one-way pair 2 -> 3 (8). */
  function OneWayGraph(): Graph {
    Graph(map[0 := {(1, 6), (2, 16)}, 1 := {(0, 6), (2, 7)}, 2 := {(0, 16), (1, 7), (3, 8)}, 3 := {}])
  }

  /** Nodes 0, 1, 2, 3 added to an empty store. */
  function FourNodes(): Graph {
    AddNode(AddNode(AddNode(AddNode(Empty(), 0), 1), 2), 3)
  }

  // ---------------------------------------------------------------------
  // Each fixture is what the tests' calls build
  // ---------------------------------------------------------------------

  lemma FourNodesBuilt()
    ensures FourNodes() == Graph(map[0 := {}, 1 := {}, 2 := {}, 3 := {}])
  {
    GraphExt(FourNodes(), Graph(map[0 := {}, 1 := {}, 2 := {}, 3 := {}]));
  }

  lemma TestGraphBuilt()
    ensures AddEdge(AddEdge(AddNode(AddNode(AddNode(Empty(), 0), 1), 2), 0, 1, 1), 1, 2, 2) == TestGraph()
  {
    GraphExt(AddEdge(AddEdge(AddNode(AddNode(AddNode(Empty(), 0), 1), 2), 0, 1, 1), 1, 2, 2), TestGraph());
  }

  lemma SplitGraphBuilt()
    ensures AddEdge(AddNode(AddNode(AddNode(Empty(), 0), 1), 2), 0, 1, 3) == SplitGraph()
  {
    GraphExt(AddEdge(AddNode(AddNode(AddNode(Empty(), 0), 1), 2), 0, 1, 3), SplitGraph());
  }

  /** The path after its first two edges. */
  function PathHalf(a: Weight, b: Weight): Graph {
    Graph(map[0 := {(1, a)}, 1 := {(0, a), (2, b)}, 2 := {(1, b)}, 3 := {}])
  }

  lemma PathHalfBuilt(a: Weight, b: Weight)
    ensures AddEdge(AddEdge(FourNodes(), 0, 1, a), 1, 2, b) == PathHalf(a, b)
  {
    FourNodesBuilt();
    GraphExt(AddEdge(AddEdge(FourNodes(), 0, 1, a), 1, 2, b), PathHalf(a, b));
  }

  lemma PathGraphBuilt(a: Weight, b: Weight, c: Weight)
    ensures AddEdge(AddEdge(AddEdge(FourNodes(), 0, 1, a), 1, 2, b), 2, 3, c) == PathGraph(a, b, c)
  {
    PathHalfBuilt(a, b);
    GraphExt(AddEdge(PathHalf(a, b), 2, 3, c), PathGraph(a, b, c));
  }

  /** The detour graph after its first two edges. */
  function DetourHalf(direct: Weight): Graph {
    Graph(map[0 := {(1, 6), (2, direct)}, 1 := {(0, 6)}, 2 := {(0, direct)}, 3 := {}])
  }

  lemma DetourHalfBuilt(direct: Weight)
    ensures AddEdge(AddEdge(FourNodes(), 0, 1, 6), 0, 2, direct) == DetourHalf(direct)
  {
    FourNodesBuilt();
    GraphExt(AddEdge(AddEdge(FourNodes(), 0, 1, 6), 0, 2, direct), DetourHalf(direct));
  }

  lemma DetourRestBuilt(direct: Weight)
    ensures AddEdge(AddEdge(DetourHalf(direct), 1, 2, 7), 2, 3, 8) == DetourGraph(direct)
  {
    GraphExt(AddEdge(AddEdge(DetourHalf(direct), 1, 2, 7), 2, 3, 8), DetourGraph(direct));
  }

  lemma DetourGraphBuilt(direct: Weight)
    ensures AddEdge(AddEdge(AddEdge(AddEdge(FourNodes(), 0, 1, 6), 0, 2, direct), 1, 2, 7), 2, 3, 8)
            == DetourGraph(direct)
  {
    DetourHalfBuilt(direct);
    DetourRestBuilt(direct);
  }

  lemma OneWayGraphBuilt()
    ensures AddEdgeDirected(AddEdge(AddEdge(AddEdge(FourNodes(), 0, 1, 6), 0, 2, 16), 1, 2, 7), 2, 3, 8)
            == OneWayGraph()
  {
    DetourHalfBuilt(16);
    OneWayRestBuilt();
  }

  lemma OneWayRestBuilt()
    ensures AddEdgeDirected(AddEdge(DetourHalf(16), 1, 2, 7), 2, 3, 8) == OneWayGraph()
  {
    GraphExt(AddEdgeDirected(AddEdge(DetourHalf(16), 1, 2, 7), 2, 3, 8), OneWayGraph());
  }
}

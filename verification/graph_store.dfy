/**
 The graph store and its mutation and query API.

 A graph maps each node id to its adjacency set of (neighbour, weight)
 pairs. Because the set holds pairs rather than a neighbour-to-weight map,
 two pairs for the same neighbour with different weights may coexist.
 Every mutation is a pure function from the old graph to the new one; its
 contract states the new key set and the new edge relation `IsEdge`, which
 together determine the graph completely (lemma `GraphExt`).
 */
module GraphStore {
  import opened Casts

  type Node = U32
  type Weight = U32

  datatype Graph = Graph(nodes: map<Node, set<(Node, Weight)>>)

  /** `u` is a key and its adjacency set holds the pair `(v, w)`. */
  predicate IsEdge(g: Graph, u: Node, v: Node, w: Weight) {
    u in g.nodes && (v, w) in g.nodes[u]
  }

  /** Every neighbour named in an adjacency set is itself a key. */
  ghost predicate Closed(g: Graph) {
    forall u: Node, v: Node, w: Weight :: IsEdge(g, u, v, w) ==> v in g.nodes
  }

  /** Two graphs with the same keys and the same edge relation are equal. */
  lemma GraphExt(g: Graph, h: Graph)
    requires g.nodes.Keys == h.nodes.Keys
    requires forall u: Node, v: Node, w: Weight :: IsEdge(g, u, v, w) <==> IsEdge(h, u, v, w)
    ensures g == h
  {
    forall u | u in g.nodes
      ensures g.nodes[u] == h.nodes[u]
    {
      forall e | e in g.nodes[u]
        ensures e in h.nodes[u]
      {
        assert IsEdge(g, u, e.0, e.1);
      }
      forall e | e in h.nodes[u]
        ensures e in g.nodes[u]
      {
        assert IsEdge(h, u, e.0, e.1);
      }
    }
  }

  // ---------------------------------------------------------------------
  // Construction and mutation
  // ---------------------------------------------------------------------

  /** `Graph::new`: no nodes. */
  function Empty(): (g: Graph)
    ensures forall n :: !HasNode(g, n)
    ensures Closed(g)
  {
    Graph(map[])
  }

  /** `add_node`: inserts `n` with an empty adjacency set, discarding any
      adjacency set `n` already had. */
  function AddNode(g: Graph, n: Node): (r: Graph)
    ensures r.nodes.Keys == g.nodes.Keys + {n}
    ensures forall u: Node, v: Node, w: Weight :: IsEdge(r, u, v, w) <==> u != n && IsEdge(g, u, v, w)
  {
    Graph(g.nodes[n := {}])
  }

  /** `add_edge_directed`: adds the pair `(t, w)` to the adjacency set of `s`;
      a silent no-op when `s == t` or `s` is not a key. `t` need not exist. */
  function AddEdgeDirected(g: Graph, s: Node, t: Node, w: Weight): (r: Graph)
    ensures s == t || s !in g.nodes ==> r == g
    ensures r.nodes.Keys == g.nodes.Keys
    ensures forall u: Node, v: Node, x: Weight :: IsEdge(r, u, v, x) <==>
              IsEdge(g, u, v, x) || (s != t && s in g.nodes && u == s && v == t && x == w)
  {
    if s != t && s in g.nodes then Graph(g.nodes[s := g.nodes[s] + {(t, w)}]) else g
  }

  /** `add_edge`: `add_edge_directed` in both directions. */
  function AddEdge(g: Graph, s: Node, t: Node, w: Weight): (r: Graph)
    ensures s == t ==> r == g
    ensures r.nodes.Keys == g.nodes.Keys
    ensures forall u: Node, v: Node, x: Weight :: IsEdge(r, u, v, x) <==>
              || IsEdge(g, u, v, x)
              || (s != t && s in g.nodes && u == s && v == t && x == w)
              || (s != t && t in g.nodes && u == t && v == s && x == w)
  {
    AddEdgeDirected(AddEdgeDirected(g, s, t, w), t, s, w)
  }

  /** `drop_edge_directed`: removes every pair of `a`'s adjacency set whose
      neighbour is `b`; a no-op when `a` is not a key. */
  function DropEdgeDirected(g: Graph, a: Node, b: Node): (r: Graph)
    ensures r.nodes.Keys == g.nodes.Keys
    ensures forall u: Node, v: Node, w: Weight :: IsEdge(r, u, v, w) <==> IsEdge(g, u, v, w) && !(u == a && v == b)
  {
    if a in g.nodes then Graph(g.nodes[a := set e | e in g.nodes[a] && e.0 != b]) else g
  }

  /** `drop_edge`: `drop_edge_directed` in both directions. */
  function DropEdge(g: Graph, a: Node, b: Node): (r: Graph)
    ensures r.nodes.Keys == g.nodes.Keys
    ensures forall u: Node, v: Node, w: Weight :: IsEdge(r, u, v, w) <==>
              IsEdge(g, u, v, w) && !(u == a && v == b) && !(u == b && v == a)
  {
    DropEdgeDirected(DropEdgeDirected(g, a, b), b, a)
  }

  /** `drop_node` as the source writes it: removes the key `n`, then keeps in
      every other adjacency set only the pairs whose WEIGHT differs from `n`.
      Pairs that point at `n` with another weight survive. */
  function DropNode(g: Graph, n: Node): (r: Graph)
    ensures r.nodes.Keys == g.nodes.Keys - {n}
    ensures forall u: Node, v: Node, w: Weight :: IsEdge(r, u, v, w) <==> IsEdge(g, u, v, w) && u != n && w != n
  {
    Graph(map u | u in g.nodes && u != n :: set e | e in g.nodes[u] && e.1 != n)
  }

  /** `drop_node` as evidently intended: removes the key `n` and every pair
      that points at `n`. */
  function DropNodeScrubbed(g: Graph, n: Node): (r: Graph)
    ensures r.nodes.Keys == g.nodes.Keys - {n}
    ensures forall u: Node, v: Node, w: Weight :: IsEdge(r, u, v, w) <==> IsEdge(g, u, v, w) && u != n && v != n
  {
    Graph(map u | u in g.nodes && u != n :: set e | e in g.nodes[u] && e.0 != n)
  }

  /** `clear`: removes every node. */
  function Clear(g: Graph): (r: Graph)
    ensures forall n :: !HasNode(r, n)
    ensures forall u: Node, v: Node, w: Weight :: !IsEdge(r, u, v, w)
  {
    Graph(map[])
  }

  // ---------------------------------------------------------------------
  // Queries
  // ---------------------------------------------------------------------

  predicate HasNode(g: Graph, n: Node) {
    n in g.nodes
  }

  /** `has_edge_directed`: both endpoints are keys and some pair of `a`'s
      adjacency set names `b`, whatever its weight. */
  predicate HasEdgeDirected(g: Graph, a: Node, b: Node)
    ensures HasEdgeDirected(g, a, b) ==> HasNode(g, a) && HasNode(g, b)
  {
    HasNode(g, a) && HasNode(g, b) && exists e :: e in g.nodes[a] && e.0 == b
  }

  /** `has_edge`: the edge exists in both directions. */
  predicate HasEdge(g: Graph, a: Node, b: Node) {
    HasEdgeDirected(g, a, b) && HasEdgeDirected(g, b, a)
  }

  /** `get_node_adjacents`: the adjacency set of `n`; an unknown `n` panics
      in the source, so it is excluded here. */
  function GetNodeAdjacents(g: Graph, n: Node): (r: set<(Node, Weight)>)
    requires n in g.nodes
    ensures forall v: Node, w: Weight :: (v, w) in r <==> IsEdge(g, n, v, w)
  {
    g.nodes[n]
  }

  /** The neighbour ids of `n`'s pairs: what the searches push when they
      expand `n`. */
  function Neighbours(g: Graph, n: Node): (r: set<Node>)
    requires n in g.nodes
    ensures forall v: Node :: v in r <==> exists w: Weight :: IsEdge(g, n, v, w)
  {
    var r := set e | e in g.nodes[n] :: e.0;
    assert forall v: Node :: v in r ==> exists w: Weight :: IsEdge(g, n, v, w) by {
      forall v: Node | v in r ensures exists w: Weight :: IsEdge(g, n, v, w) {
        var e :| e in g.nodes[n] && e.0 == v;
        assert IsEdge(g, n, v, e.1);
      }
    }
    assert forall v: Node, w: Weight :: IsEdge(g, n, v, w) ==> v in r by {
      forall v: Node, w: Weight | IsEdge(g, n, v, w) ensures v in r {
        assert (v, w) in g.nodes[n];
      }
    }
    r
  }

  /** `get_leaf_nodes`: the keys whose adjacency set has exactly one pair
      (two pairs to the same neighbour count as two). */
  method GetLeafNodes(g: Graph) returns (leaves: set<Node>)
    ensures forall n :: n in leaves <==> n in g.nodes && |g.nodes[n]| == 1
  {
    leaves := {};
    var todo := g.nodes.Keys;
    while todo != {}
      invariant todo <= g.nodes.Keys
      invariant forall n :: n in leaves <==> n in g.nodes && n !in todo && |g.nodes[n]| == 1
      decreases todo
    {
      var n :| n in todo;
      if |GetNodeAdjacents(g, n)| == 1 {
        leaves := leaves + {n};
      }
      todo := todo - {n};
    }
  }

  // ---------------------------------------------------------------------
  // Properties of the mutations seen through the queries
  // ---------------------------------------------------------------------

  /** The directed-edge query is the edge relation restricted to pairs whose
      neighbour is a key. */
  lemma HasEdgeDirectedMeansEdge(g: Graph, a: Node, b: Node)
    ensures HasEdgeDirected(g, a, b) <==> b in g.nodes && exists w: Weight :: IsEdge(g, a, b, w)
  {
    if HasEdgeDirected(g, a, b) {
      var e :| e in g.nodes[a] && e.0 == b;
      assert IsEdge(g, a, b, e.1);
    }
    if b in g.nodes && exists w: Weight :: IsEdge(g, a, b, w) {
      var w: Weight :| IsEdge(g, a, b, w);
      assert (b, w) in g.nodes[a];
    }
  }

  /** The undirected query holds exactly when both endpoints are keys and
      each stores a pair naming the other, whatever the two weights; so it
      is symmetric. */
  lemma HasEdgeMeansBothPairs(g: Graph, a: Node, b: Node)
    ensures HasEdge(g, a, b) <==>
              && a in g.nodes && b in g.nodes
              && (exists w: Weight :: IsEdge(g, a, b, w))
              && (exists w: Weight :: IsEdge(g, b, a, w))
    ensures HasEdge(g, a, b) <==> HasEdge(g, b, a)
  {
    HasEdgeDirectedMeansEdge(g, a, b);
    HasEdgeDirectedMeansEdge(g, b, a);
  }

  /** The node query follows the key set through every mutation: only
      `add_node` adds a key, only `drop_node` and `clear` remove one. */
  lemma HasNodeTracksKeys(g: Graph, n: Node, m: Node, a: Node, b: Node, w: Weight)
    ensures HasNode(AddNode(g, m), n) <==> n == m || HasNode(g, n)
    ensures HasNode(DropNode(g, m), n) <==> n != m && HasNode(g, n)
    ensures HasNode(AddEdge(g, a, b, w), n) <==> HasNode(g, n)
    ensures HasNode(AddEdgeDirected(g, a, b, w), n) <==> HasNode(g, n)
    ensures HasNode(DropEdge(g, a, b), n) <==> HasNode(g, n)
    ensures HasNode(DropEdgeDirected(g, a, b), n) <==> HasNode(g, n)
    ensures !HasNode(Clear(g), n)
  {
  }

  /** Re-adding a node leaves it present with no outgoing pairs. */
  lemma AddNodeResets(g: Graph, n: Node)
    ensures HasNode(AddNode(g, n), n)
    ensures GetNodeAdjacents(AddNode(g, n), n) == {}
    ensures AddNode(AddNode(g, n), n) == AddNode(g, n)
  {
  }

  /** An undirected edge between two distinct keys is visible both ways. */
  lemma AddEdgeIsSymmetric(g: Graph, a: Node, b: Node, w: Weight)
    requires HasNode(g, a) && HasNode(g, b) && a != b
    ensures HasEdge(AddEdge(g, a, b, w), a, b)
    ensures HasEdge(AddEdge(g, a, b, w), b, a)
  {
    var r := AddEdge(g, a, b, w);
    assert IsEdge(r, a, b, w) && IsEdge(r, b, a, w);
  }

  /** A directed edge is visible from its source only; the reverse query is
      whatever it was before. */
  lemma AddEdgeDirectedIsOneWay(g: Graph, a: Node, b: Node, w: Weight)
    requires HasNode(g, a) && HasNode(g, b) && a != b
    ensures HasEdgeDirected(AddEdgeDirected(g, a, b, w), a, b)
    ensures HasEdgeDirected(AddEdgeDirected(g, a, b, w), b, a) == HasEdgeDirected(g, b, a)
  {
    var r := AddEdgeDirected(g, a, b, w);
    assert IsEdge(r, a, b, w);
    if HasEdgeDirected(r, b, a) {
      HasEdgeDirectedMeansEdge(r, b, a);
      var x: Weight :| IsEdge(r, b, a, x);
      assert IsEdge(g, b, a, x);
    }
  }

  /** Self-loops are never added. */
  lemma AddEdgeIgnoresSelfLoop(g: Graph, a: Node, w: Weight)
    ensures HasEdge(AddEdge(g, a, a, w), a, a) == HasEdge(g, a, a)
  {
  }

  /** After `drop_edge_directed(a, b)` no pair of `a` names `b`. */
  lemma DropEdgeDirectedRemoves(g: Graph, a: Node, b: Node)
    ensures !HasEdgeDirected(DropEdgeDirected(g, a, b), a, b)
    ensures forall w :: !IsEdge(DropEdgeDirected(g, a, b), a, b, w)
  {
  }

  /** After `drop_edge(a, b)` neither direction remains. */
  lemma DropEdgeRemovesBoth(g: Graph, a: Node, b: Node)
    ensures !HasEdgeDirected(DropEdge(g, a, b), a, b)
    ensures !HasEdgeDirected(DropEdge(g, a, b), b, a)
    ensures !HasEdge(DropEdge(g, a, b), a, b)
  {
  }

  /** Adding a directed edge and then dropping it is a round trip when no
      pair from `a` to `b` was there before. */
  lemma {:induction false} AddThenDropEdgeDirected(g: Graph, a: Node, b: Node, w: Weight)
    requires forall x :: !IsEdge(g, a, b, x)
    ensures DropEdgeDirected(AddEdgeDirected(g, a, b, w), a, b) == g
  {
    GraphExt(DropEdgeDirected(AddEdgeDirected(g, a, b, w), a, b), g);
  }

  /** Adding the same directed edge twice is the same as adding it once. */
  lemma {:induction false} AddEdgeDirectedIdempotent(g: Graph, a: Node, b: Node, w: Weight)
    ensures AddEdgeDirected(AddEdgeDirected(g, a, b, w), a, b, w) == AddEdgeDirected(g, a, b, w)
  {
    var once := AddEdgeDirected(g, a, b, w);
    GraphExt(AddEdgeDirected(once, a, b, w), once);
  }

  /** Adding a second weight for an existing neighbour keeps the first:
      the pairs coexist rather than overwrite. */
  lemma AddEdgeDirectedKeepsOtherWeights(g: Graph, a: Node, b: Node, w: Weight, w': Weight)
    requires IsEdge(g, a, b, w')
    ensures IsEdge(AddEdgeDirected(g, a, b, w), a, b, w')
    ensures a != b ==> IsEdge(AddEdgeDirected(g, a, b, w), a, b, w)
  {
  }

  /** After `drop_node(n)`, `n` is gone and every remaining adjacency set is
      a subset of the old one that keeps each pair whose weight is not `n`. */
  lemma DropNodeRemovesKey(g: Graph, n: Node)
    ensures !HasNode(DropNode(g, n), n)
    ensures forall u :: u in DropNode(g, n).nodes ==> u in g.nodes && DropNode(g, n).nodes[u] <= g.nodes[u]
    ensures forall u, e :: u in DropNode(g, n).nodes && e in g.nodes[u] && e.1 != n ==> e in DropNode(g, n).nodes[u]
  {
  }

  /** The defect of `drop_node`: a pair pointing at the dropped node
      survives whenever its weight is not the dropped node's id. */
  lemma DropNodeKeepsIncomingEdge(g: Graph, u: Node, n: Node, w: Weight)
    requires IsEdge(g, u, n, w) && u != n && w != n
    ensures !HasNode(DropNode(g, n), n)
    ensures IsEdge(DropNode(g, n), u, n, w)
    ensures !Closed(DropNode(g, n))
  {
  }

  /** The corrected `drop_node` removes `n` and leaves no pair naming it. */
  lemma DropNodeScrubbedRemoves(g: Graph, n: Node)
    ensures !HasNode(DropNodeScrubbed(g, n), n)
    ensures forall u :: !HasEdgeDirected(DropNodeScrubbed(g, n), u, n)
    ensures forall u, w :: !IsEdge(DropNodeScrubbed(g, n), u, n, w)
  {
  }

  /** After `clear` nothing is left. */
  lemma ClearEmpties(g: Graph)
    ensures forall n :: !HasNode(Clear(g), n)
    ensures forall a, b :: !HasEdgeDirected(Clear(g), a, b)
    ensures Clear(g) == Empty()
  {
  }

  // ---------------------------------------------------------------------
  // Which mutations keep the store closed
  // ---------------------------------------------------------------------

  lemma AddNodePreservesClosed(g: Graph, n: Node)
    requires Closed(g)
    ensures Closed(AddNode(g, n))
  {
  }

  lemma AddEdgePreservesClosed(g: Graph, s: Node, t: Node, w: Weight)
    requires Closed(g) && HasNode(g, s) && HasNode(g, t)
    ensures Closed(AddEdgeDirected(g, s, t, w))
    ensures Closed(AddEdge(g, s, t, w))
  {
  }

  lemma DropEdgePreservesClosed(g: Graph, a: Node, b: Node)
    requires Closed(g)
    ensures Closed(DropEdgeDirected(g, a, b))
    ensures Closed(DropEdge(g, a, b))
  {
  }

  lemma DropNodeScrubbedPreservesClosed(g: Graph, n: Node)
    requires Closed(g)
    ensures Closed(DropNodeScrubbed(g, n))
  {
  }

  // ---------------------------------------------------------------------
  // Counting
  // ---------------------------------------------------------------------

  /** A proper subset of a finite set of nodes is strictly smaller: the
      measure by which the searches terminate. */
  lemma {:induction false} SubsetCard(a: set<Node>, b: set<Node>)
    requires a < b
    ensures |a| < |b|
  {
    var d := b - a;
    assert b == a + d;
    assert a * d == {};
    assert d != {};
  }
}

/**
 Walks through the store: the reference notion of reachability and of path
 weight against which the traversals and Dijkstra's search are stated.
 */
module Walks {
  import opened GraphStore

  /** One step of a walk: from `src` along the pair `(dst, weight)` of its
      adjacency set. */
  datatype Hop = Hop(src: Node, dst: Node, weight: Weight)

  /** `p` is a walk from `s` to `t`: consecutive hops are stored pairs and
      meet end to start. The empty walk goes from a node to itself. */
  predicate IsWalk(g: Graph, p: seq<Hop>, s: Node, t: Node) {
    if |p| == 0 then s == t
    else
      && p[0].src == s
      && p[|p| - 1].dst == t
      && (forall i :: 0 <= i < |p| ==> IsEdge(g, p[i].src, p[i].dst, p[i].weight))
      && (forall i, j :: 0 <= i < |p| && 0 <= j < |p| && j == i + 1 ==> p[i].dst == p[j].src)
  }

  /** Sum of the weights along a walk. */
  function Cost(p: seq<Hop>): nat {
    if |p| == 0 then 0 else Cost(p[..|p| - 1]) + p[|p| - 1].weight
  }

  /** The nodes a walk from `s` visits, in order, starting with `s`. */
  function WalkNodes(s: Node, p: seq<Hop>): (ns: seq<Node>)
    ensures |ns| == |p| + 1 && ns[0] == s
    ensures forall i :: 0 < i <= |p| ==> ns[i] == p[i - 1].dst
  {
    [s] + seq(|p|, i requires 0 <= i < |p| => p[i].dst)
  }

  ghost predicate Reachable(g: Graph, s: Node, t: Node) {
    exists p: seq<Hop> :: IsWalk(g, p, s, t)
  }

  /** `t` is reachable at no more than cost `c`, and no walk is cheaper. */
  ghost predicate IsShortestCost(g: Graph, s: Node, t: Node, c: nat) {
    && (exists p: seq<Hop> :: IsWalk(g, p, s, t) && Cost(p) == c)
    && (forall p: seq<Hop> :: IsWalk(g, p, s, t) ==> c <= Cost(p))
  }

  /** A walk from `v` reaches a node that lies on a non-empty closed walk. */
  ghost predicate ReachesCycle(g: Graph, v: Node) {
    exists p: seq<Hop>, u: Node, c: seq<Hop> :: IsWalk(g, p, v, u) && IsWalk(g, c, u, u) && |c| > 0
  }

  /** Every member of `r` that is a source has all its neighbours in `r`. */
  ghost predicate ClosedUnderEdges(g: Graph, r: set<Node>) {
    forall u: Node, v: Node, w: Weight :: u in r && IsEdge(g, u, v, w) ==> v in r
  }

  // ---------------------------------------------------------------------
  // Lemmas about walks
  // ---------------------------------------------------------------------

  /** Extending a walk by one stored pair. */
  lemma WalkExtend(g: Graph, p: seq<Hop>, s: Node, u: Node, v: Node, w: Weight)
    requires IsWalk(g, p, s, u) && IsEdge(g, u, v, w)
    ensures IsWalk(g, p + [Hop(u, v, w)], s, v)
    ensures Cost(p + [Hop(u, v, w)]) == Cost(p) + w
    ensures WalkNodes(s, p + [Hop(u, v, w)]) == WalkNodes(s, p) + [v]
  {
    var q := p + [Hop(u, v, w)];
    assert q[..|q| - 1] == p;
  }

  /** Reachability extends along a stored pair. */
  lemma ReachableStep(g: Graph, s: Node, u: Node, v: Node, w: Weight)
    requires Reachable(g, s, u) && IsEdge(g, u, v, w)
    ensures Reachable(g, s, v)
  {
    var p: seq<Hop> :| IsWalk(g, p, s, u);
    WalkExtend(g, p, s, u, v, w);
  }

  /** The node list of a walk ends where the walk ends. */
  lemma WalkNodesEnd(g: Graph, p: seq<Hop>, s: Node, t: Node)
    requires IsWalk(g, p, s, t)
    ensures WalkNodes(s, p)[|p|] == t
  {
  }

  /** Dropping the last hop of a non-empty walk. */
  lemma WalkInit(g: Graph, p: seq<Hop>, s: Node, t: Node)
    requires IsWalk(g, p, s, t) && |p| > 0
    ensures IsWalk(g, p[..|p| - 1], s, p[|p| - 1].src)
    ensures IsEdge(g, p[|p| - 1].src, t, p[|p| - 1].weight)
    ensures Cost(p) == Cost(p[..|p| - 1]) + p[|p| - 1].weight
  {
  }

  /** Dropping the first hop of a non-empty walk. */
  lemma WalkTail(g: Graph, p: seq<Hop>, s: Node, t: Node)
    requires IsWalk(g, p, s, t) && |p| > 0
    ensures IsWalk(g, p[1..], p[0].dst, t)
    ensures IsEdge(g, s, p[0].dst, p[0].weight)
  {
    if |p| > 1 {
      assert p[1..][0] == p[1];
    }
  }

  /** A set that contains `s` and is closed under edges contains every node
      reachable from `s`. */
  lemma {:induction false} ClosedSetContainsReachable(g: Graph, r: set<Node>, p: seq<Hop>, s: Node, t: Node)
    requires s in r && ClosedUnderEdges(g, r)
    requires IsWalk(g, p, s, t)
    ensures t in r
    decreases |p|
  {
    if |p| > 0 {
      WalkInit(g, p, s, t);
      ClosedSetContainsReachable(g, r, p[..|p| - 1], s, p[|p| - 1].src);
    }
  }

  /** In a closed store, everything reachable from a key is a key. */
  lemma ReachableStaysInKeys(g: Graph, p: seq<Hop>, s: Node, t: Node)
    requires Closed(g) && s in g.nodes && IsWalk(g, p, s, t)
    ensures t in g.nodes
  {
    ClosedSetContainsReachable(g, g.nodes.Keys, p, s, t);
  }

  /** Every node reachable from `s` is a key: a search from `s` never looks
      up a missing key. Weaker than `Closed`, which asks it of every pair
      in the store. */
  ghost predicate ClosedFrom(g: Graph, s: Node) {
    forall v :: Reachable(g, s, v) ==> v in g.nodes
  }

  /** A closed store is closed from each of its keys. */
  lemma ClosedIsClosedFrom(g: Graph, s: Node)
    requires Closed(g) && s in g.nodes
    ensures ClosedFrom(g, s)
  {
    forall v | Reachable(g, s, v)
      ensures v in g.nodes
    {
      var p: seq<Hop> :| IsWalk(g, p, s, v);
      ReachableStaysInKeys(g, p, s, v);
    }
  }

  /** A node that reaches a cycle has a neighbour that reaches a cycle: a
      search that re-expands every neighbour never runs dry from it. */
  lemma CycleStepsForward(g: Graph, v: Node) returns (next: Node, w: Weight)
    requires ReachesCycle(g, v)
    ensures IsEdge(g, v, next, w) && ReachesCycle(g, next)
  {
    var p: seq<Hop>, u: Node, c: seq<Hop> :| IsWalk(g, p, v, u) && IsWalk(g, c, u, u) && |c| > 0;
    if |p| > 0 {
      WalkTail(g, p, v, u);
      next, w := p[0].dst, p[0].weight;
    } else {
      WalkTail(g, c, u, u);
      next, w := c[0].dst, c[0].weight;
      var back := c[1..];
      assert IsWalk(g, back, next, v);
      assert IsWalk(g, back, next, u) && IsWalk(g, c, u, u);
    }
  }

  /** A potential that never drops by more than an edge's weight bounds
      every walk weight from below: the certificate used to show that a
      cost is the cheapest one. */
  lemma {:induction false} PotentialBoundsWalk(g: Graph, phi: map<Node, int>, p: seq<Hop>, s: Node, t: Node)
    requires s in phi
    requires forall u: Node, v: Node, w: Weight :: IsEdge(g, u, v, w) ==> u in phi && v in phi && phi[v] <= phi[u] + w
    requires IsWalk(g, p, s, t)
    ensures t in phi && phi[t] - phi[s] <= Cost(p)
    decreases |p|
  {
    if |p| > 0 {
      WalkInit(g, p, s, t);
      PotentialBoundsWalk(g, phi, p[..|p| - 1], s, p[|p| - 1].src);
    }
  }
}

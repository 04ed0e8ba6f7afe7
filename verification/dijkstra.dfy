/**
 Dijkstra's search as `shortest_path` writes it: a max-heap of
 `DijkstraState`s whose order reverses costs, a table of tentative
 distances, a table of parents, lazy deletion of stale heap entries, and an
 early return when the target is popped. `restore_path` walks the parents
 back to the source.

 The tentative-distance table starts at `i32::MAX` for every key; here a
 node without an entry in `dist` stands for that sentinel.
 */
module Dijkstra {
  import opened Casts
  import opened GraphStore
  import opened Walks

  datatype Option<T> = None | Some(value: T)

  datatype Ordering = Less | Equal | Greater

  /** A heap entry: a node and the cost at which it was pushed. */
  datatype DijkstraState = DijkstraState(node: Node, cost: int)

  /** What `shortest_path` returns: the cost and the parent table on
      success, nothing on failure. */
  datatype DijkstraResult = DijkstraResult(cost: Option<nat>, parents: Option<map<Node, I32>>)

  // ---------------------------------------------------------------------
  // The heap order
  // ---------------------------------------------------------------------

  /** `Ord::cmp` on integers. */
  function CompareInt(a: int, b: int): (r: Ordering)
    ensures r == Less <==> a < b
    ensures r == Greater <==> a > b
  {
    if a < b then Less else if a == b then Equal else Greater
  }

  /** `Ordering::then_with`: the second comparison breaks ties only. */
  function ThenWith(o: Ordering, next: Ordering): Ordering {
    if o == Equal then next else o
  }

  function Reverse(o: Ordering): Ordering {
    match o
    case Less => Greater
    case Equal => Equal
    case Greater => Less
  }

  /** `Ord for DijkstraState`: the other state's cost against this one's,
      then this node against the other's. A cheaper state is greater, so
      the max-heap pops the cheapest state; among equal costs it pops the
      larger node id. */
  function Cmp(a: DijkstraState, b: DijkstraState): (r: Ordering)
    ensures a.cost < b.cost ==> r == Greater
    ensures a.cost > b.cost ==> r == Less
    ensures a.cost == b.cost ==> (r == Greater <==> a.node > b.node) && (r == Less <==> a.node < b.node)
    ensures r == Equal <==> a == b
  {
    ThenWith(CompareInt(b.cost, a.cost), CompareInt(a.node, b.node))
  }

  /** The order is total: swapping the arguments reverses it, and it is
      transitive, so the greatest element of a heap is well defined. */
  lemma CmpIsTotalOrder(a: DijkstraState, b: DijkstraState, c: DijkstraState)
    ensures Cmp(b, a) == Reverse(Cmp(a, b))
    ensures Cmp(a, b) != Less && Cmp(b, c) != Less ==> Cmp(a, c) != Less
  {
  }

  /** `BinaryHeap::pop`: removes and returns the greatest entry, which is
      the cheapest one, the larger node id among equally cheap ones. */
  method HeapPop(queue: seq<DijkstraState>) returns (top: DijkstraState, rest: seq<DijkstraState>)
    requires |queue| > 0
    ensures top in queue && |rest| == |queue| - 1
    ensures multiset(rest) + multiset{top} == multiset(queue)
    ensures forall x :: x in queue ==> Cmp(top, x) != Less
    ensures forall x :: x in queue ==> top.cost <= x.cost
    ensures forall x :: x in queue && x.cost == top.cost ==> x.node <= top.node
    ensures forall x :: x in rest ==> x in queue
    ensures forall x :: x in queue && x != top ==> x in rest
  {
    var best := 0;
    var i := 1;
    while i < |queue|
      invariant 0 <= best < i <= |queue|
      invariant forall j :: 0 <= j < i ==> Cmp(queue[best], queue[j]) != Less
    {
      if Cmp(queue[i], queue[best]) == Greater {
        best := i;
      }
      i := i + 1;
    }
    top := queue[best];
    rest := queue[..best] + queue[best + 1..];
    assert queue == queue[..best] + [top] + queue[best + 1..];
  }

  // ---------------------------------------------------------------------
  // Parent tables
  // ---------------------------------------------------------------------

  /** The parent of `v` as `restore_path` reads it: the table holds each
      parent id cast to `i32`, and the lookup casts it back to `u32`. */
  function ParentOf(parents: map<Node, I32>, v: Node): Node
    requires v in parents
  {
    AsU32(parents[v])
  }

  /** `chain` starts at `s`, never returns to it, and each later node has
      its predecessor as parent: the nodes `restore_path` steps through. */
  ghost predicate ParentChain(parents: map<Node, I32>, s: Node, chain: seq<Node>) {
    && |chain| > 0
    && chain[0] == s
    && (forall i :: 0 < i < |chain| ==> chain[i] != s && chain[i] in parents)
    && (forall i, j :: 0 <= i < |chain| && 0 <= j < |chain| && j == i + 1 ==> ParentOf(parents, chain[j]) == chain[i])
  }

  lemma ChainExtend(parents: map<Node, I32>, s: Node, chain: seq<Node>, v: Node)
    requires ParentChain(parents, s, chain)
    requires v != s && v in parents && ParentOf(parents, v) == chain[|chain| - 1]
    ensures ParentChain(parents, s, chain + [v])
  {
  }

  /** `restore_path`: follows `parents` back from `target` until it meets
      `source`, prepending each node. Given a parent chain from `source`
      to `target`, it steps through exactly that chain, never misses a
      lookup, and returns the chain. */
  method RestorePath(source: Node, target: Node, parents: map<Node, I32>, ghost chain: seq<Node>)
    returns (path: seq<Node>)
    requires ParentChain(parents, source, chain) && chain[|chain| - 1] == target
    ensures path == chain
    ensures path[0] == source && path[|path| - 1] == target
  {
    path := [];
    var current := target;
    ghost var k := |chain| - 1;
    while current != source
      invariant 0 <= k < |chain| && current == chain[k]
      invariant path == chain[k + 1..]
      decreases k
    {
      assert k > 0;
      path := [current] + path;
      assert ParentOf(parents, chain[k]) == chain[k - 1];
      current := ParentOf(parents, current);
      k := k - 1;
    }
    assert k == 0;
    path := [source] + path;
  }


  // ---------------------------------------------------------------------
  // The state of the search and what it keeps
  // ---------------------------------------------------------------------

  /** Proof bookkeeping: the nodes expanded so far (popped at their
      tentative distance), the order they were expanded in, and the next
      number to hand out. */
  datatype Ledger = Ledger(settled: set<Node>, rank: map<Node, nat>, next: nat)

  /** The tables cover the keys, the source sits at distance 0 with parent
      0, the target has not been expanded, and every expanded node has a
      rank below the next one. */
  ghost predicate Shape(g: Graph, s: Node, t: Node, dist: map<Node, nat>, parents: map<Node, I32>, book: Ledger) {
    && Closed(g) && s in g.nodes
    && dist.Keys <= g.nodes.Keys && s in dist && dist[s] == 0
    && parents.Keys == g.nodes.Keys && parents[s] == 0
    && book.settled <= dist.Keys && t !in book.settled
    && book.rank.Keys == book.settled && (forall u :: u in book.rank ==> book.rank[u] < book.next)
  }

  /** Every heap entry names a node with a tentative distance no larger
      than the entry's cost. */
  ghost predicate QueueSound(dist: map<Node, nat>, queue: seq<DijkstraState>) {
    forall x :: x in queue ==> x.node in dist && dist[x.node] <= x.cost
  }

  /** Every node with a tentative distance that has not been expanded
      waits in the heap at exactly that distance. */
  ghost predicate QueueComplete(dist: map<Node, nat>, queue: seq<DijkstraState>, settled: set<Node>) {
    forall v :: v in dist && v !in settled ==> DijkstraState(v, dist[v]) in queue
  }

  /** No pair leaving `u` leads to a node without a tentative distance or
      with one above `cost` plus the pair's weight. */
  ghost predicate AllRelaxed(g: Graph, dist: map<Node, nat>, u: Node, cost: nat) {
    forall v: Node, w: Weight :: IsEdge(g, u, v, w) ==> v in dist && dist[v] <= cost + w
  }

  /** No pair leaving `u` offers a shorter distance to its neighbour. */
  ghost predicate Relaxed(g: Graph, dist: map<Node, nat>, u: Node) {
    u in dist && AllRelaxed(g, dist, u, dist[u])
  }

  /** No walk from `s` to `u` is cheaper than the distance recorded. */
  ghost predicate LowerBound(g: Graph, s: Node, dist: map<Node, nat>, u: Node) {
    u in dist && forall p: seq<Hop> :: IsWalk(g, p, s, u) ==> dist[u] <= Cost(p)
  }

  /** Every expanded node is relaxed, and its distance is the cheapest. */
  ghost predicate SettledFacts(g: Graph, s: Node, dist: map<Node, nat>, settled: set<Node>) {
    forall u :: u in settled ==> Relaxed(g, dist, u) && LowerBound(g, s, dist, u)
  }

  /** The parent of `v` was expanded earlier, a pair leads from it to `v`,
      and the pair's weight accounts for the difference in distance. */
  ghost predicate ParentLink(g: Graph, dist: map<Node, nat>, parents: map<Node, I32>, book: Ledger, v: Node) {
    && v in dist && v in parents
    && ParentOf(parents, v) in book.settled && ParentOf(parents, v) in dist && ParentOf(parents, v) in book.rank
    && (exists w: Weight :: IsEdge(g, ParentOf(parents, v), v, w) && dist[v] == dist[ParentOf(parents, v)] + w)
    && book.rank[ParentOf(parents, v)] < (if v in book.rank then book.rank[v] else book.next)
  }

  /** The source is at distance 0 and every other node with a tentative
      distance is linked to its parent. */
  ghost predicate ParentTree(g: Graph, s: Node, dist: map<Node, nat>, parents: map<Node, I32>, book: Ledger) {
    && s in dist && dist[s] == 0
    && forall v {:trigger ParentLink(g, dist, parents, book, v)} :: v in dist && v != s ==> ParentLink(g, dist, parents, book, v)
  }

  /** The loop invariant of `shortest_path` once the source is not the
      target. */
  ghost predicate SearchInvariant(g: Graph, s: Node, t: Node, queue: seq<DijkstraState>,
                                  dist: map<Node, nat>, parents: map<Node, I32>, book: Ledger) {
    && Shape(g, s, t, dist, parents, book)
    && QueueSound(dist, queue)
    && QueueComplete(dist, queue, book.settled)
    && SettledFacts(g, s, dist, book.settled)
    && ParentTree(g, s, dist, parents, book)
  }

  // ---------------------------------------------------------------------
  // Lemmas about the search
  // ---------------------------------------------------------------------

  /** `p` is a walk from `s` to `v` whose nodes form a parent chain. */
  ghost predicate ChainedWalk(g: Graph, parents: map<Node, I32>, s: Node, v: Node, p: seq<Hop>) {
    IsWalk(g, p, s, v) && ParentChain(parents, s, WalkNodes(s, p))
  }

  /** Extending a walk whose nodes form a parent chain by a pair into a
      child of its last node. */
  lemma ChainWalkExtend(g: Graph, s: Node, parents: map<Node, I32>, q: seq<Hop>, u: Node, v: Node, w: Weight)
    requires ChainedWalk(g, parents, s, u, q)
    requires IsEdge(g, u, v, w) && v != s && v in parents && ParentOf(parents, v) == u
    ensures ChainedWalk(g, parents, s, v, q + [Hop(u, v, w)]) && Cost(q + [Hop(u, v, w)]) == Cost(q) + w
  {
    WalkExtend(g, q, s, u, v, w);
    WalkNodesEnd(g, q, s, u);
    ChainExtend(parents, s, WalkNodes(s, q), v);
  }

  /** Following parents back from any node with a tentative distance gives
      a walk from the source costing exactly that distance, whose nodes
      form a parent chain. */
  lemma {:induction false} BuildWalk(g: Graph, s: Node, dist: map<Node, nat>, parents: map<Node, I32>,
                                     book: Ledger, v: Node)
    returns (p: seq<Hop>)
    requires ParentTree(g, s, dist, parents, book) && v in dist
    ensures ChainedWalk(g, parents, s, v, p) && Cost(p) == dist[v]
    decreases if v in book.rank then book.rank[v] else book.next
  {
    if v == s {
      p := [];
      assert ParentChain(parents, s, WalkNodes(s, p));
    } else {
      assert ParentLink(g, dist, parents, book, v);
      var u := ParentOf(parents, v);
      var w: Weight :| IsEdge(g, u, v, w) && dist[v] == dist[u] + w;
      var q := BuildWalk(g, s, dist, parents, book, u);
      ChainWalkExtend(g, s, parents, q, u, v, w);
      p := q + [Hop(u, v, w)];
    }
  }

  /** The cheapest heap entry costs no more than any walk from the source
      to a node not yet expanded: the walk leaves the expanded region at
      some node whose tentative distance is in the heap. */
  lemma {:induction false} PoppedIsLowerBound(g: Graph, s: Node, queue: seq<DijkstraState>, dist: map<Node, nat>,
                                              settled: set<Node>, top: DijkstraState, p: seq<Hop>, x: Node)
    requires s in dist && dist[s] == 0
    requires QueueComplete(dist, queue, settled) && SettledFacts(g, s, dist, settled)
    requires forall x :: x in queue ==> top.cost <= x.cost
    requires IsWalk(g, p, s, x) && x !in settled
    ensures top.cost <= Cost(p)
    decreases |p|
  {
    if |p| == 0 {
      assert DijkstraState(s, dist[s]) in queue;
    } else {
      WalkInit(g, p, s, x);
      var y, w := p[|p| - 1].src, p[|p| - 1].weight;
      if y in settled {
        assert Relaxed(g, dist, y) && LowerBound(g, s, dist, y);
        assert DijkstraState(x, dist[x]) in queue;
      } else {
        PoppedIsLowerBound(g, s, queue, dist, settled, top, p[..|p| - 1], y);
      }
    }
  }

  /** When the target is popped, the popped cost is its tentative
      distance and the cheapest cost of any walk to it. */
  lemma TargetPopped(g: Graph, s: Node, t: Node, queue: seq<DijkstraState>,
                     dist: map<Node, nat>, parents: map<Node, I32>, book: Ledger, top: DijkstraState)
    requires SearchInvariant(g, s, t, queue, dist, parents, book)
    requires top in queue && top.node == t
    requires forall x :: x in queue ==> top.cost <= x.cost
    ensures t in dist && top.cost == dist[t]
    ensures IsShortestCost(g, s, t, dist[t])
    ensures exists p: seq<Hop> :: IsWalk(g, p, s, t) && Cost(p) == dist[t] && ParentChain(parents, s, WalkNodes(s, p))
  {
    assert DijkstraState(t, dist[t]) in queue;
    var p := BuildWalk(g, s, dist, parents, book, t);
    forall q: seq<Hop> | IsWalk(g, q, s, t)
      ensures dist[t] <= Cost(q)
    {
      PoppedIsLowerBound(g, s, queue, dist, book.settled, top, q, t);
    }
  }

  /** When the heap runs dry, every node with a tentative distance has
      been expanded, the expanded nodes are closed under pairs, and the
      target, never expanded, is unreachable. */
  lemma Exhausted(g: Graph, s: Node, t: Node, dist: map<Node, nat>, parents: map<Node, I32>, book: Ledger)
    requires SearchInvariant(g, s, t, [], dist, parents, book)
    ensures !Reachable(g, s, t)
  {
    assert book.settled == dist.Keys;
    assert ClosedUnderEdges(g, book.settled) by {
      forall u: Node, v: Node, w: Weight | u in book.settled && IsEdge(g, u, v, w)
        ensures v in book.settled
      {
        assert Relaxed(g, dist, u);
      }
    }
    if Reachable(g, s, t) {
      var p: seq<Hop> :| IsWalk(g, p, s, t);
      ClosedSetContainsReachable(g, book.settled, p, s, t);
    }
  }

  // ---------------------------------------------------------------------
  // Relaxing the pairs of one node
  // ---------------------------------------------------------------------

  /** `v` got a new tentative distance: it had none, or a larger one. */
  ghost predicate Improved(dist: map<Node, nat>, dist': map<Node, nat>, v: Node) {
    v in dist' && (v !in dist || dist'[v] < dist[v])
  }

  /** An improved node has `u` as parent, a pair from `u` accounting for
      its new distance, and a heap entry at that distance. */
  ghost predicate ImprovedBy(g: Graph, u: Node, cost: nat, v: Node,
                             queue': seq<DijkstraState>, dist': map<Node, nat>, parents': map<Node, I32>) {
    && v in dist' && v in parents' && parents'[v] == AsI32(u)
    && DijkstraState(v, dist'[v]) in queue'
    && exists w: Weight :: IsEdge(g, u, v, w) && dist'[v] == cost + w
  }

  /** The changes relaxing from `u` at cost `cost` may make: no distance
      is dropped or grows, a node whose distance improved is linked to `u`
      and waits in the heap, every other parent stays, and the heap keeps
      its entries and gains only sound ones. */
  ghost predicate RelaxChanges(g: Graph, u: Node, cost: nat,
                               queue: seq<DijkstraState>, dist: map<Node, nat>, parents: map<Node, I32>,
                               queue': seq<DijkstraState>, dist': map<Node, nat>, parents': map<Node, I32>) {
    && dist.Keys <= dist'.Keys && parents'.Keys == parents.Keys
    && (forall v :: v in dist ==> dist'[v] <= dist[v])
    && (forall v :: v in parents && !Improved(dist, dist', v) ==> parents'[v] == parents[v])
    && (forall v :: Improved(dist, dist', v) ==> ImprovedBy(g, u, cost, v, queue', dist', parents'))
    && (forall x :: x in queue ==> x in queue')
    && (forall x :: x in queue' ==> x in queue || (x.node in dist' && dist'[x.node] <= x.cost))
  }

  /** What relaxing all the pairs of `u` at cost `cost` does: the
      neighbours gain tentative distances, every pair is relaxed, and the
      changes are those allowed above. */
  ghost predicate RelaxOutcome(g: Graph, u: Node, cost: nat,
                               queue: seq<DijkstraState>, dist: map<Node, nat>, parents: map<Node, I32>,
                               queue': seq<DijkstraState>, dist': map<Node, nat>, parents': map<Node, I32>) {
    && u in g.nodes
    && dist'.Keys == dist.Keys + Neighbours(g, u)
    && AllRelaxed(g, dist', u, cost)
    && RelaxChanges(g, u, cost, queue, dist, parents, queue', dist', parents')
  }

  /** The same after the pairs in `done` only; while every pair is already
      relaxed, nothing has changed. */
  ghost predicate RelaxProgress(g: Graph, u: Node, cost: nat, done: set<(Node, Weight)>,
                                queue: seq<DijkstraState>, dist: map<Node, nat>, parents: map<Node, I32>,
                                queue': seq<DijkstraState>, dist': map<Node, nat>, parents': map<Node, I32>) {
    && u in g.nodes && done <= g.nodes[u]
    && (forall v :: v in dist' ==> v in dist || v in Neighbours(g, u))
    && (forall e :: e in done ==> e.0 in dist' && dist'[e.0] <= cost + e.1)
    && RelaxChanges(g, u, cost, queue, dist, parents, queue', dist', parents')
    && (AllRelaxed(g, dist, u, cost) ==> queue' == queue && dist' == dist && parents' == parents)
  }

  /** The improved nodes after one more improving pair: the pair's own
      neighbour, newly linked to `u`, and those improved before, whose links
      and heap entries stay. */
  lemma ImprovedAfterUpdate(g: Graph, u: Node, cost: nat, dist: map<Node, nat>,
                            q: seq<DijkstraState>, d: map<Node, nat>, p: map<Node, I32>, e: (Node, Weight),
                            q': seq<DijkstraState>, d': map<Node, nat>, p': map<Node, I32>)
    requires u in g.nodes && e in g.nodes[u]
    requires forall v :: Improved(dist, d, v) ==> ImprovedBy(g, u, cost, v, q, d, p)
    requires forall v :: v in dist && v in d ==> d[v] <= dist[v]
    requires q' == q + [DijkstraState(e.0, e.1 + cost)] && d' == d[e.0 := e.1 + cost] && p' == p[e.0 := AsI32(u)]
    ensures forall v :: Improved(dist, d', v) ==> ImprovedBy(g, u, cost, v, q', d', p')
  {
    forall v | Improved(dist, d', v)
      ensures ImprovedBy(g, u, cost, v, q', d', p')
    {
      if v == e.0 {
        assert IsEdge(g, u, v, e.1);
        assert DijkstraState(v, d'[v]) == q'[|q'| - 1];
      } else {
        assert Improved(dist, d, v);
        var w: Weight :| IsEdge(g, u, v, w) && d[v] == cost + w;
        assert DijkstraState(v, d[v]) in q;
      }
    }
  }

  /** Recording one more improving pair keeps the changes within those
      allowed. */
  lemma ChangesAfterUpdate(g: Graph, u: Node, cost: nat,
                           queue: seq<DijkstraState>, dist: map<Node, nat>, parents: map<Node, I32>,
                           q: seq<DijkstraState>, d: map<Node, nat>, p: map<Node, I32>, e: (Node, Weight),
                           q': seq<DijkstraState>, d': map<Node, nat>, p': map<Node, I32>)
    requires u in g.nodes && e in g.nodes[u] && (e.0 !in d || e.1 + cost < d[e.0]) && e.0 in p
    requires RelaxChanges(g, u, cost, queue, dist, parents, q, d, p)
    requires q' == q + [DijkstraState(e.0, e.1 + cost)] && d' == d[e.0 := e.1 + cost] && p' == p[e.0 := AsI32(u)]
    ensures RelaxChanges(g, u, cost, queue, dist, parents, q', d', p')
  {
    assert Improved(dist, d', e.0);
    forall v | v in dist
      ensures d'[v] <= dist[v]
    {
    }
    ImprovedAfterUpdate(g, u, cost, dist, q, d, p, e, q', d', p');
    forall x | x in q'
      ensures x in queue || (x.node in d' && d'[x.node] <= x.cost)
    {
      if x in q {
      }
    }
  }

  /** Relaxing one more pair that improves its neighbour keeps the
      progress predicate. */
  lemma RelaxPairImproves(g: Graph, u: Node, cost: nat, done: set<(Node, Weight)>,
                          queue: seq<DijkstraState>, dist: map<Node, nat>, parents: map<Node, I32>,
                          q: seq<DijkstraState>, d: map<Node, nat>, p: map<Node, I32>, e: (Node, Weight),
                          q': seq<DijkstraState>, d': map<Node, nat>, p': map<Node, I32>)
    requires Closed(g) && parents.Keys == g.nodes.Keys
    requires RelaxProgress(g, u, cost, done, queue, dist, parents, q, d, p)
    requires e in g.nodes[u] && (e.0 !in d || e.1 + cost < d[e.0])
    requires q' == q + [DijkstraState(e.0, e.1 + cost)] && d' == d[e.0 := e.1 + cost] && p' == p[e.0 := AsI32(u)]
    ensures RelaxProgress(g, u, cost, done + {e}, queue, dist, parents, q', d', p')
  {
    assert IsEdge(g, u, e.0, e.1);
    assert e.0 in Neighbours(g, u);
    assert !AllRelaxed(g, dist, u, cost) by {
      assert AllRelaxed(g, dist, u, cost) ==> d == dist;
    }
    ChangesAfterUpdate(g, u, cost, queue, dist, parents, q, d, p, e, q', d', p');
    forall e2 | e2 in done + {e}
      ensures e2.0 in d' && d'[e2.0] <= cost + e2.1
    {
    }
  }

  /** Relaxing one more pair that does not improve its neighbour keeps
      the progress predicate. */
  lemma RelaxPairSkips(g: Graph, u: Node, cost: nat, done: set<(Node, Weight)>,
                       queue: seq<DijkstraState>, dist: map<Node, nat>, parents: map<Node, I32>,
                       q: seq<DijkstraState>, d: map<Node, nat>, p: map<Node, I32>, e: (Node, Weight))
    requires RelaxProgress(g, u, cost, done, queue, dist, parents, q, d, p)
    requires e in g.nodes[u] && e.0 in d && d[e.0] <= e.1 + cost
    ensures RelaxProgress(g, u, cost, done + {e}, queue, dist, parents, q, d, p)
  {
  }

  /** Once every pair of `u` is done, the progress predicate is the
      outcome. */
  lemma RelaxFinish(g: Graph, u: Node, cost: nat,
                    queue: seq<DijkstraState>, dist: map<Node, nat>, parents: map<Node, I32>,
                    queue': seq<DijkstraState>, dist': map<Node, nat>, parents': map<Node, I32>)
    requires u in g.nodes
    requires RelaxProgress(g, u, cost, g.nodes[u], queue, dist, parents, queue', dist', parents')
    ensures RelaxOutcome(g, u, cost, queue, dist, parents, queue', dist', parents')
  {
    forall v | v in Neighbours(g, u)
      ensures v in dist'
    {
      var w: Weight :| IsEdge(g, u, v, w);
      assert (v, w) in g.nodes[u];
    }
    forall v: Node, w: Weight | IsEdge(g, u, v, w)
      ensures v in dist' && dist'[v] <= cost + w
    {
      assert (v, w) in g.nodes[u];
    }
  }

  /** One pass of the inner loop: the state `(v, cost + w)` for the pair
      `e == (v, w)` is pushed, and recorded with `u` as parent, exactly when
      `v` has no tentative distance yet or a larger one. */
  method RelaxPair(g: Graph, u: Node, cost: nat, ghost done: set<(Node, Weight)>,
                   ghost queue: seq<DijkstraState>, ghost dist: map<Node, nat>, ghost parents: map<Node, I32>,
                   q: seq<DijkstraState>, d: map<Node, nat>, p: map<Node, I32>, e: (Node, Weight))
    returns (q': seq<DijkstraState>, d': map<Node, nat>, p': map<Node, I32>)
    requires Closed(g) && parents.Keys == g.nodes.Keys
    requires RelaxProgress(g, u, cost, done, queue, dist, parents, q, d, p)
    requires e in g.nodes[u]
    ensures RelaxProgress(g, u, cost, done + {e}, queue, dist, parents, q', d', p')
    ensures e.0 in d' && d'[e.0] <= e.1 + cost
    ensures e.0 !in d || e.1 + cost < d[e.0] <==> q' != q
  {
    var next := DijkstraState(e.0, e.1 + cost);
    if next.node !in d || next.cost < d[next.node] {
      q', d', p' := q + [next], d[next.node := next.cost], p[next.node := AsI32(u)];
      RelaxPairImproves(g, u, cost, done, queue, dist, parents, q, d, p, e, q', d', p');
    } else {
      q', d', p' := q, d, p;
      RelaxPairSkips(g, u, cost, done, queue, dist, parents, q, d, p, e);
    }
  }

  /** The inner loop of `shortest_path`: for each pair `(v, w)` of `u`'s
      adjacency set, in some order, the state `(v, cost + w)` is pushed and
      recorded as `v`'s tentative distance, with `u` as parent, when it
      beats the distance recorded so far. When every pair is already
      relaxed, nothing changes. */
  method Relax(g: Graph, u: Node, cost: nat,
               queue: seq<DijkstraState>, dist: map<Node, nat>, parents: map<Node, I32>)
    returns (queue': seq<DijkstraState>, dist': map<Node, nat>, parents': map<Node, I32>)
    requires Closed(g) && u in g.nodes && parents.Keys == g.nodes.Keys
    ensures RelaxOutcome(g, u, cost, queue, dist, parents, queue', dist', parents')
    ensures AllRelaxed(g, dist, u, cost) ==> queue' == queue && dist' == dist && parents' == parents
  {
    queue', dist', parents' := queue, dist, parents;
    var rest := GetNodeAdjacents(g, u);
    ghost var done: set<(Node, Weight)> := {};
    while rest != {}
      invariant rest == g.nodes[u] - done
      invariant RelaxProgress(g, u, cost, done, queue, dist, parents, queue', dist', parents')
      decreases rest
    {
      var e: (Node, Weight) :| e in rest;
      queue', dist', parents' := RelaxPair(g, u, cost, done, queue, dist, parents, queue', dist', parents', e);
      done := done + {e};
      rest := rest - {e};
    }
    RelaxFinish(g, u, cost, queue, dist, parents, queue', dist', parents');
  }

  // ---------------------------------------------------------------------
  // One iteration of the search
  // ---------------------------------------------------------------------

  /** Popping a stale entry and dropping it keeps the invariant. */
  lemma StaleStep(g: Graph, s: Node, t: Node, queue: seq<DijkstraState>,
                  dist: map<Node, nat>, parents: map<Node, I32>, book: Ledger,
                  top: DijkstraState, rest: seq<DijkstraState>)
    requires SearchInvariant(g, s, t, queue, dist, parents, book)
    requires forall x :: x in rest ==> x in queue
    requires forall x :: x in queue && x != top ==> x in rest
    requires top.node in dist && top.cost > dist[top.node]
    ensures SearchInvariant(g, s, t, rest, dist, parents, book)
  {
  }

  /** Popping a node already expanded at its distance again: its pairs
      are all relaxed, and dropping the entry keeps the invariant. */
  lemma RepeatStep(g: Graph, s: Node, t: Node, queue: seq<DijkstraState>,
                   dist: map<Node, nat>, parents: map<Node, I32>, book: Ledger,
                   top: DijkstraState, rest: seq<DijkstraState>)
    requires SearchInvariant(g, s, t, queue, dist, parents, book)
    requires forall x :: x in rest ==> x in queue
    requires forall x :: x in queue && x != top ==> x in rest
    requires top.node in book.settled && top.cost == dist[top.node]
    ensures AllRelaxed(g, dist, top.node, top.cost)
    ensures SearchInvariant(g, s, t, rest, dist, parents, book)
  {
    assert Relaxed(g, dist, top.node);
  }

  /** Relaxing from a node popped at its distance never lowers the
      distance of an expanded node, nor of the popped node itself. */
  lemma SettledKeepDistance(g: Graph, s: Node, dist: map<Node, nat>, parents: map<Node, I32>, book: Ledger,
                            u: Node, dist': map<Node, nat>, x: Node)
    requires ParentTree(g, s, dist, parents, book) && SettledFacts(g, s, dist, book.settled)
    requires book.settled <= dist.Keys && u in dist
    requires forall v :: Improved(dist, dist', v) ==> exists w: Weight :: IsEdge(g, u, v, w) && dist'[v] == dist[u] + w
    requires x == u || x in book.settled
    ensures x in dist && !Improved(dist, dist', x)
  {
    if x != u {
      var pu := BuildWalk(g, s, dist, parents, book, u);
      assert LowerBound(g, s, dist, x);
      forall w: Weight | IsEdge(g, u, x, w)
        ensures dist[x] <= dist[u] + w
      {
        WalkExtend(g, pu, s, u, x, w);
      }
    }
  }

  /** Every parent link survives the relaxation from `u`, once `u` is
      settled under the next rank. */
  lemma LinksAfterSettle(g: Graph, s: Node, dist: map<Node, nat>, parents: map<Node, I32>, book: Ledger,
                         u: Node, queue': seq<DijkstraState>, dist': map<Node, nat>, parents': map<Node, I32>)
    requires ParentTree(g, s, dist, parents, book) && u in dist && u !in book.settled
    requires book.rank.Keys == book.settled
    requires dist'.Keys <= parents.Keys && parents'.Keys == parents.Keys
    requires forall v :: v in parents && !Improved(dist, dist', v) ==> parents'[v] == parents[v]
    requires forall v :: Improved(dist, dist', v) ==> ImprovedBy(g, u, dist[u], v, queue', dist', parents')
    requires forall v :: v in dist' ==> v in dist || Improved(dist, dist', v)
    requires forall x :: x in book.settled + {u} ==> x in dist && !Improved(dist, dist', x)
    requires forall v :: v in dist && !Improved(dist, dist', v) ==> v in dist' && dist'[v] == dist[v]
    ensures ParentTree(g, s, dist', parents',
                       Ledger(book.settled + {u}, book.rank[u := book.next], book.next + 1))
  {
    var book' := Ledger(book.settled + {u}, book.rank[u := book.next], book.next + 1);
    forall v | v in dist' && v != s
      ensures ParentLink(g, dist', parents', book', v)
    {
      if !Improved(dist, dist', v) {
        assert ParentLink(g, dist, parents, book, v);
        var pv := ParentOf(parents, v);
        assert pv != u && book'.rank[pv] == book.rank[pv];
        var w: Weight :| IsEdge(g, pv, v, w) && dist[v] == dist[pv] + w;
        assert dist'[v] == dist'[pv] + w;
      } else {
        var w: Weight :| IsEdge(g, u, v, w) && dist'[v] == dist[u] + w;
        assert v !in book'.settled;
      }
    }
  }

  /** Expanding a node popped at its distance for the first time keeps
      the invariant, with that node settled under the next rank. */
  lemma SettleStep(g: Graph, s: Node, t: Node, queue: seq<DijkstraState>,
                   dist: map<Node, nat>, parents: map<Node, I32>, book: Ledger,
                   top: DijkstraState, rest: seq<DijkstraState>,
                   queue': seq<DijkstraState>, dist': map<Node, nat>, parents': map<Node, I32>)
    requires SearchInvariant(g, s, t, queue, dist, parents, book)
    requires top in queue && forall x :: x in queue ==> top.cost <= x.cost
    requires forall x :: x in rest ==> x in queue
    requires forall x :: x in queue && x != top ==> x in rest
    requires top.node != t && top.node !in book.settled
    requires top.node in dist && top.cost == dist[top.node]
    requires RelaxOutcome(g, top.node, dist[top.node], rest, dist, parents, queue', dist', parents')
    ensures SearchInvariant(g, s, t, queue', dist', parents',
                            Ledger(book.settled + {top.node}, book.rank[top.node := book.next], book.next + 1))
  {
    var u := top.node;
    var book' := Ledger(book.settled + {u}, book.rank[u := book.next], book.next + 1);
    assert LowerBound(g, s, dist, u) by {
      forall p: seq<Hop> | IsWalk(g, p, s, u)
        ensures dist[u] <= Cost(p)
      {
        PoppedIsLowerBound(g, s, queue, dist, book.settled, top, p, u);
      }
    }
    forall x | x in book'.settled
      ensures x in dist && !Improved(dist, dist', x)
    {
      SettledKeepDistance(g, s, dist, parents, book, u, dist', x);
    }
    assert Shape(g, s, t, dist', parents', book') by {
      assert !Improved(dist, dist', s);
    }
    assert QueueSound(dist', queue') by {
      forall x | x in queue'
        ensures x.node in dist' && dist'[x.node] <= x.cost
      {
        if x in rest {
          assert x in queue;
        }
      }
    }
    assert QueueComplete(dist', queue', book'.settled) by {
      forall v | v in dist' && v !in book'.settled
        ensures DijkstraState(v, dist'[v]) in queue'
      {
        if !Improved(dist, dist', v) {
          assert DijkstraState(v, dist[v]) in queue;
        }
      }
    }
    assert SettledFacts(g, s, dist', book'.settled) by {
      forall x | x in book'.settled
        ensures Relaxed(g, dist', x) && LowerBound(g, s, dist', x)
      {
        if x != u {
          assert Relaxed(g, dist, x) && LowerBound(g, s, dist, x);
        }
      }
    }
    LinksAfterSettle(g, s, dist, parents, book, u, queue', dist', parents');
  }

  /** One pass of the main loop after popping `top`, which is not the
      target: a stale entry is dropped; otherwise the pairs of its node
      are relaxed at its cost. The invariant is kept, and either one more
      key is expanded or the heap shrinks. */
  method Advance(g: Graph, s: Node, t: Node, queue: seq<DijkstraState>,
                 dist: map<Node, nat>, parents: map<Node, I32>, ghost book: Ledger,
                 top: DijkstraState, rest: seq<DijkstraState>)
    returns (queue': seq<DijkstraState>, dist': map<Node, nat>, parents': map<Node, I32>, ghost book': Ledger)
    requires SearchInvariant(g, s, t, queue, dist, parents, book)
    requires top in queue && forall x :: x in queue ==> top.cost <= x.cost
    requires forall x :: x in rest ==> x in queue
    requires forall x :: x in queue && x != top ==> x in rest
    requires |rest| == |queue| - 1 && top.node != t
    ensures SearchInvariant(g, s, t, queue', dist', parents', book')
    ensures |g.nodes.Keys - book'.settled| < |g.nodes.Keys - book.settled| ||
            (book'.settled == book.settled && |queue'| < |queue|)
  {
    if top.cost > dist[top.node] {
      StaleStep(g, s, t, queue, dist, parents, book, top, rest);
      return rest, dist, parents, book;
    }
    queue', dist', parents' := Relax(g, top.node, top.cost, rest, dist, parents);
    if top.node in book.settled {
      RepeatStep(g, s, t, queue, dist, parents, book, top, rest);
      book' := book;
    } else {
      SettleStep(g, s, t, queue, dist, parents, book, top, rest, queue', dist', parents');
      SubsetCard(g.nodes.Keys - (book.settled + {top.node}), g.nodes.Keys - book.settled);
      book' := Ledger(book.settled + {top.node}, book.rank[top.node := book.next], book.next + 1);
    }
  }

  // ---------------------------------------------------------------------
  // The search
  // ---------------------------------------------------------------------

  /** The state `shortest_path` sets up before its loop satisfies the
      search invariant. */
  lemma SearchStarts(g: Graph, s: Node, t: Node)
    requires Closed(g) && s in g.nodes
    ensures SearchInvariant(g, s, t, [DijkstraState(s, 0)], map[s := 0],
                            map n | n in g.nodes :: if n == s then 0 else -1, Ledger({}, map[], 0))
  {
  }

  /** The search loop of `shortest_path` for a target other than the
      source: a cost comes back exactly when the target is reachable; the
      cost is the cheapest walk weight, and the parent table, which keeps
      an entry for every key and maps the source to 0, leads back from the
      target along a walk of that weight. */
  method Search(g: Graph, s: Node, t: Node) returns (r: DijkstraResult)
    requires Closed(g) && s in g.nodes && s != t
    ensures r.cost.Some? <==> r.parents.Some?
    ensures r.cost.Some? <==> Reachable(g, s, t)
    ensures r.cost.Some? ==> IsShortestCost(g, s, t, r.cost.value)
    ensures r.cost.Some? ==> exists p: seq<Hop> ::
              IsWalk(g, p, s, t) && Cost(p) == r.cost.value && ParentChain(r.parents.value, s, WalkNodes(s, p))
    ensures r.parents.Some? ==> r.parents.value.Keys == g.nodes.Keys && r.parents.value[s] == 0
  {
    var queue := [DijkstraState(s, 0)];
    var dist: map<Node, nat> := map[s := 0];
    var parents: map<Node, I32> := map n | n in g.nodes :: if n == s then 0 else -1;
    ghost var book := Ledger({}, map[], 0);
    SearchStarts(g, s, t);
    while |queue| > 0
      invariant SearchInvariant(g, s, t, queue, dist, parents, book)
      decreases |g.nodes.Keys - book.settled|, |queue|
    {
      var top, rest := HeapPop(queue);
      if top.node == t {
        TargetPopped(g, s, t, queue, dist, parents, book, top);
        return DijkstraResult(Some(top.cost), Some(parents));
      }
      queue, dist, parents, book := Advance(g, s, t, queue, dist, parents, book, top, rest);
    }
    Exhausted(g, s, t, dist, parents, book);
    return DijkstraResult(None, None);
  }

  /** `shortest_path`. When the source is the target the answer is cost 0
      with the fixed parent table `{0: 0}`; otherwise it is the answer of
      the search loop. */
  method ShortestPath(g: Graph, s: Node, t: Node) returns (r: DijkstraResult)
    requires s != t ==> Closed(g) && s in g.nodes
    ensures s == t ==> r == DijkstraResult(Some(0), Some(map[0 := 0]))
    ensures r.cost.Some? <==> r.parents.Some?
    ensures r.cost.Some? <==> Reachable(g, s, t)
    ensures r.cost.Some? ==> IsShortestCost(g, s, t, r.cost.value)
    ensures r.cost.Some? ==> exists p: seq<Hop> ::
              IsWalk(g, p, s, t) && Cost(p) == r.cost.value && ParentChain(r.parents.value, s, WalkNodes(s, p))
    ensures s != t && r.parents.Some? ==> r.parents.value.Keys == g.nodes.Keys && r.parents.value[s] == 0
  {
    if s == t {
      assert IsWalk(g, [], s, s) && Cost([]) == 0;
      assert ParentChain(map[0 := 0], s, WalkNodes(s, []));
      return DijkstraResult(Some(0), Some(map[0 := 0]));
    }
    r := Search(g, s, t);
  }

  /** What a caller does with the two: search, then restore the path from
      the returned parents. The path is the node list of a cheapest walk. */
  method ShortestRoute(g: Graph, s: Node, t: Node) returns (cost: Option<nat>, path: seq<Node>)
    requires s != t ==> Closed(g) && s in g.nodes
    ensures cost.Some? <==> Reachable(g, s, t)
    ensures cost.Some? ==> IsShortestCost(g, s, t, cost.value)
    ensures cost.Some? ==> exists p: seq<Hop> :: IsWalk(g, p, s, t) && Cost(p) == cost.value && WalkNodes(s, p) == path
    ensures cost.None? ==> path == []
  {
    var r := ShortestPath(g, s, t);
    cost := r.cost;
    path := [];
    if r.cost.Some? {
      ghost var p: seq<Hop> :| IsWalk(g, p, s, t) && Cost(p) == r.cost.value && ParentChain(r.parents.value, s, WalkNodes(s, p));
      WalkNodesEnd(g, p, s, t);
      path := RestorePath(s, t, r.parents.value, WalkNodes(s, p));
    }
  }
}

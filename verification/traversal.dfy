/**
 Depth-first search, the connectivity check built on it, and the
 breadth-first target search, both as written (its visited set is filled
 but never consulted) and corrected.

 The source looks up every node it expands, so expanding a node that is
 not a key panics. The searches therefore require every node reachable from
 the start to be a key (`ClosedFrom`); pairs elsewhere in the store may
 dangle.
 */
module Traversal {
  import opened Casts
  import opened GraphStore
  import opened Walks

  /** Every entry of `xs` is a key reachable from `start`. */
  ghost predicate AllReachable(g: Graph, start: Node, xs: seq<Node>) {
    forall i :: 0 <= i < |xs| ==> xs[i] in g.nodes && Reachable(g, start, xs[i])
  }

  /** Every pair leaving a node of `done` leads into `done` or to a node
      still waiting in `pending`. */
  ghost predicate Frontier(g: Graph, done: set<Node>, pending: seq<Node>) {
    forall u: Node, v: Node, w: Weight :: u in done && IsEdge(g, u, v, w) ==> v in done || v in pending
  }

  /** Some entry of `xs` reaches a cycle. */
  ghost predicate SomeReachesCycle(g: Graph, xs: seq<Node>) {
    exists i :: 0 <= i < |xs| && ReachesCycle(g, xs[i])
  }

  /** The inner `for adjacent in ...` loop of both searches: appends the
      neighbour of every pair of `u`'s adjacency set, in some order. */
  method PushNeighbours(g: Graph, u: Node, xs: seq<Node>) returns (ys: seq<Node>)
    requires u in g.nodes
    ensures |ys| >= |xs| && ys[..|xs|] == xs
    ensures forall v :: v in Neighbours(g, u) ==> v in ys[|xs|..]
    ensures forall i :: |xs| <= i < |ys| ==> ys[i] in Neighbours(g, u)
  {
    ys := xs;
    var rest := GetNodeAdjacents(g, u);
    while rest != {}
      invariant rest <= g.nodes[u]
      invariant |ys| >= |xs| && ys[..|xs|] == xs
      invariant forall e :: e in g.nodes[u] && e !in rest ==> e.0 in ys[|xs|..]
      invariant forall i :: |xs| <= i < |ys| ==> ys[i] in Neighbours(g, u)
      decreases rest
    {
      var e :| e in rest;
      assert IsEdge(g, u, e.0, e.1);
      ghost var before := ys;
      ys := ys + [e.0];
      assert ys[|xs|..] == before[|xs|..] + [e.0];
      assert ys[..|xs|] == before[..|xs|];
      rest := rest - {e};
    }
    forall v | v in Neighbours(g, u)
      ensures v in ys[|xs|..]
    {
      var w: Weight :| IsEdge(g, u, v, w);
      assert (v, w) in g.nodes[u];
    }
  }

  /** The corrected inner loop: appends each neighbour of `u` not yet
      visited, once, and marks it visited. */
  method PushUnvisited(g: Graph, u: Node, queue: seq<Node>, visited: set<Node>)
    returns (queue': seq<Node>, visited': set<Node>)
    requires u in g.nodes
    ensures visited' == visited + Neighbours(g, u)
    ensures |queue'| >= |queue| && queue'[..|queue|] == queue
    ensures forall i :: |queue| <= i < |queue'| ==> queue'[i] in visited' - visited
    ensures forall v :: v in visited' - visited ==> v in queue'[|queue|..]
    ensures visited' == visited ==> queue' == queue
  {
    queue', visited' := queue, visited;
    var rest := GetNodeAdjacents(g, u);
    while rest != {}
      invariant rest <= g.nodes[u]
      invariant visited' == visited + set e | e in g.nodes[u] && e !in rest :: e.0
      invariant |queue'| >= |queue| && queue'[..|queue|] == queue
      invariant forall i :: |queue| <= i < |queue'| ==> queue'[i] in visited' - visited
      invariant forall v :: v in visited' - visited ==> v in queue'[|queue|..]
      invariant visited <= visited' && (visited' == visited ==> queue' == queue)
      decreases rest
    {
      var e :| e in rest;
      if e.0 !in visited' {
        ghost var before := queue';
        queue' := queue' + [e.0];
        assert queue'[|queue|..] == before[|queue|..] + [e.0];
        assert queue'[..|queue|] == before[..|queue|];
        visited' := visited' + {e.0};
      }
      rest := rest - {e};
    }
  }

  /** Pushing the neighbours of a reachable node keeps every entry
      reachable. */
  lemma PushKeepsReachable(g: Graph, start: Node, u: Node, xs: seq<Node>, ys: seq<Node>)
    requires ClosedFrom(g, start) && u in g.nodes && Reachable(g, start, u)
    requires AllReachable(g, start, xs)
    requires |ys| >= |xs| && ys[..|xs|] == xs
    requires forall i :: |xs| <= i < |ys| ==> ys[i] in Neighbours(g, u)
    ensures AllReachable(g, start, ys)
  {
    forall i | 0 <= i < |ys|
      ensures ys[i] in g.nodes && Reachable(g, start, ys[i])
    {
      if i < |xs| {
        assert ys[i] == ys[..|xs|][i];
      } else {
        var w: Weight :| IsEdge(g, u, ys[i], w);
        ReachableStep(g, start, u, ys[i], w);
      }
    }
  }

  /** Expanding `x` (taken off `pending`, whose other entries survive in
      `ys`) while pushing all its neighbours keeps the frontier property. */
  lemma FrontierExpand(g: Graph, done: set<Node>, pending: seq<Node>, x: Node, kept: seq<Node>, ys: seq<Node>)
    requires x in g.nodes && Frontier(g, done, pending)
    requires forall v :: v in pending ==> v == x || v in kept
    requires |ys| >= |kept| && ys[..|kept|] == kept
    requires forall v :: v in Neighbours(g, x) ==> v in ys[|kept|..]
    ensures Frontier(g, done + {x}, ys)
  {
    forall u: Node, v: Node, w: Weight | u in done + {x} && IsEdge(g, u, v, w)
      ensures v in done + {x} || v in ys
    {
      if u == x {
        assert v in ys[|kept|..];
      } else if v !in done && v != x {
        assert v in kept;
        assert v in ys[..|kept|];
      }
    }
  }

  /** Popping an already expanded node keeps the frontier property. */
  lemma FrontierSkip(g: Graph, done: set<Node>, pending: seq<Node>, x: Node, kept: seq<Node>)
    requires Frontier(g, done, pending) && x in done
    requires forall v :: v in pending ==> v == x || v in kept
    ensures Frontier(g, done, kept)
  {
  }

  /** A frontier with nothing pending is closed under edges, so it holds
      every node reachable from `start`. */
  lemma FrontierDone(g: Graph, done: set<Node>, start: Node)
    requires Frontier(g, done, []) && start in done
    ensures forall v :: Reachable(g, start, v) ==> v in done
  {
    assert ClosedUnderEdges(g, done);
    forall v | Reachable(g, start, v)
      ensures v in done
    {
      var p: seq<Hop> :| IsWalk(g, p, start, v);
      ClosedSetContainsReachable(g, done, p, start, v);
    }
  }

  /** The loop invariant of the depth-first search: the visited set and
      the stack hold reachable keys, `start` has been visited or is still
      pending, and nothing visited has an unvisited neighbour that is not
      on the stack. */
  ghost predicate DfsInvariant(g: Graph, start: Node, visited: set<Node>, stack: seq<Node>) {
    && visited <= g.nodes.Keys
    && AllReachable(g, start, stack)
    && (forall v :: v in visited ==> Reachable(g, start, v))
    && (start in visited || start in stack)
    && Frontier(g, visited, stack)
  }

  /** Taking the last entry off a stack of reachable keys leaves reachable
      keys, and every entry is the one taken or one left. */
  lemma PopLast(g: Graph, start: Node, stack: seq<Node>)
    requires |stack| > 0 && AllReachable(g, start, stack)
    ensures AllReachable(g, start, stack[..|stack| - 1])
    ensures forall v :: v in stack ==> v == stack[|stack| - 1] || v in stack[..|stack| - 1]
  {
    var below := stack[..|stack| - 1];
    forall i | 0 <= i < |below| ensures below[i] == stack[i] {}
    forall v | v in stack
      ensures v == stack[|stack| - 1] || v in below
    {
      var i :| 0 <= i < |stack| && stack[i] == v;
      if i < |below| { assert below[i] == v; }
    }
  }

  /** Popping an unvisited node, marking it and pushing its neighbours
      keeps the invariant. */
  lemma DfsExpandStep(g: Graph, start: Node, visited: set<Node>, stack: seq<Node>, top: Node, stack': seq<Node>)
    requires |stack| > 0 && top == stack[|stack| - 1]
    requires ClosedFrom(g, start) && DfsInvariant(g, start, visited, stack)
    requires |stack'| >= |stack| - 1 && stack'[..|stack| - 1] == stack[..|stack| - 1]
    requires forall v :: v in Neighbours(g, top) ==> v in stack'[|stack| - 1..]
    requires forall i :: |stack| - 1 <= i < |stack'| ==> stack'[i] in Neighbours(g, top)
    ensures DfsInvariant(g, start, visited + {top}, stack')
  {
    var below := stack[..|stack| - 1];
    assert top in g.nodes && Reachable(g, start, top);
    PopLast(g, start, stack);
    FrontierExpand(g, visited, stack, top, below, stack');
    PushKeepsReachable(g, start, top, below, stack');
    if start !in visited + {top} {
      assert start in below;
      assert start in stack'[..|below|];
    }
  }

  /** Popping a node already visited keeps the invariant. */
  lemma DfsSkipStep(g: Graph, start: Node, visited: set<Node>, stack: seq<Node>)
    requires |stack| > 0 && DfsInvariant(g, start, visited, stack) && stack[|stack| - 1] in visited
    ensures DfsInvariant(g, start, visited, stack[..|stack| - 1])
  {
    var top, below := stack[|stack| - 1], stack[..|stack| - 1];
    PopLast(g, start, stack);
    FrontierSkip(g, visited, stack, top, below);
  }

  /** `depth_first_search`: iterative search with an explicit stack; returns
      exactly the set of nodes reachable from `start`. */
  method DepthFirstSearch(g: Graph, start: Node) returns (visited: set<Node>)
    requires ClosedFrom(g, start) && start in g.nodes
    ensures visited <= g.nodes.Keys
    ensures forall v :: v in visited <==> Reachable(g, start, v)
  {
    var stack := [start];
    visited := {};
    assert IsWalk(g, [], start, start);
    while |stack| > 0
      invariant DfsInvariant(g, start, visited, stack)
      decreases |g.nodes.Keys - visited|, |stack|
    {
      var top := stack[|stack| - 1];
      var below := stack[..|stack| - 1];
      if top !in visited {
        var stack' := PushNeighbours(g, top, below);
        DfsExpandStep(g, start, visited, stack, top, stack');
        assert top in g.nodes;
        SubsetCard(g.nodes.Keys - (visited + {top}), g.nodes.Keys - visited);
        visited, stack := visited + {top}, stack';
      } else {
        DfsSkipStep(g, start, visited, stack);
        stack := below;
      }
    }
    FrontierDone(g, visited, start);
  }

  /** `is_connected`: a search from node 0 visits at least as many nodes as
      the store holds, that is, every key is reachable from node 0. */
  method IsConnected(g: Graph) returns (connected: bool)
    requires ClosedFrom(g, 0) && 0 in g.nodes
    ensures connected <==> forall v :: v in g.nodes ==> Reachable(g, 0, v)
  {
    var visited := DepthFirstSearch(g, 0);
    connected := !(|visited| < |g.nodes|);
    assert |g.nodes| == |g.nodes.Keys|;
    if visited != g.nodes.Keys {
      SubsetCard(visited, g.nodes.Keys);
      assert g.nodes.Keys == visited + (g.nodes.Keys - visited);
      var missing :| missing in g.nodes.Keys - visited;
      assert !Reachable(g, 0, missing);
    }
  }

  /** Outcome of the fuel-bounded model of the breadth-first search: the
      value the source returns, or `OutOfFuel` when the loop had not ended
      after the given number of iterations. */
  datatype Outcome = Returned(value: int) | OutOfFuel

  /** When the expanded node reaches a cycle, one of its pushed neighbours
      does too; otherwise the witness was further back in the queue. */
  lemma CycleSurvives(g: Graph, front: Node, after: seq<Node>, ys: seq<Node>)
    requires front in g.nodes && SomeReachesCycle(g, [front] + after)
    requires |ys| >= |after| && ys[..|after|] == after
    requires forall v :: v in Neighbours(g, front) ==> v in ys[|after|..]
    ensures SomeReachesCycle(g, ys)
  {
    var i :| 0 <= i < |[front] + after| && ReachesCycle(g, ([front] + after)[i]);
    if i > 0 {
      assert after[i - 1] == ys[i - 1];
    } else {
      var next, w := CycleStepsForward(g, front);
      assert next in Neighbours(g, front);
      assert next in ys[|after|..];
      var j :| |after| <= j < |ys| && ys[j] == next;
    }
  }

  /** The loop invariant of the search as written: the queue holds
      reachable keys, the target has not been expanded, every pair leaving
      an expanded node leads to an expanded or queued node, and while
      `start` reaches a cycle some queued node does too. */
  ghost predicate ScanInvariant(g: Graph, start: Node, target: Node, expanded: set<Node>, queue: seq<Node>) {
    && AllReachable(g, start, queue)
    && target !in expanded
    && Frontier(g, expanded, queue)
    && (ReachesCycle(g, start) ==> SomeReachesCycle(g, queue))
  }

  /** Expanding the front of the queue, which is not the target, and
      pushing all its neighbours keeps the invariant. */
  lemma ScanStep(g: Graph, start: Node, target: Node, expanded: set<Node>, queue: seq<Node>, queue': seq<Node>)
    requires ClosedFrom(g, start) && |queue| > 0 && queue[0] != target
    requires ScanInvariant(g, start, target, expanded, queue)
    requires |queue'| >= |queue| - 1 && queue'[..|queue| - 1] == queue[1..]
    requires forall v :: v in Neighbours(g, queue[0]) ==> v in queue'[|queue| - 1..]
    requires forall i :: |queue| - 1 <= i < |queue'| ==> queue'[i] in Neighbours(g, queue[0])
    ensures ScanInvariant(g, start, target, expanded + {queue[0]}, queue')
  {
    var front, after := queue[0], queue[1..];
    assert queue == [front] + after;
    assert front in g.nodes && Reachable(g, start, front);
    assert AllReachable(g, start, after) by {
      forall i | 0 <= i < |after| ensures after[i] == queue[i + 1] {}
    }
    forall v | v in queue
      ensures v == front || v in after
    {
      var i :| 0 <= i < |queue| && queue[i] == v;
      if i > 0 { assert after[i - 1] == v; }
    }
    FrontierExpand(g, expanded, queue, front, after, queue');
    PushKeepsReachable(g, start, front, after, queue');
    if ReachesCycle(g, start) {
      CycleSurvives(g, front, after, queue');
    }
  }

  /** `breadth_first_search` as written: a FIFO search that returns
      `target as i32` when it dequeues `target` and -1 when the queue runs
      dry; for `target == u32::MAX` the two answers coincide. It records
      visited nodes but never reads them, so every neighbour is enqueued
      again on every expansion, and a reachable cycle keeps the queue from
      running dry. `fuel` bounds the number of iterations modelled. */
  method BreadthFirstSearch(g: Graph, start: Node, target: Node, fuel: nat) returns (r: Outcome)
    requires ClosedFrom(g, start) && start in g.nodes
    ensures r.Returned? ==>
              || (r.value == AsI32(target) && Reachable(g, start, target))
              || (r.value == -1 && !Reachable(g, start, target) && !ReachesCycle(g, start))
    ensures start == target && fuel > 0 ==> r == Returned(AsI32(target))
  {
    var queue := [start];
    var visited := {start};
    var steps: nat := fuel;
    ghost var expanded: set<Node> := {};
    assert IsWalk(g, [], start, start);
    assert ReachesCycle(g, start) ==> ReachesCycle(g, [start][0]);
    while |queue| > 0
      invariant ScanInvariant(g, start, target, expanded, queue)
      invariant steps == fuel ==> queue == [start]
      invariant steps < fuel ==> start in expanded
      decreases steps
    {
      if steps == 0 {
        return OutOfFuel;
      }
      steps := steps - 1;
      var front := queue[0];
      if front == target {
        return Returned(AsI32(front));
      }
      ghost var expanded0, queue0 := expanded, queue;
      expanded := expanded + {front};
      queue := PushNeighbours(g, front, queue[1..]);
      visited := visited + Neighbours(g, front);
      ScanStep(g, start, target, expanded0, queue0, queue);
    }
    r := Returned(-1);
    FrontierDone(g, expanded, start);
  }

  /** The loop invariant of the corrected breadth-first search: the
      visited set holds reachable keys, among them `start` and every queue
      entry; a visited node has been expanded or is still queued, and every
      neighbour of an expanded node has been visited. */
  ghost predicate BfsInvariant(g: Graph, start: Node, visited: set<Node>, expanded: set<Node>, queue: seq<Node>) {
    && visited <= g.nodes.Keys && start in visited && expanded <= visited
    && (forall i :: 0 <= i < |queue| ==> queue[i] in visited)
    && (forall v :: v in visited ==> Reachable(g, start, v))
    && (forall v :: v in visited ==> v in expanded || v in queue)
    && (forall u: Node, v: Node, w: Weight :: u in expanded && IsEdge(g, u, v, w) ==> v in visited)
  }

  /** `breadth_first_search` as evidently intended: a neighbour is enqueued
      only when it has not been visited yet. It always terminates, and
      returns `target as i32` when `target` is reachable, -1 otherwise. */
  method BreadthFirstSearchVisited(g: Graph, start: Node, target: Node) returns (r: I32)
    requires ClosedFrom(g, start) && start in g.nodes
    ensures r == if Reachable(g, start, target) then AsI32(target) else -1
  {
    var queue := [start];
    var visited := {start};
    ghost var expanded: set<Node> := {};
    assert IsWalk(g, [], start, start);
    while |queue| > 0
      invariant BfsInvariant(g, start, visited, expanded, queue)
      invariant target !in expanded
      decreases |g.nodes.Keys - visited|, |queue|
    {
      var front := queue[0];
      var after := queue[1..];
      if front == target {
        return AsI32(front);
      }
      ghost var visited0 := visited;
      ghost var expanded0 := expanded;
      ghost var queue0 := queue;
      expanded := expanded + {front};
      queue, visited := PushUnvisited(g, front, after, visited);
      BfsVisitedStep(g, start, queue0, visited0, expanded0, queue, visited);
      if visited != visited0 {
        SubsetCard(g.nodes.Keys - visited, g.nodes.Keys - visited0);
      }
    }
    r := -1;
    assert Frontier(g, expanded, []);
    FrontierDone(g, expanded, start);
  }

  /** One expansion of the corrected search keeps its loop invariant. */
  lemma BfsVisitedStep(g: Graph, start: Node, queue: seq<Node>,
                       visited: set<Node>, expanded: set<Node>, queue': seq<Node>, visited': set<Node>)
    requires ClosedFrom(g, start) && |queue| > 0 && BfsInvariant(g, start, visited, expanded, queue)
    requires queue[0] in g.nodes && visited' == visited + Neighbours(g, queue[0])
    requires |queue'| >= |queue| - 1 && queue'[..|queue| - 1] == queue[1..]
    requires forall i :: |queue| - 1 <= i < |queue'| ==> queue'[i] in visited' - visited
    requires forall v :: v in visited' - visited ==> v in queue'[|queue| - 1..]
    ensures BfsInvariant(g, start, visited', expanded + {queue[0]}, queue')
  {
    var front, after := queue[0], queue[1..];
    assert |after| == |queue| - 1;
    forall i | 0 <= i < |after| ensures after[i] in visited {
      assert after[i] == queue[i + 1];
    }
    forall v | v in queue ensures v == front || v in after {
      var i :| 0 <= i < |queue| && queue[i] == v;
      if i > 0 { assert after[i - 1] == v; }
    }
    forall i | 0 <= i < |queue'|
      ensures queue'[i] in visited'
    {
      if i < |after| {
        assert queue'[i] == queue'[..|queue| - 1][i];
      }
    }
    forall v | v in visited'
      ensures v in g.nodes && Reachable(g, start, v)
    {
      if v !in visited {
        var w: Weight :| IsEdge(g, front, v, w);
        ReachableStep(g, start, front, v, w);
      }
    }
    forall v | v in visited'
      ensures v in expanded + {front} || v in queue'
    {
      if v in visited && v !in expanded && v != front {
        assert v in after;
        assert v in queue'[..|queue| - 1];
      } else if v !in visited {
        assert v in visited' - visited;
      }
    }
    forall u: Node, v: Node, w: Weight | u in expanded + {front} && IsEdge(g, u, v, w)
      ensures v in visited'
    {
      if u == front {
        assert v in Neighbours(g, front);
      }
    }
  }
}

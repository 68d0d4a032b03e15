/** The graph of Graph.ts. Nodes are identified by their value, as the
    `NodeCache` identifies them: the graph is a map from each node's value
    to the values of its edges, in insertion order (a node's `edges` is a
    Map keyed by value, so no value occurs twice). BFS and DFS return the
    sequence of nodes they visit, in visiting order, instead of calling a
    callback on each. */
module Graphs {
  import opened Ordering

  /** Every node's edges, as the values of the target nodes in insertion order. */
  type Adjacency<T> = map<T, seq<T>>

  /** Every edge leads to a node of the graph. */
  ghost predicate Closed<T(!new)>(adj: Adjacency<T>)
  {
    forall v, w :: v in adj && w in adj[v] ==> w in adj
  }

  /** No value occurs twice in `s`. */
  ghost predicate Distinct<T>(s: seq<T>)
  {
    forall i, j :: 0 <= i < j < |s| ==> s[i] != s[j]
  }

  /** `p` follows edges of `adj`, from its first element to its last. */
  ghost predicate IsPath<T>(adj: Adjacency<T>, p: seq<T>)
  {
    && p != []
    && forall i :: 0 <= i < |p| - 1 ==> p[i] in adj && p[i + 1] in adj[p[i]]
  }

  /** Some path leads from `s` to `v`. */
  ghost predicate Reachable<T(!new)>(adj: Adjacency<T>, s: T, v: T)
  {
    exists p :: IsPath(adj, p) && p[0] == s && p[|p| - 1] == v
  }

  /** A node reaches itself. */
  lemma ReachableSelf<T(!new)>(adj: Adjacency<T>, s: T)
    ensures Reachable(adj, s, s)
  {
    assert IsPath(adj, [s]);
  }

  /** One edge further from a reachable node is reachable. */
  lemma ReachableStep<T(!new)>(adj: Adjacency<T>, s: T, u: T, w: T)
    requires Reachable(adj, s, u) && u in adj && w in adj[u]
    ensures Reachable(adj, s, w)
  {
    var p :| IsPath(adj, p) && p[0] == s && p[|p| - 1] == u;
    assert IsPath(adj, p + [w]);
  }

  /** A set of nodes that holds the first node of a path and is closed
      under edges holds the last node too. */
  lemma {:induction false} PathStaysIn<T(!new)>(adj: Adjacency<T>, p: seq<T>, nodes: seq<T>)
    requires IsPath(adj, p) && p[0] in nodes
    requires forall u, w :: u in nodes && u in adj && w in adj[u] ==> w in nodes
    ensures p[|p| - 1] in nodes
    decreases |p|
  {
    if |p| > 1 {
      var q := p[..|p| - 1];
      assert IsPath(adj, q);
      PathStaysIn(adj, q, nodes);
      assert p[|p| - 2] in adj && p[|p| - 1] in adj[p[|p| - 2]];
    }
  }

  /** The values of `edges` not in `memo`, in order: the nodes a traversal
      schedules after visiting a node. */
  function Unvisited<T>(edges: seq<T>, memo: set<T>): (r: seq<T>)
    ensures forall i :: 0 <= i < |r| ==> r[i] in edges && r[i] !in memo
  {
    if edges == [] then []
    else
      var init := Unvisited(edges[..|edges| - 1], memo);
      assert forall w :: w in edges[..|edges| - 1] ==> w in edges;
      init + if edges[|edges| - 1] in memo then [] else [edges[|edges| - 1]]
  }

  /** `s` back to front. */
  function Reverse<T>(s: seq<T>): (r: seq<T>)
    ensures |r| == |s|
    ensures forall i :: 0 <= i < |s| ==> r[i] == s[|s| - 1 - i]
  {
    if s == [] then [] else [s[|s| - 1]] + Reverse(s[..|s| - 1])
  }

  /** How many elements of `s` lie in `memo`. */
  function CountIn<T>(s: seq<T>, memo: set<T>): nat
  {
    if s == [] then 0 else CountIn(s[..|s| - 1], memo) + if s[|s| - 1] in memo then 1 else 0
  }

  lemma {:induction false} CountInAppend<T>(a: seq<T>, b: seq<T>, memo: set<T>)
    ensures CountIn(a + b, memo) == CountIn(a, memo) + CountIn(b, memo)
    decreases |b|
  {
    if b == [] {
      assert a + b == a;
    } else {
      var ab := a + b;
      assert ab[..|ab| - 1] == a + b[..|b| - 1];
      assert ab[|ab| - 1] == b[|b| - 1];
      CountInAppend(a, b[..|b| - 1], memo);
    }
  }

  lemma {:induction false} CountInNone<T>(s: seq<T>, memo: set<T>)
    requires forall i :: 0 <= i < |s| ==> s[i] !in memo
    ensures CountIn(s, memo) == 0
    decreases |s|
  {
    if s != [] {
      CountInNone(s[..|s| - 1], memo);
    }
  }

  /** The two traversals: BFS keeps a queue (first in, first out), DFS a
      stack (last in, first out). */
  datatype Order = Breadth | Depth

  /** The node a traversal visits next: the head of the queue or the top of the stack. */
  function Taken<T>(order: Order, frontier: seq<T>): T
    requires frontier != []
  {
    match order
    case Breadth => frontier[0]
    case Depth => frontier[|frontier| - 1]
  }

  /** The frontier without the node taken. */
  function Remaining<T>(order: Order, frontier: seq<T>): seq<T>
    requires frontier != []
  {
    match order
    case Breadth => frontier[1..]
    case Depth => frontier[..|frontier| - 1]
  }

  /** The frontier after scheduling `found`: BFS appends them to the queue;
      DFS collects them on a temporary stack and moves that onto the stack,
      so the first of them ends up on top. */
  function Schedule<T>(order: Order, rest: seq<T>, found: seq<T>): seq<T>
  {
    match order
    case Breadth => rest + found
    case Depth => rest + Reverse(found)
  }

  /** The traversal's state is well formed: the graph is closed and every
      node in the frontier or in `memo` is in it. */
  ghost predicate Ready<T(!new)>(adj: Adjacency<T>, frontier: seq<T>, memo: set<T>)
  {
    && Closed(adj)
    && (forall i :: 0 <= i < |frontier| ==> frontier[i] in adj)
    && memo <= adj.Keys
  }

  /** The frontier after one step: the node taken is marked visited and its
      edges not yet visited are scheduled. */
  function Successor<T(!new)>(order: Order, adj: Adjacency<T>, frontier: seq<T>, memo: set<T>): seq<T>
    requires Ready(adj, frontier, memo) && frontier != []
  {
    var x := Taken(order, frontier);
    Schedule(order, Remaining(order, frontier), Unvisited(adj[x], memo + {x}))
  }

  /** Taking a node splits the frontier into that node and the rest. */
  lemma TakeSplits<T>(order: Order, frontier: seq<T>, memo: set<T>)
    requires frontier != []
    ensures Taken(order, frontier) in frontier
    ensures forall w :: w in frontier <==> w == Taken(order, frontier) || w in Remaining(order, frontier)
    ensures CountIn(frontier, memo) ==
      CountIn(Remaining(order, frontier), memo) + if Taken(order, frontier) in memo then 1 else 0
  {
    var x, rest := Taken(order, frontier), Remaining(order, frontier);
    assert CountIn([x], memo) == if x in memo then 1 else 0 by {
      assert [x][..0] == [];
    }
    if order == Breadth {
      assert frontier == [x] + rest;
      CountInAppend([x], rest, memo);
    } else {
      assert frontier == rest + [x];
      CountInAppend(rest, [x], memo);
    }
  }

  /** Scheduling adds exactly the scheduled nodes, none of which counts
      when none is in `memo`. */
  lemma ScheduleJoins<T>(order: Order, rest: seq<T>, found: seq<T>, memo: set<T>)
    requires forall i :: 0 <= i < |found| ==> found[i] !in memo
    ensures forall w :: w in Schedule(order, rest, found) <==> w in rest || w in found
    ensures CountIn(Schedule(order, rest, found), memo) == CountIn(rest, memo)
  {
    var scheduled := if order == Breadth then found else Reverse(found);
    assert Schedule(order, rest, found) == rest + scheduled;
    if order == Depth {
      forall w | w in scheduled
        ensures w in found
      {
        var i :| 0 <= i < |scheduled| && scheduled[i] == w;
        assert w == found[|found| - 1 - i];
      }
      forall w | w in found
        ensures w in scheduled
      {
        var i :| 0 <= i < |found| && found[i] == w;
        assert scheduled[|found| - 1 - i] == w;
      }
    }
    forall i | 0 <= i < |scheduled|
      ensures scheduled[i] !in memo
    {
      if order == Depth {
        assert scheduled[i] == found[|found| - 1 - i];
      }
    }
    CountInNone(scheduled, memo);
    CountInAppend(rest, scheduled, memo);
  }

  /** What one step does to the frontier. A node is only marked visited when
      it is taken, so a node may be scheduled several times; but only nodes
      not yet visited are scheduled, so either the number of unvisited
      nodes falls or the number of visited nodes waiting in the frontier does. */
  lemma StepFacts<T(!new)>(order: Order, adj: Adjacency<T>, frontier: seq<T>, memo: set<T>)
    requires Ready(adj, frontier, memo) && frontier != []
    ensures Taken(order, frontier) in frontier && Taken(order, frontier) in adj
    ensures Ready(adj, Successor(order, adj, frontier, memo), memo + {Taken(order, frontier)})
    ensures forall w :: w in frontier ==> w == Taken(order, frontier) || w in Successor(order, adj, frontier, memo)
    ensures forall w :: w in Successor(order, adj, frontier, memo) ==>
      w in frontier || (w in adj[Taken(order, frontier)] && w !in memo + {Taken(order, frontier)})
    ensures forall w :: w in adj[Taken(order, frontier)] && w !in memo + {Taken(order, frontier)} ==>
      w in Successor(order, adj, frontier, memo)
    ensures Taken(order, frontier) in memo ==>
      && memo + {Taken(order, frontier)} == memo
      && CountIn(Successor(order, adj, frontier, memo), memo) < CountIn(frontier, memo)
    ensures Taken(order, frontier) !in memo ==>
      |adj.Keys - (memo + {Taken(order, frontier)})| < |adj.Keys - memo|
  {
    StepMembers(order, adj, frontier, memo);
    StepReady(order, adj, frontier, memo);
    StepDecreases(order, adj, frontier, memo);
  }

  /** The nodes in the frontier after a step: the rest of the frontier and
      the unvisited edges of the node taken. */
  lemma StepMembers<T(!new)>(order: Order, adj: Adjacency<T>, frontier: seq<T>, memo: set<T>)
    requires Ready(adj, frontier, memo) && frontier != []
    ensures Taken(order, frontier) in frontier
    ensures forall w :: w in frontier ==> w == Taken(order, frontier) || w in Successor(order, adj, frontier, memo)
    ensures forall w :: w in Successor(order, adj, frontier, memo) <==>
      w in Remaining(order, frontier) || (w in adj[Taken(order, frontier)] && w !in memo + {Taken(order, frontier)})
    ensures forall w :: w in Remaining(order, frontier) ==> w in frontier
  {
    var x, rest := Taken(order, frontier), Remaining(order, frontier);
    var found := Unvisited(adj[x], memo + {x});
    TakeSplits(order, frontier, memo);
    ScheduleJoins(order, rest, found, memo + {x});
    UnvisitedHolds(adj[x], memo + {x});
  }

  /** A step keeps the traversal's state well formed. */
  lemma StepReady<T(!new)>(order: Order, adj: Adjacency<T>, frontier: seq<T>, memo: set<T>)
    requires Ready(adj, frontier, memo) && frontier != []
    ensures Taken(order, frontier) in adj
    ensures Ready(adj, Successor(order, adj, frontier, memo), memo + {Taken(order, frontier)})
  {
    var x := Taken(order, frontier);
    var succ := Successor(order, adj, frontier, memo);
    StepMembers(order, adj, frontier, memo);
    forall i | 0 <= i < |succ|
      ensures succ[i] in adj
    {
      assert succ[i] in succ;
    }
  }

  /** A step either marks a new node or removes a marked one from the frontier. */
  lemma StepDecreases<T(!new)>(order: Order, adj: Adjacency<T>, frontier: seq<T>, memo: set<T>)
    requires Ready(adj, frontier, memo) && frontier != []
    ensures Taken(order, frontier) in memo ==>
      && memo + {Taken(order, frontier)} == memo
      && CountIn(Successor(order, adj, frontier, memo), memo) < CountIn(frontier, memo)
    ensures Taken(order, frontier) !in memo ==>
      |adj.Keys - (memo + {Taken(order, frontier)})| < |adj.Keys - memo|
  {
    var x, rest := Taken(order, frontier), Remaining(order, frontier);
    if x in memo {
      var found := Unvisited(adj[x], memo);
      assert memo + {x} == memo;
      assert Successor(order, adj, frontier, memo) == Schedule(order, rest, found);
      TakeSplits(order, frontier, memo);
      ScheduleJoins(order, rest, found, memo);
    } else {
      TakeSplits(order, frontier, memo);
      var i :| 0 <= i < |frontier| && frontier[i] == x;
      MarkingShrinks(adj.Keys, memo, x);
    }
  }

  /** Marking a node not yet marked leaves one node fewer unmarked. */
  lemma MarkingShrinks<T>(nodes: set<T>, memo: set<T>, x: T)
    requires x in nodes && x !in memo
    ensures |nodes - (memo + {x})| == |nodes - memo| - 1
  {
    assert nodes - (memo + {x}) == (nodes - memo) - {x};
  }

  /** Every value of `edges` outside `memo` is among the unvisited ones. */
  lemma {:induction false} UnvisitedHolds<T>(edges: seq<T>, memo: set<T>)
    ensures forall w :: w in edges && w !in memo ==> w in Unvisited(edges, memo)
    decreases |edges|
  {
    if edges != [] {
      var init := edges[..|edges| - 1];
      UnvisitedHolds(init, memo);
      forall w | w in edges && w !in memo
        ensures w in Unvisited(edges, memo)
      {
        var i :| 0 <= i < |edges| && edges[i] == w;
        if i < |edges| - 1 {
          assert init[i] == w;
        }
      }
    }
  }

  /** The nodes a traversal visits from `frontier`, in visiting order, when
      `memo` holds the nodes already visited. */
  function Traverse<T(!new)>(order: Order, adj: Adjacency<T>, frontier: seq<T>, memo: set<T>): seq<T>
    requires Ready(adj, frontier, memo)
    decreases |adj.Keys - memo|, CountIn(frontier, memo)
  {
    if frontier == [] then []
    else
      var x := Taken(order, frontier);
      StepReady(order, adj, frontier, memo);
      StepDecreases(order, adj, frontier, memo);
      [x] + Traverse(order, adj, Successor(order, adj, frontier, memo), memo + {x})
  }

  /** Every node a traversal visits is reachable from `s` when every node of
      the frontier is. */
  lemma {:induction false} TraverseSound<T(!new)>(order: Order, adj: Adjacency<T>, frontier: seq<T>, memo: set<T>, s: T)
    requires Ready(adj, frontier, memo)
    requires forall w :: w in frontier ==> Reachable(adj, s, w)
    ensures forall w :: w in Traverse(order, adj, frontier, memo) ==> Reachable(adj, s, w)
    decreases |adj.Keys - memo|, CountIn(frontier, memo)
  {
    if frontier != [] {
      var x := Taken(order, frontier);
      var succ := Successor(order, adj, frontier, memo);
      StepFacts(order, adj, frontier, memo);
      forall w | w in succ
        ensures Reachable(adj, s, w)
      {
        if w !in frontier {
          ReachableStep(adj, s, x, w);
        }
      }
      TraverseSound(order, adj, succ, memo + {x}, s);
    }
  }

  /** Every edge of a visited node leads to a visited node or to the frontier. */
  ghost predicate Covered<T(!new)>(adj: Adjacency<T>, memo: set<T>, frontier: seq<T>)
  {
    forall u, w :: u in memo && u in adj && w in adj[u] ==> w in memo || w in frontier
  }

  /** A traversal visits every node of the frontier, and afterwards every
      edge of a visited node leads to a visited node. */
  lemma {:induction false} TraverseCovers<T(!new)>(order: Order, adj: Adjacency<T>, frontier: seq<T>, memo: set<T>)
    requires Ready(adj, frontier, memo) && Covered(adj, memo, frontier)
    ensures var visits := Traverse(order, adj, frontier, memo);
      && (forall w :: w in frontier ==> w in visits)
      && (forall u, w :: (u in memo || u in visits) && u in adj && w in adj[u] ==> w in memo || w in visits)
    decreases |adj.Keys - memo|, CountIn(frontier, memo)
  {
    if frontier != [] {
      var x := Taken(order, frontier);
      var succ := Successor(order, adj, frontier, memo);
      StepFacts(order, adj, frontier, memo);
      TraverseCovers(order, adj, succ, memo + {x});
    }
  }

  /** From a node of the graph, BFS and DFS visit that node first, and
      visit exactly the nodes reachable from it, each at least once. */
  lemma TraverseVisitsReachable<T(!new)>(order: Order, adj: Adjacency<T>, s: T)
    requires Closed(adj) && s in adj
    ensures Traverse(order, adj, [s], {}) != [] && Traverse(order, adj, [s], {})[0] == s
    ensures forall v :: v in Traverse(order, adj, [s], {}) <==> Reachable(adj, s, v)
  {
    var visits := Traverse(order, adj, [s], {});
    ReachableSelf(adj, s);
    TraverseSound(order, adj, [s], {}, s);
    TraverseCovers(order, adj, [s], {});
    forall v | Reachable(adj, s, v)
      ensures v in visits
    {
      var p :| IsPath(adj, p) && p[0] == s && p[|p| - 1] == v;
      PathStaysIn(adj, p, visits);
    }
  }

  /** Entry for a node: its value and its edges, as `cache.create` and
      `cache.reference` hand it out. */
  datatype Node<T> = Node(value: T, edges: seq<T>)

  /** `edges.set(value, node)`: a value already present keeps its place. */
  function SetEdge<T(==)>(edges: seq<T>, value: T): (r: seq<T>)
    ensures value in r
    ensures forall w :: w in edges ==> w in r
    ensures forall w :: w in r ==> w in edges || w == value
    ensures value in edges ==> r == edges
    ensures value !in edges ==> r == edges + [value]
  {
    if value in edges then edges else edges + [value]
  }

  /** NodeCache.ts's cache together with the nodes it holds. A Graph node's
      methods (`addEdge`, `connectsTo`, `BFS`, `DFS`, the iterator) are
      methods of the cache taking the node's value. */
  class NodeCache<T(==, !new)> {
    var storage: Adjacency<T>

    /** Every edge leads to a cached node and no node has two edges to the
        same value. */
    ghost predicate Valid()
      reads this
    {
      && Closed(storage)
      && forall v :: v in storage ==> Distinct(storage[v])
    }

    constructor ()
      ensures Valid() && storage == map[]
    {
      storage := map[];
    }

    /** The node for `value`: created without edges the first time, the
        same node, left as it is, every later time. */
    method Create(value: T) returns (node: Node<T>)
      requires Valid()
      modifies this
      ensures Valid()
      ensures value in old(storage) ==> storage == old(storage)
      ensures value !in old(storage) ==> storage == old(storage)[value := []]
      ensures node == Node(value, storage[value])
    {
      if value !in storage {
        storage := storage[value := []];
      }
      node := Node(value, storage[value]);
    }

    /** The cached node for `value`, or None; nothing is created. */
    function Reference(value: T): (node: Option<Node<T>>)
      reads this
      ensures node.None? <==> value !in storage
      ensures node.Some? ==> node.value.value == value && node.value.edges == storage[value]
    {
      if value in storage then Some(Node(value, storage[value])) else None
    }

    /** `node.addEdge(edge)`: `node` now connects to `edge`; an edge already
        there keeps its place; no other node changes. */
    method AddEdge(node: T, edge: T)
      requires Valid() && node in storage && edge in storage
      modifies this
      ensures Valid()
      ensures storage == old(storage)[node := SetEdge(old(storage)[node], edge)]
      ensures ConnectsTo(node, edge)
      ensures forall w :: w != edge ==> (ConnectsTo(node, w) <==> old(ConnectsTo(node, w)))
    {
      var edges := SetEdge(storage[node], edge);
      assert Distinct(edges);
      storage := storage[node := edges];
    }

    /** `node.connectsTo(value)`: whether `node` has an edge to `value`. */
    function ConnectsTo(node: T, value: T): (connects: bool)
      reads this
      requires node in storage
      ensures connects <==> exists i :: 0 <= i < |storage[node]| && storage[node][i] == value
    {
      value in storage[node]
    }

    /** The node's iterator: its edges in insertion order. */
    method Edges(node: T) returns (edges: seq<T>)
      requires node in storage
      ensures edges == storage[node]
    {
      edges := [];
      var all := storage[node];
      for i := 0 to |all|
        invariant edges == all[..i]
      {
        edges := edges + [all[i]];
      }
    }

    /** Breadth-first from `start`: the nodes reachable from it, `start`
        first, in the order the queue reaches them. */
    method BFS(start: T) returns (visits: seq<T>)
      requires Valid() && start in storage
      ensures visits == Traverse(Breadth, storage, [start], {})
      ensures visits != [] && visits[0] == start
      ensures forall v :: v in visits <==> Reachable(storage, start, v)
    {
      visits := BreadthFirst(storage, start);
      TraverseVisitsReachable(Breadth, storage, start);
    }

    /** Depth-first from `start`: the nodes reachable from it, `start`
        first, in the order the stack reaches them. */
    method DFS(start: T) returns (visits: seq<T>)
      requires Valid() && start in storage
      ensures visits == Traverse(Depth, storage, [start], {})
      ensures visits != [] && visits[0] == start
      ensures forall v :: v in visits <==> Reachable(storage, start, v)
    {
      visits := DepthFirst(storage, start);
      TraverseVisitsReachable(Depth, storage, start);
    }
  }

  /** `node.BFS(callback)`: a queue starting at `start`; each node taken
      from it is visited and marked, and its edges to unmarked nodes are
      queued. */
  method BreadthFirst<T(!new)>(adj: Adjacency<T>, start: T) returns (visits: seq<T>)
    requires Closed(adj) && start in adj
    ensures visits == Traverse(Breadth, adj, [start], {})
  {
    var memo: set<T> := {};
    var queue := [start];
    visits := [];
    while |queue| > 0
      invariant Ready(adj, queue, memo)
      invariant visits + Traverse(Breadth, adj, queue, memo) == Traverse(Breadth, adj, [start], {})
      decreases |adj.Keys - memo|, CountIn(queue, memo)
    {
      ghost var (before, marked) := (queue, memo);
      TraverseUnfolds(Breadth, adj, queue, memo);
      var current := queue[0];
      queue := queue[1..];
      visits := visits + [current];
      memo := memo + {current};
      queue := EnqueueUnvisited(queue, adj[current], memo);
      assert queue == Successor(Breadth, adj, before, marked);
    }
  }

  /** `node.DFS(callback)`: a stack starting at `start`; each node popped is
      visited and marked, its edges to unmarked nodes are collected on a
      temporary stack and moved onto the stack, so the first edge is
      explored first. */
  method DepthFirst<T(!new)>(adj: Adjacency<T>, start: T) returns (visits: seq<T>)
    requires Closed(adj) && start in adj
    ensures visits == Traverse(Depth, adj, [start], {})
  {
    var memo: set<T> := {};
    var stack := [start];
    visits := [];
    while |stack| > 0
      invariant Ready(adj, stack, memo)
      invariant visits + Traverse(Depth, adj, stack, memo) == Traverse(Depth, adj, [start], {})
      decreases |adj.Keys - memo|, CountIn(stack, memo)
    {
      var current := stack[|stack| - 1];
      var rest := stack[..|stack| - 1];
      var tmp := EnqueueUnvisited([], adj[current], memo + {current});
      var next := MoveOnto(rest, tmp);
      DepthUnfolds(adj, stack, memo, current, next);
      visits := visits + [current];
      memo := memo + {current};
      stack := next;
    }
  }

  /** One step of DFS spelled out: the top of the stack is popped and the
      unvisited edges of that node are pushed back to front. */
  lemma DepthSuccessor<T(!new)>(adj: Adjacency<T>, frontier: seq<T>, memo: set<T>)
    requires Ready(adj, frontier, memo) && frontier != []
    ensures Taken(Depth, frontier) == frontier[|frontier| - 1]
    ensures Successor(Depth, adj, frontier, memo) ==
      frontier[..|frontier| - 1] + Reverse([] + Unvisited(adj[frontier[|frontier| - 1]], memo + {frontier[|frontier| - 1]}))
  {
    assert [] + Unvisited(adj[frontier[|frontier| - 1]], memo + {frontier[|frontier| - 1]}) ==
      Unvisited(adj[frontier[|frontier| - 1]], memo + {frontier[|frontier| - 1]});
  }

  /** One step of the depth-first loop, written in the terms the loop computes. */
  lemma DepthUnfolds<T(!new)>(adj: Adjacency<T>, frontier: seq<T>, memo: set<T>, last: T, next: seq<T>)
    requires Ready(adj, frontier, memo) && frontier != []
    requires last == frontier[|frontier| - 1]
    requires next == frontier[..|frontier| - 1] + Reverse([] + Unvisited(adj[last], memo + {last}))
    ensures Ready(adj, next, memo + {last})
    ensures last !in memo ==> |adj.Keys - (memo + {last})| < |adj.Keys - memo|
    ensures last in memo ==> memo + {last} == memo && CountIn(next, memo) < CountIn(frontier, memo)
    ensures Traverse(Depth, adj, frontier, memo) == [last] + Traverse(Depth, adj, next, memo + {last})
  {
    DepthSuccessor(adj, frontier, memo);
    TraverseUnfolds(Depth, adj, frontier, memo);
  }

  /** One step of a traversal: the node taken is visited first. */
  lemma TraverseUnfolds<T(!new)>(order: Order, adj: Adjacency<T>, frontier: seq<T>, memo: set<T>)
    requires Ready(adj, frontier, memo) && frontier != []
    ensures Ready(adj, Successor(order, adj, frontier, memo), memo + {Taken(order, frontier)})
    ensures Taken(order, frontier) !in memo ==>
      |adj.Keys - (memo + {Taken(order, frontier)})| < |adj.Keys - memo|
    ensures Taken(order, frontier) in memo ==>
      && memo + {Taken(order, frontier)} == memo
      && CountIn(Successor(order, adj, frontier, memo), memo) < CountIn(frontier, memo)
    ensures Traverse(order, adj, frontier, memo) ==
      [Taken(order, frontier)] + Traverse(order, adj, Successor(order, adj, frontier, memo), memo + {Taken(order, frontier)})
  {
    StepReady(order, adj, frontier, memo);
    StepDecreases(order, adj, frontier, memo);
  }

  /** The loop over a visited node's edges: those not in `memo` are pushed
      onto `queue`, in order. */
  method EnqueueUnvisited<T>(queue: seq<T>, edges: seq<T>, memo: set<T>) returns (r: seq<T>)
    ensures r == queue + Unvisited(edges, memo)
  {
    r := queue;
    for i := 0 to |edges|
      invariant r == queue + Unvisited(edges[..i], memo)
    {
      UnvisitedPrefix(edges, i, memo);
      if edges[i] !in memo {
        r := r + [edges[i]];
      }
    }
    assert edges[..|edges|] == edges;
  }

  /** The unvisited values of one more edge. */
  lemma UnvisitedPrefix<T>(edges: seq<T>, i: nat, memo: set<T>)
    requires i < |edges|
    ensures Unvisited(edges[..i + 1], memo) ==
      Unvisited(edges[..i], memo) + if edges[i] in memo then [] else [edges[i]]
  {
    assert edges[..i + 1][..i] == edges[..i];
  }

  /** `while (tmp.length) stack.push(tmp.pop())`: moves the temporary stack
      onto the stack, reversing it. */
  method MoveOnto<T>(stack: seq<T>, tmp: seq<T>) returns (r: seq<T>)
    ensures r == stack + Reverse(tmp)
  {
    r := stack;
    var rest := tmp;
    while |rest| > 0
      invariant r + Reverse(rest) == stack + Reverse(tmp)
      decreases |rest|
    {
      assert Reverse(rest) == [rest[|rest| - 1]] + Reverse(rest[..|rest| - 1]);
      r := r + [rest[|rest| - 1]];
      rest := rest[..|rest| - 1];
    }
  }

  /** `g` is the documented graph: nodes 1 to 4, where 1 has edges to 2
      and 4, and 2 an edge to 3. */
  ghost predicate Documented(g: Adjacency<int>)
  {
    && g.Keys == {1, 2, 3, 4}
    && g[1] == [2, 4] && g[2] == [3] && g[3] == [] && g[4] == []
  }

  /** The documented graph is closed. */
  lemma DocumentedClosed(g: Adjacency<int>)
    requires Documented(g)
    ensures Closed(g)
  {
    forall v, w | v in g && w in g[v]
      ensures w in g
    {
      assert v in {1, 2, 3, 4};
    }
  }

  /** One step of a traversal, stated on given values: when the step from
      `frontier` leads to `next` and marks `marked`, and the traversal from
      there visits `rest`, the traversal from `frontier` visits the node
      taken and then `rest`. */
  lemma TraverseStep<T(!new)>(order: Order, adj: Adjacency<T>, frontier: seq<T>, memo: set<T>,
                              x: T, next: seq<T>, marked: set<T>, rest: seq<T>)
    requires Ready(adj, frontier, memo) && frontier != [] && x == Taken(order, frontier)
    requires next == Successor(order, adj, frontier, memo)
    requires marked == memo + {x}
    requires Ready(adj, next, marked) && Traverse(order, adj, next, marked) == rest
    ensures Traverse(order, adj, frontier, memo) == [x] + rest
  {
    TraverseUnfolds(order, adj, frontier, memo);
  }

  /** DFS in the documented graph, once 1, 2 and 3 are visited: 4 is left. */
  lemma DocumentedDepthFirstFour(g: Adjacency<int>)
    requires Documented(g)
    ensures Ready(g, [4], {1, 2, 3})
    ensures Traverse(Depth, g, [4], {1, 2, 3}) == [4]
  {
    DocumentedClosed(g);
    assert Traverse(Depth, g, [], {1, 2, 3, 4}) == [];
    assert Unvisited([], {1, 2, 3, 4}) == [];
    TraverseStep(Depth, g, [4], {1, 2, 3}, 4, [], {1, 2, 3, 4}, []);
  }

  /** DFS in the documented graph, once 1 and 2 are visited: 3 is on top of 4. */
  lemma DocumentedDepthFirstThree(g: Adjacency<int>)
    requires Documented(g)
    ensures Ready(g, [4, 3], {1, 2})
    ensures Traverse(Depth, g, [4, 3], {1, 2}) == [3, 4]
  {
    DocumentedDepthFirstFour(g);
    assert Unvisited([], {1, 2, 3}) == [];
    assert [4, 3][..1] == [4];
    TraverseStep(Depth, g, [4, 3], {1, 2}, 3, [4], {1, 2, 3}, [4]);
  }

  /** DFS in the documented graph, once 1 is visited: visiting 2 stacks 3. */
  lemma DocumentedDepthFirstTwo(g: Adjacency<int>)
    requires Documented(g)
    ensures Ready(g, [4, 2], {1})
    ensures Traverse(Depth, g, [4, 2], {1}) == [2, 3, 4]
  {
    DocumentedDepthFirstThree(g);
    assert Unvisited([3], {1, 2}) == [3] by { assert [3][..0] == []; }
    assert Reverse([3]) == [3];
    assert [4, 2][..1] == [4];
    assert {1} + {2} == {1, 2};
    TraverseStep(Depth, g, [4, 2], {1}, 2, [4, 3], {1, 2}, [3, 4]);
  }

  /** DFS from 1 in the documented graph: visiting 1 stacks 4 and then 2. */
  lemma DocumentedDepthFirstOne(g: Adjacency<int>)
    requires Documented(g)
    ensures Ready(g, [1], {})
    ensures Successor(Depth, g, [1], {}) == [4, 2]
  {
    DocumentedClosed(g);
    assert Unvisited([2, 4], {1}) == [2, 4] by { assert [2, 4][..1] == [2]; assert [2][..0] == []; }
    assert Reverse([2, 4]) == [4, 2] by { assert [2, 4][..1] == [2]; }
    assert {} + {1} == {1};
    assert Taken(Depth, [1]) == 1 && Remaining(Depth, [1]) == [];
  }

  /** DFS from 1 in the documented graph visits 1, 2, 3, 4: visiting 1
      stacks 4 and then 2, so 2 is explored first. */
  lemma DocumentedDepthFirst(g: Adjacency<int>)
    requires Documented(g)
    ensures Traverse(Depth, g, [1], {}) == [1, 2, 3, 4]
  {
    DocumentedDepthFirstTwo(g);
    DocumentedDepthFirstOne(g);
    TraverseStep(Depth, g, [1], {}, 1, [4, 2], {1}, [2, 3, 4]);
  }

  /** BFS in the documented graph, once 1 and 2 are visited: 4 and then 3. */
  lemma DocumentedBreadthFirstRest(g: Adjacency<int>)
    requires Documented(g)
    ensures Ready(g, [4, 3], {1, 2})
    ensures Traverse(Breadth, g, [4, 3], {1, 2}) == [4, 3]
  {
    DocumentedClosed(g);
    assert Traverse(Breadth, g, [], {1, 2, 3, 4}) == [];
    assert Unvisited([], {1, 2, 3, 4}) == [];
    TraverseStep(Breadth, g, [3], {1, 2, 4}, 3, [], {1, 2, 3, 4}, []);
    assert Unvisited([], {1, 2, 4}) == [];
    assert [4, 3][1..] == [3];
    TraverseStep(Breadth, g, [4, 3], {1, 2}, 4, [3], {1, 2, 4}, [3]);
  }

  /** BFS in the documented graph, once 1 is visited: visiting 2 queues 3
      behind 4. */
  lemma DocumentedBreadthFirstTwo(g: Adjacency<int>)
    requires Documented(g)
    ensures Ready(g, [2, 4], {1})
    ensures Traverse(Breadth, g, [2, 4], {1}) == [2, 4, 3]
  {
    DocumentedBreadthFirstRest(g);
    assert Successor(Breadth, g, [2, 4], {1}) == [4, 3] by {
      assert Unvisited([3], {1, 2}) == [3] by { assert [3][..0] == []; }
      assert [2, 4][1..] == [4];
      assert {1} + {2} == {1, 2};
    }
    TraverseStep(Breadth, g, [2, 4], {1}, 2, [4, 3], {1, 2}, [4, 3]);
  }

  /** BFS from 1 in the documented graph: visiting 1 queues 2 and then 4. */
  lemma DocumentedBreadthFirstOne(g: Adjacency<int>)
    requires Documented(g)
    ensures Ready(g, [1], {})
    ensures Successor(Breadth, g, [1], {}) == [2, 4]
  {
    DocumentedClosed(g);
    assert Unvisited([2, 4], {1}) == [2, 4] by { assert [2, 4][..1] == [2]; assert [2] [..0] == []; }
    assert {} + {1} == {1};
  }

  /** BFS from 1 in the documented graph visits 1, 2, 4, 3: visiting 1
      queues 2 and then 4, and visiting 2 queues 3 behind 4. */
  lemma DocumentedBreadthFirst(g: Adjacency<int>)
    requires Documented(g)
    ensures Traverse(Breadth, g, [1], {}) == [1, 2, 4, 3]
  {
    DocumentedBreadthFirstTwo(g);
    DocumentedBreadthFirstOne(g);
    TraverseStep(Breadth, g, [1], {}, 1, [2, 4], {1}, [2, 4, 3]);
  }

  /** `g` is a diamond: 1 has edges to 2 and 3, and 2 an edge to 3, so 3 is
      scheduled twice before it is visited. */
  ghost predicate Diamond(g: Adjacency<int>)
  {
    && g.Keys == {1, 2, 3}
    && g[1] == [2, 3] && g[2] == [3] && g[3] == []
  }

  /** The diamond is closed. */
  lemma DiamondClosed(g: Adjacency<int>)
    requires Diamond(g)
    ensures Closed(g)
  {
    forall v, w | v in g && w in g[v]
      ensures w in g
    {
      assert v in {1, 2, 3};
    }
  }

  /** Once 1 and 2 are visited in the diamond, the frontier holds 3 twice,
      and both orders visit it twice: a node is marked when it is taken, not
      when it is scheduled. */
  lemma DiamondRepeats(order: Order, g: Adjacency<int>)
    requires Diamond(g)
    ensures Ready(g, [3, 3], {1, 2})
    ensures Traverse(order, g, [3, 3], {1, 2}) == [3, 3]
  {
    DiamondClosed(g);
    assert Traverse(order, g, [], {1, 2, 3}) == [];
    assert Unvisited([], {1, 2, 3}) == [];
    TraverseStep(order, g, [3], {1, 2, 3}, 3, [], {1, 2, 3}, []);
    assert [3, 3][1..] == [3] && [3, 3][..1] == [3];
    TraverseStep(order, g, [3, 3], {1, 2}, 3, [3], {1, 2, 3}, [3]);
  }

  /** BFS in the diamond, once 1 is visited: visiting 2 queues 3 again
      behind the 3 already queued. */
  lemma DiamondBreadthFirstTwo(g: Adjacency<int>)
    requires Diamond(g)
    ensures Ready(g, [2, 3], {1})
    ensures Traverse(Breadth, g, [2, 3], {1}) == [2, 3, 3]
  {
    DiamondRepeats(Breadth, g);
    assert Successor(Breadth, g, [2, 3], {1}) == [3, 3] by {
      assert Unvisited([3], {1, 2}) == [3] by { assert [3][..0] == []; }
      assert [2, 3][1..] == [3] && {1} + {2} == {1, 2};
    }
    TraverseStep(Breadth, g, [2, 3], {1}, 2, [3, 3], {1, 2}, [3, 3]);
  }

  /** BFS from 1 in the diamond visits 3 twice: visiting 1 queues 2 and 3,
      and visiting 2 queues 3 again before the first 3 is visited. */
  lemma DiamondBreadthFirst(g: Adjacency<int>)
    requires Diamond(g)
    ensures Traverse(Breadth, g, [1], {}) == [1, 2, 3, 3]
  {
    DiamondBreadthFirstTwo(g);
    assert Successor(Breadth, g, [1], {}) == [2, 3] by {
      assert Unvisited([2, 3], {1}) == [2, 3] by { assert [2, 3][..1] == [2]; assert [2][..0] == []; }
      assert {} + {1} == {1};
    }
    TraverseStep(Breadth, g, [1], {}, 1, [2, 3], {1}, [2, 3, 3]);
  }

  /** DFS in the diamond, once 1 is visited: visiting 2 stacks 3 on the 3
      already stacked. */
  lemma DiamondDepthFirstTwo(g: Adjacency<int>)
    requires Diamond(g)
    ensures Ready(g, [3, 2], {1})
    ensures Traverse(Depth, g, [3, 2], {1}) == [2, 3, 3]
  {
    DiamondRepeats(Depth, g);
    assert Successor(Depth, g, [3, 2], {1}) == [3, 3] by {
      assert Unvisited([3], {1, 2}) == [3] by { assert [3][..0] == []; }
      assert Reverse([3]) == [3];
      assert [3, 2][..1] == [3] && {1} + {2} == {1, 2};
    }
    TraverseStep(Depth, g, [3, 2], {1}, 2, [3, 3], {1, 2}, [3, 3]);
  }

  /** DFS from 1 in the diamond visits 3 twice: visiting 1 stacks 3 under
      2, and visiting 2 stacks 3 again. */
  lemma DiamondDepthFirst(g: Adjacency<int>)
    requires Diamond(g)
    ensures Traverse(Depth, g, [1], {}) == [1, 2, 3, 3]
  {
    DiamondDepthFirstTwo(g);
    DiamondDepthFirstOne(g);
    TraverseStep(Depth, g, [1], {}, 1, [3, 2], {1}, [2, 3, 3]);
  }

  /** DFS from 1 in the diamond: visiting 1 stacks 3 and then 2. */
  lemma DiamondDepthFirstOne(g: Adjacency<int>)
    requires Diamond(g)
    ensures Ready(g, [1], {})
    ensures Successor(Depth, g, [1], {}) == [3, 2]
  {
    DiamondClosed(g);
    assert Unvisited([2, 3], {1}) == [2, 3] by { assert [2, 3][..1] == [2]; assert [2][..0] == []; }
    assert Reverse([2, 3]) == [3, 2] by { assert [2, 3][..1] == [2]; }
    assert {} + {1} == {1};
    assert Taken(Depth, [1]) == 1 && Remaining(Depth, [1]) == [];
  }

  /** The first half of the documented graph: create 1 and 2, connect 1 to
      2 and to a new node 4. */
  method BuildFirstHalf() returns (cache: NodeCache<int>)
    ensures fresh(cache) && cache.Valid()
    ensures cache.storage.Keys == {1, 2, 4}
    ensures cache.storage[1] == [2, 4] && cache.storage[2] == [] && cache.storage[4] == []
  {
    cache := new NodeCache<int>();
    var node1 := cache.Create(1);
    var node2 := cache.Create(2);
    cache.AddEdge(1, 2);
    assert SetEdge([], 2) == [2];
    var node4 := cache.Create(4);
    cache.AddEdge(1, 4);
    assert SetEdge([2], 4) == [2, 4];
  }

  /** The documented graph built through the cache: after the first half,
      connect 2 to a new node 3. */
  method BuildDocumented() returns (cache: NodeCache<int>, root: int)
    ensures fresh(cache) && cache.Valid()
    ensures Documented(cache.storage) && root == 1
  {
    cache := BuildFirstHalf();
    var node3 := cache.Create(3);
    cache.AddEdge(2, 3);
    assert SetEdge([], 3) == [3];
    root := 1;
  }

  /** The documented session: on the graph above, DFS from 1 gives
      1, 2, 3, 4 and BFS gives 1, 2, 4, 3. */
  method DocumentedSession() returns (dfs: seq<int>, bfs: seq<int>)
    ensures dfs == [1, 2, 3, 4] && bfs == [1, 2, 4, 3]
  {
    var cache, root := BuildDocumented();
    DocumentedDepthFirst(cache.storage);
    DocumentedBreadthFirst(cache.storage);
    dfs := cache.DFS(root);
    bfs := cache.BFS(root);
  }
}

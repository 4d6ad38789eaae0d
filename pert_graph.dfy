/** The directed dependency graph of the engine, edges running from a
    prerequisite to the task that depends on it, and the two graph algorithms
    the engine calls: cycle finding and topological sorting. */
module PertGraph {
  import opened Wrappers
  import opened TaskModel

  /** (prerequisite, dependent) */
  type Edge = (Id, Id)

  ghost predicate DistinctNodes(s: seq<Id>)
  {
    forall i, j :: 0 <= i < j < |s| ==> s[i] != s[j]
  }

  /** The graph is not a multigraph: each edge is stored once. */
  ghost predicate DistinctEdges(s: seq<Edge>)
  {
    forall i, j :: 0 <= i < j < |s| ==> s[i] != s[j]
  }

  /** Both endpoints of every edge are nodes. */
  ghost predicate EdgesWithin(nodes: set<Id>, edges: seq<Edge>)
  {
    forall e :: e in edges ==> e.0 in nodes && e.1 in nodes
  }

  /** Consecutive elements of `p` are joined by edges. */
  ghost predicate IsPath(edges: seq<Edge>, p: seq<Id>)
  {
    forall k :: 0 <= k < |p| - 1 ==> (p[k], p[k + 1]) in edges
  }

  /** A closed walk of at least one edge; a self-loop `[a, a]` is one. */
  ghost predicate IsCycle(edges: seq<Edge>, c: seq<Id>)
  {
    |c| >= 2 && c[0] == c[|c| - 1] && IsPath(edges, c)
  }

  ghost predicate Acyclic(edges: seq<Edge>)
  {
    forall c :: !IsCycle(edges, c)
  }

  /** Every edge between two elements of `order` points forward. */
  ghost predicate Forward(order: seq<Id>, edges: seq<Edge>)
  {
    forall i, j :: 0 <= i < |order| && 0 <= j < |order| && (order[i], order[j]) in edges ==> i < j
  }

  /** `order` lists every node exactly once and every edge points forward. */
  ghost predicate IsTopologicalOrder(nodes: set<Id>, edges: seq<Edge>, order: seq<Id>)
  {
    && DistinctNodes(order)
    && (forall x :: x in order <==> x in nodes)
    && Forward(order, edges)
  }

  /** `g.predecessors(v)`: the sources of the edges into `v`, listed in edge order rather than graphlib's object-key order. */
  function Predecessors(edges: seq<Edge>, v: Id): (ps: seq<Id>)
    ensures forall p :: p in ps <==> (p, v) in edges
  {
    if edges == [] then []
    else
      assert edges == [edges[0]] + edges[1..];
      (if edges[0].1 == v then [edges[0].0] else []) + Predecessors(edges[1..], v)
  }

  /** `g.successors(v)`: the targets of the edges out of `v`, listed in edge order rather than graphlib's object-key order. */
  function Successors(edges: seq<Edge>, v: Id): (ss: seq<Id>)
    ensures forall s :: s in ss <==> (v, s) in edges
  {
    if edges == [] then []
    else
      assert edges == [edges[0]] + edges[1..];
      (if edges[0].0 == v then [edges[0].1] else []) + Successors(edges[1..], v)
  }

  /** Position of `x` in `s`. */
  ghost function IndexOf(s: seq<Id>, x: Id): (i: nat)
    requires x in s
    ensures i < |s| && s[i] == x
  {
    if s[0] == x then 0 else 1 + IndexOf(s[1..], x)
  }

  /** Along a path, positions in a forward order strictly increase. */
  lemma {:induction false} PathRises(order: seq<Id>, edges: seq<Edge>, p: seq<Id>)
    requires Forward(order, edges)
    requires |p| >= 2 && IsPath(edges, p)
    requires forall x :: x in p ==> x in order
    ensures IndexOf(order, p[0]) < IndexOf(order, p[|p| - 1])
  {
    assert (p[0], p[1]) in edges;
    if |p| > 2 {
      var q := p[1..];
      forall k | 0 <= k < |q| - 1
        ensures (q[k], q[k + 1]) in edges
      {
        assert q[k] == p[k + 1] && q[k + 1] == p[k + 2];
      }
      PathRises(order, edges, q);
    }
  }

  /** A graph that has a topological order of the endpoints of its edges has no cycle. */
  lemma TopologicalOrderAcyclic(order: seq<Id>, edges: seq<Edge>)
    requires Forward(order, edges)
    requires forall e :: e in edges ==> e.0 in order && e.1 in order
    ensures Acyclic(edges)
  {
    forall c | IsCycle(edges, c)
      ensures false
    {
      forall x | x in c
        ensures x in order
      {
        var k :| 0 <= k < |c| && c[k] == x;
        if k < |c| - 1 {
          assert (c[k], c[k + 1]) in edges;
        } else {
          assert (c[0], c[1]) in edges;
        }
      }
      PathRises(order, edges, c);
    }
  }

  /** A sequence longer than the set its elements are drawn from repeats an element. */
  lemma {:induction false} Pigeonhole(s: seq<Id>, S: set<Id>)
    requires forall x :: x in s ==> x in S
    requires |s| > |S|
    ensures exists i, j :: 0 <= i < j < |s| && s[i] == s[j]
  {
    if s[0] in s[1..] {
      var k :| 0 <= k < |s| - 1 && s[1..][k] == s[0];
      assert s[0] == s[k + 1];
    } else {
      var t := s[1..];
      forall x | x in t
        ensures x in S - {s[0]}
      {
        assert x in s;
      }
      Pigeonhole(t, S - {s[0]});
      var i, j :| 0 <= i < j < |t| && t[i] == t[j];
      assert s[i + 1] == s[j + 1];
    }
  }

  /** The cycle between two occurrences of a node on a path. */
  lemma CycleBetween(edges: seq<Edge>, w: seq<Id>, i: int, j: int)
    requires IsPath(edges, w) && 0 <= i < j < |w| && w[i] == w[j]
    ensures IsCycle(edges, w[i..j + 1])
  {
    var c := w[i..j + 1];
    forall k | 0 <= k < |c| - 1
      ensures (c[k], c[k + 1]) in edges
    {
      assert c[k] == w[i + k] && c[k + 1] == w[i + k + 1];
    }
  }

  /** Some edge into `v` starts in `S`. */
  ghost predicate HasPredecessorIn(S: set<Id>, edges: seq<Edge>, v: Id)
  {
    exists u :: u in S && (u, v) in edges
  }

  /** Some edge out of `v` ends in `S`. */
  ghost predicate HasSuccessorIn(S: set<Id>, edges: seq<Edge>, v: Id)
  {
    exists s :: s in S && (v, s) in edges
  }

  /** Every node of `S` has a predecessor in `S`. */
  ghost predicate PredecessorClosed(S: set<Id>, edges: seq<Edge>)
  {
    forall v {:trigger HasPredecessorIn(S, edges, v)} :: v in S ==> HasPredecessorIn(S, edges, v)
  }

  /** Every node of `S` has a successor in `S`. */
  ghost predicate SuccessorClosed(S: set<Id>, edges: seq<Edge>)
  {
    forall v {:trigger HasSuccessorIn(S, edges, v)} :: v in S ==> HasSuccessorIn(S, edges, v)
  }

  /** If every node of a non-empty set has a predecessor in the set, the graph has a cycle. */
  lemma PredecessorClosedCyclic(S: set<Id>, edges: seq<Edge>)
    requires S != {}
    requires PredecessorClosed(S, edges)
    ensures !Acyclic(edges)
  {
    var v :| v in S;
    var w := [v];
    while |w| <= |S|
      invariant 1 <= |w| <= |S| + 1
      invariant forall x :: x in w ==> x in S
      invariant IsPath(edges, w)
      decreases |S| + 1 - |w|
    {
      assert HasPredecessorIn(S, edges, w[0]);
      var u :| u in S && (u, w[0]) in edges;
      w := [u] + w;
    }
    Pigeonhole(w, S);
    var i, j :| 0 <= i < j < |w| && w[i] == w[j];
    CycleBetween(edges, w, i, j);
  }

  /** If every node of a non-empty set has a successor in the set, the graph has a cycle. */
  lemma SuccessorClosedCyclic(S: set<Id>, edges: seq<Edge>)
    requires S != {}
    requires SuccessorClosed(S, edges)
    ensures !Acyclic(edges)
  {
    var v :| v in S;
    var w := [v];
    while |w| <= |S|
      invariant 1 <= |w| <= |S| + 1
      invariant forall x :: x in w ==> x in S
      invariant IsPath(edges, w)
      decreases |S| + 1 - |w|
    {
      assert HasSuccessorIn(S, edges, w[|w| - 1]);
      var s :| s in S && (w[|w| - 1], s) in edges;
      w := w + [s];
    }
    Pigeonhole(w, S);
    var i, j :| 0 <= i < j < |w| && w[i] == w[j];
    CycleBetween(edges, w, i, j);
  }

  /** Every edge into `v` starts outside `remaining`. */
  predicate Ready(v: Id, remaining: set<Id>, edges: seq<Edge>)
  {
    forall e :: e in edges && e.1 == v ==> e.0 !in remaining
  }

  /** Placing a node none of whose predecessors is unplaced keeps edges pointing forward. */
  lemma PlaceKeepsForward(order: seq<Id>, edges: seq<Edge>, v: Id)
    requires Forward(order, edges)
    requires forall e :: e in edges && e.1 in order ==> e.0 in order
    requires v !in order && (v, v) !in edges
    ensures Forward(order + [v], edges)
  {
    var o := order + [v];
    forall i, j | 0 <= i < |o| && 0 <= j < |o| && (o[i], o[j]) in edges
      ensures i < j
    {
      if i < |order| && j < |order| {
        assert (order[i], order[j]) in edges;
      }
    }
  }

  /** Kahn's algorithm: repeatedly place a node whose predecessors are all
      placed. It stops either with every node placed or with a non-empty set
      of unplaced nodes each of which has an unplaced predecessor. */
  method Kahn(nodes: set<Id>, edges: seq<Edge>) returns (order: seq<Id>, remaining: set<Id>)
    requires EdgesWithin(nodes, edges)
    ensures DistinctNodes(order) && Forward(order, edges)
    ensures remaining <= nodes
    ensures forall x :: x in order ==> x in nodes
    ensures forall x :: x in nodes ==> (x in order <==> x !in remaining)
    ensures PredecessorClosed(remaining, edges)
  {
    order, remaining := [], nodes;
    ghost var placed: set<Id> := {};
    while remaining != {}
      invariant DistinctNodes(order) && Forward(order, edges)
      invariant placed <= nodes && remaining == nodes - placed
      invariant forall x :: x in order <==> x in placed
      invariant forall e :: e in edges && e.1 in placed ==> e.0 in placed
      decreases |remaining|
    {
      if v :| v in remaining && Ready(v, remaining, edges) {
        PlaceKeepsForward(order, edges, v);
        order := order + [v];
        placed := placed + {v};
        remaining := remaining - {v};
      } else {
        break;
      }
    }
  }

  /** Walks backwards through predecessors inside `S` until a node repeats,
      and returns the closed walk between the two occurrences. */
  method CycleWithin(S: set<Id>, edges: seq<Edge>) returns (cycle: seq<Id>)
    requires S != {}
    requires PredecessorClosed(S, edges)
    ensures IsCycle(edges, cycle)
    ensures forall x :: x in cycle ==> x in S
  {
    var v :| v in S;
    var walk := [v];
    while |walk| <= |S|
      invariant 1 <= |walk| <= |S| + 1
      invariant forall x :: x in walk ==> x in S
      invariant IsPath(edges, walk)
      decreases |S| + 1 - |walk|
    {
      assert HasPredecessorIn(S, edges, walk[0]);
      var u :| u in S && (u, walk[0]) in edges;
      walk := [u] + walk;
    }
    Pigeonhole(walk, S);
    var i, j :| 0 <= i < j < |walk| && walk[i] == walk[j];
    CycleBetween(edges, walk, i, j);
    cycle := walk[i..j + 1];
  }

  /** `graphlib.alg.findCycles`, reduced to what the engine uses: a cycle if
      there is one, and nothing exactly when the graph is acyclic. */
  method FindCycles(nodes: set<Id>, edges: seq<Edge>) returns (cycle: Option<seq<Id>>)
    requires EdgesWithin(nodes, edges)
    ensures cycle.Some? ==> IsCycle(edges, cycle.value) && forall x :: x in cycle.value ==> x in nodes
    ensures cycle.None? ==> Acyclic(edges)
  {
    var order, remaining := Kahn(nodes, edges);
    if remaining == {} {
      TopologicalOrderAcyclic(order, edges);
      cycle := None;
    } else {
      var c := CycleWithin(remaining, edges);
      cycle := Some(c);
    }
  }

  /** `graphlib.alg.topsort` on an acyclic graph: every node once, every edge forward. */
  method TopSort(nodes: set<Id>, edges: seq<Edge>) returns (order: seq<Id>)
    requires EdgesWithin(nodes, edges)
    requires Acyclic(edges)
    ensures IsTopologicalOrder(nodes, edges, order)
  {
    var remaining;
    order, remaining := Kahn(nodes, edges);
    if remaining != {} {
      PredecessorClosedCyclic(remaining, edges);
      assert false;
    }
  }
}

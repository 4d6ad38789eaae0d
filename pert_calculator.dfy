/** The PERT/CPM engine of `calculatePERT` (pertCalculator.js): three-point
    estimates, graph construction, cycle check, topological order, forward
    and backward pass, project finish time, slack and classification. */
module PertCalculator {
  import opened Wrappers
  import opened TaskModel
  import opened PertGraph

  /** A JavaScript number that may be the `Infinity` sentinel. */
  datatype ExtReal = Finite(value: real) | Infinity

  /** JavaScript `a < b` where either side may be `Infinity`. */
  predicate Less(a: ExtReal, b: ExtReal)
  {
    match a
    case Infinity => false
    case Finite(x) => b.Infinity? || x < b.value
  }

  /** JavaScript `a - d`; `Infinity - d` stays `Infinity`. */
  function Minus(a: ExtReal, d: real): ExtReal
  {
    match a
    case Infinity => Infinity
    case Finite(x) => Finite(x - d)
  }

  /** A task object once `calculatePERT` has written its PERT fields onto it. */
  datatype TaskNode = TaskNode(
    task: Task,
    expectedTime: real,
    variance: real,
    earlyStart: real,
    earlyFinish: real,
    lateStart: ExtReal,
    lateFinish: ExtReal,
    slack: real,
    isCritical: bool,
    isBottleneck: bool)

  /** The graph handed back with the result: node labels by ID, and the edges
      in insertion order (what `g.edges()` enumerates). */
  datatype Graph = Graph(nodes: map<Id, TaskNode>, edges: seq<Edge>)

  datatype PertResult = PertResult(
    tasks: seq<TaskNode>,
    criticalPathIds: seq<Id>,
    projectFinishTime: real,
    graph: Graph)

  /** The three ways `calculatePERT` gives up (it returns an error string). */
  datatype PertError =
    | InvalidEstimate(taskId: Id)
    | MissingDependency(dependency: Id, taskId: Id)
    | CyclicDependency(cycle: seq<Id>)

  /** Slack at most this much (and above zero) marks a bottleneck. */
  const BottleneckThreshold: real := 1.0

  /** PERT expected time (O + 4M + P) / 6. */
  function ExpectedTime(o: real, m: real, p: real): (te: real)
    ensures o <= m <= p ==> o <= te <= p
    ensures o + p == 2.0 * m ==> te == m
  {
    (o + 4.0 * m + p) / 6.0
  }

  /** PERT variance ((P - O) / 6)^2. */
  function Variance(o: real, p: real): (v: real)
    ensures v >= 0.0
    ensures o == p ==> v == 0.0
  {
    ((p - o) / 6.0) * ((p - o) / 6.0)
  }

  /** `parseFloat(x.toFixed(5))` on an exact value: the nearest multiple of
      0.00001, halves rounded away from zero. */
  function Round5(x: real): (r: real)
    ensures r == 0.0 <==> -0.000005 < x < 0.000005
    ensures x >= 0.0 ==> r >= 0.0
    ensures -0.000005 <= r - x <= 0.000005
  {
    if x >= 0.0 then ((x * 100000.0 + 0.5).Floor as real) / 100000.0
    else -(((-x) * 100000.0 + 0.5).Floor as real) / 100000.0
  }

  /** Round5 lands on the 0.00001 grid: the result is a whole number of
      hundred-thousandths. */
  lemma Round5Grid(x: real)
    ensures (Round5(x) * 100000.0).Floor as real == Round5(x) * 100000.0
  {
    var n := if x >= 0.0 then (x * 100000.0 + 0.5).Floor else -(((-x) * 100000.0 + 0.5).Floor);
    assert Round5(x) == (n as real) / 100000.0;
    assert Round5(x) * 100000.0 == n as real;
  }

  /** `isNaN` holds of one of the three estimates. */
  predicate HasInvalidEstimate(t: Task)
  {
    t.optimisticTime.NaN? || t.mostLikelyTime.NaN? || t.pessimisticTime.NaN?
  }

  /** Task `i` is the first whose estimates are not numbers. */
  ghost predicate FirstInvalidEstimate(tasks: seq<Task>, i: int)
  {
    0 <= i < |tasks| && HasInvalidEstimate(tasks[i])
    && forall j :: 0 <= j < i ==> !HasInvalidEstimate(tasks[j])
  }

  ghost predicate SomeInvalidEstimate(tasks: seq<Task>)
  {
    exists i :: 0 <= i < |tasks| && HasInvalidEstimate(tasks[i])
  }

  /** The node as the first loop of `calculatePERT` leaves it: expected time
      and variance computed, early times 0, late times at the `Infinity`
      sentinel, not classified. */
  function InitialNode(t: Task): TaskNode
    requires !HasInvalidEstimate(t)
  {
    var o, m, p := t.optimisticTime.value, t.mostLikelyTime.value, t.pessimisticTime.value;
    TaskNode(t, ExpectedTime(o, m, p), Variance(o, p), 0.0, 0.0, Infinity, Infinity, 0.0, false, false)
  }

  /** The expected time and variance of the node are those of its estimates. */
  ghost predicate Estimated(n: TaskNode)
  {
    && !HasInvalidEstimate(n.task)
    && n.expectedTime == ExpectedTime(n.task.optimisticTime.value, n.task.mostLikelyTime.value, n.task.pessimisticTime.value)
    && n.variance == Variance(n.task.optimisticTime.value, n.task.pessimisticTime.value)
  }

  /** The keys of `m` are exactly the task IDs. */
  ghost predicate KeyedByTasks(m: map<Id, TaskNode>, tasks: seq<Task>)
  {
    forall id :: id in m <==> IsTaskId(tasks, id)
  }

  /** Every dependency is in `nodes`. */
  ghost predicate DependenciesWithin(tasks: seq<Task>, nodes: set<Id>)
  {
    forall i, d :: 0 <= i < |tasks| && d in tasks[i].dependencies ==> d in nodes
  }

  /** `dep`, listed by task `id`, is the first dependency (tasks in order,
      then dependencies in order) outside `nodes`. */
  ghost predicate FirstMissingIn(tasks: seq<Task>, nodes: set<Id>, dep: Id, id: Id)
  {
    exists i, k ::
      && 0 <= i < |tasks| && tasks[i].id == id
      && 0 <= k < |tasks[i].dependencies| && tasks[i].dependencies[k] == dep
      && dep !in nodes
      && (forall j, d :: 0 <= j < i && d in tasks[j].dependencies ==> d in nodes)
      && (forall q :: 0 <= q < k ==> tasks[i].dependencies[q] in nodes)
  }

  /** Every dependency names a task. */
  ghost predicate AllDependenciesKnown(tasks: seq<Task>)
  {
    DependenciesWithin(tasks, IdSet(tasks))
  }

  /** `dep`, listed by task `id`, is the first dependency naming no task. */
  ghost predicate FirstMissingDependency(tasks: seq<Task>, dep: Id, id: Id)
  {
    FirstMissingIn(tasks, IdSet(tasks), dep, id)
  }

  /** A closed chain of "is a dependency of". */
  ghost predicate DependencyCycle(tasks: seq<Task>, c: seq<Id>)
  {
    |c| >= 2 && c[0] == c[|c| - 1]
    && forall k :: 0 <= k < |c| - 1 ==> DependsOn(tasks, c[k], c[k + 1])
  }

  // ---------------------------------------------------------------------
  // Node initialisation and graph construction (pertCalculator.js:14-42)
  // ---------------------------------------------------------------------

  /** The first loop: reject the first task with a NaN estimate, otherwise
      one initial node per task. */
  method InitNodes(tasks: seq<Task>) returns (r: Result<map<Id, TaskNode>, PertError>)
    requires DistinctIds(tasks)
    ensures r.Err? <==> SomeInvalidEstimate(tasks)
    ensures r.Err? ==> exists i :: FirstInvalidEstimate(tasks, i) && r.error == InvalidEstimate(tasks[i].id)
    ensures r.Ok? ==> KeyedByTasks(r.value, tasks)
    ensures r.Ok? ==> forall i :: 0 <= i < |tasks| ==> r.value[tasks[i].id] == InitialNode(tasks[i])
  {
    var nodes: map<Id, TaskNode> := map[];
    for i := 0 to |tasks|
      invariant forall j :: 0 <= j < i ==> !HasInvalidEstimate(tasks[j])
      invariant forall id :: id in nodes <==> exists j :: 0 <= j < i && tasks[j].id == id
      invariant forall j :: 0 <= j < i ==> tasks[j].id in nodes && nodes[tasks[j].id] == InitialNode(tasks[j])
    {
      if HasInvalidEstimate(tasks[i]) {
        assert FirstInvalidEstimate(tasks, i);
        return Err(InvalidEstimate(tasks[i].id));
      }
      nodes := nodes[tasks[i].id := InitialNode(tasks[i])];
    }
    return Ok(nodes);
  }

  /** `g.setEdge(e)` on a simple graph: a new edge goes last, an edge
      already there stays where it is. */
  function SetEdge(es: seq<Edge>, e: Edge): seq<Edge>
  {
    if e in es then es else es + [e]
  }

  /** `es` after setting the edges from `deps`, one by one, into `t`. */
  function SetEdges(es: seq<Edge>, deps: seq<Id>, t: Id): seq<Edge>
    decreases |deps|
  {
    if deps == [] then es
    else SetEdge(SetEdges(es, deps[..|deps| - 1], t), (deps[|deps| - 1], t))
  }

  /** The edge list the second loop leaves, in the order `g.edges()`
      enumerates it: dependency pairs in the order they are first listed. */
  function GraphEdges(tasks: seq<Task>): seq<Edge>
  {
    if tasks == [] then []
    else SetEdges(GraphEdges(tasks[..|tasks| - 1]), tasks[|tasks| - 1].dependencies, tasks[|tasks| - 1].id)
  }

  /** Setting more edges keeps the edges already set, in place, and adds
      exactly the new pairs. */
  lemma {:induction false} SetEdgesExtends(es: seq<Edge>, deps: seq<Id>, t: Id)
    ensures es <= SetEdges(es, deps, t)
    ensures DistinctEdges(es) ==> DistinctEdges(SetEdges(es, deps, t))
    ensures forall e :: e in SetEdges(es, deps, t) <==> e in es || (e.1 == t && e.0 in deps)
    decreases |deps|
  {
    if deps != [] {
      var init := deps[..|deps| - 1];
      SetEdgesExtends(es, init, t);
      assert deps == init + [deps[|deps| - 1]];
    }
  }

  /** The edges set for the first `n` tasks keep their places: an edge's
      position, and so its `edge-...-N` number in the document, is fixed by
      the first task that lists it. */
  lemma {:induction false} GraphEdgesPrefix(tasks: seq<Task>, n: nat)
    requires n <= |tasks|
    ensures GraphEdges(tasks[..n]) <= GraphEdges(tasks)
    decreases |tasks|
  {
    if n < |tasks| {
      var init := tasks[..|tasks| - 1];
      GraphEdgesPrefix(init, n);
      assert init[..n] == tasks[..n];
      SetEdgesExtends(GraphEdges(init), tasks[|tasks| - 1].dependencies, tasks[|tasks| - 1].id);
    } else {
      assert tasks[..n] == tasks;
    }
  }

  /** The edge list holds each dependency pair once, and exactly the pairs
      (dependency, task) the tasks list. */
  lemma {:induction false} GraphEdgesExact(tasks: seq<Task>)
    ensures DistinctEdges(GraphEdges(tasks))
    ensures forall p, t :: (p, t) in GraphEdges(tasks) <==> DependsOn(tasks, p, t)
    decreases |tasks|
  {
    if tasks != [] {
      var n := |tasks| - 1;
      var init := tasks[..n];
      GraphEdgesExact(init);
      SetEdgesExtends(GraphEdges(init), tasks[n].dependencies, tasks[n].id);
      forall p, t
        ensures DependsOn(tasks, p, t) <==> DependsOn(init, p, t) || (t == tasks[n].id && p in tasks[n].dependencies)
      {
        if DependsOn(tasks, p, t) {
          var j :| 0 <= j < |tasks| && tasks[j].id == t && p in tasks[j].dependencies;
          if j < n {
            assert init[j] == tasks[j];
          }
        }
        if DependsOn(init, p, t) {
          var j :| 0 <= j < |init| && init[j].id == t && p in init[j].dependencies;
          assert tasks[j] == init[j];
        }
      }
    }
  }

  /** The second loop: one edge dependency -> task per listed dependency,
      a repeated listing adding no second edge; the first dependency naming
      no node is an error. */
  method BuildEdges(tasks: seq<Task>, nodes: set<Id>) returns (r: Result<seq<Edge>, PertError>)
    requires forall i :: 0 <= i < |tasks| ==> tasks[i].id in nodes
    ensures r.Ok? <==> DependenciesWithin(tasks, nodes)
    ensures r.Err? ==> r.error.MissingDependency? && FirstMissingIn(tasks, nodes, r.error.dependency, r.error.taskId)
    ensures r.Ok? ==> DistinctEdges(r.value) && EdgesWithin(nodes, r.value)
    ensures r.Ok? ==> forall p, t :: (p, t) in r.value <==> DependsOn(tasks, p, t)
    ensures r.Ok? ==> r.value == GraphEdges(tasks)
  {
    var edges: seq<Edge> := [];
    for i := 0 to |tasks|
      invariant forall j, d :: 0 <= j < i && d in tasks[j].dependencies ==> d in nodes
      invariant edges == GraphEdges(tasks[..i])
    {
      var deps := tasks[i].dependencies;
      var id := tasks[i].id;
      for k := 0 to |deps|
        invariant forall q :: 0 <= q < k ==> deps[q] in nodes
        invariant edges == SetEdges(GraphEdges(tasks[..i]), deps[..k], id)
      {
        if deps[k] !in nodes {
          assert FirstMissingIn(tasks, nodes, deps[k], id);
          return Err(MissingDependency(deps[k], id));
        }
        if (deps[k], id) !in edges {
          edges := edges + [(deps[k], id)];
        }
        assert deps[..k + 1][..k] == deps[..k];
      }
      assert deps[..|deps|] == deps;
      assert tasks[..i + 1][..i] == tasks[..i];
    }
    assert tasks[..|tasks|] == tasks;
    GraphEdgesExact(tasks);
    forall e | e in edges
      ensures e.0 in nodes && e.1 in nodes
    {
      assert DependsOn(tasks, e.0, e.1);
    }
    return Ok(edges);
  }

  // ---------------------------------------------------------------------
  // Forward pass (pertCalculator.js:67-80)
  // ---------------------------------------------------------------------

  /** Early times of `t`: the start is the largest early finish of its
      predecessors, or 0 when that is larger or there are none; the finish
      is the start plus the expected time. */
  ghost predicate ForwardEq(m: map<Id, TaskNode>, edges: seq<Edge>, t: Id)
    requires t in m
  {
    && m[t].earlyStart >= 0.0
    && (forall p :: p in m && (p, t) in edges ==> m[p].earlyFinish <= m[t].earlyStart)
    && (m[t].earlyStart == 0.0 || exists p :: p in m && (p, t) in edges && m[t].earlyStart == m[p].earlyFinish)
    && m[t].earlyFinish == m[t].earlyStart + m[t].expectedTime
  }

  /** Every node satisfies its early-time equations. */
  ghost predicate AllForwardEq(m: map<Id, TaskNode>, edges: seq<Edge>)
  {
    forall t {:trigger ForwardEq(m, edges, t)} :: t in m ==> ForwardEq(m, edges, t)
  }

  /** Changing a node that is neither `t` nor a predecessor of `t` keeps `t`'s equations. */
  lemma ForwardEqFrame(m: map<Id, TaskNode>, edges: seq<Edge>, t: Id, x: Id, n: TaskNode)
    requires t in m && x in m && t != x && (x, t) !in edges
    requires ForwardEq(m, edges, t)
    ensures ForwardEq(m[x := n], edges, t)
  {
    var m' := m[x := n];
    if m[t].earlyStart != 0.0 {
      var p :| p in m && (p, t) in edges && m[t].earlyStart == m[p].earlyFinish;
      assert m'[p] == m[p];
    }
  }

  /** The node written at the end of one forward step satisfies its equations. */
  lemma ForwardStep(m: map<Id, TaskNode>, edges: seq<Edge>, t: Id, maxEF: real)
    requires t in m && (t, t) !in edges
    requires maxEF >= 0.0
    requires forall p :: p in m && (p, t) in edges ==> m[p].earlyFinish <= maxEF
    requires maxEF == 0.0 || exists p :: p in m && (p, t) in edges && maxEF == m[p].earlyFinish
    ensures ForwardEq(m[t := m[t].(earlyStart := maxEF, earlyFinish := maxEF + m[t].expectedTime)], edges, t)
  {
    var m' := m[t := m[t].(earlyStart := maxEF, earlyFinish := maxEF + m[t].expectedTime)];
    if maxEF != 0.0 {
      var p :| p in m && (p, t) in edges && maxEF == m[p].earlyFinish;
      assert m'[p] == m[p];
    }
  }

  /** In a topological order no node has an edge to itself. */
  lemma NoSelfLoop(nodes: set<Id>, edges: seq<Edge>, order: seq<Id>, i: int)
    requires IsTopologicalOrder(nodes, edges, order) && 0 <= i < |order|
    ensures (order[i], order[i]) !in edges
  {
  }

  /** Only the early times of nodes differ between `m` and `m'`. */
  ghost predicate EarlyTimesOnly(m: map<Id, TaskNode>, m': map<Id, TaskNode>)
  {
    m'.Keys == m.Keys
    && forall t :: t in m ==> m'[t] == m[t].(earlyStart := m'[t].earlyStart, earlyFinish := m'[t].earlyFinish)
  }

  /** Rewriting the early times of one node keeps the frame. */
  lemma EarlyTimesUpdate(nodes: map<Id, TaskNode>, out: map<Id, TaskNode>, t: Id, es: real, ef: real)
    requires EarlyTimesOnly(nodes, out) && t in out
    ensures EarlyTimesOnly(nodes, out[t := out[t].(earlyStart := es, earlyFinish := ef)])
  {
    var out' := out[t := out[t].(earlyStart := es, earlyFinish := ef)];
    forall x | x in nodes
      ensures out'[x] == nodes[x].(earlyStart := out'[x].earlyStart, earlyFinish := out'[x].earlyFinish)
    {
      assert out[x] == nodes[x].(earlyStart := out[x].earlyStart, earlyFinish := out[x].earlyFinish);
    }
  }

  /** The inner loop of the forward pass: the largest early finish among
      `preds`, or 0. */
  method MaxEarlyFinish(m: map<Id, TaskNode>, preds: seq<Id>) returns (maxEF: real)
    requires forall p :: p in preds ==> p in m
    ensures maxEF >= 0.0
    ensures forall p :: p in preds ==> m[p].earlyFinish <= maxEF
    ensures maxEF == 0.0 || exists p :: p in preds && maxEF == m[p].earlyFinish
  {
    maxEF := 0.0;
    for k := 0 to |preds|
      invariant maxEF >= 0.0
      invariant forall q :: 0 <= q < k ==> m[preds[q]].earlyFinish <= maxEF
      invariant maxEF == 0.0 || exists q :: 0 <= q < k && maxEF == m[preds[q]].earlyFinish
    {
      assert preds[k] in preds;
      if m[preds[k]].earlyFinish > maxEF {
        maxEF := m[preds[k]].earlyFinish;
      }
    }
    forall p | p in preds
      ensures m[p].earlyFinish <= maxEF
    {
      var q :| 0 <= q < |preds| && preds[q] == p;
    }
    if maxEF != 0.0 {
      var q :| 0 <= q < |preds| && maxEF == m[preds[q]].earlyFinish;
      assert preds[q] in preds;
    }
  }

  /** One forward step extends the prefix of the order whose nodes satisfy
      their forward equations. */
  lemma ForwardAdvance(nodes: map<Id, TaskNode>, out: map<Id, TaskNode>, edges: seq<Edge>, order: seq<Id>, i: int,
                       preds: seq<Id>, maxEF: real, n: TaskNode)
    requires IsTopologicalOrder(nodes.Keys, edges, order) && 0 <= i < |order|
    requires out.Keys == nodes.Keys
    requires forall j :: 0 <= j < i ==> ForwardEq(out, edges, order[j])
    requires forall p :: p in preds <==> (p, order[i]) in edges
    requires forall p :: p in preds ==> p in out
    requires maxEF >= 0.0
    requires forall p :: p in preds ==> out[p].earlyFinish <= maxEF
    requires maxEF == 0.0 || exists p :: p in preds && maxEF == out[p].earlyFinish
    requires n == out[order[i]].(earlyStart := maxEF, earlyFinish := maxEF + out[order[i]].expectedTime)
    ensures forall j :: 0 <= j <= i ==> ForwardEq(out[order[i] := n], edges, order[j])
  {
    var t := order[i];
    var out' := out[t := n];
    NoSelfLoop(nodes.Keys, edges, order, i);
    ForwardStep(out, edges, t, maxEF);
    forall j | 0 <= j <= i
      ensures ForwardEq(out', edges, order[j])
    {
      if j < i {
        ForwardEqFrame(out, edges, order[j], t, n);
      }
    }
  }

  /** Equations that hold along an order covering every node hold at every node. */
  lemma ForwardEqEverywhere(m: map<Id, TaskNode>, edges: seq<Edge>, order: seq<Id>)
    requires forall t :: t in m ==> t in order
    requires forall j :: 0 <= j < |order| ==> order[j] in m && ForwardEq(m, edges, order[j])
    ensures AllForwardEq(m, edges)
  {
    forall t | t in m
      ensures ForwardEq(m, edges, t)
    {
      var j :| 0 <= j < |order| && order[j] == t;
    }
  }

  /** One iteration of the forward pass: the early times of `order[i]`
      from those of its predecessors. */
  method ForwardVisit(order: seq<Id>, edges: seq<Edge>, nodes: map<Id, TaskNode>, out: map<Id, TaskNode>, i: int)
    returns (out': map<Id, TaskNode>)
    requires EdgesWithin(nodes.Keys, edges)
    requires IsTopologicalOrder(nodes.Keys, edges, order) && 0 <= i < |order|
    requires EarlyTimesOnly(nodes, out)
    requires forall j :: 0 <= j < i ==> ForwardEq(out, edges, order[j])
    ensures EarlyTimesOnly(nodes, out')
    ensures forall j :: 0 <= j <= i ==> ForwardEq(out', edges, order[j])
  {
    var t := order[i];
    var preds := Predecessors(edges, t);
    forall p | p in preds
      ensures p in out
    {
      assert (p, t) in edges;
    }
    var maxEF := MaxEarlyFinish(out, preds);
    var n := out[t].(earlyStart := maxEF, earlyFinish := maxEF + out[t].expectedTime);
    ForwardAdvance(nodes, out, edges, order, i, preds, maxEF, n);
    EarlyTimesUpdate(nodes, out, t, maxEF, maxEF + out[t].expectedTime);
    out' := out[t := n];
  }

  /** Forward pass in topological order: every node ends up satisfying its
      early-time equations; nothing but the early times changes. */
  method ForwardPass(order: seq<Id>, edges: seq<Edge>, nodes: map<Id, TaskNode>) returns (out: map<Id, TaskNode>)
    requires EdgesWithin(nodes.Keys, edges)
    requires IsTopologicalOrder(nodes.Keys, edges, order)
    ensures EarlyTimesOnly(nodes, out)
    ensures AllForwardEq(out, edges)
  {
    out := nodes;
    for i := 0 to |order|
      invariant EarlyTimesOnly(nodes, out)
      invariant forall j :: 0 <= j < i ==> ForwardEq(out, edges, order[j])
    {
      out := ForwardVisit(order, edges, nodes, out, i);
    }
    ForwardEqEverywhere(out, edges, order);
  }

  /** The loop after the forward pass: the largest early finish, or 0. */
  method ProjectFinish(tasks: seq<Task>, nodes: map<Id, TaskNode>) returns (finish: real)
    requires forall i :: 0 <= i < |tasks| ==> tasks[i].id in nodes
    ensures finish >= 0.0
    ensures forall i :: 0 <= i < |tasks| ==> nodes[tasks[i].id].earlyFinish <= finish
    ensures finish == 0.0 || exists i :: 0 <= i < |tasks| && finish == nodes[tasks[i].id].earlyFinish
  {
    finish := 0.0;
    for i := 0 to |tasks|
      invariant finish >= 0.0
      invariant forall j :: 0 <= j < i ==> nodes[tasks[j].id].earlyFinish <= finish
      invariant finish == 0.0 || exists j :: 0 <= j < i && finish == nodes[tasks[j].id].earlyFinish
    {
      if nodes[tasks[i].id].earlyFinish > finish {
        finish := nodes[tasks[i].id].earlyFinish;
      }
    }
  }

  // ---------------------------------------------------------------------
  // Backward pass (pertCalculator.js:90-108)
  // ---------------------------------------------------------------------

  /** No edge leaves `t`. */
  ghost predicate IsTerminal(edges: seq<Edge>, t: Id)
  {
    forall s :: (t, s) !in edges
  }

  /** Both late times are past the `Infinity` sentinel. */
  predicate LateDone(n: TaskNode)
  {
    n.lateStart.Finite? && n.lateFinish.Finite?
  }

  /** Late times of `t`: the finish is the project finish for a task without
      successors and otherwise the smallest late start of its successors;
      the start is the finish minus the expected time. */
  ghost predicate BackwardEq(m: map<Id, TaskNode>, edges: seq<Edge>, finish: real, t: Id)
    requires t in m
  {
    && LateDone(m[t])
    && m[t].lateStart.value == m[t].lateFinish.value - m[t].expectedTime
    && (IsTerminal(edges, t) ==> m[t].lateFinish.value == finish)
    && (!IsTerminal(edges, t) ==>
          && (forall s :: s in m && (t, s) in edges ==> LateDone(m[s]) && m[t].lateFinish.value <= m[s].lateStart.value)
          && (exists s :: s in m && (t, s) in edges && LateDone(m[s]) && m[t].lateFinish.value == m[s].lateStart.value))
  }

  /** Every node satisfies its late-time equations. */
  ghost predicate AllBackwardEq(m: map<Id, TaskNode>, edges: seq<Edge>, finish: real)
  {
    forall t {:trigger BackwardEq(m, edges, finish, t)} :: t in m ==> BackwardEq(m, edges, finish, t)
  }

  /** Changing a node that is neither `t` nor a successor of `t` keeps `t`'s equations. */
  lemma BackwardEqFrame(m: map<Id, TaskNode>, edges: seq<Edge>, finish: real, t: Id, x: Id, n: TaskNode)
    requires t in m && x in m && t != x && (t, x) !in edges
    requires BackwardEq(m, edges, finish, t)
    ensures BackwardEq(m[x := n], edges, finish, t)
  {
    var m' := m[x := n];
    if !IsTerminal(edges, t) {
      var s :| s in m && (t, s) in edges && LateDone(m[s]) && m[t].lateFinish.value == m[s].lateStart.value;
      assert m'[s] == m[s];
    }
  }

  /** The node written at the end of one backward step satisfies its equations. */
  lemma BackwardStep(m: map<Id, TaskNode>, edges: seq<Edge>, finish: real, t: Id, succs: seq<Id>, lf: ExtReal)
    requires t in m && (t, t) !in edges
    requires forall s :: s in succs <==> (t, s) in edges
    requires forall s :: s in succs ==> s in m && LateDone(m[s])
    requires |succs| == 0 ==> lf == Finite(finish)
    requires |succs| > 0 ==> lf.Finite?
    requires |succs| > 0 ==> forall q :: 0 <= q < |succs| ==> lf.Finite? && LateDone(m[succs[q]]) && lf.value <= m[succs[q]].lateStart.value
    requires |succs| > 0 ==> exists q :: 0 <= q < |succs| && lf == m[succs[q]].lateStart
    ensures BackwardEq(m[t := m[t].(lateFinish := lf, lateStart := Minus(lf, m[t].expectedTime))], edges, finish, t)
  {
    var m' := m[t := m[t].(lateFinish := lf, lateStart := Minus(lf, m[t].expectedTime))];
    if |succs| == 0 {
      assert IsTerminal(edges, t);
    } else {
      assert succs[0] in succs;
      assert !IsTerminal(edges, t);
      forall s | s in m' && (t, s) in edges
        ensures LateDone(m'[s]) && lf.value <= m'[s].lateStart.value
      {
        var q :| 0 <= q < |succs| && succs[q] == s;
      }
      var q :| 0 <= q < |succs| && lf == m[succs[q]].lateStart;
      assert succs[q] in succs;
      assert m'[succs[q]] == m[succs[q]];
    }
  }

  /** Only the late times of nodes differ between `m` and `m'`. */
  ghost predicate LateTimesOnly(m: map<Id, TaskNode>, m': map<Id, TaskNode>)
  {
    m'.Keys == m.Keys
    && forall t :: t in m ==> m'[t] == m[t].(lateStart := m'[t].lateStart, lateFinish := m'[t].lateFinish)
  }

  /** Rewriting the late times of one node keeps the frame. */
  lemma LateTimesUpdate(nodes: map<Id, TaskNode>, out: map<Id, TaskNode>, t: Id, lf: ExtReal, ls: ExtReal)
    requires LateTimesOnly(nodes, out) && t in out
    ensures LateTimesOnly(nodes, out[t := out[t].(lateFinish := lf, lateStart := ls)])
  {
    var out' := out[t := out[t].(lateFinish := lf, lateStart := ls)];
    forall x | x in nodes
      ensures out'[x] == nodes[x].(lateStart := out'[x].lateStart, lateFinish := out'[x].lateFinish)
    {
      assert out[x] == nodes[x].(lateStart := out[x].lateStart, lateFinish := out[x].lateFinish);
    }
  }

  /** The inner loop of the backward pass: the smallest late start among
      `succs`, starting from `Infinity`. */
  method MinLateStart(m: map<Id, TaskNode>, succs: seq<Id>) returns (minLS: ExtReal)
    requires forall s :: s in succs ==> s in m && LateDone(m[s])
    ensures |succs| == 0 <==> minLS == Infinity
    ensures minLS.Finite? ==> forall q :: 0 <= q < |succs| ==> LateDone(m[succs[q]]) && minLS.value <= m[succs[q]].lateStart.value
    ensures minLS.Finite? ==> exists q :: 0 <= q < |succs| && minLS == m[succs[q]].lateStart
  {
    minLS := Infinity;
    for k := 0 to |succs|
      invariant k > 0 <==> minLS.Finite?
      invariant minLS.Finite? ==> forall q :: 0 <= q < k ==> LateDone(m[succs[q]]) && minLS.value <= m[succs[q]].lateStart.value
      invariant minLS.Finite? ==> exists q :: 0 <= q < k && minLS == m[succs[q]].lateStart
    {
      assert succs[k] in succs;
      if Less(m[succs[k]].lateStart, minLS) {
        minLS := m[succs[k]].lateStart;
      }
    }
  }

  /** One backward step keeps the loop invariant of the backward pass. */
  lemma BackwardAdvance(nodes: map<Id, TaskNode>, out: map<Id, TaskNode>, edges: seq<Edge>, finish: real,
                        order: seq<Id>, i: int, succs: seq<Id>, lf: ExtReal)
    requires IsTopologicalOrder(nodes.Keys, edges, order) && 0 <= i < |order|
    requires LateTimesOnly(nodes, out)
    requires forall j :: i < j < |order| ==> BackwardEq(out, edges, finish, order[j])
    requires forall s :: s in succs <==> (order[i], s) in edges
    requires forall s :: s in succs ==> s in out && LateDone(out[s])
    requires |succs| == 0 ==> lf == Finite(finish)
    requires |succs| > 0 ==> forall q :: 0 <= q < |succs| ==> lf.Finite? && LateDone(out[succs[q]]) && lf.value <= out[succs[q]].lateStart.value
    requires |succs| > 0 ==> exists q :: 0 <= q < |succs| && lf == out[succs[q]].lateStart
    ensures var t := order[i];
      var out' := out[t := out[t].(lateFinish := lf, lateStart := Minus(lf, out[t].expectedTime))];
      LateTimesOnly(nodes, out') && forall j :: i <= j < |order| ==> BackwardEq(out', edges, finish, order[j])
  {
    var t := order[i];
    var n := out[t].(lateFinish := lf, lateStart := Minus(lf, out[t].expectedTime));
    LateTimesUpdate(nodes, out, t, lf, Minus(lf, out[t].expectedTime));
    NoSelfLoop(nodes.Keys, edges, order, i);
    BackwardStep(out, edges, finish, t, succs, lf);
    forall j | i < j < |order|
      ensures BackwardEq(out[t := n], edges, finish, order[j])
    {
      BackwardEqFrame(out, edges, finish, order[j], t, n);
    }
  }

  /** Backward pass in reverse topological order: every node ends up
      satisfying its late-time equations, so none keeps the `Infinity`
      sentinel; nothing but the late times changes. */
  method BackwardPass(order: seq<Id>, edges: seq<Edge>, nodes: map<Id, TaskNode>, finish: real)
    returns (out: map<Id, TaskNode>)
    requires EdgesWithin(nodes.Keys, edges)
    requires IsTopologicalOrder(nodes.Keys, edges, order)
    ensures LateTimesOnly(nodes, out)
    ensures forall t :: t in out ==> BackwardEq(out, edges, finish, t)
  {
    out := nodes;
    var i := |order|;
    while i > 0
      invariant 0 <= i <= |order|
      invariant LateTimesOnly(nodes, out)
      invariant forall j :: i <= j < |order| ==> BackwardEq(out, edges, finish, order[j])
    {
      i := i - 1;
      var t := order[i];
      var succs := Successors(edges, t);
      forall s | s in succs
        ensures s in out && LateDone(out[s])
      {
        var j :| 0 <= j < |order| && order[j] == s;
        assert (order[i], order[j]) in edges;
      }
      var lf := MinLateStart(out, succs);
      if lf == Infinity {
        lf := Finite(finish);
      }
      BackwardAdvance(nodes, out, edges, finish, order, i, succs, lf);
      out := out[t := out[t].(lateFinish := lf, lateStart := Minus(lf, out[t].expectedTime))];
    }
    forall t | t in out
      ensures BackwardEq(out, edges, finish, t)
    {
      var j :| 0 <= j < |order| && order[j] == t;
    }
  }

  // ---------------------------------------------------------------------
  // Slack and classification (pertCalculator.js:110-126)
  // ---------------------------------------------------------------------

  /** Slack is the rounded late start minus early start; zero slack is
      critical, slack in (0, 1] is a bottleneck. */
  ghost predicate Classified(n: TaskNode)
  {
    && n.lateStart.Finite?
    && n.slack == Round5(n.lateStart.value - n.earlyStart)
    && n.isCritical == (n.slack == 0.0)
    && n.isBottleneck == (0.0 < n.slack <= BottleneckThreshold)
  }

  /** Only the slack and the two flags of nodes differ between `m` and `m'`. */
  ghost predicate ClassificationOnly(m: map<Id, TaskNode>, m': map<Id, TaskNode>)
  {
    m'.Keys == m.Keys
    && forall t :: t in m ==> m'[t] == m[t].(slack := m'[t].slack, isCritical := m'[t].isCritical, isBottleneck := m'[t].isBottleneck)
  }

  /** The classification loop over the tasks, in input order. */
  method Classify(tasks: seq<Task>, nodes: map<Id, TaskNode>) returns (out: map<Id, TaskNode>)
    requires DistinctIds(tasks)
    requires forall i :: 0 <= i < |tasks| ==> tasks[i].id in nodes
    requires forall i :: 0 <= i < |tasks| ==> nodes[tasks[i].id].lateStart.Finite?
    requires forall i :: 0 <= i < |tasks| ==> !nodes[tasks[i].id].isCritical && !nodes[tasks[i].id].isBottleneck
    ensures ClassificationOnly(nodes, out)
    ensures forall i :: 0 <= i < |tasks| ==> Classified(out[tasks[i].id])
  {
    out := nodes;
    for i := 0 to |tasks|
      invariant ClassificationOnly(nodes, out)
      invariant forall j :: 0 <= j < i ==> Classified(out[tasks[j].id])
      invariant forall j :: i <= j < |tasks| ==> out[tasks[j].id] == nodes[tasks[j].id]
    {
      var t := tasks[i].id;
      var task := out[t];
      var slack := Round5(task.lateStart.value - task.earlyStart);
      task := task.(slack := slack);
      if slack == 0.0 {
        task := task.(isCritical := true);
      } else if slack > 0.0 && slack <= BottleneckThreshold {
        task := task.(isBottleneck := true);
      }
      out := out[t := task];
    }
  }

  /** `tasks.filter(task => task.isCritical).map(task => task.id)`. */
  function CriticalPathIds(ts: seq<TaskNode>): (ids: seq<Id>)
    ensures forall id :: id in ids <==> exists i :: 0 <= i < |ts| && ts[i].isCritical && ts[i].task.id == id
  {
    if ts == [] then []
    else
      var rest := CriticalPathIds(ts[1..]);
      assert forall i :: 1 <= i < |ts| ==> ts[i] == ts[1..][i - 1];
      (if ts[0].isCritical then [ts[0].task.id] else []) + rest
  }

  /** The critical IDs of a concatenation are the concatenation of the
      critical IDs: the filter keeps input order. */
  lemma {:induction false} CriticalPathIdsAppend(a: seq<TaskNode>, b: seq<TaskNode>)
    ensures CriticalPathIds(a + b) == CriticalPathIds(a) + CriticalPathIds(b)
  {
    if a != [] {
      assert (a + b)[1..] == a[1..] + b;
      CriticalPathIdsAppend(a[1..], b);
    } else {
      assert a + b == b;
    }
  }

  // ---------------------------------------------------------------------
  // The whole calculation (pertCalculator.js:8-139)
  // ---------------------------------------------------------------------

  /** The returned task list is the input's, annotated, and the critical
      IDs are those of its critical tasks. */
  ghost predicate ResultShape(tasks: seq<Task>, res: PertResult)
  {
    var m := res.graph.nodes;
    && KeyedByTasks(m, tasks)
    && |res.tasks| == |tasks|
    && (forall i :: 0 <= i < |tasks| ==> tasks[i].id in m && res.tasks[i] == m[tasks[i].id] && res.tasks[i].task == tasks[i])
    && res.criticalPathIds == CriticalPathIds(res.tasks)
  }

  /** Every dependency names a task; the edges are the dependencies, each
      once and in the order first listed, and form no cycle. */
  ghost predicate DependencyGraph(tasks: seq<Task>, edges: seq<Edge>)
  {
    && AllDependenciesKnown(tasks)
    && edges == GraphEdges(tasks)
    && DistinctEdges(edges)
    && (forall p, t :: (p, t) in edges <==> DependsOn(tasks, p, t))
    && Acyclic(edges)
  }

  /** Estimates, early times and the project finish time. */
  ghost predicate EarlySchedule(m: map<Id, TaskNode>, edges: seq<Edge>, finish: real)
  {
    && (forall t :: t in m ==> Estimated(m[t]))
    && AllForwardEq(m, edges)
    && finish >= 0.0
    && (forall t :: t in m ==> m[t].earlyFinish <= finish)
    && (finish == 0.0 || exists t :: t in m && finish == m[t].earlyFinish)
  }

  /** Late times and classification. */
  ghost predicate LateSchedule(m: map<Id, TaskNode>, edges: seq<Edge>, finish: real)
  {
    && AllBackwardEq(m, edges, finish)
    && (forall t :: t in m ==> Classified(m[t]))
  }

  /** What a successful `calculatePERT` returns for `tasks`. */
  ghost predicate IsSchedule(tasks: seq<Task>, res: PertResult)
  {
    && ResultShape(tasks, res)
    && DependencyGraph(tasks, res.graph.edges)
    && EarlySchedule(res.graph.nodes, res.graph.edges, res.projectFinishTime)
    && LateSchedule(res.graph.nodes, res.graph.edges, res.projectFinishTime)
  }

  /** Early times and expected times agreeing keeps the forward equations. */
  lemma ForwardEqKept(m1: map<Id, TaskNode>, m2: map<Id, TaskNode>, edges: seq<Edge>)
    requires m2.Keys == m1.Keys
    requires forall t :: t in m1 ==>
      m2[t].earlyStart == m1[t].earlyStart && m2[t].earlyFinish == m1[t].earlyFinish && m2[t].expectedTime == m1[t].expectedTime
    requires AllForwardEq(m1, edges)
    ensures AllForwardEq(m2, edges)
  {
    forall t | t in m2
      ensures ForwardEq(m2, edges, t)
    {
      assert ForwardEq(m1, edges, t);
      if m1[t].earlyStart != 0.0 {
        var p :| p in m1 && (p, t) in edges && m1[t].earlyStart == m1[p].earlyFinish;
        assert m2[t].earlyStart == m2[p].earlyFinish;
      }
    }
  }

  /** Late times and expected times agreeing keeps the backward equations. */
  lemma BackwardEqKept(m1: map<Id, TaskNode>, m2: map<Id, TaskNode>, edges: seq<Edge>, finish: real)
    requires m2.Keys == m1.Keys
    requires forall t :: t in m1 ==>
      m2[t].lateStart == m1[t].lateStart && m2[t].lateFinish == m1[t].lateFinish && m2[t].expectedTime == m1[t].expectedTime
    requires AllBackwardEq(m1, edges, finish)
    ensures AllBackwardEq(m2, edges, finish)
  {
    forall t | t in m2
      ensures BackwardEq(m2, edges, finish, t)
    {
      assert BackwardEq(m1, edges, finish, t);
      if !IsTerminal(edges, t) {
        var s :| s in m1 && (t, s) in edges && LateDone(m1[s]) && m1[t].lateFinish.value == m1[s].lateStart.value;
        assert LateDone(m2[s]) && m2[t].lateFinish.value == m2[s].lateStart.value;
      }
    }
  }

  /** A cycle of the graph is a cycle of dependencies and back. */
  lemma CyclesAreDependencyCycles(tasks: seq<Task>, edges: seq<Edge>)
    requires forall p, t :: (p, t) in edges <==> DependsOn(tasks, p, t)
    ensures forall c :: IsCycle(edges, c) <==> DependencyCycle(tasks, c)
  {
  }

  /** The task nodes in input order. */
  function NodesInOrder(tasks: seq<Task>, m: map<Id, TaskNode>): (ts: seq<TaskNode>)
    requires forall i :: 0 <= i < |tasks| ==> tasks[i].id in m
    ensures |ts| == |tasks| && forall i :: 0 <= i < |tasks| ==> ts[i] == m[tasks[i].id]
  {
    seq(|tasks|, i requires 0 <= i < |tasks| => m[tasks[i].id])
  }

  /** What the passes leave of each node: the passes change disjoint fields. */
  lemma NodeAfterPasses(tasks: seq<Task>, nodes: map<Id, TaskNode>, early: map<Id, TaskNode>,
                        late: map<Id, TaskNode>, out: map<Id, TaskNode>)
    requires KeyedByTasks(nodes, tasks)
    requires forall i :: 0 <= i < |tasks| ==> !HasInvalidEstimate(tasks[i]) && nodes[tasks[i].id] == InitialNode(tasks[i])
    requires EarlyTimesOnly(nodes, early) && LateTimesOnly(early, late) && ClassificationOnly(late, out)
    requires forall i :: 0 <= i < |tasks| ==> Classified(out[tasks[i].id])
    ensures early.Keys == nodes.Keys && late.Keys == nodes.Keys && out.Keys == nodes.Keys && KeyedByTasks(out, tasks)
    ensures forall t :: t in out ==>
      && out[t].task == nodes[t].task && out[t].expectedTime == nodes[t].expectedTime && out[t].variance == nodes[t].variance
      && out[t].earlyStart == early[t].earlyStart && out[t].earlyFinish == early[t].earlyFinish
      && out[t].lateStart == late[t].lateStart && out[t].lateFinish == late[t].lateFinish
      && early[t].expectedTime == out[t].expectedTime && late[t].expectedTime == out[t].expectedTime
      && Estimated(out[t]) && Classified(out[t])
  {
    forall t | t in out
      ensures out[t].task == nodes[t].task && out[t].expectedTime == nodes[t].expectedTime && out[t].variance == nodes[t].variance
      ensures out[t].earlyStart == early[t].earlyStart && out[t].earlyFinish == early[t].earlyFinish
      ensures out[t].lateStart == late[t].lateStart && out[t].lateFinish == late[t].lateFinish
      ensures early[t].expectedTime == out[t].expectedTime && late[t].expectedTime == out[t].expectedTime
      ensures Estimated(out[t]) && Classified(out[t])
    {
      var i :| 0 <= i < |tasks| && tasks[i].id == t;
    }
  }

  /** Nodes that keep their initial fields and carry the times of the three
      passes and the classification make a schedule. */
  lemma PassesMakeSchedule(tasks: seq<Task>, edges: seq<Edge>, nodes: map<Id, TaskNode>, early: map<Id, TaskNode>,
                           finish: real, late: map<Id, TaskNode>, out: map<Id, TaskNode>)
    requires KeyedByTasks(nodes, tasks)
    requires forall i :: 0 <= i < |tasks| ==> !HasInvalidEstimate(tasks[i]) && nodes[tasks[i].id] == InitialNode(tasks[i])
    requires DependencyGraph(tasks, edges)
    requires early.Keys == nodes.Keys && late.Keys == nodes.Keys && out.Keys == nodes.Keys && KeyedByTasks(out, tasks)
    requires forall t :: t in out ==>
      && out[t].task == nodes[t].task && out[t].expectedTime == nodes[t].expectedTime && out[t].variance == nodes[t].variance
      && out[t].earlyStart == early[t].earlyStart && out[t].earlyFinish == early[t].earlyFinish
      && out[t].lateStart == late[t].lateStart && out[t].lateFinish == late[t].lateFinish
      && early[t].expectedTime == out[t].expectedTime && late[t].expectedTime == out[t].expectedTime
      && Estimated(out[t]) && Classified(out[t])
    requires AllForwardEq(early, edges)
    requires finish >= 0.0
    requires forall i :: 0 <= i < |tasks| ==> early[tasks[i].id].earlyFinish <= finish
    requires finish == 0.0 || exists i :: 0 <= i < |tasks| && finish == early[tasks[i].id].earlyFinish
    requires AllBackwardEq(late, edges, finish)
    ensures var ts := NodesInOrder(tasks, out);
      IsSchedule(tasks, PertResult(ts, CriticalPathIds(ts), finish, Graph(out, edges)))
  {
    var ts := NodesInOrder(tasks, out);
    assert ResultShape(tasks, PertResult(ts, CriticalPathIds(ts), finish, Graph(out, edges)));
    EarlyAfterPasses(tasks, edges, early, finish, out);
    BackwardEqKept(late, out, edges, finish);
  }

  lemma EarlyAfterPasses(tasks: seq<Task>, edges: seq<Edge>, early: map<Id, TaskNode>, finish: real, out: map<Id, TaskNode>)
    requires KeyedByTasks(out, tasks) && out.Keys == early.Keys
    requires forall t :: t in out ==>
      && Estimated(out[t]) && out[t].earlyStart == early[t].earlyStart
      && out[t].earlyFinish == early[t].earlyFinish && out[t].expectedTime == early[t].expectedTime
    requires AllForwardEq(early, edges)
    requires finish >= 0.0
    requires forall i :: 0 <= i < |tasks| ==> early[tasks[i].id].earlyFinish <= finish
    requires finish == 0.0 || exists i :: 0 <= i < |tasks| && finish == early[tasks[i].id].earlyFinish
    ensures EarlySchedule(out, edges, finish)
  {
    ForwardEqKept(early, out, edges);
    if finish != 0.0 {
      var i :| 0 <= i < |tasks| && finish == early[tasks[i].id].earlyFinish;
      assert tasks[i].id in out && finish == out[tasks[i].id].earlyFinish;
    }
    forall t | t in out
      ensures out[t].earlyFinish <= finish
    {
      var i :| 0 <= i < |tasks| && tasks[i].id == t;
    }
  }

  /** `calculatePERT`: the error it reports, if any, and otherwise the
      annotated tasks, the critical IDs, the project finish time and the graph. */
  method CalculatePert(tasks: seq<Task>) returns (r: Result<PertResult, PertError>)
    requires DistinctIds(tasks)
    ensures r.Err? && r.error.InvalidEstimate? <==> SomeInvalidEstimate(tasks)
    ensures r.Err? && r.error.InvalidEstimate? ==> exists i :: FirstInvalidEstimate(tasks, i) && r.error.taskId == tasks[i].id
    ensures r.Err? && r.error.MissingDependency? <==> !SomeInvalidEstimate(tasks) && !AllDependenciesKnown(tasks)
    ensures r.Err? && r.error.MissingDependency? ==> FirstMissingDependency(tasks, r.error.dependency, r.error.taskId)
    ensures r.Err? && r.error.CyclicDependency? <==>
              !SomeInvalidEstimate(tasks) && AllDependenciesKnown(tasks) && exists c :: DependencyCycle(tasks, c)
    ensures r.Err? && r.error.CyclicDependency? ==>
              DependencyCycle(tasks, r.error.cycle) && forall x :: x in r.error.cycle ==> IsTaskId(tasks, x)
    ensures r.Ok? ==> IsSchedule(tasks, r.value)
  {
    var init := InitNodes(tasks);
    if init.Err? {
      return Err(init.error);
    }
    var nodes := init.value;
    assert nodes.Keys == IdSet(tasks);
    var built := BuildEdges(tasks, nodes.Keys);
    if built.Err? {
      return Err(built.error);
    }
    var edges := built.value;
    CyclesAreDependencyCycles(tasks, edges);
    var found := FindCycles(nodes.Keys, edges);
    if found.Some? {
      return Err(CyclicDependency(found.value));
    }
    var order := TopSort(nodes.Keys, edges);
    var early := ForwardPass(order, edges, nodes);
    var finish := ProjectFinish(tasks, early);
    var late := BackwardPass(order, edges, early, finish);
    var out := Classify(tasks, late);
    NodeAfterPasses(tasks, nodes, early, late, out);
    PassesMakeSchedule(tasks, edges, nodes, early, finish, late, out);
    var ts := NodesInOrder(tasks, out);
    return Ok(PertResult(ts, CriticalPathIds(ts), finish, Graph(out, edges)));
  }
}

/** What the PERT/CPM design promises of a schedule that `calculatePERT`
    returns, proved of `IsSchedule`. */
module PertProperties {
  import opened TaskModel
  import opened PertGraph
  import opened PertCalculator

  /** The tasks whose late start lies before their early start have, each of
      them, a successor among them. */
  lemma BehindScheduleHasSuccessor(tasks: seq<Task>, res: PertResult, V: set<Id>, v: Id)
    requires IsSchedule(tasks, res)
    requires V == set t | t in res.graph.nodes && LateDone(res.graph.nodes[t])
                          && res.graph.nodes[t].lateStart.value < res.graph.nodes[t].earlyStart
    requires v in V
    ensures HasSuccessorIn(V, res.graph.edges, v)
  {
    var m, edges, finish := res.graph.nodes, res.graph.edges, res.projectFinishTime;
    assert BackwardEq(m, edges, finish, v) && ForwardEq(m, edges, v);
    if IsTerminal(edges, v) {
      assert false;
    }
    var s :| s in m && (v, s) in edges && LateDone(m[s]) && m[v].lateFinish.value == m[s].lateStart.value;
    assert ForwardEq(m, edges, s);
    assert s in V;
  }

  /** No task is scheduled to start late: late start is never before early
      start, so slack is never negative (an acyclic graph has no task whose
      successors all start behind it). */
  lemma SlackNonNegative(tasks: seq<Task>, res: PertResult)
    requires IsSchedule(tasks, res)
    ensures forall t :: t in res.graph.nodes ==>
      && res.graph.nodes[t].lateStart.Finite?
      && res.graph.nodes[t].earlyStart <= res.graph.nodes[t].lateStart.value
      && res.graph.nodes[t].slack >= 0.0
  {
    var m, edges := res.graph.nodes, res.graph.edges;
    var V := set t | t in m && LateDone(m[t]) && m[t].lateStart.value < m[t].earlyStart;
    if V != {} {
      forall v | v in V
        ensures HasSuccessorIn(V, edges, v)
      {
        BehindScheduleHasSuccessor(tasks, res, V, v);
      }
      SuccessorClosedCyclic(V, edges);
      assert false;
    }
    forall t | t in m
      ensures m[t].lateStart.Finite? && m[t].earlyStart <= m[t].lateStart.value && m[t].slack >= 0.0
    {
      assert BackwardEq(m, edges, res.projectFinishTime, t) && Classified(m[t]);
      assert t !in V;
    }
  }

  /** For a task nothing depends on, slack is the gap between its early
      finish and the project finish time. */
  lemma TerminalSlack(tasks: seq<Task>, res: PertResult, t: Id)
    requires IsSchedule(tasks, res)
    requires t in res.graph.nodes && IsTerminal(res.graph.edges, t)
    ensures res.graph.nodes[t].lateStart.Finite?
    ensures res.graph.nodes[t].lateStart.value - res.graph.nodes[t].earlyStart
            == res.projectFinishTime - res.graph.nodes[t].earlyFinish
  {
    assert BackwardEq(res.graph.nodes, res.graph.edges, res.projectFinishTime, t);
    assert ForwardEq(res.graph.nodes, res.graph.edges, t);
  }

  /** Where two solutions of the forward equations differ at `v`, they
      differ at a predecessor of `v` too. */
  lemma EarlyDifferenceSpreads(m1: map<Id, TaskNode>, m2: map<Id, TaskNode>, e1: seq<Edge>, e2: seq<Edge>,
                               D: set<Id>, v: Id)
    requires m1.Keys == m2.Keys
    requires forall t :: t in m1 ==> m1[t].expectedTime == m2[t].expectedTime
    requires forall p, t :: (p, t) in e1 <==> (p, t) in e2
    requires v in m1
    requires forall t :: t in D <==> t in m1 && m1[t].earlyStart != m2[t].earlyStart
    requires AllForwardEq(m1, e1) && AllForwardEq(m2, e2)
    requires v in D
    ensures HasPredecessorIn(D, e1, v)
  {
    assert ForwardEq(m1, e1, v) && ForwardEq(m2, e2, v);
    if m1[v].earlyStart > m2[v].earlyStart {
      var p :| p in m1 && (p, v) in e1 && m1[v].earlyStart == m1[p].earlyFinish;
      assert ForwardEq(m1, e1, p) && ForwardEq(m2, e2, p);
      assert p in D;
    } else {
      var p :| p in m2 && (p, v) in e2 && m2[v].earlyStart == m2[p].earlyFinish;
      assert ForwardEq(m1, e1, p) && ForwardEq(m2, e2, p);
      assert p in D;
    }
  }

  /** Two solutions of the forward equations over the same acyclic edges
      and expected times have the same early starts. */
  lemma EarlyStartsUnique(m1: map<Id, TaskNode>, m2: map<Id, TaskNode>, e1: seq<Edge>, e2: seq<Edge>)
    requires m1.Keys == m2.Keys
    requires forall t :: t in m1 ==> m1[t].expectedTime == m2[t].expectedTime
    requires forall p, t :: (p, t) in e1 <==> (p, t) in e2
    requires AllForwardEq(m1, e1) && AllForwardEq(m2, e2)
    requires Acyclic(e1)
    ensures forall t :: t in m1 ==> m1[t].earlyStart == m2[t].earlyStart
  {
    var D := set t | t in m1 && m1[t].earlyStart != m2[t].earlyStart;
    if D != {} {
      forall v | v in D
        ensures HasPredecessorIn(D, e1, v)
      {
        EarlyDifferenceSpreads(m1, m2, e1, e2, D, v);
      }
      PredecessorClosedCyclic(D, e1);
      assert false;
    }
    forall t | t in m1
      ensures m1[t].earlyStart == m2[t].earlyStart
    {
      assert t !in D;
    }
  }

  /** A node is terminal in one of two edge lists with the same edges iff in the other. */
  lemma TerminalSame(e1: seq<Edge>, e2: seq<Edge>, v: Id)
    requires forall p, t :: (p, t) in e1 <==> (p, t) in e2
    ensures IsTerminal(e1, v) <==> IsTerminal(e2, v)
  {
    if !IsTerminal(e1, v) {
      var s :| (v, s) in e1;
      assert (v, s) in e2;
    }
    if !IsTerminal(e2, v) {
      var s :| (v, s) in e2;
      assert (v, s) in e1;
    }
  }

  /** Where two solutions of the backward equations differ at `v`, they
      differ at a successor of `v` too. */
  lemma LateDifferenceSpreads(m1: map<Id, TaskNode>, m2: map<Id, TaskNode>, e1: seq<Edge>, e2: seq<Edge>,
                              finish: real, D: set<Id>, v: Id)
    requires m1.Keys == m2.Keys
    requires forall t :: t in m1 ==> m1[t].expectedTime == m2[t].expectedTime
    requires forall p, t :: (p, t) in e1 <==> (p, t) in e2
    requires forall t :: t in D <==> t in m1 && m1[t].lateFinish != m2[t].lateFinish
    requires AllBackwardEq(m1, e1, finish) && AllBackwardEq(m2, e2, finish)
    requires v in D
    ensures HasSuccessorIn(D, e1, v)
  {
    assert BackwardEq(m1, e1, finish, v) && BackwardEq(m2, e2, finish, v);
    TerminalSame(e1, e2, v);
    if m1[v].lateFinish.value < m2[v].lateFinish.value {
      var s :| s in m1 && (v, s) in e1 && LateDone(m1[s]) && m1[v].lateFinish.value == m1[s].lateStart.value;
      assert BackwardEq(m1, e1, finish, s) && BackwardEq(m2, e2, finish, s);
      assert s in D;
    } else {
      var s :| s in m2 && (v, s) in e2 && LateDone(m2[s]) && m2[v].lateFinish.value == m2[s].lateStart.value;
      assert BackwardEq(m1, e1, finish, s) && BackwardEq(m2, e2, finish, s);
      assert s in D;
    }
  }

  /** Two solutions of the backward equations over the same acyclic edges,
      expected times and project finish time have the same late finishes. */
  lemma LateFinishesUnique(m1: map<Id, TaskNode>, m2: map<Id, TaskNode>, e1: seq<Edge>, e2: seq<Edge>, finish: real)
    requires m1.Keys == m2.Keys
    requires forall t :: t in m1 ==> m1[t].expectedTime == m2[t].expectedTime
    requires forall p, t :: (p, t) in e1 <==> (p, t) in e2
    requires AllBackwardEq(m1, e1, finish) && AllBackwardEq(m2, e2, finish)
    requires Acyclic(e1)
    ensures forall t :: t in m1 ==> m1[t].lateFinish == m2[t].lateFinish
  {
    var D := set t | t in m1 && m1[t].lateFinish != m2[t].lateFinish;
    if D != {} {
      forall v | v in D
        ensures HasSuccessorIn(D, e1, v)
      {
        LateDifferenceSpreads(m1, m2, e1, e2, finish, D, v);
      }
      SuccessorClosedCyclic(D, e1);
      assert false;
    }
    forall t | t in m1
      ensures m1[t].lateFinish == m2[t].lateFinish
    {
      assert t !in D;
    }
  }

  /** Two schedules for the same tasks have the same node keys, the same
      estimates on every node and the same edges. */
  lemma SameInputs(tasks: seq<Task>, r1: PertResult, r2: PertResult)
    requires IsSchedule(tasks, r1) && IsSchedule(tasks, r2)
    ensures r1.graph.nodes.Keys == r2.graph.nodes.Keys
    ensures forall t :: t in r1.graph.nodes ==>
      && r1.graph.nodes[t].task == r2.graph.nodes[t].task
      && r1.graph.nodes[t].expectedTime == r2.graph.nodes[t].expectedTime
      && r1.graph.nodes[t].variance == r2.graph.nodes[t].variance
    ensures forall p, t :: (p, t) in r1.graph.edges <==> (p, t) in r2.graph.edges
  {
    var m1, m2 := r1.graph.nodes, r2.graph.nodes;
    assert ResultShape(tasks, r1) && ResultShape(tasks, r2);
    forall t | t in m1
      ensures m1[t].task == m2[t].task && m1[t].expectedTime == m2[t].expectedTime && m1[t].variance == m2[t].variance
    {
      var i :| 0 <= i < |tasks| && tasks[i].id == t;
      assert r1.tasks[i] == m1[t] && r2.tasks[i] == m2[t];
      assert Estimated(m1[t]) && Estimated(m2[t]);
    }
  }

  /** Two node maps with the same tasks and estimates over the same acyclic
      edges, both solving the early and late equations and classified, are
      equal and have the same project finish time. */
  lemma SolutionsUnique(m1: map<Id, TaskNode>, m2: map<Id, TaskNode>, e1: seq<Edge>, e2: seq<Edge>, f1: real, f2: real)
    requires m1.Keys == m2.Keys
    requires forall t :: t in m1 ==>
      && m1[t].task == m2[t].task && m1[t].expectedTime == m2[t].expectedTime && m1[t].variance == m2[t].variance
    requires forall p, t :: (p, t) in e1 <==> (p, t) in e2
    requires Acyclic(e1)
    requires EarlySchedule(m1, e1, f1) && EarlySchedule(m2, e2, f2)
    requires LateSchedule(m1, e1, f1) && LateSchedule(m2, e2, f2)
    ensures f1 == f2
    ensures m1 == m2
  {
    EarlyStartsUnique(m1, m2, e1, e2);
    forall t | t in m1
      ensures m1[t].earlyFinish == m2[t].earlyFinish
    {
      assert ForwardEq(m1, e1, t) && ForwardEq(m2, e2, t);
    }
    EarlyPartsEqual(m1, m2, e1, e2, f1, f2);
    LateFinishesUnique(m1, m2, e1, e2, f1);
    forall t | t in m1
      ensures m1[t] == m2[t]
    {
      assert BackwardEq(m1, e1, f1, t) && BackwardEq(m2, e2, f1, t);
      assert Classified(m1[t]) && Classified(m2[t]);
    }
  }

  /** `calculatePERT` is deterministic in everything it reports: any two
      schedules for the same tasks agree on the annotated tasks, the
      critical IDs, the finish time, the node labels and the edge list with
      its order, so they are the same result. */
  lemma ScheduleUnique(tasks: seq<Task>, r1: PertResult, r2: PertResult)
    requires IsSchedule(tasks, r1) && IsSchedule(tasks, r2)
    ensures r1.tasks == r2.tasks
    ensures r1.criticalPathIds == r2.criticalPathIds
    ensures r1.projectFinishTime == r2.projectFinishTime
    ensures r1.graph.nodes == r2.graph.nodes
    ensures r1.graph.edges == r2.graph.edges
    ensures r1 == r2
  {
    SameInputs(tasks, r1, r2);
    SolutionsUnique(r1.graph.nodes, r2.graph.nodes, r1.graph.edges, r2.graph.edges,
                    r1.projectFinishTime, r2.projectFinishTime);
    assert ResultShape(tasks, r1) && ResultShape(tasks, r2);
    assert |r1.tasks| == |r2.tasks|;
    assert forall i :: 0 <= i < |r1.tasks| ==> r1.tasks[i] == r2.tasks[i];
    assert DependencyGraph(tasks, r1.graph.edges) && DependencyGraph(tasks, r2.graph.edges);
  }

  lemma EarlyPartsEqual(m1: map<Id, TaskNode>, m2: map<Id, TaskNode>, e1: seq<Edge>, e2: seq<Edge>, f1: real, f2: real)
    requires m1.Keys == m2.Keys
    requires forall t :: t in m1 ==> m1[t].earlyFinish == m2[t].earlyFinish
    requires EarlySchedule(m1, e1, f1) && EarlySchedule(m2, e2, f2)
    ensures f1 == f2
  {
    if f1 != 0.0 {
      var t :| t in m1 && f1 == m1[t].earlyFinish;
    }
    if f2 != 0.0 {
      var t :| t in m2 && f2 == m2[t].earlyFinish;
    }
  }

  /** With valid estimates no task takes negative time. */
  lemma ExpectedTimesNonNegative(tasks: seq<Task>, res: PertResult)
    requires IsSchedule(tasks, res)
    requires forall i :: 0 <= i < |tasks| ==> ValidEstimates(tasks[i])
    ensures forall t :: t in res.graph.nodes ==> res.graph.nodes[t].expectedTime >= 0.0
  {
    var m := res.graph.nodes;
    assert ResultShape(tasks, res);
    forall t | t in m
      ensures m[t].expectedTime >= 0.0
    {
      var i :| 0 <= i < |tasks| && tasks[i].id == t;
      assert res.tasks[i] == m[t];
      assert Estimated(m[t]);
    }
  }

  /** Some task finishes at the project finish time, when there is any task
      and none takes negative time. */
  lemma SomeTaskFinishesLast(tasks: seq<Task>, res: PertResult)
    requires IsSchedule(tasks, res)
    requires |tasks| > 0
    requires forall t :: t in res.graph.nodes ==> res.graph.nodes[t].expectedTime >= 0.0
    ensures exists t :: t in res.graph.nodes && res.graph.nodes[t].earlyFinish == res.projectFinishTime
  {
    var m, edges, finish := res.graph.nodes, res.graph.edges, res.projectFinishTime;
    assert ResultShape(tasks, res) && EarlySchedule(m, edges, finish);
    if finish == 0.0 {
      var t := tasks[0].id;
      assert t in m && ForwardEq(m, edges, t);
    }
  }

  /** Both ends of every edge of a schedule are task nodes. */
  lemma ScheduleEdgesWithin(tasks: seq<Task>, res: PertResult)
    requires IsSchedule(tasks, res)
    ensures EdgesWithin(res.graph.nodes.Keys, res.graph.edges)
  {
    assert ResultShape(tasks, res) && DependencyGraph(tasks, res.graph.edges);
    forall e | e in res.graph.edges
      ensures e.0 in res.graph.nodes && e.1 in res.graph.nodes
    {
      assert (e.0, e.1) in res.graph.edges;
      assert DependsOn(tasks, e.0, e.1);
      var i :| 0 <= i < |tasks| && tasks[i].id == e.1 && e.0 in tasks[i].dependencies;
      assert IsTaskId(tasks, e.1);
      assert e.0 in IdSet(tasks);
    }
  }

  /** A task that finishes at the project finish time and has a successor
      has one that also finishes then (durations are non-negative). */
  lemma FinishingHasSuccessor(m: map<Id, TaskNode>, edges: seq<Edge>, finish: real, F: set<Id>, v: Id)
    requires EdgesWithin(m.Keys, edges) && AllForwardEq(m, edges)
    requires forall t :: t in m ==> m[t].expectedTime >= 0.0 && m[t].earlyFinish <= finish
    requires F == set t | t in m && m[t].earlyFinish == finish
    requires v in F && !IsTerminal(edges, v)
    ensures HasSuccessorIn(F, edges, v)
  {
    var s :| (v, s) in edges;
    assert s in m;
    assert ForwardEq(m, edges, s);
    assert s in F;
  }

  /** If durations are non-negative and some task finishes at the project
      finish time, then some task that nothing depends on does. */
  lemma FinishingTerminalExists(m: map<Id, TaskNode>, edges: seq<Edge>, finish: real)
    requires Acyclic(edges) && EdgesWithin(m.Keys, edges) && AllForwardEq(m, edges)
    requires forall t :: t in m ==> m[t].expectedTime >= 0.0 && m[t].earlyFinish <= finish
    requires exists t :: t in m && m[t].earlyFinish == finish
    ensures exists t :: t in m && m[t].earlyFinish == finish && IsTerminal(edges, t)
  {
    var F := set t | t in m && m[t].earlyFinish == finish;
    var w :| w in m && m[w].earlyFinish == finish;
    assert w in F;
    if forall v :: v in F ==> !IsTerminal(edges, v) {
      forall v | v in F
        ensures HasSuccessorIn(F, edges, v)
      {
        FinishingHasSuccessor(m, edges, finish, F, v);
      }
      SuccessorClosedCyclic(F, edges);
      assert false;
    }
  }

  /** With valid estimates a non-empty project always has a critical path:
      some task that nothing depends on finishes exactly at the project
      finish time, and it is critical. */
  lemma CriticalTaskExists(tasks: seq<Task>, res: PertResult)
    requires IsSchedule(tasks, res)
    requires |tasks| > 0
    requires forall i :: 0 <= i < |tasks| ==> ValidEstimates(tasks[i])
    ensures exists i :: 0 <= i < |res.tasks| && res.tasks[i].isCritical
              && res.tasks[i].earlyFinish == res.projectFinishTime
              && IsTerminal(res.graph.edges, res.tasks[i].task.id)
    ensures res.criticalPathIds != []
  {
    var m, edges, finish := res.graph.nodes, res.graph.edges, res.projectFinishTime;
    ExpectedTimesNonNegative(tasks, res);
    SomeTaskFinishesLast(tasks, res);
    ScheduleEdgesWithin(tasks, res);
    assert DependencyGraph(tasks, edges) && EarlySchedule(m, edges, finish);
    FinishingTerminalExists(m, edges, finish);
    var t :| t in m && m[t].earlyFinish == finish && IsTerminal(edges, t);
    TerminalSlack(tasks, res, t);
    assert ResultShape(tasks, res) && LateSchedule(m, edges, finish);
    assert Classified(m[t]);
    var i :| 0 <= i < |tasks| && tasks[i].id == t;
    assert res.tasks[i] == m[t] && res.tasks[i].task.id == t;
    assert res.tasks[i].isCritical;
    assert t in CriticalPathIds(res.tasks);
  }
}

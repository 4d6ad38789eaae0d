/** The task record that flows from the CSV validator into the PERT engine. */
module TaskModel {

  type Id = string

  /** A JavaScript number as the model sees it: an exact finite value or NaN.
      `parseFloat` can also yield `Infinity`, which the validator lets
      through, and large finite times can overflow to `Infinity` in the
      engine's arithmetic; neither is modelled. */
  datatype Number = Num(value: real) | NaN

  /** One validated CSV row: the object `parseAndValidateCSV` pushes onto
      `validatedTasks`, and that `calculatePERT` later annotates. */
  datatype Task = Task(
    id: Id,
    description: string,
    optimisticTime: Number,
    mostLikelyTime: Number,
    pessimisticTime: Number,
    dependencies: seq<Id>,
    originalRow: int)

  /** No two records share an ID. */
  predicate DistinctIds(tasks: seq<Task>)
  {
    forall i, j :: 0 <= i < j < |tasks| ==> tasks[i].id != tasks[j].id
  }

  /** `id` is the ID of some record. */
  ghost predicate IsTaskId(tasks: seq<Task>, id: Id)
  {
    exists i :: 0 <= i < |tasks| && tasks[i].id == id
  }

  /** The task with ID `t` lists `p` among its dependencies. */
  ghost predicate DependsOn(tasks: seq<Task>, p: Id, t: Id)
  {
    exists i :: 0 <= i < |tasks| && tasks[i].id == t && p in tasks[i].dependencies
  }

  /** The set of task IDs. */
  function IdSet(tasks: seq<Task>): (ids: set<Id>)
    ensures forall id :: id in ids <==> IsTaskId(tasks, id)
  {
    set i | 0 <= i < |tasks| :: tasks[i].id
  }

  /** The estimates the CSV validator lets through: numbers with
      0 <= optimistic <= most likely <= pessimistic. */
  predicate ValidEstimates(t: Task)
  {
    && t.optimisticTime.Num? && t.mostLikelyTime.Num? && t.pessimisticTime.Num?
    && 0.0 <= t.optimisticTime.value <= t.mostLikelyTime.value <= t.pessimisticTime.value
  }
}

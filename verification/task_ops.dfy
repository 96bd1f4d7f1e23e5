/**
 * The two task endpoints that write: `updateTaskStatus` and `deleteTask`.
 */
module TaskOps {
  import opened Options
  import opened Store
  import opened Writes

  datatype StatusResult =
    | InvalidStatus                        // 400 "Invalid status value"
    | TaskNotFound                         // 404 "Task not found"
    | StatusUpdated(store: Store, task: Task)

  /** `updateTaskStatus`: the requested status (`None` when the body has
      none, or one that is not a string) is checked before the task is
      looked up; `completedAt` is stamped with `now` when the task is
      completed and otherwise left as it was (an `undefined` update value is
      dropped). */
  function UpdateTaskStatus(st: Store, t: TaskId, status: Option<string>, now: int): (r: StatusResult)
    ensures r.InvalidStatus? <==> status.None? || ParseStatus(status.value).None?
    ensures r.TaskNotFound? <==> !r.InvalidStatus? && t !in st.tasks
    ensures r.StatusUpdated? ==>
      && t in r.store.tasks
      && r.task == r.store.tasks[t]
      && StatusName(r.task.status) == status.value
      && (r.task.status == Completed ==> r.task.completedAt == Some(now))
      && (r.task.status != Completed ==> r.task.completedAt == st.tasks[t].completedAt)
      && r.task.(status := st.tasks[t].status, completedAt := st.tasks[t].completedAt) == st.tasks[t]
  {
    if status.None? || ParseStatus(status.value).None? then InvalidStatus
    else if t !in st.tasks then TaskNotFound
    else
      var s := ParseStatus(status.value).value;
      ParseStatusIffName(status.value, s);
      var before := st.tasks[t];
      var task := before.(status := s, completedAt := if s == Completed then Some(now) else before.completedAt);
      StatusUpdated(st.(tasks := st.tasks[t := task]), task)
  }

  /** A status update touches task `t`'s record and nothing else: not the
      other tasks, not the agents, not the assignments; so the store keeps
      its invariants. */
  lemma UpdateTaskStatusFrame(st: Store, t: TaskId, status: Option<string>, now: int)
    requires UpdateTaskStatus(st, t, status, now).StatusUpdated?
    ensures UpdateTaskStatus(st, t, status, now).store.tasks.Keys == st.tasks.Keys
    ensures forall u :: u in st.tasks && u != t ==> UpdateTaskStatus(st, t, status, now).store.tasks[u] == st.tasks[u]
    ensures UpdateTaskStatus(st, t, status, now).store.(tasks := st.tasks) == st
    ensures WellFormed(st) ==> WellFormed(UpdateTaskStatus(st, t, status, now).store)
    ensures Consistent(st) ==> Consistent(UpdateTaskStatus(st, t, status, now).store)
  {
  }

  /** Sending the same update twice leaves the store as sending it once. */
  lemma UpdateTaskStatusIdempotent(st: Store, t: TaskId, status: Option<string>, now: int)
    requires UpdateTaskStatus(st, t, status, now).StatusUpdated?
    ensures UpdateTaskStatus(UpdateTaskStatus(st, t, status, now).store, t, status, now)
      == UpdateTaskStatus(st, t, status, now)
  {
  }

  datatype DeleteResult =
    | DeleteNotFound                       // 404 "Task not found"
    | Deleted(store: Store)

  /** `deleteTask`: pull the task from the list of the agent its field names
      (`$pull`, a no-op when that agent is gone), then delete the task. */
  function DeleteTask(st: Store, t: TaskId): (r: DeleteResult)
    ensures r.DeleteNotFound? <==> t !in st.tasks
  {
    if t !in st.tasks then DeleteNotFound
    else
      var pulled :=
        if t in st.assignedAgent && st.assignedAgent[t] in st.assignedTasks then
          st.assignedTasks[st.assignedAgent[t] := Without(st.assignedTasks[st.assignedAgent[t]], t)]
        else st.assignedTasks;
      Deleted(st.(assignedTasks := pulled,
                  tasks := st.tasks - {t},
                  taskOrder := Without(st.taskOrder, t),
                  assignedAgent := st.assignedAgent - {t}))
  }

  /** After a deletion the task is gone from the collection, from the query
      order and from every agent's list; every other task, every agent and
      every other list entry is kept. */
  lemma DeleteTaskSpec(st: Store, t: TaskId)
    requires Consistent(st) && t in st.tasks
    ensures DeleteTask(st, t).store.tasks == st.tasks - {t}
    ensures forall u :: u in DeleteTask(st, t).store.taskOrder <==> u in st.taskOrder && u != t
    ensures DeleteTask(st, t).store.assignedAgent == st.assignedAgent - {t}
    ensures DeleteTask(st, t).store.agents == st.agents && DeleteTask(st, t).store.agentOrder == st.agentOrder
    ensures DeleteTask(st, t).store.assignedTasks.Keys == st.assignedTasks.Keys
    ensures forall a, u :: a in st.assignedTasks ==>
      (u in DeleteTask(st, t).store.assignedTasks[a] <==> u in st.assignedTasks[a] && u != t)
  {
    var st' := DeleteTask(st, t).store;
    forall a, u | a in st.assignedTasks
      ensures u in st'.assignedTasks[a] <==> u in st.assignedTasks[a] && u != t
    {
      if t in st.assignedTasks[a] {
        assert st.assignedAgent[t] == a;
      }
    }
  }

  /** Deleting a task keeps the store well formed ... */
  lemma DeleteTaskWellFormed(st: Store, t: TaskId)
    requires WellFormed(st) && Consistent(st) && t in st.tasks
    ensures WellFormed(DeleteTask(st, t).store)
  {
    DeleteTaskSpec(st, t);
    WithoutDistinct(st.taskOrder, t);
  }

  /** ... and keeps the two sides of every assignment in agreement. */
  lemma DeleteTaskConsistent(st: Store, t: TaskId)
    requires Consistent(st) && t in st.tasks
    ensures Consistent(DeleteTask(st, t).store)
  {
    var st' := DeleteTask(st, t).store;
    DeleteTaskSpec(st, t);
    forall u | u in st'.assignedAgent
      ensures st'.assignedAgent[u] in st'.assignedTasks && u in st'.assignedTasks[st'.assignedAgent[u]]
    {
      assert u != t && u in st.assignedAgent;
    }
    forall a, u | a in st'.assignedTasks && u in st'.assignedTasks[a]
      ensures u in st'.assignedAgent && st'.assignedAgent[u] == a
    {
      assert u != t && u in st.assignedTasks[a];
    }
  }

  /** Deleting a task keeps both invariants. */
  lemma DeleteTaskKeepsInvariants(st: Store, t: TaskId)
    requires WellFormed(st) && Consistent(st) && t in st.tasks
    ensures WellFormed(DeleteTask(st, t).store) && Consistent(DeleteTask(st, t).store)
  {
    DeleteTaskWellFormed(st, t);
    DeleteTaskConsistent(st, t);
  }

  /** A deleted task cannot be deleted again. */
  lemma DeleteTaskTwice(st: Store, t: TaskId)
    requires t in st.tasks
    ensures DeleteTask(DeleteTask(st, t).store, t).DeleteNotFound?
  {
  }
}

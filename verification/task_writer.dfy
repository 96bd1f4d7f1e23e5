/**
 * `saveTasks`: each valid row becomes a pending Task, owned by the agent at
 * the current position of the distribution and pushed onto that agent's
 * list; the position then moves on by one, wrapping around.
 *
 * The model saves all rows first and then makes the assignments in the same
 * order. Saving a row only adds a fresh task and assigning only touches that
 * task's agent field and one agent's list, so the store reached at the end
 * is the same as with the source's interleaving.
 */
module TaskWriter {
  import opened Options
  import opened Store
  import opened Shares
  import opened Writes
  import opened Planner
  import opened RowCheck

  /** The Task saved for one valid row: pending, never completed. */
  function NewTask(s: Sanitized): Task {
    Task(s.firstName, s.phone, s.notes, Pending, None)
  }

  /** The ids `first`, `first + 1`, ..., as fresh documents receive them. */
  function NewIds(first: nat, n: nat): (ids: seq<TaskId>)
    ensures |ids| == n && Distinct(ids)
    ensures forall i :: 0 <= i < n ==> ids[i] == first + i
  {
    seq(n, i requires 0 <= i < n => first + i)
  }

  /** `new Task({...}).save()` under the next fresh id. */
  function Create(st: Store, s: Sanitized): Store {
    st.(tasks := st.tasks[st.nextTaskId := NewTask(s)],
        taskOrder := st.taskOrder + [st.nextTaskId],
        nextTaskId := st.nextTaskId + 1)
  }

  /** The first `n` rows saved, one fresh id each, nobody assigned yet. */
  function CreateUpTo(st: Store, rows: seq<Sanitized>, n: nat): (st': Store)
    requires n <= |rows|
    ensures st'.agents == st.agents && st'.agentOrder == st.agentOrder && st'.nextAgentId == st.nextAgentId
    ensures st'.assignedTasks == st.assignedTasks && st'.assignedAgent == st.assignedAgent
    ensures st'.nextTaskId == st.nextTaskId + n
    ensures st'.taskOrder == st.taskOrder + NewIds(st.nextTaskId, n)
  {
    if n == 0 then st
    else
      var prev := CreateUpTo(st, rows, n - 1);
      assert NewIds(st.nextTaskId, n) == NewIds(st.nextTaskId, n - 1) + [prev.nextTaskId];
      Create(prev, rows[n - 1])
  }

  /** The agents of a distribution, in its order. */
  function AgentIds(dist: seq<Workload>): (ids: seq<AgentId>)
    ensures |ids| == |dist|
    ensures forall j :: 0 <= j < |dist| ==> ids[j] == dist[j].agent.id
  {
    seq(|dist|, j requires 0 <= j < |dist| => dist[j].agent.id)
  }

  /** The store once the rows are saved and row `i` is given to the agent at
      position `i % k` of a distribution of `k` agents. */
  function Saving(st: Store, rows: seq<Sanitized>, dist: seq<Workload>): Store
    requires |dist| > 0
  {
    var n := |rows|;
    AssignUpTo(CreateUpTo(st, rows, n), NewIds(st.nextTaskId, n), Cyclic(AgentIds(dist), n), n)
  }

  datatype Saved = Saved(store: Store, ids: seq<TaskId>)

  /** `saveTasks`: the store afterwards and the ids of the saved tasks, in row
      order; `None` when there are rows but no agent to give them to (reading
      `.agent` of a missing entry throws). */
  function SaveTasks(st: Store, rows: seq<Sanitized>, dist: seq<Workload>): (r: Option<Saved>)
    ensures r.None? <==> |rows| > 0 && |dist| == 0
    ensures r.Some? ==> r.value.ids == NewIds(st.nextTaskId, |rows|)
    ensures r.Some? && |rows| == 0 ==> r.value.store == st
  {
    if |rows| == 0 then Some(Saved(st, []))
    else if |dist| == 0 then None
    else Some(Saved(Saving(st, rows, dist), NewIds(st.nextTaskId, |rows|)))
  }

  /** What a successful `saveTasks` leaves behind: whenever there is an
      agent to give the rows to, it succeeds, returns one fresh id per row,
      stores row `i` as a new pending task owned by the agent at position
      `i % k`, keeps every task stored before, and keeps both invariants
      when the agents are stored. */
  lemma SaveTasksSpec(st: Store, rows: seq<Sanitized>, dist: seq<Workload>)
    requires WellFormed(st) && Consistent(st)
    requires |rows| == 0 || |dist| > 0
    requires forall j :: 0 <= j < |dist| ==> dist[j].agent.id in st.agents
    ensures SaveTasks(st, rows, dist).Some?
    ensures var s := SaveTasks(st, rows, dist).value; WellFormed(s.store) && Consistent(s.store)
    ensures var s := SaveTasks(st, rows, dist).value;
      |s.ids| == |rows| && forall t :: t in st.tasks ==> t in s.store.tasks && s.store.tasks[t] == st.tasks[t]
    ensures var s := SaveTasks(st, rows, dist).value;
      forall i :: 0 <= i < |rows| ==>
        && s.ids[i] in s.store.tasks && s.store.tasks[s.ids[i]] == NewTask(rows[i])
        && s.ids[i] in s.store.assignedAgent && s.store.assignedAgent[s.ids[i]] == dist[i % |dist|].agent.id
  {
    if |rows| > 0 {
      SavingWellFormed(st, rows, dist);
      SavingConsistent(st, rows, dist);
      SavingRecords(st, rows, dist);
      SavingOwners(st, rows, dist);
    }
  }

  /** Saving `n` rows adds exactly the tasks `first .. first + n - 1`, row `i`
      as task `first + i`, and keeps every task stored before. */
  lemma {:induction false} CreateUpToTasks(st: Store, rows: seq<Sanitized>, n: nat)
    requires n <= |rows|
    requires forall t :: t in st.tasks ==> t < st.nextTaskId
    ensures forall t :: t in CreateUpTo(st, rows, n).tasks <==> t in st.tasks || st.nextTaskId <= t < st.nextTaskId + n
    ensures forall t :: t in st.tasks ==> CreateUpTo(st, rows, n).tasks[t] == st.tasks[t]
    ensures forall i :: 0 <= i < n ==> CreateUpTo(st, rows, n).tasks[st.nextTaskId + i] == NewTask(rows[i])
  {
    if n > 0 {
      CreateUpToTasks(st, rows, n - 1);
    }
  }

  /** The records `saveTasks` leaves behind: one new pending task per row,
      the tasks stored before untouched, the agents and their order
      untouched. */
  lemma SavingRecords(st: Store, rows: seq<Sanitized>, dist: seq<Workload>)
    requires |dist| > 0
    requires forall t :: t in st.tasks ==> t < st.nextTaskId
    ensures Saving(st, rows, dist).agents == st.agents && Saving(st, rows, dist).agentOrder == st.agentOrder
    ensures Saving(st, rows, dist).taskOrder == st.taskOrder + NewIds(st.nextTaskId, |rows|)
    ensures Saving(st, rows, dist).nextTaskId == st.nextTaskId + |rows|
    ensures forall t :: t in Saving(st, rows, dist).tasks <==> t in st.tasks || st.nextTaskId <= t < st.nextTaskId + |rows|
    ensures forall t :: t in st.tasks ==> Saving(st, rows, dist).tasks[t] == st.tasks[t]
    ensures forall i :: 0 <= i < |rows| ==>
      Saving(st, rows, dist).tasks[NewIds(st.nextTaskId, |rows|)[i]] == NewTask(rows[i])
  {
    var made := CreateUpTo(st, rows, |rows|);
    CreateUpToTasks(st, rows, |rows|);
    assert Profile(Saving(st, rows, dist)) == Profile(made);
  }

  /** Row `i`'s task names the agent at position `i % k` of the distribution;
      the agent field of every task stored before is as it was. */
  lemma SavingOwners(st: Store, rows: seq<Sanitized>, dist: seq<Workload>)
    requires |dist| > 0
    requires forall t :: t in st.tasks ==> t < st.nextTaskId
    ensures forall i :: 0 <= i < |rows| ==>
      NewIds(st.nextTaskId, |rows|)[i] in Saving(st, rows, dist).assignedAgent
      && Saving(st, rows, dist).assignedAgent[NewIds(st.nextTaskId, |rows|)[i]] == dist[i % |dist|].agent.id
    ensures forall t :: t !in NewIds(st.nextTaskId, |rows|) ==>
      (t in Saving(st, rows, dist).assignedAgent <==> t in st.assignedAgent)
    ensures forall t :: t !in NewIds(st.nextTaskId, |rows|) && t in st.assignedAgent ==>
      Saving(st, rows, dist).assignedAgent[t] == st.assignedAgent[t]
  {
    var n := |rows|;
    var made, ids, owners := CreateUpTo(st, rows, n), NewIds(st.nextTaskId, n), Cyclic(AgentIds(dist), n);
    CreateUpToTasks(st, rows, n);
    assert forall i :: 0 <= i < n ==> ids[i] in made.tasks;
    AssignUpToTasks(made, ids, owners, n);
    assert ids[..n] == ids;
  }

  /** Lists grow only at the end: the agent at position `j` of a distribution
      of `k` distinct agents receives `n / k` of the `n` rows, plus one when
      `j < n % k`, whatever its planned `newTasks`; agents outside the
      distribution receive nothing. */
  lemma SavingCounts(st: Store, rows: seq<Sanitized>, dist: seq<Workload>)
    requires |dist| > 0 && Distinct(AgentIds(dist))
    ensures forall a :: a in Saving(st, rows, dist).assignedTasks <==> a in st.assignedTasks
    ensures forall j :: 0 <= j < |dist| && dist[j].agent.id in st.assignedTasks ==>
      |Saving(st, rows, dist).assignedTasks[dist[j].agent.id]|
        == |st.assignedTasks[dist[j].agent.id]| + Share(|rows|, |dist|, j)
    ensures forall a :: a in st.assignedTasks && a !in AgentIds(dist) ==>
      Saving(st, rows, dist).assignedTasks[a] == st.assignedTasks[a]
  {
    var n := |rows|;
    var made, ids, owners := CreateUpTo(st, rows, n), NewIds(st.nextTaskId, n), Cyclic(AgentIds(dist), n);
    AssignUpToLists(made, ids, owners, n);
    forall j | 0 <= j < |dist| && dist[j].agent.id in st.assignedTasks
      ensures |Saving(st, rows, dist).assignedTasks[dist[j].agent.id]|
        == |st.assignedTasks[dist[j].agent.id]| + Share(n, |dist|, j)
    {
      PicksCount(ids, owners, dist[j].agent.id, n);
      CyclicHits(AgentIds(dist), n, n, j);
    }
    forall a | a in st.assignedTasks && a !in AgentIds(dist)
      ensures Picks(ids, owners, a, n) == []
    {
      PicksCount(ids, owners, a, n);
      NoHits(owners, a, n);
    }
  }

  /** Appending fresh ids to a list without repeats keeps it without
      repeats. */
  lemma FreshDistinct(xs: seq<TaskId>, first: nat, n: nat)
    requires Distinct(xs) && forall i :: 0 <= i < |xs| ==> xs[i] < first
    ensures Distinct(xs + NewIds(first, n))
  {
    var ys := xs + NewIds(first, n);
    forall i, j | 0 <= i < j < |ys|
      ensures ys[i] != ys[j]
    {
      if i < |xs| <= j {
        assert ys[i] == xs[i];
      }
    }
  }

  /** Saving rows keeps the store well formed: fresh ids, each listed once
      in the query order. */
  lemma SavingWellFormed(st: Store, rows: seq<Sanitized>, dist: seq<Workload>)
    requires WellFormed(st) && |dist| > 0
    ensures WellFormed(Saving(st, rows, dist))
  {
    var n := |rows|;
    var st' := Saving(st, rows, dist);
    var ids := NewIds(st.nextTaskId, n);
    SavingRecords(st, rows, dist);
    assert Distinct(st'.taskOrder) by {
      assert forall i :: 0 <= i < |st.taskOrder| ==> st.taskOrder[i] in st.tasks;
      FreshDistinct(st.taskOrder, st.nextTaskId, n);
    }
    assert forall t :: t in st'.tasks <==> t in st'.taskOrder by {
      forall t | t in st'.tasks && t !in st.tasks
        ensures t in st'.taskOrder
      {
        assert st'.taskOrder[|st.taskOrder| + (t - st.nextTaskId)] == t;
      }
    }
    assert st'.assignedAgent.Keys <= st'.tasks.Keys by {
      SavingOwners(st, rows, dist);
      forall t | t in st'.assignedAgent && t !in ids
        ensures t in st.tasks
      {
      }
    }
  }

  /** Saving rows for agents of the store keeps the two sides of every
      assignment in agreement. */
  lemma SavingConsistent(st: Store, rows: seq<Sanitized>, dist: seq<Workload>)
    requires WellFormed(st) && Consistent(st)
    requires |dist| > 0
    requires forall j :: 0 <= j < |dist| ==> dist[j].agent.id in st.agents
    ensures Consistent(Saving(st, rows, dist))
  {
    var n := |rows|;
    var made, ids, owners := CreateUpTo(st, rows, n), NewIds(st.nextTaskId, n), Cyclic(AgentIds(dist), n);
    CreateUpToTasks(st, rows, n);
    assert Consistent(made);
    forall i | 0 <= i < n
      ensures ids[i] in made.tasks && ids[i] !in made.assignedAgent && owners[i] in made.assignedTasks
    {
      assert owners[i] == AgentIds(dist)[i % |dist|];
    }
    AssignUpToConsistent(made, ids, owners, n);
  }
}

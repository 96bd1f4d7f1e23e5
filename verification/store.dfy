/**
 * The persisted state of one user's workspace: the Agent and Task
 * collections, each as a map from id to document plus the order in which a
 * query returns the documents, and the next fresh id of each collection.
 */
module Store {
  import opened Options

  type AgentId = nat
  type TaskId = nat

  /** The `status` enum of the Task schema. */
  datatype Status = Pending | InProgress | Completed | Failed

  function StatusName(s: Status): string {
    match s
    case Pending => "pending"
    case InProgress => "in-progress"
    case Completed => "completed"
    case Failed => "failed"
  }

  /** The status a request string names, if it is one of the four. */
  function ParseStatus(text: string): Option<Status> {
    if text == "pending" then Some(Pending)
    else if text == "in-progress" then Some(InProgress)
    else if text == "completed" then Some(Completed)
    else if text == "failed" then Some(Failed)
    else None
  }

  /** A string is accepted as a status exactly when it is a status's name. */
  lemma ParseStatusIffName(text: string, s: Status)
    ensures ParseStatus(text) == Some(s) <==> text == StatusName(s)
  {
  }

  /** The fields of an Agent document other than its task list; the
      password hash is not modelled. */
  datatype Agent = Agent(
    name: string,
    email: string,
    countryCode: string,
    mobileNumber: string,
    isActive: bool)

  /** The fields of a Task document other than its agent; `completedAt` is a
      timestamp. */
  datatype Task = Task(
    firstName: string,
    phone: string,
    notes: string,
    status: Status,
    completedAt: Option<int>)

  /** The two collections. The two sides of every assignment are kept apart
      from the other fields: `assignedTasks[a]` is agent `a`'s list, and
      `assignedAgent[t]` is task `t`'s agent when that field is set. */
  datatype Store = Store(
    agents: map<AgentId, Agent>,
    agentOrder: seq<AgentId>,
    assignedTasks: map<AgentId, seq<TaskId>>,
    tasks: map<TaskId, Task>,
    taskOrder: seq<TaskId>,
    assignedAgent: map<TaskId, AgentId>,
    nextAgentId: nat,
    nextTaskId: nat)

  predicate Distinct<T(==)>(s: seq<T>) {
    forall i, j :: 0 <= i < j < |s| ==> s[i] != s[j]
  }

  /** What the database guarantees: a query returns every document once, every
      agent has a list, only stored tasks have an agent field, and every id in
      use is older than the next fresh one. */
  ghost predicate WellFormed(st: Store) {
    && (forall a :: a in st.agents <==> a in st.agentOrder)
    && Distinct(st.agentOrder)
    && st.assignedTasks.Keys == st.agents.Keys
    && (forall t :: t in st.tasks <==> t in st.taskOrder)
    && Distinct(st.taskOrder)
    && st.assignedAgent.Keys <= st.tasks.Keys
    && (forall a :: a in st.agents ==> a < st.nextAgentId)
    && (forall t :: t in st.tasks ==> t < st.nextTaskId)
  }

  /** The two sides of an assignment agree: a task names agent `a` exactly
      when it is on `a`'s list of assigned tasks. */
  ghost predicate Consistent(st: Store) {
    && (forall t :: t in st.assignedAgent ==>
          st.assignedAgent[t] in st.assignedTasks && t in st.assignedTasks[st.assignedAgent[t]])
    && (forall a, t :: a in st.assignedTasks && t in st.assignedTasks[a] ==>
          t in st.assignedAgent && st.assignedAgent[t] == a)
  }

  /** Agent `a`'s list, empty for an agent without one. */
  function ListOf(st: Store, a: AgentId): seq<TaskId> {
    if a in st.assignedTasks then st.assignedTasks[a] else []
  }

  /** The ids `Agent.find(...)` returns over the ids in `order`: all stored
      agents, or only the active ones, in query order. */
  function FindIds(agents: map<AgentId, Agent>, order: seq<AgentId>, activeOnly: bool): (ids: seq<AgentId>)
    ensures |ids| <= |order|
    ensures forall k :: 0 <= k < |ids| ==>
      ids[k] in order && ids[k] in agents && (agents[ids[k]].isActive || !activeOnly)
  {
    if |order| == 0 then []
    else
      var init, a := order[..|order| - 1], order[|order| - 1];
      assert forall x :: x in init ==> x in order;
      FindIds(agents, init, activeOnly) + if a in agents && (agents[a].isActive || !activeOnly) then [a] else []
  }

  /** Every stored agent of `order` that passes the filter is found, and none
      twice when `order` has no repeats. */
  lemma {:induction false} FindIdsComplete(agents: map<AgentId, Agent>, order: seq<AgentId>, activeOnly: bool)
    ensures forall b :: b in order && b in agents && (agents[b].isActive || !activeOnly) ==> b in FindIds(agents, order, activeOnly)
    ensures Distinct(order) ==> Distinct(FindIds(agents, order, activeOnly))
  {
    if |order| > 0 {
      var init, a := order[..|order| - 1], order[|order| - 1];
      FindIdsComplete(agents, init, activeOnly);
      var ids, ids' := FindIds(agents, order, activeOnly), FindIds(agents, init, activeOnly);
      assert order == init + [a];
      if Distinct(order) {
        assert a !in init;
        forall i, j | 0 <= i < j < |ids|
          ensures ids[i] != ids[j]
        {
          if j < |ids'| {
            assert ids[i] == ids'[i] && ids[j] == ids'[j];
          } else {
            assert ids[i] == ids'[i] && ids[j] == a;
          }
        }
      }
    }
  }

  /** An agent document as a query returns it: its id, its fields and its
      list of assigned tasks. */
  datatype AgentDoc = AgentDoc(id: AgentId, agent: Agent, assignedTasks: seq<TaskId>)

  /** The documents `Agent.find(...)` returns: those of `FindIds`, each as
      stored. */
  function FindAgents(st: Store, order: seq<AgentId>, activeOnly: bool): (docs: seq<AgentDoc>)
    ensures |docs| == |FindIds(st.agents, order, activeOnly)|
    ensures forall k :: 0 <= k < |docs| ==>
      && docs[k].id == FindIds(st.agents, order, activeOnly)[k]
      && docs[k].id in st.agents
      && docs[k].agent == st.agents[docs[k].id]
      && docs[k].assignedTasks == ListOf(st, docs[k].id)
  {
    var ids := FindIds(st.agents, order, activeOnly);
    seq(|ids|, k requires 0 <= k < |ids| => AgentDoc(ids[k], st.agents[ids[k]], ListOf(st, ids[k])))
  }

  /** The ids of a list of documents. */
  function Ids(docs: seq<AgentDoc>): (ids: seq<AgentId>)
    ensures |ids| == |docs|
    ensures forall k :: 0 <= k < |docs| ==> ids[k] == docs[k].id
  {
    seq(|docs|, k requires 0 <= k < |docs| => docs[k].id)
  }

  /** `Task.find({assignedAgent: a})` over the ids in `order`: the stored
      tasks of `order` assigned to `a`, in query order. */
  function TasksOf(st: Store, order: seq<TaskId>, a: AgentId): (ts: seq<TaskId>)
    ensures |ts| <= |order|
    ensures forall k :: 0 <= k < |ts| ==>
      ts[k] in order && ts[k] in st.tasks && ts[k] in st.assignedAgent && st.assignedAgent[ts[k]] == a
  {
    if |order| == 0 then []
    else
      var init, t := order[..|order| - 1], order[|order| - 1];
      assert forall x :: x in init ==> x in order;
      TasksOf(st, init, a) + if t in st.tasks && t in st.assignedAgent && st.assignedAgent[t] == a then [t] else []
  }

  /** Every stored task of `order` assigned to `a` is found, and none twice
      when `order` has no repeats. */
  lemma {:induction false} TasksOfComplete(st: Store, order: seq<TaskId>, a: AgentId)
    ensures forall t :: t in order && t in st.tasks && t in st.assignedAgent && st.assignedAgent[t] == a ==> t in TasksOf(st, order, a)
    ensures Distinct(order) ==> Distinct(TasksOf(st, order, a))
  {
    if |order| > 0 {
      var init, t := order[..|order| - 1], order[|order| - 1];
      TasksOfComplete(st, init, a);
      var ts, ts' := TasksOf(st, order, a), TasksOf(st, init, a);
      assert order == init + [t];
      if Distinct(order) {
        assert t !in init;
        forall i, j | 0 <= i < j < |ts|
          ensures ts[i] != ts[j]
        {
          if j < |ts'| {
            assert ts[i] == ts'[i] && ts[j] == ts'[j];
          } else {
            assert ts[i] == ts'[i] && ts[j] == t;
          }
        }
      }
    }
  }
}

/**
 * The agent endpoints that move assignments: `createAgent` adds an agent and
 * then reruns the redistribution over every task, and `deleteAgent` hands
 * the agent's tasks round robin to the other active agents before removing
 * it.
 */
module AgentOps {
  import opened Store
  import opened Shares
  import opened Writes
  import opened Redistribution

  /** The request body of `createAgent`; an absent field is the empty
      string, which the controller treats the same way. */
  datatype AgentFields = AgentFields(
    name: string,
    email: string,
    countryCode: string,
    mobileNumber: string,
    password: string)

  /** The `missingFields` object of the 400 response: `true` for each field
      that is absent or empty. */
  datatype MissingFields = MissingFields(
    name: bool,
    email: bool,
    countryCode: bool,
    mobileNumber: bool,
    password: bool)

  function Missing(f: AgentFields): MissingFields {
    MissingFields(f.name == "", f.email == "", f.countryCode == "", f.mobileNumber == "", f.password == "")
  }

  /** No flag of a `missingFields` object is set. */
  predicate NoneMissing(m: MissingFields) {
    !m.name && !m.email && !m.countryCode && !m.mobileNumber && !m.password
  }

  /** `Agent.findOne({email, user})` finds a document. */
  predicate EmailTaken(st: Store, email: string) {
    exists a :: a in st.agents && st.agents[a].email == email
  }

  datatype CreateResult =
    | FieldsMissing(missing: MissingFields)   // 400 "All fields are required"
    | AgentExists                             // 400 "Agent already exists"
    | Created(store: Store, id: AgentId)      // 201
    | CreateFailed(store: Store)              // 500: the redistribution threw after the agent was saved

  /** The new document: the schema makes it active. The password hash is
      not modelled. */
  function NewAgent(f: AgentFields): Agent {
    Agent(f.name, f.email, f.countryCode, f.mobileNumber, true)
  }

  /** `new Agent({...}).save()`: the next fresh id, no tasks, last in query
      order. */
  function AddAgent(st: Store, f: AgentFields): Store {
    var id := st.nextAgentId;
    st.(agents := st.agents[id := NewAgent(f)],
        agentOrder := st.agentOrder + [id],
        assignedTasks := st.assignedTasks[id := []],
        nextAgentId := id + 1)
  }

  /** `createAgent`: field check, duplicate check, save, then
      `redistributeTasksHelper`, whose throw becomes a 500 after the save. */
  function CreateAgent(st: Store, f: AgentFields): (r: CreateResult)
    ensures r.FieldsMissing? <==> !NoneMissing(Missing(f))
    ensures r.FieldsMissing? ==>
      && r.missing.name == (f.name == "") && r.missing.email == (f.email == "")
      && r.missing.countryCode == (f.countryCode == "") && r.missing.mobileNumber == (f.mobileNumber == "")
      && r.missing.password == (f.password == "")
    ensures r.AgentExists? <==> NoneMissing(Missing(f)) && EmailTaken(st, f.email)
    ensures r.Created? ==> r.id == st.nextAgentId
  {
    if !NoneMissing(Missing(f)) then FieldsMissing(Missing(f))
    else if EmailTaken(st, f.email) then AgentExists
    else
      match RedistributeTasks(AddAgent(st, f))
      case Done(after) => Created(after, st.nextAgentId)
      case Aborted(after, _) => CreateFailed(after)
  }

  /** Only the active flags of the agents listed in `order` matter to
      `FindIds`. */
  lemma {:induction false} FindIdsFrame(a1: map<AgentId, Agent>, a2: map<AgentId, Agent>, order: seq<AgentId>)
    requires forall x :: x in order ==> (x in a1 <==> x in a2)
    requires forall x :: x in order && x in a1 ==> a1[x].isActive == a2[x].isActive
    ensures FindIds(a1, order, true) == FindIds(a2, order, true)
  {
    if |order| > 0 {
      var init := order[..|order| - 1];
      assert forall x :: x in init ==> x in order;
      FindIdsFrame(a1, a2, init);
    }
  }

  /** The saved agent joins the end of the active list. */
  lemma AddAgentActive(st: Store, f: AgentFields)
    requires WellFormed(st)
    ensures FindIds(AddAgent(st, f).agents, AddAgent(st, f).agentOrder, true)
      == FindIds(st.agents, st.agentOrder, true) + [st.nextAgentId]
  {
    var st' := AddAgent(st, f);
    assert st'.agentOrder[..|st'.agentOrder| - 1] == st.agentOrder;
    FindIdsFrame(st.agents, st'.agents, st.agentOrder);
  }

  /** Adding an agent keeps the store well formed ... */
  lemma AddAgentWellFormed(st: Store, f: AgentFields)
    requires WellFormed(st)
    ensures WellFormed(AddAgent(st, f))
  {
    var st' := AddAgent(st, f);
    assert st.nextAgentId !in st.agentOrder;
    forall i, j | 0 <= i < j < |st'.agentOrder|
      ensures st'.agentOrder[i] != st'.agentOrder[j]
    {
      if j == |st.agentOrder| {
        assert st'.agentOrder[i] in st.agentOrder;
      }
    }
  }

  /** ... and the two sides of every assignment in agreement: the new agent
      has no task and no task names it. */
  lemma AddAgentConsistent(st: Store, f: AgentFields)
    requires WellFormed(st) && Consistent(st)
    ensures Consistent(AddAgent(st, f))
  {
    assert st.nextAgentId !in st.assignedTasks;
  }

  /** A created agent is stored as sent, active, with the next fresh id and
      last in query order, and no task is lost; this holds too when the
      redistribution throws after the save. */
  lemma CreateAgentAdds(st: Store, f: AgentFields)
    requires CreateAgent(st, f).Created? || CreateAgent(st, f).CreateFailed?
    ensures CreateAgent(st, f).store.agents == st.agents[st.nextAgentId := NewAgent(f)]
    ensures CreateAgent(st, f).store.agentOrder == st.agentOrder + [st.nextAgentId]
    ensures CreateAgent(st, f).store.tasks == st.tasks
    ensures CreateAgent(st, f).store.taskOrder == st.taskOrder
  {
    var after := RedistributeTasks(AddAgent(st, f)).store;
    assert Profile(after) == Profile(AddAgent(st, f));
  }

  /** A second request with the same address is refused. */
  lemma CreateAgentTwice(st: Store, f: AgentFields)
    requires CreateAgent(st, f).Created? || CreateAgent(st, f).CreateFailed?
    ensures CreateAgent(CreateAgent(st, f).store, f) == AgentExists
  {
    CreateAgentAdds(st, f);
    var st' := CreateAgent(st, f).store;
    assert st'.agents[st.nextAgentId].email == f.email;
  }

  /** With `n` tasks and `k` active agents before the request, creating an
      agent fails with a 500 exactly when the redistribution over `k + 1`
      agents is uneven: `n > k + 1` and `k + 1` does not divide `n`. */
  lemma CreateAgentFailsIff(st: Store, f: AgentFields)
    requires WellFormed(st)
    requires NoneMissing(Missing(f)) && !EmailTaken(st, f.email)
    ensures CreateAgent(st, f).CreateFailed? <==>
      |st.taskOrder| > 0 && !Even(|st.taskOrder|, |FindIds(st.agents, st.agentOrder, true)| + 1)
  {
    AddAgentActive(st, f);
    RedistributeOutcome(AddAgent(st, f));
  }

  /** Every outcome leaves the store well formed and the two sides of every
      assignment in agreement. */
  lemma CreateAgentKeepsInvariants(st: Store, f: AgentFields)
    requires WellFormed(st) && Consistent(st)
    requires CreateAgent(st, f).Created? || CreateAgent(st, f).CreateFailed?
    ensures WellFormed(CreateAgent(st, f).store)
    ensures Consistent(CreateAgent(st, f).store)
  {
    AddAgentWellFormed(st, f);
    AddAgentConsistent(st, f);
    RedistributeWellFormed(AddAgent(st, f));
    RedistributeConsistent(AddAgent(st, f));
  }

  datatype DeleteAgentResult =
    | AgentNotFound                                      // 404
    | LastActiveAgent                                    // 400: it has tasks and no other agent is active
    | AgentDeleted(store: Store, reassignedTasks: nat)   // 200

  /** `Agent.find({_id: {$ne: a}, isActive: true, user})`: the other active
      agents, in query order. */
  function OthersActive(st: Store, a: AgentId): (ids: seq<AgentId>)
    ensures forall k :: 0 <= k < |ids| ==> ids[k] != a && ids[k] in st.agents && st.agents[ids[k]].isActive
  {
    FindIds(st.agents, Without(st.agentOrder, a), true)
  }

  /** The tasks of `a`, in query order. */
  function TasksToReassign(st: Store, a: AgentId): seq<TaskId> {
    TasksOf(st, st.taskOrder, a)
  }

  /** The reassignment loop: task `i` goes to the other active agent at
      position `i mod k`; then `a`'s list is emptied. */
  function Reassigned(st: Store, a: AgentId): Store
    requires |OthersActive(st, a)| > 0
  {
    var ts := TasksToReassign(st, a);
    var moved := AssignUpTo(st, ts, Cyclic(OthersActive(st, a), |ts|), |ts|);
    moved.(assignedTasks := moved.assignedTasks[a := []])
  }

  /** `deleteAgent`. An agent without tasks is removed even when it is the
      last active one. */
  function DeleteAgent(st: Store, a: AgentId): (r: DeleteAgentResult)
    ensures r.AgentNotFound? <==> a !in st.agents
    ensures r.LastActiveAgent? <==>
      a in st.agents && |TasksToReassign(st, a)| > 0 && |OthersActive(st, a)| == 0
    ensures r.AgentDeleted? ==> r.reassignedTasks == |TasksToReassign(st, a)|
  {
    if a !in st.agents then AgentNotFound
    else if |TasksToReassign(st, a)| == 0 then AgentDeleted(RemoveAgent(st, a), 0)
    else if |OthersActive(st, a)| == 0 then LastActiveAgent
    else AgentDeleted(RemoveAgent(Reassigned(st, a), a), |TasksToReassign(st, a)|)
  }

  /** The agent leaves the collection and the query order, and nothing else
      does; no task is added or lost. */
  lemma DeleteAgentRemoves(st: Store, a: AgentId)
    requires DeleteAgent(st, a).AgentDeleted?
    ensures DeleteAgent(st, a).store.agents == st.agents - {a}
    ensures forall b :: b in DeleteAgent(st, a).store.agentOrder <==> b in st.agentOrder && b != a
    ensures DeleteAgent(st, a).store.tasks == st.tasks
    ensures DeleteAgent(st, a).store.taskOrder == st.taskOrder
    ensures DeleteAgent(st, a).store.agentOrder == Without(st.agentOrder, a)
    ensures forall b :: b in DeleteAgent(st, a).store.assignedTasks <==> b in st.assignedTasks && b != a
    ensures DeleteAgent(st, a).store.nextAgentId == st.nextAgentId
    ensures DeleteAgent(st, a).store.nextTaskId == st.nextTaskId
  {
    if |TasksToReassign(st, a)| > 0 {
      var ts := TasksToReassign(st, a);
      var moved := AssignUpTo(st, ts, Cyclic(OthersActive(st, a), |ts|), |ts|);
      assert Profile(moved) == Profile(st);
    }
  }

  /** A second delete of the same agent finds nothing. */
  lemma DeleteAgentTwice(st: Store, a: AgentId)
    requires DeleteAgent(st, a).AgentDeleted?
    ensures DeleteAgent(DeleteAgent(st, a).store, a) == AgentNotFound
  {
    DeleteAgentRemoves(st, a);
  }

  /** The tasks of `a` are those naming `a`, each once. */
  lemma TasksToReassignSpec(st: Store, a: AgentId)
    requires WellFormed(st)
    ensures Distinct(TasksToReassign(st, a))
    ensures forall t :: t in st.assignedAgent && st.assignedAgent[t] == a <==> t in TasksToReassign(st, a)
  {
    TasksOfComplete(st, st.taskOrder, a);
  }

  /** The other active agents, each once. */
  lemma OthersActiveDistinct(st: Store, a: AgentId)
    requires WellFormed(st)
    ensures Distinct(OthersActive(st, a))
  {
    WithoutDistinct(st.agentOrder, a);
    FindIdsComplete(st.agents, Without(st.agentOrder, a), true);
  }

  /** After the loop, task `i` of `a`'s names the other active agent at
      position `i mod k`, every other task keeps its agent field, and each
      other agent's list has grown by the tasks it was given, in order. */
  lemma ReassignedSpec(st: Store, a: AgentId)
    requires WellFormed(st) && |OthersActive(st, a)| > 0
    ensures Profile(Reassigned(st, a)) == Profile(st)
    ensures forall i :: 0 <= i < |TasksToReassign(st, a)| ==>
      && TasksToReassign(st, a)[i] in Reassigned(st, a).assignedAgent
      && Reassigned(st, a).assignedAgent[TasksToReassign(st, a)[i]]
        == OthersActive(st, a)[i % |OthersActive(st, a)|]
    ensures forall t :: t !in TasksToReassign(st, a) ==>
      (t in Reassigned(st, a).assignedAgent <==> t in st.assignedAgent)
    ensures forall t :: t !in TasksToReassign(st, a) && t in st.assignedAgent ==>
      Reassigned(st, a).assignedAgent[t] == st.assignedAgent[t]
  {
    var ts, others := TasksToReassign(st, a), OthersActive(st, a);
    var owners := Cyclic(others, |ts|);
    TasksToReassignSpec(st, a);
    AssignUpToTasks(st, ts, owners, |ts|);
    assert ts[..|ts|] == ts;
  }

  /** ... `a`'s own list is emptied and every other list has grown by the
      tasks its agent was given, in order. */
  lemma ReassignedLists(st: Store, a: AgentId)
    requires WellFormed(st) && a in st.agents && |OthersActive(st, a)| > 0
    ensures forall b :: b in Reassigned(st, a).assignedTasks <==> b in st.assignedTasks
    ensures Reassigned(st, a).assignedTasks[a] == []
    ensures forall b :: b in st.assignedTasks && b != a ==>
      Reassigned(st, a).assignedTasks[b] == st.assignedTasks[b]
        + Picks(TasksToReassign(st, a), Cyclic(OthersActive(st, a), |TasksToReassign(st, a)|), b, |TasksToReassign(st, a)|)
  {
    var ts, others := TasksToReassign(st, a), OthersActive(st, a);
    AssignUpToLists(st, ts, Cyclic(others, |ts|), |ts|);
  }

  /** Every task that named `a` now names an active agent other than `a`:
      task `i` in query order the one at position `i mod k`. */
  lemma DeleteAgentMoves(st: Store, a: AgentId)
    requires WellFormed(st) && DeleteAgent(st, a).AgentDeleted?
    ensures forall i :: 0 <= i < |TasksToReassign(st, a)| ==>
      && TasksToReassign(st, a)[i] in DeleteAgent(st, a).store.assignedAgent
      && DeleteAgent(st, a).store.assignedAgent[TasksToReassign(st, a)[i]]
        == OthersActive(st, a)[i % |OthersActive(st, a)|]
  {
    if |TasksToReassign(st, a)| > 0 {
      ReassignedSpec(st, a);
    }
  }

  /** What the delete does to one task: it keeps or gains no agent field it
      did not have, keeps its agent unless that was `a`, and does not name
      `a` afterwards. */
  lemma DeleteAgentTask(st: Store, a: AgentId, t: TaskId)
    requires WellFormed(st) && DeleteAgent(st, a).AgentDeleted?
    ensures t in DeleteAgent(st, a).store.assignedAgent <==> t in st.assignedAgent
    ensures t in st.assignedAgent && st.assignedAgent[t] != a ==>
      DeleteAgent(st, a).store.assignedAgent[t] == st.assignedAgent[t]
    ensures t in DeleteAgent(st, a).store.assignedAgent ==> DeleteAgent(st, a).store.assignedAgent[t] != a
  {
    TasksToReassignSpec(st, a);
    if |TasksToReassign(st, a)| > 0 {
      assert DeleteAgent(st, a).store.assignedAgent == Reassigned(st, a).assignedAgent;
      ReassignedTask(st, a, t);
    } else {
      assert DeleteAgent(st, a).store.assignedAgent == st.assignedAgent;
    }
  }

  /** The loop moves a task of `a` to another agent and leaves every other
      task's agent field alone. */
  lemma ReassignedTask(st: Store, a: AgentId, t: TaskId)
    requires WellFormed(st) && |OthersActive(st, a)| > 0
    ensures t in Reassigned(st, a).assignedAgent <==> t in st.assignedAgent || t in TasksToReassign(st, a)
    ensures t !in TasksToReassign(st, a) && t in st.assignedAgent ==>
      Reassigned(st, a).assignedAgent[t] == st.assignedAgent[t]
    ensures t in TasksToReassign(st, a) ==> Reassigned(st, a).assignedAgent[t] != a
  {
    var ts := TasksToReassign(st, a);
    ReassignedSpec(st, a);
    if t in ts {
      var i :| 0 <= i < |ts| && ts[i] == t;
    }
  }

  /** Every other task keeps its agent field, no task gains or loses one,
      and none is left naming `a`. */
  lemma DeleteAgentKeepsOthers(st: Store, a: AgentId)
    requires WellFormed(st) && DeleteAgent(st, a).AgentDeleted?
    ensures forall t :: t in DeleteAgent(st, a).store.assignedAgent <==> t in st.assignedAgent
    ensures forall t :: t in st.assignedAgent && st.assignedAgent[t] != a ==>
      DeleteAgent(st, a).store.assignedAgent[t] == st.assignedAgent[t]
    ensures forall t :: t in DeleteAgent(st, a).store.assignedAgent ==>
      DeleteAgent(st, a).store.assignedAgent[t] != a
  {
    forall t {
      DeleteAgentTask(st, a, t);
    }
  }

  /** The other active agent at position `j` of `k` receives `T / k` of the
      `T` reassigned tasks, plus one when `j < T mod k`, appended to its
      list. */
  lemma DeleteAgentShare(st: Store, a: AgentId, j: nat)
    requires WellFormed(st) && DeleteAgent(st, a).AgentDeleted? && j < |OthersActive(st, a)|
    ensures OthersActive(st, a)[j] in DeleteAgent(st, a).store.assignedTasks
    ensures |DeleteAgent(st, a).store.assignedTasks[OthersActive(st, a)[j]]|
      == |st.assignedTasks[OthersActive(st, a)[j]]| + Share(|TasksToReassign(st, a)|, |OthersActive(st, a)|, j)
  {
    var ts, others := TasksToReassign(st, a), OthersActive(st, a);
    var b := others[j];
    assert b in st.assignedTasks;
    DeleteAgentList(st, a, b);
    if |ts| > 0 {
      OthersActiveDistinct(st, a);
      PicksCount(ts, Cyclic(others, |ts|), b, |ts|);
      CyclicHits(others, |ts|, |ts|, j);
    } else {
      DivModUnique(0, |others|, 0, 0);
    }
  }

  /** ... for every other active agent at once. */
  lemma DeleteAgentCounts(st: Store, a: AgentId)
    requires WellFormed(st) && DeleteAgent(st, a).AgentDeleted?
    ensures forall j :: 0 <= j < |OthersActive(st, a)| ==>
      && OthersActive(st, a)[j] in DeleteAgent(st, a).store.assignedTasks
      && |DeleteAgent(st, a).store.assignedTasks[OthersActive(st, a)[j]]|
        == |st.assignedTasks[OthersActive(st, a)[j]]| + Share(|TasksToReassign(st, a)|, |OthersActive(st, a)|, j)
  {
    forall j | 0 <= j < |OthersActive(st, a)|
      ensures OthersActive(st, a)[j] in DeleteAgent(st, a).store.assignedTasks
      ensures |DeleteAgent(st, a).store.assignedTasks[OthersActive(st, a)[j]]|
        == |st.assignedTasks[OthersActive(st, a)[j]]| + Share(|TasksToReassign(st, a)|, |OthersActive(st, a)|, j)
    {
      DeleteAgentShare(st, a, j);
    }
  }

  /** What the delete does to the list of an agent `b` other than `a`: the
      tasks it was given are appended, in order. */
  lemma DeleteAgentList(st: Store, a: AgentId, b: AgentId)
    requires WellFormed(st) && DeleteAgent(st, a).AgentDeleted?
    requires b in st.assignedTasks && b != a
    ensures b in DeleteAgent(st, a).store.assignedTasks
    ensures |TasksToReassign(st, a)| == 0 ==> DeleteAgent(st, a).store.assignedTasks[b] == st.assignedTasks[b]
    ensures |TasksToReassign(st, a)| > 0 ==>
      DeleteAgent(st, a).store.assignedTasks[b] == st.assignedTasks[b]
        + Picks(TasksToReassign(st, a), Cyclic(OthersActive(st, a), |TasksToReassign(st, a)|), b, |TasksToReassign(st, a)|)
  {
    if |TasksToReassign(st, a)| > 0 {
      ReassignedLists(st, a);
    }
  }

  /** The list of every agent that is neither `a` nor another active agent
      is left as it was. */
  lemma DeleteAgentKeepsLists(st: Store, a: AgentId)
    requires WellFormed(st) && DeleteAgent(st, a).AgentDeleted?
    ensures forall b :: b in st.assignedTasks && b != a && b !in OthersActive(st, a) ==>
      b in DeleteAgent(st, a).store.assignedTasks
      && DeleteAgent(st, a).store.assignedTasks[b] == st.assignedTasks[b]
  {
    var ts, others := TasksToReassign(st, a), OthersActive(st, a);
    forall b | b in st.assignedTasks && b != a && b !in others
      ensures b in DeleteAgent(st, a).store.assignedTasks
      ensures DeleteAgent(st, a).store.assignedTasks[b] == st.assignedTasks[b]
    {
      DeleteAgentList(st, a, b);
      if |ts| > 0 {
        var owners := Cyclic(others, |ts|);
        CyclicOnly(others, |ts|, b);
        PicksCount(ts, owners, b, |ts|);
        NoHits(owners, b, |ts|);
      }
    }
  }

  /** Deleting an agent keeps the store well formed ... */
  lemma DeleteAgentWellFormed(st: Store, a: AgentId)
    requires WellFormed(st) && DeleteAgent(st, a).AgentDeleted?
    ensures WellFormed(DeleteAgent(st, a).store)
  {
    DeleteAgentRemoves(st, a);
    DeleteAgentKeepsOthers(st, a);
    WithoutDistinct(st.agentOrder, a);
  }

  /** ... and, when `a` had tasks, the two sides of every assignment still
      agree after the loop and the removal ... */
  lemma ReassignedConsistent(st: Store, a: AgentId)
    requires WellFormed(st) && Consistent(st) && a in st.agents && |OthersActive(st, a)| > 0
    ensures Consistent(RemoveAgent(Reassigned(st, a), a))
  {
    var ts, others := TasksToReassign(st, a), OthersActive(st, a);
    var after := RemoveAgent(Reassigned(st, a), a);
    TasksToReassignSpec(st, a);
    ReassignedSpec(st, a);
    ReassignedLists(st, a);
    ReassignConsistent(st, after, a, ts, Cyclic(others, |ts|));
  }

  /** ... so they agree after every delete. */
  lemma DeleteAgentConsistent(st: Store, a: AgentId)
    requires WellFormed(st) && Consistent(st) && DeleteAgent(st, a).AgentDeleted?
    ensures Consistent(DeleteAgent(st, a).store)
  {
    if |TasksToReassign(st, a)| > 0 {
      ReassignedConsistent(st, a);
    } else {
      TasksToReassignSpec(st, a);
      RemoveIdleConsistent(st, a);
    }
  }
}

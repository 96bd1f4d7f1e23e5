/**
 * `uploadTasks`: check the file, look up (and if need be reactivate) the
 * agents, gate them, check every row, plan the distribution and save the
 * tasks. Each check that fails ends the request with a 400 response; a
 * file the parser cannot read ends it with a 500.
 */
module Upload {
  import opened Options
  import opened Store
  import opened FileCheck
  import opened RowCheck
  import opened BatchCheck
  import opened AgentGate
  import opened Planner
  import opened TaskWriter

  datatype UploadResponse =
    | FileRejected(fileErrors: seq<FileError>)
    | AgentsRejected(agentErrors: seq<GateError>, agentWarnings: seq<GateWarning>)
    | RowsRejected(batchErrors: seq<BatchError>, failedRecords: seq<FailedRecord>)
    | Uploaded(taskCount: nat, metrics: Metrics, warnings: seq<GateWarning>)
    | InternalError

  function StatusCode(r: UploadResponse): nat {
    match r
    case Uploaded(_, _, _) => 200
    case InternalError => 500
    case _ => 400
  }

  /** The agents the lookup returns are active and stored, and the lookup
      leaves tasks and assignments alone, so it keeps the store's
      invariants. */
  lemma PickedAgents(st: Store)
    ensures forall k :: 0 <= k < |PickAgents(st).1| ==>
      PickAgents(st).1[k].agent.isActive && PickAgents(st).1[k].id in PickAgents(st).0.agents
    ensures PickAgents(st).0.tasks == st.tasks && PickAgents(st).0.taskOrder == st.taskOrder
    ensures PickAgents(st).0.assignedTasks == st.assignedTasks && PickAgents(st).0.assignedAgent == st.assignedAgent
    ensures PickAgents(st).0.nextTaskId == st.nextTaskId
    ensures WellFormed(st) ==> WellFormed(PickAgents(st).0)
    ensures Consistent(st) ==> Consistent(PickAgents(st).0)
  {
    PickAgentsSpec(st);
  }

  /** Every workload of a plan belongs to one of the agents it was made
      for, and with only active agents every agent is in the plan. */
  lemma PlanCoversAgents(n: nat, docs: seq<AgentDoc>)
    requires forall k :: 0 <= k < |docs| ==> docs[k].agent.isActive
    ensures |CalculateDistribution(n, docs).distribution| == |docs|
    ensures forall j :: 0 <= j < |CalculateDistribution(n, docs).distribution| ==>
      CalculateDistribution(n, docs).distribution[j].agent in docs
  {
    ActiveOnlyKeepsActive(docs);
    if |docs| > 0 {
      PlanSpec(n, docs, 0);
      var dist := CalculateDistribution(n, docs).distribution;
      forall j | 0 <= j < |dist|
        ensures dist[j].agent in docs
      {
        assert dist[j] in multiset(Workloads(docs, n));
        var i :| 0 <= i < |docs| && Workloads(docs, n)[i] == dist[j];
      }
    }
  }

  /** The success path: with a store that keeps its invariants and stored,
      active agents, saving `valid` over the plan for those agents keeps the
      invariants, adds one pending task per row under the next fresh ids,
      gives each to one of those agents, and keeps the tasks stored
      before. */
  lemma DistributeSpec(st: Store, docs: seq<AgentDoc>, valid: seq<Sanitized>)
    requires WellFormed(st) && Consistent(st)
    requires |docs| > 0
    requires forall k :: 0 <= k < |docs| ==> docs[k].agent.isActive && docs[k].id in st.agents
    ensures |CalculateDistribution(|valid|, docs).distribution| > 0
    ensures WellFormed(Saving(st, valid, CalculateDistribution(|valid|, docs).distribution))
    ensures Consistent(Saving(st, valid, CalculateDistribution(|valid|, docs).distribution))
    ensures forall t :: t in st.tasks ==>
      t in Saving(st, valid, CalculateDistribution(|valid|, docs).distribution).tasks
      && Saving(st, valid, CalculateDistribution(|valid|, docs).distribution).tasks[t] == st.tasks[t]
    ensures forall i :: 0 <= i < |valid| ==>
      NewIds(st.nextTaskId, |valid|)[i] in Saving(st, valid, CalculateDistribution(|valid|, docs).distribution).tasks
      && Saving(st, valid, CalculateDistribution(|valid|, docs).distribution).tasks[NewIds(st.nextTaskId, |valid|)[i]] == NewTask(valid[i])
    ensures forall i :: 0 <= i < |valid| ==>
      NewIds(st.nextTaskId, |valid|)[i] in Saving(st, valid, CalculateDistribution(|valid|, docs).distribution).assignedAgent
      && Saving(st, valid, CalculateDistribution(|valid|, docs).distribution).assignedAgent[NewIds(st.nextTaskId, |valid|)[i]] in Ids(docs)
  {
    var dist := CalculateDistribution(|valid|, docs).distribution;
    PlanCoversAgents(|valid|, docs);
    forall j | 0 <= j < |dist|
      ensures dist[j].agent.id in st.agents && dist[j].agent.id in Ids(docs)
    {
      var k :| 0 <= k < |docs| && docs[k] == dist[j].agent;
      assert Ids(docs)[k] == docs[k].id;
    }
    SavingWellFormed(st, valid, dist);
    SavingConsistent(st, valid, dist);
    SavingRecords(st, valid, dist);
    SavingOwners(st, valid, dist);
  }

  /** The rows of an upload once the file and the agents have passed: all
      of them are accepted and saved over the plan for `docs`, or none is
      and nothing changes. */
  method AcceptRows(st: Store, docs: seq<AgentDoc>, rows: seq<Row>, warnings: seq<GateWarning>)
    returns (st': Store, r: UploadResponse)
    requires |docs| > 0
    requires forall k :: 0 <= k < |docs| ==> docs[k].agent.isActive && docs[k].id in st.agents
    ensures r.RowsRejected? || r.Uploaded?
    ensures r.Uploaded? <==> |rows| > 0 && forall i :: 0 <= i < |rows| ==> Verdicts(rows, |rows|)[i].isValid
    ensures r.RowsRejected? ==> st' == st && r.batchErrors != []
    ensures r.Uploaded? ==>
      && r.taskCount == |rows| && st'.nextTaskId == st.nextTaskId + |rows|
      && r.metrics == CalculateDistribution(|rows|, docs).metrics && r.warnings == warnings
    ensures r.Uploaded? && WellFormed(st) && Consistent(st) ==>
      && WellFormed(st') && Consistent(st')
      && (forall t :: t in st.tasks ==> t in st'.tasks && st'.tasks[t] == st.tasks[t])
      && (forall i :: 0 <= i < |rows| ==>
            NewIds(st.nextTaskId, |rows|)[i] in st'.tasks
            && st'.tasks[NewIds(st.nextTaskId, |rows|)[i]] == NewTask(Verdicts(rows, |rows|)[i].sanitized))
      && (forall i :: 0 <= i < |rows| ==>
            NewIds(st.nextTaskId, |rows|)[i] in st'.assignedAgent
            && st'.assignedAgent[NewIds(st.nextTaskId, |rows|)[i]] in Ids(docs))
  {
    var batch := ValidateBatch(rows);
    BatchValidIffEveryRowValid(rows, Verdicts(rows, |rows|), batch);
    if !batch.isValid {
      return st, RowsRejected(batch.errors, batch.failedRecords);
    }
    var valid := batch.validTasks;
    var plan := CalculateDistribution(|valid|, docs);
    PlanCoversAgents(|valid|, docs);
    var saved := SaveTasks(st, valid, plan.distribution);
    assert saved.Some?;
    st' := saved.value.store;
    r := Uploaded(|saved.value.ids|, plan.metrics, warnings);
    if WellFormed(st) && Consistent(st) {
      DistributeSpec(st, docs, valid);
    }
  }

  /** `uploadTasks` on a store, an uploaded file and what the parser makes
      of it (`None` when it throws). */
  method UploadTasks(st: Store, file: Option<UploadedFile>, parsed: Option<seq<Row>>)
    returns (st': Store, r: UploadResponse)
    // a bad file is turned away before anything is read or written
    ensures !ValidateFile(file).isValid ==> st' == st && r == FileRejected(ValidateFile(file).errors)
    // the agent gate decides next, on the agents the lookup returns
    ensures ValidateFile(file).isValid ==>
      (r.AgentsRejected? <==> !ValidateAgents(PickAgents(st).1).isValid)
    ensures r.AgentsRejected? ==>
      r.agentErrors == ValidateAgents(PickAgents(st).1).errors && r.agentErrors != []
      && r.agentWarnings == ValidateAgents(PickAgents(st).1).warnings
    // then the parser, then the rows, all or nothing
    ensures r.InternalError? <==>
      ValidateFile(file).isValid && ValidateAgents(PickAgents(st).1).isValid && parsed.None?
    ensures r.RowsRejected? ==> parsed.Some? && r.batchErrors != []
    ensures r.Uploaded? <==>
      && ValidateFile(file).isValid && ValidateAgents(PickAgents(st).1).isValid && parsed.Some?
      && |parsed.value| > 0
      && forall i :: 0 <= i < |parsed.value| ==> Verdicts(parsed.value, |parsed.value|)[i].isValid
    // a rejected upload stores no task, though a reactivation stays
    ensures ValidateFile(file).isValid && !r.Uploaded? ==> st' == PickAgents(st).0
    ensures !r.Uploaded? ==>
      st'.tasks == st.tasks && st'.assignedAgent == st.assignedAgent && st'.assignedTasks == st.assignedTasks
    // an accepted one stores every row as a new pending task of a gated agent
    ensures r.Uploaded? ==>
      && r.taskCount == |parsed.value|
      && st'.nextTaskId == st.nextTaskId + r.taskCount
      && r.metrics == CalculateDistribution(r.taskCount, PickAgents(st).1).metrics
      && r.warnings == ValidateAgents(PickAgents(st).1).warnings
    ensures r.Uploaded? && WellFormed(st) && Consistent(st) ==>
      && (forall t :: t in st.tasks ==> t in st'.tasks && st'.tasks[t] == st.tasks[t])
      && (forall i :: 0 <= i < |parsed.value| ==>
            NewIds(st.nextTaskId, |parsed.value|)[i] in st'.tasks
            && st'.tasks[NewIds(st.nextTaskId, |parsed.value|)[i]]
              == NewTask(Verdicts(parsed.value, |parsed.value|)[i].sanitized))
      && (forall i :: 0 <= i < |parsed.value| ==>
            NewIds(st.nextTaskId, |parsed.value|)[i] in st'.assignedAgent
            && st'.assignedAgent[NewIds(st.nextTaskId, |parsed.value|)[i]] in Ids(PickAgents(st).1))
    // and whatever happens the store keeps its invariants
    ensures WellFormed(st) && Consistent(st) ==> WellFormed(st') && Consistent(st')
  {
    var fileCheck := ValidateFile(file);
    if !fileCheck.isValid {
      return st, FileRejected(fileCheck.errors);
    }
    var picked, docs := PickAgents(st).0, PickAgents(st).1;
    PickedAgents(st);
    var gate := ValidateAgents(docs);
    if !gate.isValid {
      return picked, AgentsRejected(gate.errors, gate.warnings);
    }
    if parsed.None? {
      return picked, InternalError;
    }
    st', r := AcceptRows(picked, docs, parsed.value, gate.warnings);
  }

  /** The writer follows the sorted order, not the planned counts: with two
      active agents carrying 5 and 0 tasks and a single row, the plan gives
      the row to the first agent (share 1, total 6) and sorts the second
      (share 0, total 0) to the front, and the row is saved for the second
      agent. */
  lemma RoundRobinIgnoresPlan(st: Store, a: Agent, row: Sanitized)
    requires a.isActive
    requires forall t :: t in st.tasks ==> t < st.nextTaskId
    ensures CalculateDistribution(1, [AgentDoc(0, a, [10, 11, 12, 13, 14]), AgentDoc(1, a, [])]).distribution
      == [Workload(AgentDoc(1, a, []), 0, 0), Workload(AgentDoc(0, a, [10, 11, 12, 13, 14]), 5, 1)]
    ensures Saving(st, [row], CalculateDistribution(1, [AgentDoc(0, a, [10, 11, 12, 13, 14]), AgentDoc(1, a, [])]).distribution)
      .assignedAgent[st.nextTaskId] == 1
  {
    var first, second := AgentDoc(0, a, [10, 11, 12, 13, 14]), AgentDoc(1, a, []);
    var docs := [first, second];
    assert ActiveOnly(docs) == docs by {
      ActiveOnlyKeepsActive(docs);
    }
    var ws := Workloads(docs, 1);
    assert ws == [Workload(first, 5, 1), Workload(second, 0, 0)];
    assert SortByTotal(ws) == Insert(Insert([], ws[0]), ws[1]) by {
      assert ws[..1][..0] == [];
    }
    var dist := CalculateDistribution(1, docs).distribution;
    SavingOwners(st, [row], dist);
    assert NewIds(st.nextTaskId, 1)[0] == st.nextTaskId;
  }
}

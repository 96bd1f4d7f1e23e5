/**
 * `validateAgents` and the agent lookup of `uploadTasks` that precedes it:
 * use the active agents, or, when there are none, switch every agent back
 * on and use them all.
 */
module AgentGate {
  import opened Store
  import opened Limits

  datatype GateError = TooFewAgents | AtCapacity(name: string)

  datatype GateWarning = NotActive(name: string) | NearCapacity(name: string)

  function GateErrorMessage(e: GateError): string {
    match e
    case TooFewAgents => "At least 1 agent is required for task distribution"
    case AtCapacity(name) => "Agent " + name + " has reached maximum task capacity"
  }

  function GateWarningMessage(w: GateWarning): string {
    match w
    case NotActive(name) => "Agent " + name + " is not active"
    case NearCapacity(name) => "Agent " + name + " is approaching maximum task capacity"
  }

  datatype AgentVerdict = AgentVerdict(isValid: bool, errors: seq<GateError>, warnings: seq<GateWarning>)

  /** `agent.assignedTasks?.length || 0` */
  function Load(d: AgentDoc): nat {
    |d.assignedTasks|
  }

  /** The capacity errors of the first `n` agents, in agent order. */
  function CapacityErrors(docs: seq<AgentDoc>, n: nat): seq<GateError>
    requires n <= |docs|
  {
    if n == 0 then []
    else
      CapacityErrors(docs, n - 1)
      + if Load(docs[n - 1]) >= MaxTasksPerAgent then [AtCapacity(docs[n - 1].agent.name)] else []
  }

  /** One agent's warnings: the inactive warning before the capacity
      warning. */
  function AgentWarnings(d: AgentDoc): seq<GateWarning> {
    (if !d.agent.isActive then [NotActive(d.agent.name)] else [])
    + if MaxTasksPerAgent > Load(d) >= CapacityWarningLoad then [NearCapacity(d.agent.name)] else []
  }

  /** The warnings of the first `n` agents, in agent order. */
  function Warnings(docs: seq<AgentDoc>, n: nat): seq<GateWarning>
    requires n <= |docs|
  {
    if n == 0 then [] else Warnings(docs, n - 1) + AgentWarnings(docs[n - 1])
  }

  function ValidateAgents(docs: seq<AgentDoc>): (r: AgentVerdict)
    ensures r.isValid <==> r.errors == []
    ensures TooFewAgents in r.errors <==> |docs| < MinAgents
  {
    var errors := (if |docs| < MinAgents then [TooFewAgents] else []) + CapacityErrors(docs, |docs|);
    assert TooFewAgents !in CapacityErrors(docs, |docs|) by {
      OnlyCapacityErrors(docs, |docs|);
    }
    AgentVerdict(|errors| == 0, errors, Warnings(docs, |docs|))
  }

  /** Agent `docs[i]`, among the first `n`, is called `name`. */
  predicate NamedAmong(docs: seq<AgentDoc>, n: nat, name: string, i: int) {
    0 <= i < n <= |docs| && docs[i].agent.name == name
  }

  /** A capacity error names exactly the agents carrying 200 tasks or
      more. */
  lemma {:induction false} CapacityErrorNames(docs: seq<AgentDoc>, n: nat, name: string)
    requires n <= |docs|
    ensures AtCapacity(name) in CapacityErrors(docs, n) <==> exists i :: NamedAmong(docs, n, name, i) && Load(docs[i]) >= MaxTasksPerAgent
  {
    if n > 0 {
      CapacityErrorNames(docs, n - 1, name);
      if exists i :: NamedAmong(docs, n, name, i) && Load(docs[i]) >= MaxTasksPerAgent {
        var i :| NamedAmong(docs, n, name, i) && Load(docs[i]) >= MaxTasksPerAgent;
        if i < n - 1 {
          assert NamedAmong(docs, n - 1, name, i);
        }
      }
      if AtCapacity(name) in CapacityErrors(docs, n - 1) {
        var i :| NamedAmong(docs, n - 1, name, i) && Load(docs[i]) >= MaxTasksPerAgent;
        assert NamedAmong(docs, n, name, i);
      }
      if AtCapacity(name) in CapacityErrors(docs, n) && AtCapacity(name) !in CapacityErrors(docs, n - 1) {
        assert NamedAmong(docs, n, name, n - 1);
      }
    }
  }

  /** Capacity errors are the only errors the agents themselves raise. */
  lemma {:induction false} OnlyCapacityErrors(docs: seq<AgentDoc>, n: nat)
    requires n <= |docs|
    ensures TooFewAgents !in CapacityErrors(docs, n)
  {
    if n > 0 {
      OnlyCapacityErrors(docs, n - 1);
    }
  }

  /** There is no capacity error exactly when every agent is below 200. */
  lemma {:induction false} NoCapacityErrors(docs: seq<AgentDoc>, n: nat)
    requires n <= |docs|
    ensures CapacityErrors(docs, n) == [] <==> forall i :: 0 <= i < n ==> Load(docs[i]) < MaxTasksPerAgent
  {
    if n > 0 {
      NoCapacityErrors(docs, n - 1);
    }
  }

  /** The warnings of `n` agents are those of the first `n - 1`, then the
      last agent's. */
  lemma WarningsStep(docs: seq<AgentDoc>, n: nat, w: GateWarning)
    requires 0 < n <= |docs|
    ensures w in Warnings(docs, n) <==> w in Warnings(docs, n - 1) || w in AgentWarnings(docs[n - 1])
  {
    assert Warnings(docs, n) == Warnings(docs, n - 1) + AgentWarnings(docs[n - 1]);
  }

  /** Every warning of the list is raised by one of the agents ... */
  lemma {:induction false} WarningFrom(docs: seq<AgentDoc>, n: nat, w: GateWarning) returns (i: nat)
    requires n <= |docs| && w in Warnings(docs, n)
    ensures i < n && w in AgentWarnings(docs[i])
  {
    WarningsStep(docs, n, w);
    if w in Warnings(docs, n - 1) {
      i := WarningFrom(docs, n - 1, w);
    } else {
      i := n - 1;
    }
  }

  /** ... and every warning an agent raises is on the list. */
  lemma {:induction false} WarningOf(docs: seq<AgentDoc>, n: nat, i: nat, w: GateWarning)
    requires i < n <= |docs| && w in AgentWarnings(docs[i])
    ensures w in Warnings(docs, n)
  {
    WarningsStep(docs, n, w);
    if i < n - 1 {
      WarningOf(docs, n - 1, i, w);
    }
  }

  /** An agent is warned about by name for being inactive, or for carrying
      160 to 199 tasks. */
  lemma AgentWarningsSpec(d: AgentDoc, name: string)
    ensures NotActive(name) in AgentWarnings(d) <==> !d.agent.isActive && d.agent.name == name
    ensures NearCapacity(name) in AgentWarnings(d) <==>
      MaxTasksPerAgent > Load(d) >= CapacityWarningLoad && d.agent.name == name
  {
  }

  /** The inactive warnings name exactly the inactive agents. */
  lemma InactiveWarningNames(docs: seq<AgentDoc>, n: nat, name: string)
    requires n <= |docs|
    ensures NotActive(name) in Warnings(docs, n) <==> exists i :: NamedAmong(docs, n, name, i) && !docs[i].agent.isActive
  {
    if exists i :: NamedAmong(docs, n, name, i) && !docs[i].agent.isActive {
      var i :| NamedAmong(docs, n, name, i) && !docs[i].agent.isActive;
      AgentWarningsSpec(docs[i], name);
      WarningOf(docs, n, i, NotActive(name));
    }
    if NotActive(name) in Warnings(docs, n) {
      var i := WarningFrom(docs, n, NotActive(name));
      AgentWarningsSpec(docs[i], name);
      assert NamedAmong(docs, n, name, i);
    }
  }

  /** The near-capacity warnings name exactly the agents carrying at least
      160 but fewer than 200 tasks. */
  lemma NearCapacityWarningNames(docs: seq<AgentDoc>, n: nat, name: string)
    requires n <= |docs|
    ensures NearCapacity(name) in Warnings(docs, n) <==> exists i :: NamedAmong(docs, n, name, i) && MaxTasksPerAgent > Load(docs[i]) >= CapacityWarningLoad
  {
    if exists i :: NamedAmong(docs, n, name, i) && MaxTasksPerAgent > Load(docs[i]) >= CapacityWarningLoad {
      var i :| NamedAmong(docs, n, name, i) && MaxTasksPerAgent > Load(docs[i]) >= CapacityWarningLoad;
      AgentWarningsSpec(docs[i], name);
      WarningOf(docs, n, i, NearCapacity(name));
    }
    if NearCapacity(name) in Warnings(docs, n) {
      var i := WarningFrom(docs, n, NearCapacity(name));
      AgentWarningsSpec(docs[i], name);
      assert NamedAmong(docs, n, name, i);
    }
  }

  /** The gate lets a batch through exactly when there is an agent and none
      of them carries 200 tasks or more; warnings never stop it. */
  lemma GateAcceptsIff(docs: seq<AgentDoc>)
    ensures ValidateAgents(docs).isValid <==>
      |docs| > 0 && forall i :: 0 <= i < |docs| ==> Load(docs[i]) < MaxTasksPerAgent
  {
    NoCapacityErrors(docs, |docs|);
  }

  /** The gate's verdict, error by error and warning by warning: an agent is
      named in a capacity error, an inactive warning or a near-capacity
      warning exactly when its load or flag says so. */
  lemma GateNamesIff(docs: seq<AgentDoc>, name: string)
    ensures AtCapacity(name) in ValidateAgents(docs).errors <==>
      exists i :: NamedAmong(docs, |docs|, name, i) && Load(docs[i]) >= MaxTasksPerAgent
    ensures NotActive(name) in ValidateAgents(docs).warnings <==>
      exists i :: NamedAmong(docs, |docs|, name, i) && !docs[i].agent.isActive
    ensures NearCapacity(name) in ValidateAgents(docs).warnings <==>
      exists i :: NamedAmong(docs, |docs|, name, i) && MaxTasksPerAgent > Load(docs[i]) >= CapacityWarningLoad
  {
    CapacityErrorNames(docs, |docs|, name);
    InactiveWarningNames(docs, |docs|, name);
    NearCapacityWarningNames(docs, |docs|, name);
  }

  /** `Agent.updateMany({}, {isActive: true})`. */
  function ActivateAll(st: Store): (st': Store)
    ensures st'.agents.Keys == st.agents.Keys
    ensures forall a :: a in st'.agents ==> st'.agents[a] == st.agents[a].(isActive := true)
    ensures st'.agentOrder == st.agentOrder && st'.assignedTasks == st.assignedTasks
    ensures st'.tasks == st.tasks && st'.taskOrder == st.taskOrder && st'.assignedAgent == st.assignedAgent
    ensures st'.nextAgentId == st.nextAgentId && st'.nextTaskId == st.nextTaskId
  {
    st.(agents := map a | a in st.agents :: st.agents[a].(isActive := true))
  }

  /** The agents to distribute over, and the store after the lookup: the
      active agents if there are any; otherwise every agent, after switching
      them all back on (`{...agent.toObject(), isActive: true}`). */
  function PickAgents(st: Store): (Store, seq<AgentDoc>) {
    var active := FindAgents(st, st.agentOrder, true);
    if |active| > 0 then (st, active)
    else
      var all := FindAgents(st, st.agentOrder, false);
      if |all| == 0 then (st, [])
      else
        (ActivateAll(st), seq(|all|, k requires 0 <= k < |all| => all[k].(agent := all[k].agent.(isActive := true))))
  }

  /** With every agent switched on, looking for the active ones finds them
      all. */
  lemma {:induction false} FindIdsAllActive(st: Store, order: seq<AgentId>)
    ensures FindIds(ActivateAll(st).agents, order, true) == FindIds(st.agents, order, false)
  {
    if |order| > 0 {
      FindIdsAllActive(st, order[..|order| - 1]);
    }
  }

  /** No active agent was found exactly when every agent is inactive. */
  lemma {:induction false} NoneFoundIffAllInactive(st: Store, order: seq<AgentId>)
    ensures |FindIds(st.agents, order, true)| == 0 <==>
      forall a :: a in order && a in st.agents ==> !st.agents[a].isActive
  {
    FindIdsComplete(st.agents, order, true);
    if |order| > 0 {
      NoneFoundIffAllInactive(st, order[..|order| - 1]);
    }
  }

  /** The lookup only ever switches agents on, and only when none was on;
      the agents it returns are then exactly the stored agents, all active,
      as a fresh query would return them. Assignments and tasks are
      untouched. */
  lemma PickAgentsSpec(st: Store)
    ensures var (st', docs) := PickAgents(st);
      && st'.assignedTasks == st.assignedTasks && st'.assignedAgent == st.assignedAgent
      && st'.tasks == st.tasks && st'.taskOrder == st.taskOrder
      && st'.agentOrder == st.agentOrder && st'.agents.Keys == st.agents.Keys
      && docs == FindAgents(st', st'.agentOrder, true)
      && ((exists a :: a in st.agentOrder && a in st.agents && st.agents[a].isActive) ==> st' == st)
    ensures var st' := PickAgents(st).0;
      forall a :: a in st.agents ==> st'.agents[a] == st.agents[a] || st'.agents[a] == st.agents[a].(isActive := true)
  {
    var (st', docs) := PickAgents(st);
    NoneFoundIffAllInactive(st, st.agentOrder);
    var active := FindAgents(st, st.agentOrder, true);
    if |active| == 0 {
      var all := FindAgents(st, st.agentOrder, false);
      if |all| == 0 {
        assert FindIds(st.agents, st.agentOrder, false) == [];
        FindIdsComplete(st.agents, st.agentOrder, true);
        FindIdsComplete(st.agents, st.agentOrder, false);
        assert FindIds(st.agents, st.agentOrder, true) == [];
      } else {
        FindIdsAllActive(st, st.agentOrder);
        var found := FindAgents(st', st'.agentOrder, true);
        assert |found| == |docs|;
        forall k | 0 <= k < |docs|
          ensures docs[k] == found[k]
        {
        }
      }
    }
  }

  /** Reactivation: when no agent is active, the lookup switches every
      stored agent on, if there is one, and returns all of them in
      creation order. */
  lemma PickAgentsReactivates(st: Store)
    requires forall a :: a in st.agentOrder && a in st.agents ==> !st.agents[a].isActive
    ensures var (st', docs) := PickAgents(st);
      && Ids(docs) == FindIds(st.agents, st.agentOrder, false)
      && ((exists a :: a in st.agentOrder && a in st.agents) ==> st' == ActivateAll(st))
  {
    NoneFoundIffAllInactive(st, st.agentOrder);
    var all := FindAgents(st, st.agentOrder, false);
    if exists a :: a in st.agentOrder && a in st.agents {
      FindIdsComplete(st.agents, st.agentOrder, false);
      var a :| a in st.agentOrder && a in st.agents;
      assert a in FindIds(st.agents, st.agentOrder, false);
      assert |all| > 0;
    }
  }
}

/**
 * The document writes the controllers are built from: assigning a task to an
 * agent (two `findByIdAndUpdate` calls), clearing every assignment, and
 * removing an agent. Each keeps or restores the agreement between a task's
 * `assignedAgent` and the agents' `assignedTasks` lists.
 */
module Writes {
  import opened Store
  import opened Shares

  /** The store with both sides of every assignment forgotten. */
  function Profile(st: Store): Store {
    st.(assignedTasks := map[], assignedAgent := map[])
  }

  /** A store that differs from a well-formed one only in its assignments
      is well formed when every agent still has a list and only stored tasks
      have an agent field. */
  lemma ProfileWellFormed(st: Store, st': Store)
    requires WellFormed(st) && Profile(st') == Profile(st)
    requires forall a :: a in st'.assignedTasks <==> a in st.agents
    requires forall t :: t in st'.assignedAgent ==> t in st.tasks
    ensures WellFormed(st')
  {
    assert st'.agents == st.agents && st'.tasks == st.tasks;
    assert st'.agentOrder == st.agentOrder && st'.taskOrder == st.taskOrder;
    assert st'.nextAgentId == st.nextAgentId && st'.nextTaskId == st.nextTaskId;
  }

  /** `Task.findByIdAndUpdate(t, {assignedAgent: a})` followed by
      `Agent.findByIdAndUpdate(a, {$push: {assignedTasks: t}})`; an update of
      a document that does not exist changes nothing. */
  function Assign(st: Store, t: TaskId, a: AgentId): (st': Store)
    ensures Profile(st') == Profile(st)
    ensures forall a :: a in st'.assignedTasks <==> a in st.assignedTasks
    ensures t in st.tasks ==> t in st'.assignedAgent && st'.assignedAgent[t] == a
    ensures a in st.assignedTasks ==> st'.assignedTasks[a] == st.assignedTasks[a] + [t]
    ensures forall u :: u != t ==> (u in st'.assignedAgent <==> u in st.assignedAgent)
    ensures forall u :: u in st.assignedAgent && u != t ==> st'.assignedAgent[u] == st.assignedAgent[u]
    ensures forall b :: b in st.assignedTasks && b != a ==> st'.assignedTasks[b] == st.assignedTasks[b]
  {
    st.(assignedAgent := if t in st.tasks then st.assignedAgent[t := a] else st.assignedAgent,
        assignedTasks := if a in st.assignedTasks then st.assignedTasks[a := st.assignedTasks[a] + [t]] else st.assignedTasks)
  }

  /** Giving an unassigned task to an existing agent keeps the two sides in
      agreement. */
  lemma AssignConsistent(st: Store, t: TaskId, a: AgentId)
    requires Consistent(st)
    requires t in st.tasks && t !in st.assignedAgent && a in st.assignedTasks
    ensures Consistent(Assign(st, t, a))
  {
    var st' := Assign(st, t, a);
    forall b, u | b in st'.assignedTasks && u in st'.assignedTasks[b]
      ensures u in st'.assignedAgent && st'.assignedAgent[u] == b
    {
      if b == a && u != t {
        assert u in st.assignedTasks[a];
      } else if b != a {
        assert u in st.assignedTasks[b];
      }
    }
  }

  /** The first `n` pairs (`ts[i]`, `owners[i]`) assigned in order; this
      changes nothing but the assignments. */
  function AssignUpTo(st: Store, ts: seq<TaskId>, owners: seq<AgentId>, n: nat): (st': Store)
    requires n <= |ts| && n <= |owners|
    ensures Profile(st') == Profile(st)
    ensures forall a :: a in st'.assignedTasks <==> a in st.assignedTasks
  {
    if n == 0 then st else Assign(AssignUpTo(st, ts, owners, n - 1), ts[n - 1], owners[n - 1])
  }

  /** The tasks among the first `n` that go to agent `a`, in order. */
  function Picks(ts: seq<TaskId>, owners: seq<AgentId>, a: AgentId, n: nat): seq<TaskId>
    requires n <= |ts| && n <= |owners|
  {
    if n == 0 then [] else Picks(ts, owners, a, n - 1) + if owners[n - 1] == a then [ts[n - 1]] else []
  }

  /** A task none of the first `n` assignments names keeps its agent field. */
  lemma {:induction false} AssignUpToLeaves(st: Store, ts: seq<TaskId>, owners: seq<AgentId>, n: nat, u: TaskId)
    requires n <= |ts| && n <= |owners|
    requires forall i :: 0 <= i < n ==> ts[i] != u
    ensures u in AssignUpTo(st, ts, owners, n).assignedAgent <==> u in st.assignedAgent
    ensures u in st.assignedAgent ==> AssignUpTo(st, ts, owners, n).assignedAgent[u] == st.assignedAgent[u]
  {
    if n > 0 {
      AssignUpToLeaves(st, ts, owners, n - 1, u);
    }
  }

  /** After the first `n` assignments of distinct stored tasks, task `ts[i]`
      belongs to `owners[i]`. */
  lemma {:induction false} AssignUpToGiven(st: Store, ts: seq<TaskId>, owners: seq<AgentId>, n: nat)
    requires n <= |ts| && n <= |owners| && Distinct(ts)
    requires forall i :: 0 <= i < n ==> ts[i] in st.tasks
    ensures forall i :: 0 <= i < n ==>
      ts[i] in AssignUpTo(st, ts, owners, n).assignedAgent && AssignUpTo(st, ts, owners, n).assignedAgent[ts[i]] == owners[i]
  {
    if n > 0 {
      AssignUpToGiven(st, ts, owners, n - 1);
      var prev, t := AssignUpTo(st, ts, owners, n - 1), ts[n - 1];
      assert t in prev.tasks by {
        assert Profile(prev).tasks == prev.tasks;
      }
      forall i | 0 <= i < n - 1
        ensures ts[i] != t
      {
      }
    }
  }

  /** ... and every other task keeps its agent field. */
  lemma AssignUpToTasks(st: Store, ts: seq<TaskId>, owners: seq<AgentId>, n: nat)
    requires n <= |ts| && n <= |owners| && Distinct(ts)
    requires forall i :: 0 <= i < n ==> ts[i] in st.tasks
    ensures forall i :: 0 <= i < n ==>
      ts[i] in AssignUpTo(st, ts, owners, n).assignedAgent && AssignUpTo(st, ts, owners, n).assignedAgent[ts[i]] == owners[i]
    ensures forall u :: u !in ts[..n] ==>
      (u in AssignUpTo(st, ts, owners, n).assignedAgent <==> u in st.assignedAgent)
    ensures forall u :: u !in ts[..n] && u in st.assignedAgent ==>
      AssignUpTo(st, ts, owners, n).assignedAgent[u] == st.assignedAgent[u]
  {
    AssignUpToGiven(st, ts, owners, n);
    forall u | u !in ts[..n]
      ensures u in AssignUpTo(st, ts, owners, n).assignedAgent <==> u in st.assignedAgent
      ensures u in st.assignedAgent ==> AssignUpTo(st, ts, owners, n).assignedAgent[u] == st.assignedAgent[u]
    {
      forall i | 0 <= i < n
        ensures ts[i] != u
      {
        assert ts[..n][i] == ts[i];
      }
      AssignUpToLeaves(st, ts, owners, n, u);
    }
  }

  /** ... and each existing agent's list has grown by exactly the tasks it
      was given, in the order given. */
  lemma {:induction false} AssignUpToLists(st: Store, ts: seq<TaskId>, owners: seq<AgentId>, n: nat)
    requires n <= |ts| && n <= |owners|
    ensures forall a :: a in st.assignedTasks ==>
      AssignUpTo(st, ts, owners, n).assignedTasks[a] == st.assignedTasks[a] + Picks(ts, owners, a, n)
  {
    if n > 0 {
      AssignUpToLists(st, ts, owners, n - 1);
      forall a | a in st.assignedTasks
        ensures AssignUpTo(st, ts, owners, n).assignedTasks[a] == st.assignedTasks[a] + Picks(ts, owners, a, n)
      {
        if a == owners[n - 1] {
          assert st.assignedTasks[a] + Picks(ts, owners, a, n)
            == st.assignedTasks[a] + Picks(ts, owners, a, n - 1) + [ts[n - 1]];
        }
      }
    } else {
      assert forall a :: a in st.assignedTasks ==> st.assignedTasks[a] + [] == st.assignedTasks[a];
    }
  }

  /** Agent `a` picks as many tasks as it occurs among the first `n` owners. */
  lemma {:induction false} PicksCount(ts: seq<TaskId>, owners: seq<AgentId>, a: AgentId, n: nat)
    requires n <= |ts| && n <= |owners|
    ensures |Picks(ts, owners, a, n)| == Hits(owners, a, n)
  {
    if n > 0 {
      PicksCount(ts, owners, a, n - 1);
    }
  }

  /** A task given to an agent is among that agent's picks. */
  lemma {:induction false} PicksIn(ts: seq<TaskId>, owners: seq<AgentId>, n: nat, i: nat)
    requires i < n <= |ts| && n <= |owners|
    ensures ts[i] in Picks(ts, owners, owners[i], n)
  {
    if i < n - 1 {
      PicksIn(ts, owners, n - 1, i);
    }
  }

  /** Every pick of agent `a` is a task that was given to `a`. */
  lemma {:induction false} PicksIndex(ts: seq<TaskId>, owners: seq<AgentId>, a: AgentId, n: nat, u: TaskId) returns (i: nat)
    requires n <= |ts| && n <= |owners| && u in Picks(ts, owners, a, n)
    ensures i < n && ts[i] == u && owners[i] == a
  {
    if u in Picks(ts, owners, a, n - 1) {
      i := PicksIndex(ts, owners, a, n - 1, u);
    } else {
      i := n - 1;
    }
  }

  /** Assigning distinct unassigned tasks to existing agents one after the
      other keeps the two sides in agreement. */
  lemma AssignUpToConsistent(st: Store, ts: seq<TaskId>, owners: seq<AgentId>, n: nat)
    requires n <= |ts| && n <= |owners| && Distinct(ts) && Consistent(st)
    requires forall i :: 0 <= i < n ==> ts[i] in st.tasks && ts[i] !in st.assignedAgent
    requires forall i :: 0 <= i < n ==> owners[i] in st.assignedTasks
    ensures Consistent(AssignUpTo(st, ts, owners, n))
  {
    var r := AssignUpTo(st, ts, owners, n);
    AssignUpToTasks(st, ts, owners, n);
    AssignUpToLists(st, ts, owners, n);
    forall t | t in r.assignedAgent
      ensures r.assignedAgent[t] in r.assignedTasks && t in r.assignedTasks[r.assignedAgent[t]]
    {
      if t in ts[..n] {
        var i :| 0 <= i < n && ts[..n][i] == t;
        assert ts[i] == t;
        PicksIn(ts, owners, n, i);
      } else {
        assert t in st.assignedAgent;
      }
    }
    forall a, t | a in r.assignedTasks && t in r.assignedTasks[a]
      ensures t in r.assignedAgent && r.assignedAgent[t] == a
    {
      assert r.assignedTasks[a] == st.assignedTasks[a] + Picks(ts, owners, a, n);
      if t in st.assignedTasks[a] {
        AssignUpToLeaves(st, ts, owners, n, t);
      } else {
        var i := PicksIndex(ts, owners, a, n, t);
      }
    }
  }

  /** `after` holds the assignments of `st` with every task of agent `a`
      moved, task `ts[i]` to `owners[i]`, an agent other than `a` that has a
      list, and with `a`'s list dropped. */
  ghost predicate Reassigns(st: Store, after: Store, a: AgentId, ts: seq<TaskId>, owners: seq<AgentId>) {
    && |ts| <= |owners|
    && (forall t :: t in st.assignedAgent && st.assignedAgent[t] == a <==> t in ts)
    && (forall i :: 0 <= i < |ts| ==> owners[i] != a && owners[i] in st.assignedTasks)
    && (forall i :: 0 <= i < |ts| ==> ts[i] in after.assignedAgent && after.assignedAgent[ts[i]] == owners[i])
    && (forall t :: t !in ts ==> (t in after.assignedAgent <==> t in st.assignedAgent))
    && (forall t :: t !in ts && t in st.assignedAgent ==> after.assignedAgent[t] == st.assignedAgent[t])
    && (forall b :: b in after.assignedTasks <==> b in st.assignedTasks && b != a)
    && (forall b :: b in after.assignedTasks ==>
          after.assignedTasks[b] == st.assignedTasks[b] + Picks(ts, owners, b, |ts|))
  }

  /** After such a move a task's agent has the task on its list ... */
  lemma ReassignTaskListed(st: Store, after: Store, a: AgentId, ts: seq<TaskId>, owners: seq<AgentId>, t: TaskId)
    requires Consistent(st) && Reassigns(st, after, a, ts, owners) && t in after.assignedAgent
    ensures after.assignedAgent[t] in after.assignedTasks && t in after.assignedTasks[after.assignedAgent[t]]
  {
    if t in ts {
      var i :| 0 <= i < |ts| && ts[i] == t;
      PicksIn(ts, owners, |ts|, i);
    }
  }

  /** ... and a task on an agent's list names that agent ... */
  lemma ReassignListedTask(st: Store, after: Store, a: AgentId, ts: seq<TaskId>, owners: seq<AgentId>, b: AgentId, t: TaskId)
    requires Consistent(st) && Reassigns(st, after, a, ts, owners)
    requires b in after.assignedTasks && t in after.assignedTasks[b]
    ensures t in after.assignedAgent && after.assignedAgent[t] == b
  {
    if t !in st.assignedTasks[b] {
      var i := PicksIndex(ts, owners, b, |ts|, t);
    }
  }

  /** ... so such a move keeps the two sides in agreement. */
  lemma ReassignConsistent(st: Store, after: Store, a: AgentId, ts: seq<TaskId>, owners: seq<AgentId>)
    requires Consistent(st) && Reassigns(st, after, a, ts, owners)
    ensures Consistent(after)
  {
    forall t | t in after.assignedAgent
      ensures after.assignedAgent[t] in after.assignedTasks && t in after.assignedTasks[after.assignedAgent[t]]
    {
      ReassignTaskListed(st, after, a, ts, owners, t);
    }
    forall b, t | b in after.assignedTasks && t in after.assignedTasks[b]
      ensures t in after.assignedAgent && after.assignedAgent[t] == b
    {
      ReassignListedTask(st, after, a, ts, owners, b, t);
    }
  }

  /** Every agent's list set to empty. */
  function EmptyLists(agents: map<AgentId, Agent>): (lists: map<AgentId, seq<TaskId>>)
    ensures lists.Keys == agents.Keys
    ensures forall a :: a in lists ==> lists[a] == []
  {
    map a | a in agents :: []
  }

  /** `Agent.updateMany({}, {assignedTasks: []})` then
      `Task.updateMany({}, {$unset: {assignedAgent: 1}})`. */
  function ClearAll(st: Store): (st': Store)
    ensures Profile(st') == Profile(st)
    ensures st'.assignedTasks.Keys == st.agents.Keys
    ensures forall a :: a in st'.assignedTasks ==> st'.assignedTasks[a] == []
    ensures st'.assignedAgent == map[]
  {
    st.(assignedTasks := EmptyLists(st.agents), assignedAgent := map[])
  }

  /** With nobody assigned anything, the two sides trivially agree. */
  lemma ClearAllConsistent(st: Store)
    ensures Consistent(ClearAll(st))
  {
  }

  /** Clearing every assignment and then assigning distinct stored tasks to
      stored agents leaves the two sides in agreement, whatever they were
      before. */
  lemma ClearThenAssignConsistent(st: Store, ts: seq<TaskId>, owners: seq<AgentId>, n: nat)
    requires n <= |ts| && n <= |owners| && Distinct(ts)
    requires forall i :: 0 <= i < n ==> ts[i] in st.tasks && owners[i] in st.agents
    ensures Consistent(AssignUpTo(ClearAll(st), ts, owners, n))
  {
    AssignUpToConsistent(ClearAll(st), ts, owners, n);
  }

  /** Clearing forgets everything that distinguishes two stores that differ
      only in their assignments. */
  lemma ClearAllForgets(a: Store, b: Store)
    requires Profile(a) == Profile(b)
    ensures ClearAll(a) == ClearAll(b)
  {
    assert a.agents == Profile(a).agents == Profile(b).agents == b.agents;
  }

  /** `xs` without any occurrence of `x` (MongoDB's `$pull`), order kept. */
  function Without(xs: seq<nat>, x: nat): (ys: seq<nat>)
    ensures |ys| <= |xs|
    ensures forall y :: y in ys <==> y in xs && y != x
  {
    if |xs| == 0 then []
    else Without(xs[..|xs| - 1], x) + if xs[|xs| - 1] == x then [] else [xs[|xs| - 1]]
  }

  /** Pulling keeps a list without repeats free of them. */
  lemma {:induction false} WithoutDistinct(xs: seq<nat>, x: nat)
    requires Distinct(xs)
    ensures Distinct(Without(xs, x))
  {
    if |xs| > 0 {
      var init, last := xs[..|xs| - 1], xs[|xs| - 1];
      WithoutDistinct(init, x);
      assert last !in init;
      var ys, ys' := Without(xs, x), Without(init, x);
      forall i, j | 0 <= i < j < |ys|
        ensures ys[i] != ys[j]
      {
        if j < |ys'| {
          assert ys[i] == ys'[i] && ys[j] == ys'[j];
        } else {
          assert ys[i] == ys'[i] && ys'[i] in init;
        }
      }
    }
  }

  /** `Agent.findByIdAndDelete(a)`: the agent and its list leave the
      collection and the query order. */
  function RemoveAgent(st: Store, a: AgentId): (st': Store)
    ensures st'.agents == st.agents - {a} && st'.assignedTasks == st.assignedTasks - {a}
    ensures forall b :: b in st'.agentOrder <==> b in st.agentOrder && b != a
    ensures st'.tasks == st.tasks && st'.taskOrder == st.taskOrder && st'.assignedAgent == st.assignedAgent
    ensures st'.nextAgentId == st.nextAgentId && st'.nextTaskId == st.nextTaskId
  {
    st.(agents := st.agents - {a}, assignedTasks := st.assignedTasks - {a}, agentOrder := Without(st.agentOrder, a))
  }

  /** Removing an agent no task names keeps the two sides in agreement. */
  lemma RemoveIdleConsistent(st: Store, a: AgentId)
    requires Consistent(st)
    requires forall t :: t in st.assignedAgent ==> st.assignedAgent[t] != a
    ensures Consistent(RemoveAgent(st, a))
  {
  }
}

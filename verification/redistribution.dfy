/**
 * `redistributeTasksHelper`: forget every assignment, then hand the tasks,
 * in query order, to the active agents, task `i` going to the agent at
 * position `floor(i / (n / k + (i < n % k ? 1 : 0)))` of `k` active agents.
 * That position is past the last agent for some `i` exactly when `n > k`
 * and `k` does not divide `n`; reading `._id` of the missing agent then
 * throws, after the assignments made so far.
 */
module Redistribution {
  import opened Store
  import opened Shares
  import opened Writes

  /** The agent position the loop computes for task `i` of `n`: the divisor
      is the share of recipient `i`, positive for every `i < n`. */
  function AgentIndex(n: nat, k: nat, i: nat): nat
    requires k > 0 && i < n
  {
    assert Share(n, k, i) > 0 by {
      if n / k == 0 {
        DivModUnique(n, k, 0, n);
      }
    }
    i / Share(n, k, i)
  }

  /** The first task, from `i` on, whose position is past the last agent;
      `n` when there is none. */
  function FirstMissing(n: nat, k: nat, i: nat): (f: nat)
    requires k > 0 && i <= n
    ensures i <= f <= n
    ensures forall j :: i <= j < f ==> AgentIndex(n, k, j) < k
    ensures f < n ==> AgentIndex(n, k, f) >= k
    decreases n - i
  {
    if i == n then n
    else if AgentIndex(n, k, i) >= k then i
    else FirstMissing(n, k, i + 1)
  }

  /** Every position falls on an agent: `k` divides `n`, or there are fewer
      tasks than agents. */
  predicate Even(n: nat, k: nat)
    requires k > 0
  {
    n % k == 0 || n < k
  }

  datatype Redistribution =
    | Done(store: Store)                   // every task handed out, or nothing to do
    | Aborted(store: Store, at: nat)       // threw at task `at`, after the writes before it

  /** The stored tasks, in query order. */
  function AllTasks(st: Store): seq<TaskId> {
    st.taskOrder
  }

  function RedistributeTasks(st: Store): (r: Redistribution)
    ensures Profile(r.store) == Profile(st)
  {
    var ids := FindIds(st.agents, st.agentOrder, true);
    var ts := AllTasks(st);
    var n, k := |ts|, |ids|;
    if n == 0 || k == 0 then Done(st)
    else
      var f := FirstMissing(n, k, 0);
      var owners := seq(f, i requires 0 <= i < f => ids[AgentIndex(n, k, i)]);
      var after := AssignUpTo(ClearAll(st), ts, owners, f);
      if f == n then Done(after) else Aborted(after, f)
  }

  lemma DivBelow(i: nat, q: nat, k: nat)
    requires q > 0 && i < q * k
    ensures i / q < k
  {
  }

  /** `i / s == j` exactly when `i` lies in the `j`-th block of `s`. */
  lemma DivBlock(i: nat, s: nat, j: nat)
    requires s > 0
    ensures i / s == j <==> j * s <= i < j * s + s
  {
    if j * s <= i < j * s + s {
      DivModUnique(i, s, j, i - j * s);
    }
    if i / s == j {
      assert i == j * s + i % s;
    }
  }

  /** With an even split every task sits in block `i / s` of a common size
      `s`: one task per agent when there are fewer tasks than agents, `n / k`
      otherwise; and no position is out of range. */
  lemma EvenIndex(n: nat, k: nat, i: nat)
    requires k > 0 && i < n && Even(n, k)
    ensures Share(n, k, i) == Share(n, k, 0) > 0
    ensures AgentIndex(n, k, i) == i / Share(n, k, 0) < k
  {
    if n < k {
      DivModUnique(n, k, 0, n);
    } else {
      var q := n / k;
      assert n == q * k;
      DivBelow(i, q, k);
    }
  }

  /** With an uneven split and more tasks than agents, every task before
      `n - n % k` falls on an agent: the first `n % k` tasks have divisor
      `n / k + 1`, the rest `n / k`. */
  lemma UnevenIndexBelow(n: nat, k: nat, i: nat)
    requires k > 0 && !Even(n, k) && i < n - n % k
    ensures AgentIndex(n, k, i) < k
  {
    var q, r := n / k, n % k;
    assert n == q * k + r;
    if i < r {
      assert Share(n, k, i) == q + 1;
      MulAtLeast(q + 1, k);
      DivBelow(i, q + 1, k);
    } else {
      assert Share(n, k, i) == q;
      assert n - r == q * k;
      DivBelow(i, q, k);
    }
  }

  /** ... and task `n - n % k`, the first with divisor `n / k` past `k`
      whole blocks, falls on position `k`, one past the last agent. */
  lemma UnevenIndexMissing(n: nat, k: nat)
    requires k > 0 && !Even(n, k)
    ensures n - n % k < n && AgentIndex(n, k, n - n % k) == k
  {
    var q, r := n / k, n % k;
    assert n == q * k + r;
    assert q >= 1;
    MulAtLeast(q, k);
    assert n - r == q * k >= k > r;
    assert Share(n, k, n - r) == q;
    assert q * k == k * q + 0;
    DivModUnique(q * k, q, k, 0);
    assert AgentIndex(n, k, n - r) == (q * k) / q;
  }

  /** The loop runs through every task exactly when the split is even; it
      stops at task `n - n % k` otherwise (task 9 of 10 over 3 agents). */
  lemma FirstMissingIs(n: nat, k: nat)
    requires k > 0 && n > 0
    ensures FirstMissing(n, k, 0) == if Even(n, k) then n else n - n % k
  {
    if Even(n, k) {
      forall i | 0 <= i < n
        ensures AgentIndex(n, k, i) < k
      {
        EvenIndex(n, k, i);
      }
      FirstMissingFrom(n, k, 0, n);
    } else {
      forall i | 0 <= i < n - n % k
        ensures AgentIndex(n, k, i) < k
      {
        UnevenIndexBelow(n, k, i);
      }
      UnevenIndexMissing(n, k);
      FirstMissingFrom(n, k, 0, n - n % k);
    }
  }

  lemma {:induction false} FirstMissingFrom(n: nat, k: nat, i: nat, b: nat)
    requires k > 0 && i <= b <= n
    requires forall j :: i <= j < b ==> AgentIndex(n, k, j) < k
    requires b < n ==> AgentIndex(n, k, b) >= k
    ensures FirstMissing(n, k, i) == b
    decreases b - i
  {
    if i < b {
      FirstMissingFrom(n, k, i + 1, b);
    }
  }

  /** Nothing happens without tasks or without an active agent; otherwise
      the run completes exactly when the split is even, and throws at task
      `n - n % k` when it is not. */
  lemma RedistributeOutcome(st: Store)
    ensures |AllTasks(st)| == 0 || |FindIds(st.agents, st.agentOrder, true)| == 0 ==>
      RedistributeTasks(st) == Done(st)
    ensures RedistributeTasks(st).Aborted? <==>
      |AllTasks(st)| > 0 && |FindIds(st.agents, st.agentOrder, true)| > 0
      && !Even(|AllTasks(st)|, |FindIds(st.agents, st.agentOrder, true)|)
    ensures RedistributeTasks(st).Aborted? ==>
      RedistributeTasks(st).at
        == |AllTasks(st)| - |AllTasks(st)| % |FindIds(st.agents, st.agentOrder, true)|
  {
    var n, k := |AllTasks(st)|, |FindIds(st.agents, st.agentOrder, true)|;
    if n > 0 && k > 0 {
      FirstMissingIs(n, k);
    }
  }

  /** The owner of each of the first `f` tasks, as the loop computes it. */
  function Owners(ids: seq<AgentId>, n: nat, f: nat): (owners: seq<AgentId>)
    requires |ids| > 0 && f <= FirstMissing(n, |ids|, 0)
    ensures |owners| == f
    ensures forall i :: 0 <= i < f ==> owners[i] == ids[AgentIndex(n, |ids|, i)]
  {
    seq(f, i requires 0 <= i < f => ids[AgentIndex(n, |ids|, i)])
  }

  /** The store after the run, for a non-empty run: the cleared store with
      the first `FirstMissing` tasks handed out. */
  lemma RedistributeUnfold(st: Store)
    requires |AllTasks(st)| > 0 && |FindIds(st.agents, st.agentOrder, true)| > 0
    ensures RedistributeTasks(st).store == AssignUpTo(ClearAll(st), AllTasks(st),
      Owners(FindIds(st.agents, st.agentOrder, true), |AllTasks(st)|,
        FirstMissing(|AllTasks(st)|, |FindIds(st.agents, st.agentOrder, true)|, 0)),
      FirstMissing(|AllTasks(st)|, |FindIds(st.agents, st.agentOrder, true)|, 0))
  {
    var ids := FindIds(st.agents, st.agentOrder, true);
    var n := |AllTasks(st)|;
    var f := FirstMissing(n, |ids|, 0);
    assert Owners(ids, n, f) == seq(f, i requires 0 <= i < f => ids[AgentIndex(n, |ids|, i)]);
  }

  /** Every run, even one that throws, leaves the store well formed ... */
  lemma RedistributeWellFormed(st: Store)
    requires WellFormed(st)
    ensures WellFormed(RedistributeTasks(st).store)
  {
    var ids := FindIds(st.agents, st.agentOrder, true);
    var ts := AllTasks(st);
    var n, k := |ts|, |ids|;
    if n > 0 && k > 0 {
      RedistributeUnfold(st);
      var f := FirstMissing(n, k, 0);
      var st' := RedistributeTasks(st).store;
      AssignUpToTasks(ClearAll(st), ts, Owners(ids, n, f), f);
      forall t | t in st'.assignedAgent
        ensures t in st.tasks
      {
        assert t in ts[..f];
      }
      ProfileWellFormed(st, st');
    }
  }

  /** ... with the two sides of every assignment in agreement: rebuilt from
      scratch, whatever they were before, when the run starts ... */
  lemma RedistributeRebuilds(st: Store)
    requires WellFormed(st)
    requires |AllTasks(st)| > 0 && |FindIds(st.agents, st.agentOrder, true)| > 0
    ensures Consistent(RedistributeTasks(st).store)
  {
    var ids := FindIds(st.agents, st.agentOrder, true);
    var ts := AllTasks(st);
    var n, k := |ts|, |ids|;
    RedistributeUnfold(st);
    var f := FirstMissing(n, k, 0);
    ClearThenAssignConsistent(st, ts, Owners(ids, n, f), f);
  }

  /** ... and kept when nothing happens. */
  lemma RedistributeConsistent(st: Store)
    requires WellFormed(st) && Consistent(st)
    ensures Consistent(RedistributeTasks(st).store)
  {
    if |AllTasks(st)| > 0 && |FindIds(st.agents, st.agentOrder, true)| > 0 {
      RedistributeRebuilds(st);
    }
  }

  /** Task `i` of the query order goes to the active agent at position
      `AgentIndex` when the run reaches it; a task the run does not reach
      is left with no agent. */
  lemma RedistributeOwners(st: Store)
    requires WellFormed(st)
    requires |AllTasks(st)| > 0 && |FindIds(st.agents, st.agentOrder, true)| > 0
    ensures forall i :: 0 <= i < FirstMissing(|AllTasks(st)|, |FindIds(st.agents, st.agentOrder, true)|, 0) ==>
      AllTasks(st)[i] in RedistributeTasks(st).store.assignedAgent
      && RedistributeTasks(st).store.assignedAgent[AllTasks(st)[i]]
        == FindIds(st.agents, st.agentOrder, true)[AgentIndex(|AllTasks(st)|, |FindIds(st.agents, st.agentOrder, true)|, i)]
    ensures forall i :: FirstMissing(|AllTasks(st)|, |FindIds(st.agents, st.agentOrder, true)|, 0) <= i < |AllTasks(st)| ==>
      AllTasks(st)[i] !in RedistributeTasks(st).store.assignedAgent
  {
    var ids := FindIds(st.agents, st.agentOrder, true);
    var ts := AllTasks(st);
    var n, k := |ts|, |ids|;
    RedistributeUnfold(st);
    var f := FirstMissing(n, k, 0);
    var owners := Owners(ids, n, f);
    AssignUpToTasks(ClearAll(st), ts, owners, f);
  }

  /** Ten tasks over three active agents: task 0 has divisor 4, every
      later task divisor 3, so tasks 0 to 2 land on agent 0, 3 to 5 on agent
      1, 6 to 8 on agent 2, and task 9 asks for agent 3: the run throws there
      and task 9 is left without an agent. */
  lemma TenOverThree()
    ensures FirstMissing(10, 3, 0) == 9
    ensures AgentIndex(10, 3, 0) == 0 && AgentIndex(10, 3, 2) == 0
    ensures AgentIndex(10, 3, 3) == 1 && AgentIndex(10, 3, 8) == 2 && AgentIndex(10, 3, 9) == 3
  {
    FirstMissingIs(10, 3);
    DivModUnique(10, 3, 3, 1);
  }

  /** The outcome depends on the agents and the tasks, not on the
      assignments found, so a second run repeats the first one exactly, even
      one that threw. */
  lemma RedistributeIdempotent(st: Store)
    ensures RedistributeTasks(RedistributeTasks(st).store) == RedistributeTasks(st)
  {
    var st' := RedistributeTasks(st).store;
    if |AllTasks(st)| > 0 && |FindIds(st.agents, st.agentOrder, true)| > 0 {
      assert st'.agents == st.agents && st'.agentOrder == st.agentOrder && st'.taskOrder == st.taskOrder by {
        assert Profile(st') == Profile(st);
      }
      ClearAllForgets(st', st);
    }
  }
}

/**
 * `calculateDistribution`: split the batch evenly over the active agents,
 * the first `n % k` of them getting one task more, then order the agents by
 * the load they would carry afterwards (a stable sort, as
 * `Array.prototype.sort` is).
 */
module Planner {
  import opened Options
  import opened Store
  import opened Shares

  datatype Workload = Workload(agent: AgentDoc, currentTasks: nat, newTasks: nat)

  /** The load an agent would carry once its new tasks are saved. */
  function Total(w: Workload): nat {
    w.currentTasks + w.newTasks
  }

  /** The integer part of the `metrics` object; `activeAgents` and
      `totalAgents` are absent when there is no active agent. */
  datatype Metrics = Metrics(
    totalTasks: nat,
    activeAgents: Option<nat>,
    totalAgents: Option<nat>,
    baseTasksPerAgent: nat,
    remainingTasks: nat)

  datatype Plan = Plan(distribution: seq<Workload>, metrics: Metrics)

  /** `agents.filter((agent) => agent.isActive)` */
  function ActiveOnly(agents: seq<AgentDoc>): (active: seq<AgentDoc>)
    ensures |active| <= |agents|
    ensures forall i :: 0 <= i < |active| ==> active[i].agent.isActive && active[i] in agents
  {
    if |agents| == 0 then []
    else
      var init, d := agents[..|agents| - 1], agents[|agents| - 1];
      assert forall x :: x in init ==> x in agents;
      ActiveOnly(init) + if d.agent.isActive then [d] else []
  }

  /** A list of agents that are all active passes the filter unchanged. */
  lemma {:induction false} ActiveOnlyKeepsActive(agents: seq<AgentDoc>)
    requires forall i :: 0 <= i < |agents| ==> agents[i].agent.isActive
    ensures ActiveOnly(agents) == agents
  {
    if |agents| > 0 {
      ActiveOnlyKeepsActive(agents[..|agents| - 1]);
      assert agents == agents[..|agents| - 1] + [agents[|agents| - 1]];
    }
  }

  /** The unsorted workloads: agent `i` gets its share of `n` tasks. */
  function Workloads(active: seq<AgentDoc>, n: nat): (ws: seq<Workload>)
    requires |active| > 0
    ensures |ws| == |active|
    ensures forall i :: 0 <= i < |ws| ==> ws[i].agent == active[i]
  {
    seq(|active|, i requires 0 <= i < |active| =>
      Workload(active[i], |active[i].assignedTasks|, Share(n, |active|, i)))
  }

  /** `w` placed before the first entry with a strictly larger total. */
  function Insert(s: seq<Workload>, w: Workload): (r: seq<Workload>)
    ensures |r| == |s| + 1
  {
    if |s| == 0 then [w]
    else if Total(w) < Total(s[0]) then [w] + s
    else [s[0]] + Insert(s[1..], w)
  }

  /** Insertion sort by total, each entry inserted after the ones before it
      with the same total. */
  function SortByTotal(s: seq<Workload>): (r: seq<Workload>)
    ensures |r| == |s|
  {
    if |s| == 0 then [] else Insert(SortByTotal(s[..|s| - 1]), s[|s| - 1])
  }

  function CalculateDistribution(n: nat, agents: seq<AgentDoc>): (p: Plan)
    ensures |p.distribution| == |ActiveOnly(agents)|
  {
    var active := ActiveOnly(agents);
    var k := |active|;
    if k == 0 then Plan([], Metrics(n, None, None, 0, n))
    else Plan(SortByTotal(Workloads(active, n)), Metrics(n, Some(k), Some(|agents|), n / k, n % k))
  }

  predicate Sorted(s: seq<Workload>) {
    forall i, j :: 0 <= i < j < |s| ==> Total(s[i]) <= Total(s[j])
  }

  lemma {:induction false} InsertMultiset(s: seq<Workload>, w: Workload)
    ensures multiset(Insert(s, w)) == multiset(s) + multiset{w}
  {
    if |s| > 0 && Total(w) >= Total(s[0]) {
      InsertMultiset(s[1..], w);
      assert s == [s[0]] + s[1..];
    }
  }

  /** Every entry of `Insert(s, w)` is `w` or an entry of `s`. */
  lemma InsertMembers(s: seq<Workload>, w: Workload, x: Workload)
    requires x in Insert(s, w)
    ensures x == w || x in s
  {
    InsertMultiset(s, w);
    assert x in multiset(Insert(s, w));
  }

  lemma {:induction false} InsertSorted(s: seq<Workload>, w: Workload)
    requires Sorted(s)
    ensures Sorted(Insert(s, w))
  {
    if |s| > 0 && Total(w) >= Total(s[0]) {
      InsertSorted(s[1..], w);
      var r := Insert(s[1..], w);
      forall i | 0 <= i < |r|
        ensures Total(s[0]) <= Total(r[i])
      {
        InsertMembers(s[1..], w, r[i]);
      }
      var t := [s[0]] + r;
      forall i, j | 0 <= i < j < |t|
        ensures Total(t[i]) <= Total(t[j])
      {
        if i > 0 {
          assert t[i] == r[i - 1] && t[j] == r[j - 1];
        }
      }
    }
  }

  /** The result is ordered by total and holds the same workloads, each as
      often as before. */
  lemma {:induction false} SortByTotalSorted(s: seq<Workload>)
    ensures Sorted(SortByTotal(s))
    ensures multiset(SortByTotal(s)) == multiset(s)
  {
    if |s| > 0 {
      var init, last := s[..|s| - 1], s[|s| - 1];
      SortByTotalSorted(init);
      InsertSorted(SortByTotal(init), last);
      InsertMultiset(SortByTotal(init), last);
      assert s == init + [last];
    }
  }

  /** The entries of `s` whose total is `key`, in order. */
  function WithTotal(s: seq<Workload>, key: nat): seq<Workload> {
    if |s| == 0 then []
    else (if Total(s[0]) == key then [s[0]] else []) + WithTotal(s[1..], key)
  }

  lemma {:induction false} WithTotalAppend(a: seq<Workload>, b: seq<Workload>, key: nat)
    ensures WithTotal(a + b, key) == WithTotal(a, key) + WithTotal(b, key)
  {
    if |a| > 0 {
      assert (a + b)[1..] == a[1..] + b;
      WithTotalAppend(a[1..], b, key);
    } else {
      assert a + b == b;
    }
  }

  lemma {:induction false} WithTotalAbove(s: seq<Workload>, key: nat)
    requires forall i :: 0 <= i < |s| ==> Total(s[i]) > key
    ensures WithTotal(s, key) == []
  {
    if |s| > 0 {
      WithTotalAbove(s[1..], key);
    }
  }

  /** Inserting `w` into a sorted list puts it after every entry with the
      same total. */
  lemma {:induction false} InsertStable(s: seq<Workload>, w: Workload, key: nat)
    requires Sorted(s)
    ensures WithTotal(Insert(s, w), key) == WithTotal(s, key) + WithTotal([w], key)
  {
    if |s| == 0 {
    } else if Total(w) < Total(s[0]) {
      assert Insert(s, w) == [w] + s;
      WithTotalAppend([w], s, key);
      if Total(w) == key {
        WithTotalAbove(s, key);
      }
    } else {
      InsertStable(s[1..], w, key);
      assert Insert(s, w) == [s[0]] + Insert(s[1..], w);
      WithTotalAppend([s[0]], Insert(s[1..], w), key);
      WithTotalAppend([s[0]], s[1..], key);
      assert [s[0]] + s[1..] == s;
    }
  }

  /** Stability: workloads with equal totals keep their relative order. */
  lemma {:induction false} SortByTotalStable(s: seq<Workload>, key: nat)
    ensures WithTotal(SortByTotal(s), key) == WithTotal(s, key)
  {
    if |s| > 0 {
      var init, last := s[..|s| - 1], s[|s| - 1];
      SortByTotalStable(init, key);
      SortByTotalSorted(init);
      InsertStable(SortByTotal(init), last, key);
      WithTotalAppend(init, [last], key);
      assert s == init + [last];
    }
  }

  /** The new tasks of a list of workloads, added up. */
  function SumNew(s: seq<Workload>): nat {
    if |s| == 0 then 0 else SumNew(s[..|s| - 1]) + s[|s| - 1].newTasks
  }

  lemma {:induction false} SumNewAppend(a: seq<Workload>, b: seq<Workload>)
    ensures SumNew(a + b) == SumNew(a) + SumNew(b)
  {
    if |b| > 0 {
      SumNewAppend(a, b[..|b| - 1]);
      assert (a + b)[..|a + b| - 1] == a + b[..|b| - 1];
    } else {
      assert a + b == a;
    }
  }

  lemma {:induction false} InsertSum(s: seq<Workload>, w: Workload)
    ensures SumNew(Insert(s, w)) == SumNew(s) + w.newTasks
  {
    if |s| == 0 {
      assert SumNew([w]) == SumNew([]) + w.newTasks;
    } else if Total(w) < Total(s[0]) {
      SumNewAppend([w], s);
      assert SumNew([w]) == SumNew([]) + w.newTasks;
    } else {
      InsertSum(s[1..], w);
      SumNewAppend([s[0]], Insert(s[1..], w));
      SumNewAppend([s[0]], s[1..]);
      assert [s[0]] + s[1..] == s;
    }
  }

  lemma {:induction false} SortSum(s: seq<Workload>)
    ensures SumNew(SortByTotal(s)) == SumNew(s)
  {
    if |s| > 0 {
      SortSum(s[..|s| - 1]);
      InsertSum(SortByTotal(s[..|s| - 1]), s[|s| - 1]);
    }
  }

  lemma {:induction false} WorkloadsSum(active: seq<AgentDoc>, n: nat, m: nat)
    requires 0 < |active| && m <= |active|
    ensures SumNew(Workloads(active, n)[..m]) == SumShares(n, |active|, m)
  {
    if m > 0 {
      WorkloadsSum(active, n, m - 1);
      assert Workloads(active, n)[..m][..m - 1] == Workloads(active, n)[..m - 1];
    }
  }

  /** The plan hands out exactly the `n` tasks of the batch when there is an
      active agent, and nothing otherwise. */
  lemma PlanAddsUp(n: nat, agents: seq<AgentDoc>)
    ensures SumNew(CalculateDistribution(n, agents).distribution) == if |ActiveOnly(agents)| > 0 then n else 0
  {
    var active := ActiveOnly(agents);
    if |active| > 0 {
      var ws := Workloads(active, n);
      SortSum(ws);
      WorkloadsSum(active, n, |active|);
      assert ws[..|active|] == ws;
      SharesAddUp(n, |active|);
    }
  }

  /** The plan's entries are the active agents' workloads, reordered: agent
      `i` of the active list appears once, with its current load and share
      `n / k`, plus one when `i < n % k`; and the order is by total, equal
      totals in the order of the active list. */
  lemma PlanSpec(n: nat, agents: seq<AgentDoc>, key: nat)
    requires |ActiveOnly(agents)| > 0
    ensures var active := ActiveOnly(agents);
      multiset(CalculateDistribution(n, agents).distribution) == multiset(Workloads(active, n))
    ensures Sorted(CalculateDistribution(n, agents).distribution)
    ensures WithTotal(CalculateDistribution(n, agents).distribution, key) == WithTotal(Workloads(ActiveOnly(agents), n), key)
    ensures CalculateDistribution(n, agents).metrics
      == Metrics(n, Some(|ActiveOnly(agents)|), Some(|agents|), n / |ActiveOnly(agents)|, n % |ActiveOnly(agents)|)
  {
    SortByTotalSorted(Workloads(ActiveOnly(agents), n));
    SortByTotalStable(Workloads(ActiveOnly(agents), n), key);
  }

  /** With no active agent nothing is planned and every task is left over. */
  lemma PlanWithoutAgents(n: nat, agents: seq<AgentDoc>)
    requires forall i :: 0 <= i < |agents| ==> !agents[i].agent.isActive
    ensures CalculateDistribution(n, agents) == Plan([], Metrics(n, None, None, 0, n))
  {
  }
}

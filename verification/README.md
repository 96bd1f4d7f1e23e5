# Task distribution backend: validation and allocation

This project models the core of an Express/Mongoose backend. An
administrator uploads a spreadsheet of contact rows (FirstName, Phone, Notes),
and the backend checks the file, the agents and every row. It then saves one
task per row and hands the tasks out to the active agents. The same core also
moves tasks between agents when an agent is created or deleted, and it
updates or deletes single tasks.

The database is modelled as one user's workspace (`Store.Store`):

- the Agent and Task collections, as maps from id to document;
- the order in which a query returns the documents;
- a counter for fresh ids in each collection.

The two sides of an assignment are held apart:

- `assignedTasks[a]` is agent `a`'s list;
- `assignedAgent[t]` is task `t`'s agent, when that field is set.

The invariant the whole model is about is `Store.Consistent`: a task names
agent `a` exactly when it is on `a`'s list. `Store.WellFormed` holds what the
database itself guarantees: every document is returned once, every agent has a
list, and ids are fresh.

Each database write is a pure function on the store:

- `Task.findByIdAndUpdate` followed by `$push` is `Writes.Assign`;
- `$pull` is `Writes.Without`;
- `updateMany` is `Writes.ClearAll` or `AgentGate.ActivateAll`;
- `findByIdAndDelete` is `Writes.RemoveAgent`.

A handler's sequence of awaited writes is the composition of these functions.

Modules, in pipeline order:

- `Text`: the JavaScript string built-ins the checks use. These are `trim`,
  `replace(/\s+/g, "")`, `split(".").pop()` and ASCII `toLowerCase`.
  Lengths are counted in UTF-16 code units.
- `Limits`: the constants of `FILE_VALIDATION`, `DATA_VALIDATION` and
  `AGENT_VALIDATION`.
- `FileCheck`: `validateFile`.
- `RowCheck`: `validateTaskData`.
- `BatchCheck`: `validateTasksData`. One set of seen phones is shared by the
  whole batch.
- `AgentGate`: `validateAgents`. It also covers the agent lookup of
  `uploadTasks`, which reactivates every agent when none is active.
- `Planner`: `calculateDistribution`. This is an equal split followed by a
  stable sort by the total load.
- `TaskWriter`: `saveTasks`.
- `Upload`: `uploadTasks` end to end.
- `Shares` and `Writes`: the arithmetic of an equal split, round robin, and
  the store writes.
- `Redistribution`: `redistributeTasksHelper`.
- `AgentOps`: `createAgent` and `deleteAgent`.
- `TaskOps`: `updateTaskStatus` and `deleteTask`.

Where the code and its design description disagree, the model follows the
code:

- **Order of the upload checks.** `uploadTasks` checks the file, then looks
  up the agents, reactivates them and gates them. Only after that does it
  parse and check the rows. So a reactivation persists even when the rows
  are later rejected (`Upload.UploadTasks`).
- **The agent gate is all or nothing.** An agent at capacity fails the
  whole upload. It is not left out of the distribution.
- **The writer ignores the planned counts.** `saveTasks` hands row `i` to the
  agent at position `i mod k` of the sorted plan, so the `newTasks` counts
  are not what agents receive (`Upload.RoundRobinIgnoresPlan`).
- **`redistributeTasksHelper` can throw partway.** Task `i` goes to agent
  `floor(i / (n div k + (i < n mod k ? 1 : 0)))`. When `n > k` and `k` does
  not divide `n`, task `n - n mod k` asks for agent `k`, which does not
  exist. The loop then throws, after the earlier tasks were written. The
  model keeps this behaviour as `Redistribution.Aborted`, with the store as
  the writes left it.
  - Example: with 10 tasks and 3 agents, task 9 asks for agent 3
    (`Redistribution.TenOverThree`).
  - `createAgent` answers 500 in that case, and the new agent stays saved.
- **`deleteAgent` can delete the last active agent.** An agent without tasks
  is deleted even when it is the last active one. The "last active agent"
  refusal only applies when the agent has tasks to hand over.

## Model

| member | source | states |
|---|---|---|
| Store.FindIdsComplete | backend/controllers/agentController.js:195 | An `Agent.find` returns every stored agent that passes the filter, and none twice |
| Store.TasksOfComplete | backend/controllers/agentController.js:114-117 | `Task.find({assignedAgent: a})` returns every stored task naming `a`, and none twice |
| Text.TrimSpec | backend/utils/validation.js:138 | `trim` removes whitespace only, and only at the two ends; what is left neither starts nor ends with whitespace |
| Text.StripSpacesOfTrim | backend/utils/validation.js:158 | Trimming before deleting every whitespace character changes nothing |
| Text.StripSpacesIdempotent | backend/utils/validation.js:158 | Deleting whitespace twice is deleting it once |
| Text.Utf16LengthOfBmp | backend/utils/validation.js:139-144 | Below U+10000, JavaScript's `length` is the number of characters |
| Text.AfterLastDotIs | backend/utils/validation.js:62 | The text after the last dot is `e` exactly when the name is `e` or ends in "." + `e` |
| Text.LowerAfterLastDot | backend/utils/validation.js:62 | Lower-casing before or after taking the extension gives the same text |
| FileCheck.ValidateFile | backend/utils/validation.js:42-81 | No file gives only "No file uploaded". Otherwise each of the four errors is present exactly when its rule is broken, and the file is valid exactly when there is no error |
| FileCheck.ExtensionAcceptedIff | backend/utils/validation.js:62-65 | The extension check accepts exactly the names that, lower-cased, end in .csv, .xlsx or .xls, or are exactly csv, xlsx or xls |
| RowCheck.NormalizePhoneSpec | backend/utils/validation.js:158 | The normalised phone is the cell with every whitespace character removed, and it has no whitespace left |
| RowCheck.NameFormatErrorsSpec | backend/utils/validation.js:138-151 | The name checks raise no required, phone or notes error, and none at all exactly when the trimmed name has 2 to 50 code units from `[a-zA-Z\s-']` |
| RowCheck.NameFormatErrorsEach | backend/utils/validation.js:138-151 | Each name check raises its own error exactly when its rule is broken: too short below 2 code units, too long above 50, invalid characters when the pattern fails; nothing else is raised |
| RowCheck.NameErrorsSpec | backend/utils/validation.js:134-152 | The FirstName checks raise only FirstName errors; they are empty exactly when the name rule holds; "required" is raised exactly when the cell is missing or empty, and each length or pattern error exactly when the cell is there and its rule fails on the trimmed name |
| RowCheck.PhoneFormatErrorsSpec | backend/utils/validation.js:158-171 | The phone checks raise no required, duplicate, name or notes error, and none at all exactly when the phone has 10 to 15 code units matching `^\+?[\d\s-()]+$` |
| RowCheck.PhoneFormatErrorsEach | backend/utils/validation.js:158-171 | Each phone check raises its own error exactly when its rule is broken: too short below 10 code units, too long above 15, invalid characters when the pattern fails; nothing else is raised |
| RowCheck.PhoneErrorsSpec | backend/utils/validation.js:154-177 | The Phone checks raise only Phone errors; they are empty exactly when the phone rule holds and the phone was not seen; "required", each length or pattern error and the duplicate error are each raised exactly when their own rule fails |
| RowCheck.NotesErrorsSpec | backend/utils/validation.js:179-184 | The Notes check raises only its own error, exactly when the untrimmed notes exceed 500 code units |
| RowCheck.SeenAfterSpec | backend/utils/validation.js:172-176 | After a row with a phone, the seen-set holds that phone, whether or not it was a duplicate |
| RowCheck.ValidateRow | backend/utils/validation.js:130-196 | `validateTaskData` on one row and the seen-set: the name, phone and notes checks in that order. What its verdict means is stated by `ValidateRowSpec` and `RowErrorsFlagEachRule` |
| RowCheck.ValidateRowSpec | backend/utils/validation.js:130-196 | A row is valid exactly when it has no errors, which is exactly when all four rules hold. The seen-set grows by the phone, and the sanitized record is the trimmed name and notes and the phone without whitespace |
| RowCheck.RowErrorsFlagEachRule | backend/utils/validation.js:130-185 | The checks do not stop at the first failure: each of the ten row errors is on the row exactly when its own rule is broken |
| RowCheck.ErrorKinds | backend/utils/validation.js:134-184 | The name checks raise only name errors, the phone checks only phone errors, and the notes check only the notes error |
| RowCheck.DigitInNameFlagged | backend/utils/validation.js:149-151 | A name containing a digit is flagged as having invalid characters |
| RowCheck.FiveDigitPhoneFlagged | backend/utils/validation.js:159-163 | A five-digit phone is flagged as too short |
| RowCheck.SeveralErrorsOnOneRow | backend/utils/validation.js:130-185 | A row with a digit in the name, a five-digit phone and 501 characters of notes carries all three errors, and its list ends with them in check order: name, phone, notes |
| BatchCheck.RowStep | backend/controllers/taskController.js:125-126 | Checking row `i` against the phones of the rows before it gives row `i`'s verdict and the phones up to row `i` |
| BatchCheck.CheckRow | backend/controllers/taskController.js:126 | The call inside the loop returns row `i`'s verdict within the batch and the seen-set as row `i + 1` finds it |
| BatchCheck.ScanRows | backend/controllers/taskController.js:124-137 | The loop's valid list is the sanitized accepted rows, and its failed list is the rejected rows, both in file order |
| BatchCheck.ValidateBatch | backend/controllers/taskController.js:111-147 | No rows gives only "No tasks found". Otherwise the lists are those of the loop, there is an error exactly when a record failed, and the batch is valid exactly when no record failed |
| BatchCheck.EveryRowAccountedFor | backend/controllers/taskController.js:125-135 | Every row lands in exactly one of the two lists |
| BatchCheck.FailedRecordsDescribeTheirRows | backend/controllers/taskController.js:129-134 | A failed record carries a row number from 2 to `n + 1`, and the data and errors of that row |
| BatchCheck.FailedRecordsInFileOrder | backend/controllers/taskController.js:125-135 | Failed row numbers strictly increase |
| BatchCheck.FailedRowNumbers | backend/controllers/taskController.js:131 | The reported row numbers are exactly the failed rows' indexes plus 2 |
| BatchCheck.NoFailuresIffAllRowsValid | backend/controllers/taskController.js:141-142 | There is no failed record exactly when every row is valid |
| BatchCheck.AllValidKeepsEveryRow | backend/controllers/taskController.js:127-128 | When every row passes, the valid list is every row, sanitized, in file order |
| BatchCheck.BatchValidIffEveryRowValid | backend/controllers/taskController.js:139-146 | All or nothing: the batch is valid exactly when there are rows and every one of them is valid |
| BatchCheck.DuplicateIffEarlierOccurrence | backend/controllers/taskController.js:116-126 | A row gets the duplicate error exactly when an earlier row has the same phone once whitespace is removed |
| AgentGate.ValidateAgents | backend/utils/validation.js:198-228 | The verdict is valid exactly when there are no errors, and "at least 1 agent" is raised exactly when the list is empty |
| AgentGate.CapacityErrorNames | backend/utils/validation.js:215-217 | A capacity error names exactly the agents carrying 200 tasks or more |
| AgentGate.NoCapacityErrors | backend/utils/validation.js:215-217 | There is no capacity error exactly when every agent carries fewer than 200 tasks |
| AgentGate.InactiveWarningNames | backend/utils/validation.js:210-213 | An inactive warning names exactly the inactive agents |
| AgentGate.NearCapacityWarningNames | backend/utils/validation.js:218-219 | A near-capacity warning names exactly the agents carrying 160 to 199 tasks |
| AgentGate.GateAcceptsIff | backend/utils/validation.js:198-228 | The gate passes exactly when there is an agent and none is at capacity |
| AgentGate.GateNamesIff | backend/utils/validation.js:209-221 | For the gate as a whole, each error and each warning names exactly the agents its rule describes |
| AgentGate.ActivateAll | backend/controllers/taskController.js:41 | `updateMany({isActive: true})` switches every agent on and changes nothing else |
| AgentGate.FindIdsAllActive | backend/controllers/taskController.js:36-46 | After the reactivation, the active agents are all the agents |
| AgentGate.NoneFoundIffAllInactive | backend/controllers/taskController.js:32-36 | The active lookup finds nobody exactly when every agent is inactive |
| AgentGate.PickAgentsSpec | backend/controllers/taskController.js:31-47 | The lookup only switches agents on: each agent is either unchanged or switched on, and the store is unchanged when some agent was on. It returns what a fresh active query would return, and leaves tasks and assignments untouched |
| AgentGate.PickAgentsReactivates | backend/controllers/taskController.js:35-46 | When no agent is active: if there is any agent, every agent is switched on; the lookup returns all the agents in creation order |
| AgentGate.PickAgents | backend/controllers/taskController.js:31-47 | The agent lookup of `uploadTasks`, with its reactivation step; its contract is stated by `PickAgentsSpec` and `PickAgentsReactivates` |
| Planner.ActiveOnlyKeepsActive | backend/utils/validation.js:232 | A list of agents that are all active passes the filter unchanged |
| Planner.CalculateDistribution | backend/utils/validation.js:230-276 | The plan has one entry per active agent |
| Planner.Workloads | backend/utils/validation.js:247-257 | One workload per active agent, in the agents' order, each for its own agent; the shares are stated by `PlanSpec` |
| Planner.SortByTotalSorted | backend/utils/validation.js:259-262 | The sort orders by total load and is a permutation of its input |
| Planner.SortByTotalStable | backend/utils/validation.js:259-262 | The sort is stable: entries with equal totals keep their relative order |
| Planner.PlanAddsUp | backend/utils/validation.js:247-257 | The planned new tasks add up to the batch size when there is an active agent, and to 0 otherwise |
| Planner.PlanSpec | backend/utils/validation.js:247-275 | The plan is the active agents' workloads with shares `n div k`, plus one for the first `n mod k`. It is sorted by total, stable, and carries the metrics counts |
| Planner.PlanWithoutAgents | backend/utils/validation.js:231-245 | With no active agent the plan is empty and every task is left over |
| Shares.ShareBalanced | backend/utils/validation.js:248-256 | Shares differ by at most one, shrink along the recipients, and the first `n mod k` get the extra one |
| Shares.SharesAddUp | backend/utils/validation.js:248-256 | The shares of all recipients add up to `n` |
| Shares.CyclicHits | backend/controllers/agentController.js:136-138 | Round robin over distinct recipients gives recipient `j` exactly its equal share |
| Shares.CyclicOnly | backend/controllers/agentController.js:138 | Round robin hands out nothing but the recipients given |
| TaskWriter.SaveTasks | backend/controllers/taskController.js:150-181 | With rows and an empty distribution, saving fails. Otherwise the saved ids are the next fresh ids in row order, and no rows change nothing |
| TaskWriter.SaveTasksSpec | backend/controllers/taskController.js:150-181 | Whenever there is an agent to give the rows to, saving succeeds with one fresh id per row; row `i` becomes a new task owned by the agent at position `i mod k`; older tasks are kept; both invariants hold afterwards |
| TaskWriter.Saving | backend/controllers/taskController.js:155-177 | The store after saving rows round robin over a non-empty distribution; what it holds is stated by the `Saving*` lemmas and `SaveTasksSpec` |
| TaskWriter.CreateUpToTasks | backend/controllers/taskController.js:155-168 | Saving `n` rows adds exactly the next `n` ids, row `i` as a new task, and leaves older tasks as they were |
| TaskWriter.SavingRecords | backend/controllers/taskController.js:155-168 | After `saveTasks`, each row is a new pending task with the row's fields, and older tasks and agents are unchanged |
| TaskWriter.SavingOwners | backend/controllers/taskController.js:155-177 | Row `i`'s task names the agent at position `i mod k` of the distribution, and older tasks keep their agents |
| TaskWriter.SavingCounts | backend/controllers/taskController.js:170-177 | The agent at position `j` receives `n div k` tasks, plus one when `j < n mod k`, appended to its list; agents outside the distribution keep their lists |
| TaskWriter.SavingWellFormed | backend/controllers/taskController.js:150-181 | Saving keeps the store well formed |
| TaskWriter.SavingConsistent | backend/controllers/taskController.js:150-181 | Saving over stored agents keeps both sides of every assignment in agreement |
| Writes.Assign | backend/controllers/agentController.js:221-229 | Setting a task's agent and pushing the task onto that agent's list touches nothing else |
| Writes.AssignUpTo | backend/controllers/agentController.js:214-230 | A loop of assignments changes nothing but the assignments and keeps the set of agents with a list; its effect is stated by `AssignUpToTasks` and `AssignUpToLists` |
| Writes.AssignConsistent | backend/controllers/agentController.js:221-229 | Giving an unassigned task to an existing agent keeps the two sides in agreement |
| Writes.AssignUpToTasks | backend/controllers/agentController.js:215-230 | After a loop of assignments, task `ts[i]` names `owners[i]`, and every other task keeps its agent field |
| Writes.AssignUpToLists | backend/controllers/agentController.js:215-230 | After a loop of assignments, each agent's list has grown by exactly its tasks, in loop order |
| Writes.AssignUpToConsistent | backend/controllers/agentController.js:215-230 | A loop assigning distinct unassigned tasks to existing agents keeps the two sides in agreement |
| Writes.ReassignConsistent | backend/controllers/agentController.js:136-152 | Moving every task of one agent to other listed agents, and emptying its list, keeps the two sides in agreement |
| Writes.ClearAll | backend/controllers/agentController.js:208-212 | Every list is emptied and every agent field unset; nothing else changes |
| Writes.ClearThenAssignConsistent | backend/controllers/agentController.js:208-230 | Clearing and then assigning distinct stored tasks to stored agents leaves the two sides in agreement |
| Writes.Without | backend/controllers/taskController.js:287-289 | `$pull` keeps exactly the other entries |
| Writes.RemoveAgent | backend/controllers/agentController.js:156 | The agent and its list leave the store; tasks are untouched |
| TaskOps.UpdateTaskStatus | backend/controllers/taskController.js:205-246 | An invalid status is refused before the lookup, and a missing task is 404. Otherwise the task takes the named status, `completedAt` is stamped exactly when the task is completed, and other fields are kept |
| TaskOps.UpdateTaskStatusFrame | backend/controllers/taskController.js:218-225 | A status update changes task `t`'s record only, and keeps both invariants |
| TaskOps.UpdateTaskStatusIdempotent | backend/controllers/taskController.js:218-225 | Sending the same update twice leaves the store as sending it once |
| TaskOps.DeleteTask | backend/controllers/taskController.js:273-307 | The delete is 404 exactly when the task is not stored |
| TaskOps.DeleteTaskSpec | backend/controllers/taskController.js:285-293 | The task leaves the collection, the query order, its agent field and every list, and nothing else changes |
| TaskOps.DeleteTaskWellFormed | backend/controllers/taskController.js:285-293 | Deleting a task keeps the store well formed |
| TaskOps.DeleteTaskConsistent | backend/controllers/taskController.js:285-293 | Pulling the task from its agent's list and deleting it keeps the two sides in agreement |
| TaskOps.DeleteTaskKeepsInvariants | backend/controllers/taskController.js:273-307 | Deleting a task keeps the store well formed and the two sides in agreement |
| TaskOps.DeleteTaskTwice | backend/controllers/taskController.js:276-283 | A deleted task is not found again |
| Upload.PickedAgents | backend/controllers/taskController.js:31-47 | The agents the lookup returns are active and stored; the lookup keeps both invariants and leaves tasks alone |
| Upload.PlanCoversAgents | backend/utils/validation.js:232-257 | Over active agents, the plan has one workload per agent, each of one of those agents |
| Upload.DistributeSpec | backend/controllers/taskController.js:76-91 | Saving over the plan keeps both invariants, adds one task per row, and gives each new task one of the gated agents |
| Upload.AcceptRows | backend/controllers/taskController.js:64-100 | Rows are saved exactly when there is at least one and all are valid; otherwise nothing changes. A save stores each row as a new task of a gated agent and keeps both invariants |
| Upload.UploadTasks | backend/controllers/taskController.js:12-109 | Checks run in order: file, agent gate, parser, rows. Each failure answers with its own errors, and only an accepted upload stores tasks. Whatever happens, both invariants are kept |
| Upload.RoundRobinIgnoresPlan | backend/controllers/taskController.js:152-177 | With loads 5 and 0 and one row, the plan gives the row to the busy agent and the writer gives it to the idle one |
| Redistribution.RedistributeTasks | backend/controllers/agentController.js:192-239 | A run changes only assignments |
| Redistribution.AgentIndex | backend/controllers/agentController.js:215-218 | The position `Math.floor(i / share)` the loop computes; where it lands is stated by `EvenIndex`, `UnevenIndexBelow` and `UnevenIndexMissing` |
| Redistribution.EvenIndex | backend/controllers/agentController.js:215-219 | With an even split, task `i` goes to agent `i div s` for the common share `s` |
| Redistribution.UnevenIndexBelow | backend/controllers/agentController.js:215-219 | With an uneven split, every task before `n - n mod k` falls on an agent |
| Redistribution.UnevenIndexMissing | backend/controllers/agentController.js:215-219 | With an uneven split, task `n - n mod k` asks for agent `k`, past the last one |
| Redistribution.FirstMissingIs | backend/controllers/agentController.js:215-219 | The loop reaches every task exactly when the split is even, and stops at `n - n mod k` otherwise |
| Redistribution.RedistributeOutcome | backend/controllers/agentController.js:192-239 | Nothing happens without tasks or active agents. Otherwise the run throws exactly when the split is uneven, at task `n - n mod k` |
| Redistribution.RedistributeWellFormed | backend/controllers/agentController.js:208-230 | Every run, even one that throws, keeps the store well formed |
| Redistribution.RedistributeRebuilds | backend/controllers/agentController.js:208-230 | A non-empty run rebuilds the assignments so that both sides agree, whatever they were before |
| Redistribution.RedistributeConsistent | backend/controllers/agentController.js:192-239 | Every run keeps the two sides in agreement |
| Redistribution.RedistributeOwners | backend/controllers/agentController.js:214-230 | Each task the loop reaches names the active agent at its computed position; each task it does not reach has no agent |
| Redistribution.TenOverThree | backend/controllers/agentController.js:204-219 | Ten tasks over three agents: agents get tasks 0-2, 3-5 and 6-8, and task 9 asks for a fourth agent |
| Redistribution.RedistributeIdempotent | backend/controllers/agentController.js:192-239 | Running the redistribution again on its result gives the same outcome |
| AgentOps.CreateAgent | backend/controllers/agentController.js:5-59 | Missing fields are refused exactly when some field is empty, and each of the five flags is set exactly when its field is empty. A taken email is refused exactly when all fields are there. A created agent gets the next fresh id |
| AgentOps.AddAgentActive | backend/controllers/agentController.js:33-42 | The saved agent is active and joins the end of the active list |
| AgentOps.AddAgentWellFormed | backend/controllers/agentController.js:33-42 | Saving an agent keeps the store well formed |
| AgentOps.AddAgentConsistent | backend/controllers/agentController.js:33-42 | Saving an agent with an empty list keeps the two sides in agreement |
| AgentOps.CreateAgentAdds | backend/controllers/agentController.js:33-45 | A created agent is stored as sent with the next fresh id, and no task is added or removed |
| AgentOps.CreateAgentTwice | backend/controllers/agentController.js:23-27 | A second request with the same email is refused |
| AgentOps.CreateAgentFailsIff | backend/controllers/agentController.js:42-58 | Creation answers 500 exactly when there are tasks and they do not split evenly over the active agents plus the new one |
| AgentOps.CreateAgentKeepsInvariants | backend/controllers/agentController.js:5-59 | Creating an agent, even when it answers 500, keeps both invariants |
| AgentOps.DeleteAgent | backend/controllers/agentController.js:100-171 | The delete is 404 exactly when the agent is not stored, and refused exactly when it has tasks and no other active agent exists. Otherwise it reports how many tasks were reassigned |
| AgentOps.DeleteAgentRemoves | backend/controllers/agentController.js:155-156 | The agent leaves the collection, its list and the query order; tasks and id counters are unchanged |
| AgentOps.DeleteAgentTwice | backend/controllers/agentController.js:101-111 | A deleted agent is not found again |
| AgentOps.TasksToReassignSpec | backend/controllers/agentController.js:114-117 | The tasks to reassign are exactly those naming the agent, each once |
| AgentOps.OthersActiveDistinct | backend/controllers/agentController.js:121-125 | The other active agents are found once each |
| AgentOps.Reassigned | backend/controllers/agentController.js:135-152 | The reassignment loop and the emptying of the deleted agent's list; its effect is stated by `ReassignedSpec` and `ReassignedLists` |
| AgentOps.ReassignedSpec | backend/controllers/agentController.js:136-148 | The reassignment loop gives task `i` to the other active agent at position `i mod k`, and changes only assignments |
| AgentOps.ReassignedLists | backend/controllers/agentController.js:136-152 | After the loop, the deleted agent's list is empty and every other list has grown by exactly its new tasks |
| AgentOps.DeleteAgentMoves | backend/controllers/agentController.js:135-148 | Every task that named the deleted agent now names the other active agent at position `i mod k` |
| AgentOps.DeleteAgentKeepsOthers | backend/controllers/agentController.js:135-156 | No task gains or loses its agent field, other tasks keep their agent, and no task names the deleted agent |
| AgentOps.DeleteAgentShare | backend/controllers/agentController.js:135-148 | One other active agent's list grows by exactly its equal share of the reassigned tasks |
| AgentOps.DeleteAgentCounts | backend/controllers/agentController.js:135-148 | The other active agent at position `j` receives `T div k` of the `T` tasks, plus one when `j < T mod k` |
| AgentOps.DeleteAgentKeepsLists | backend/controllers/agentController.js:135-156 | Every agent that is neither deleted nor receiving tasks keeps its list |
| AgentOps.DeleteAgentWellFormed | backend/controllers/agentController.js:100-171 | Deleting an agent keeps the store well formed |
| AgentOps.DeleteAgentConsistent | backend/controllers/agentController.js:100-171 | Deleting an agent keeps the two sides of every assignment in agreement |

## Left out

- `parseExcelFile` (backend/utils/validation.js:83-128) is left out: it reads
  workbooks through a third-party library. `Upload.UploadTasks` takes what
  the parser returns as a parameter, with `None` when it throws.
- HTTP, logging, authentication and JWT are left out. The response bodies are
  modelled as datatypes that carry their errors, warnings and counts, not as
  JSON.
- The user filter (`user: req.user.userId`) is not modelled. A store is one
  user's data, so every query and write is scoped to it.
- Unlike the rest of `createAgent`, the unique index on `email`
  (backend/models/Agent.js:12) works across users. That cross-user case is
  not modelled.
- Database failures other than the redistribution crash are left out: write
  errors, ObjectId cast errors and validation errors at `save`.
- Concurrency is left out. Each handler runs alone, and its awaited writes
  are applied in order.
- Password hashing with bcrypt is left out. `AgentOps.NewAgent` stores no
  password.
- Clocks are left out. `createdAt` is not modelled, and `completedAt` is
  stamped with a `now` parameter.
- The floating-point metrics `averageTasksPerAgent` and `workloadVariance`
  are left out. `Planner.Metrics` keeps only the integer counts.
- `getAllTasks`, `getTasksByAgent`, `getAgents`, `getAgentById` and
  `updateAgent` are left out: they only read or patch single documents and
  take no part in allocation. The `redistributeTasks` endpoint is the helper
  with a 200 or 500 answer, which is `Redistribution.RedistributeTasks`'s
  `Done` or `Aborted`.
- `FILE_VALIDATION.MIN_TASKS`, `MAX_TASKS` and
  `AGENT_VALIDATION.MIN_TASKS_PER_BATCH` are left out: no code reads them.
- Lower-casing is ASCII only. No other code point lower-cases to a letter of
  `csv`, `xlsx` or `xls` or to a dot, so the extension check is exact.
- Mongoose's `undefined` stripping: `completedAt: undefined` leaves the old
  timestamp in place, which is how Mongoose 6 and later treat it.
- `Planner.CalculateDistribution`: its ensures only fixes the plan's length.
  Its contents, order and metrics are stated in `Planner.PlanSpec`, because
  they are too costly to carry on the function itself.
- `Redistribution.RedistributeTasks`: its ensures only says that assignments
  alone change. What the run does is stated in
  `Redistribution.RedistributeOutcome` and `Redistribution.RedistributeOwners`.
- `TaskOps.DeleteTask`: its ensures only gives the 404 case. The effect of a
  deletion is stated in `TaskOps.DeleteTaskSpec`.
- `Writes.ClearAll`: the write also unsets the agent field of every task. The
  ensures states this as an empty `assignedAgent` map.

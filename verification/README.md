# pypibt in Dafny

A Dafny model of the algorithmic core of pypibt, a grid path-planning
library. It has four layers:

- **Grid helpers** (`grid.dfy`, module `Grid`). These build the walkable
  grid, expand rectangles into cell lists, test walkability and list the
  4-neighbours of a cell.
- **Lazy BFS distance table** (`dist_table.dfy`, module `DistTable`). This
  is a per-goal cache. It runs breadth-first search only until the queried
  cell is resolved.
- **EPIBT planner.** EPIBT is Enhanced Priority Inheritance with
  Backtracking; agents carry a heading and plan operations of several
  actions (F forward, R turn right, C turn left, W wait). The planner is
  split over five files:
  - `operations.dfy` (`Operations`): operation words, pruning, and the cell
    path an operation sweeps;
  - `reservation.dfy` (`Reservation`): the time-indexed reservation table
    and the vertex and swap conflicts a path has with it;
  - `candidates.dfy` (`Candidates`): weighted, deduplicated and sorted
    candidate operations;
  - `epibt.dfy` (`Epibt`): the solver state and the recursive selection
    with priority inheritance, a revisit budget and backtracking;
  - `planner.dfy` (`Planner`): one planning step, the execution of every
    agent's first action, and the run loop with its priority update.
- **Pickup-and-delivery simulation** (`simulation.dfy`, `Simulation`).
  Tasks arrive and idle agents are matched greedily to pending tasks by BFS
  distance. Agents pick up and deliver. Every tick updates priorities and
  runs one planner step.

`common.dfy` holds `Option` and a no-duplicates predicate.

pypibt is imperative Python over numpy arrays. The model is
functional:

- Arrays become sequences and maps. The distance table is a map in which
  an absent key reads as the unreached marker. The reservation table is a
  map in which an absent slot reads as NIL.
- Mutation becomes a new state returned by a function.
- Each task is stored once, by id, in a map. The pending, active and
  completed lists hold ids. Python shares one `Task` object between
  an agent and a list.

The directions `pibt.py` imports as `DIRECTION_VECTORS` are not part of
this model's sources. The model assumes orientation 0 = north (-1, 0),
1 = east (0, 1), 2 = south (1, 0) and 3 = west (0, -1); see
`Operations.Ahead`.

Two facts about the code shape the whole model:

- The class `PIBT` in `pibt.py` implements EPIBT. Each agent plans an
  operation of several actions, not a single next cell.
- The distance table's unreached marker is `2^31 - 1`, numpy's int32
  maximum.

## Model

| member | source | states |
|---|---|---|
| Grid.GetGrid | pypibt/mapf_utils.py:12-18 | The grid is height x width. A cell is blocked exactly when some obstacle, read with numpy's negative-index wrap, names it. When all obstacles are in range, a cell is valid exactly when it is in range and not listed. An obstacle index numpy rejects gives `None`, standing for the IndexError. |
| Grid.WrapCoordInRange | pypibt/mapf_utils.py:16-17 | A wrapped obstacle index always lands inside the grid, and an in-range index is left as it is. |
| Grid.ExpandAreas | pypibt/mapf_utils.py:21-38 | The output is the per-item expansions concatenated in input order. Its length is the sum of the per-item counts. It holds exactly the cells some item covers. |
| Grid.ExpandRect | pypibt/mapf_utils.py:33-35 | The nested loops yield the rectangle's cells row by row, each row left to right. |
| Grid.AreaCellsSpec | pypibt/mapf_utils.py:30-37 | A single cell passes through unchanged. A rectangle yields exactly the cells between its corners, both inclusive, in row-major order. An inverted rectangle yields nothing. |
| Grid.RectCellsSpec | pypibt/mapf_utils.py:33-35 | A rectangle's expansion has (rows x columns) cells, holds exactly the cells inside, and is strictly row-major sorted. |
| Grid.FlattenLength | pypibt/mapf_utils.py:29-38 | The length of the expansion is the sum of the per-item counts. |
| Grid.FlattenMembers | pypibt/mapf_utils.py:29-38 | A cell is in the expansion if and only if some item covers it. |
| Grid.GetNeighbors | pypibt/mapf_utils.py:48-70 | An invalid input gives the empty list. Every returned cell is valid and at Manhattan distance 1. Every such cell of a valid input is returned. There are at most four, strictly in the order left, right, up, down, so none is repeated. |
| Grid.NeighborsSymmetric | pypibt/mapf_utils.py:58-68 | v is a neighbour of u if and only if u is a neighbour of v. |
| DistTable.Init | pypibt/dist_table.py:24-27 | A new table holds the BFS invariant. Its queue is just the goal, the goal reads 0, and every other cell reads the unreached marker. |
| DistTable.Get | pypibt/dist_table.py:29-52 | An invalid target gives the marker and leaves the table unchanged. A resolved target is read straight from the table, with no expansion. A reachable target gives its shortest-walk length to the goal and is then resolved. An unreachable one gives the marker after the queue is exhausted. Resolved entries never change, and the BFS invariant is kept. |
| DistTable.Search | pypibt/dist_table.py:41-52 | The BFS loop pops cells until the target is popped or the queue runs out. It returns the shortest distance for a reachable target and the marker otherwise. Earlier entries are kept and the invariant holds. |
| DistTable.GetIdempotent | pypibt/dist_table.py:29-52 | Asking again for the same target gives the same answer and the same table. |
| DistTable.CacheIndependent | pypibt/dist_table.py:29-52 | Whatever has been cached, the answer equals that of a fresh table. So the lazy cache never changes a distance. |
| DistTable.Distance | pypibt/dist_table.py:29-52 | The marker for an invalid or unreachable cell, otherwise the true shortest-walk distance to the goal. |
| DistTable.PopPreservesInv | pypibt/dist_table.py:42-48 | One pop and relaxation keeps the BFS invariant. Every queued cell is resolved. Queue distances are non-decreasing from front to back and span at most 1. Every resolved value is the length of a walk. Cells off the queue have all their neighbours resolved. |
| DistTable.ResolvedIsDistance | pypibt/dist_table.py:46-48 | Under the invariant, every resolved value is the shortest-walk distance. |
| DistTable.ExhaustedIsUnreachable | pypibt/dist_table.py:41-52 | Once the queue is empty, an unresolved cell has no walk to the goal. |
| DistTable.Relax | pypibt/dist_table.py:45-48 | Only unresolved neighbours are written, with the popped distance plus one, and appended to the queue. Resolved entries are untouched. |
| DistTable.DistanceUnique | pypibt/dist_table.py:13-17 | A shortest-walk distance is unique. |
| Operations.GenerateOperations | pypibt/pibt.py:18-41 | Length 0 gives `None`, standing for the IndexError of `op[-1]` on an empty word. Otherwise the result is exactly the words of length n over F, R, C, W with no adjacent R-C or C-R pair and no final R or C. They come strictly in `product` order, so each appears once. |
| Operations.Keep | pypibt/pibt.py:26-40 | The filter keeps exactly the pruned words of its input, and a strictly sorted input stays strictly sorted. |
| Operations.WordsMember | pypibt/pibt.py:26 | `product` over the four actions yields every word of length n. |
| Operations.WordsSorted | pypibt/pibt.py:26 | `product` yields its words strictly in lexicographic order over F < R < C < W. |
| Operations.SortedDistinct | pypibt/pibt.py:26 | A strictly sorted word list has no repeats. |
| Operations.ComputeCellPath | pypibt/pibt.py:44-67 | The result is `None` if and only if some F steps onto an invalid cell. Otherwise the path has one cell more than the operation, starts at the given cell, and follows every prefix of the operation. The final heading is (heading + #R - #C) mod 4. |
| Operations.Trace | pypibt/pibt.py:55-67 | The loop from step i on fails exactly when a later F is blocked. On success it yields every prefix position and the final heading. |
| Operations.PathSteps | pypibt/pibt.py:55-66 | Each step of a path either stays put (R, C, W) or moves one cell along the current heading onto a valid cell (F). |
| Operations.HeadingStep | pypibt/pibt.py:62-65 | The heading after one more action is the previous heading turned by that action, mod 4. |
| Operations.Ahead | pypibt/pibt.py:57-58 | A forward step moves exactly one cell. |
| Operations.WaitPath | pypibt/pibt.py:268-270 | An all-wait operation sweeps the all-stay path and keeps the heading. |
| Reservation.ReservePath | pypibt/pibt.py:123-125 | Every slot of the path is held by the agent afterwards. Every other slot keeps its holder. |
| Reservation.UnreservePath | pypibt/pibt.py:127-130 | Exactly the slots of the path still held by the agent are freed. Nothing else changes. |
| Reservation.UnreserveUndoesReserve | pypibt/pibt.py:123-130 | Reserving a path on free slots and then unreserving it restores the table. |
| Reservation.GetConflicts | pypibt/pibt.py:132-147 | The result never holds the agent itself. It holds exactly the other agents that hold a slot of the path, or that swap cells with it in some step. |
| Reservation.ConflictsFrom | pypibt/pibt.py:135-146 | The loop from step i on collects exactly the conflicts at steps i and later. |
| Reservation.NoConflictsFreeSlots | pypibt/pibt.py:194-197 | With no conflict, reserving the path takes no slot from any other agent. |
| Reservation.ReservedPathConflicts | pypibt/pibt.py:132-147 | Once the path is reserved, only swap partners remain as conflicts. |
| Reservation.ConflictHolds | pypibt/pibt.py:204 | The single conflicting agent the selection pushes holds some slot. |
| Candidates.Beta | pypibt/pibt.py:162-163 | The tie-breaking term is at most twice the operation's length, so for operations shorter than five times the grid size it stays below alpha; `Candidates.DistanceDominates` draws the consequence. |
| Candidates.DistanceDominates | pypibt/pibt.py:153-164 | With alpha ten times the grid size and an operation shorter than five times the grid size, a path whose last cell is strictly nearer the goal is strictly lighter, whatever the tie-break costs. |
| Candidates.CandidatesNearerFirst | pypibt/pibt.py:153-177 | For such operations, the sorted candidates come in non-decreasing distance of their last cell to the goal. |
| Candidates.Raw | pypibt/pibt.py:155-165 | Operations whose path is `None` are dropped. Every entry's path is its operation's path, and its weight is the goal distance times alpha (ten times the grid size) plus beta. Every allowed operation appears. |
| Candidates.RawInOrder | pypibt/pibt.py:155-165 | The raw list follows the order of the operation list: every operation with a path that comes before an entry's operation has an earlier entry. |
| Candidates.Upsert | pypibt/pibt.py:170-171 | A new path is added. A known path is replaced only by a strictly lighter entry. Paths stay distinct. |
| Candidates.Dedup | pypibt/pibt.py:167-171 | The result has one entry per path, each drawn from the raw list. |
| Candidates.DedupCovers | pypibt/pibt.py:167-171 | Every raw entry's path is kept, with a weight no greater than that entry's. |
| Candidates.DedupFirst | pypibt/pibt.py:167-171 | Each kept entry is, among the raw entries with its path, the first of the lightest: every earlier raw entry with that path is strictly heavier, because the update needs a strictly smaller weight. |
| Candidates.InsertSorted | pypibt/pibt.py:177 | The result is the input plus the entry, as a multiset. A weight-sorted input stays sorted, and distinct paths stay distinct when the entry's path is new. |
| Candidates.SortEntries | pypibt/pibt.py:175-177 | The result is a permutation of the input, in non-decreasing weight order, and distinct paths stay distinct. |
| Candidates.KeptLightest | pypibt/pibt.py:167-173 | Each kept entry is the lightest raw entry for its path. |
| Candidates.KeptFirst | pypibt/pibt.py:167-177 | Sorting keeps, for each path, the first of the lightest raw entries. |
| Candidates.GetSortedCandidates | pypibt/pibt.py:149-179 | Every candidate is an allowed operation with its own path. The paths are distinct. Each candidate is the lightest allowed operation sweeping its path, and of the equally light ones the first in the operation list. Weights are non-decreasing. |
| Candidates.SortedCandidatesCover | pypibt/pibt.py:155-179 | Every allowed operation whose path exists is represented by a candidate with the same path and no greater weight. |
| Candidates.CandidateMeaning | pypibt/pibt.py:155-165 | A candidate is an allowed operation together with the path it sweeps. |
| Epibt.NewSolver | pypibt/pibt.py:79-113 | The solver keeps the grid, goals and headings. Its operations are exactly the pruned words of the given length. Every agent inherits all waits. |
| Epibt.FallbackPath | pypibt/pibt.py:234-242 | The fallback path is the inherited operation's path, or standing still for the whole window when that is blocked. |
| Epibt.Select | pypibt/pibt.py:181-244 | The visit count rises by one, and the agent ends not in progress. On success it holds one of its candidates. On failure it has its inherited operation, its fallback path and no slot. Another agent is disturbed only if it was not in progress, had priority below the initiator's, and stays within the revisit budget. Otherwise it keeps its operation and path and gains no slot. Every slot lies on its holder's path. When the first candidate is in nobody's way, the selection succeeds with exactly that candidate. |
| Epibt.TryCandidates | pypibt/pibt.py:191-244 | The scan from any candidate position keeps `Select`'s promises: the agent ends not in progress, with one of its candidates on success and its inherited operation, fallback path and no slot on failure. Only agents that were not in progress, had lower priority and stay within the revisit budget are disturbed. When the candidate at the starting position is in nobody's way, the scan succeeds with exactly that candidate. |
| Epibt.Push | pypibt/pibt.py:204-232 | Pushing one conflicting agent keeps the same promises as the scan: a candidate of the initiator on success, its inherited operation, fallback path and no slot on failure, and no other agent disturbed beyond the conditions of lines 206-211. |
| Epibt.Retry | pypibt/pibt.py:228-233 | After a failed push, the scan goes on from the restored round and keeps the scan's promises relative to the round before the push. |
| Epibt.PushFailsRetries | pypibt/pibt.py:224-233 | When the pushed agent's selection fails, the push's result is the scan from the next candidate, run on the round where the pushed agent is restored. |
| Epibt.PushFailsTakesNext | pypibt/pibt.py:191-233 | When the push fails and the next candidate is in nobody's way in the restored round, the initiator takes that next candidate. |
| Epibt.Judge | pypibt/pibt.py:192-211 | A candidate is taken outright exactly when it conflicts with nobody. It is passed over exactly when it conflicts with several agents, or with one agent that is in progress, out of visits or not of lower priority. Otherwise it conflicts with exactly one agent, and that agent may be pushed. |
| Epibt.PassedOver | pypibt/pibt.py:201-211 | Every candidate that conflicts with several agents, or with one agent that may not be pushed, gets the verdict "pass over". |
| Epibt.TakesFirstOpen | pypibt/pibt.py:191-199 | If every candidate before the `j`-th is passed over and the `j`-th conflicts with nobody, the agent takes the `j`-th and reserves its path. Its progress mark is cleared and nothing else changes. |
| Epibt.NothingOpenFallsBack | pypibt/pibt.py:191-211 | If every remaining candidate is passed over, the scan fails. The agent gets its inherited operation and fallback path, and reserves nothing. Its progress mark is cleared and nothing else changes. |
| Epibt.PushesFirstContested | pypibt/pibt.py:191-226 | If every candidate before the `j`-th is passed over and the `j`-th conflicts with one pushable agent `l`, the scan pushes `l` for that candidate. If `l` then chooses successfully, the agent ends holding the `j`-th candidate. |
| Epibt.PushSucceeds | pypibt/pibt.py:223-226 | When the pushed agent chooses successfully, the push succeeds and the initiator keeps the candidate it took. |
| Epibt.PushOff | pypibt/pibt.py:213-221 | The pushed agent loses every slot. The initiator takes the candidate. Nobody else gains a slot. |
| Epibt.Restore | pypibt/pibt.py:228-232 | After a failed push, the initiator holds no slot again and its visit count is as before. The pushed agent has its old operation and path back, and holds every slot of that path. Every other agent is left as `Select` promises. |
| Epibt.BudgetInc | pypibt/pibt.py:188 | Each entry to the selection uses up one unit of the revisit budget. This is the measure that bounds the recursion. |
| Epibt.Only | pypibt/pibt.py:204 | The element picked from a one-element set is its element. |
| Planner.AgentOrder | pypibt/pibt.py:275 | Every agent appears once. Agents come in descending priority, with equal priorities in ascending index, as a stable sort gives. |
| Planner.Insert | pypibt/pibt.py:275 | Inserting an agent keeps the order ranked and adds exactly that agent. |
| Planner.OrderOf | pypibt/pibt.py:275 | The first n agents, ranked, as a permutation. |
| Planner.InitRound | pypibt/pibt.py:254-271 | Each agent starts unvisited with its inherited operation and that operation's path. A blocked inherited operation becomes all waits, with the fallback as its path. Every slot of every path is reserved, and every slot lies on its holder's path. |
| Planner.ReserveAll | pypibt/pibt.py:261-271 | Each slot is held by the last agent whose path covers it. Every covered slot is held. |
| Planner.Choose | pypibt/pibt.py:278-286 | The agent's slots are freed and it chooses with its own priority. It ends with exactly the operation and path that `Epibt.Select` gives it from the freed round. So when its first candidate is in nobody's way in the freed round, it takes that candidate. Afterwards it has been visited exactly once and nobody is in progress. Visit counts only rise, and none exceeds the cap. Positions, candidates, fallbacks and priorities are unchanged. |
| Planner.ChooseAll | pypibt/pibt.py:277-286 | The loop as a fold: the agents take their turn in the given order, and an agent already visited is skipped. Every listed agent ends visited, nobody is in progress, and no visit count exceeds the cap. |
| Planner.SelectAll | pypibt/pibt.py:276-286 | The loop's result is `Planner.ChooseAll` over the given order: each agent in turn, skipping those visited already. Every agent has been visited at least once and at most the cap. Every plan agrees with its agent and every slot with its holder. |
| Planner.PlanStep | pypibt/pibt.py:250-286 | The plan is `Planner.Plan`: the fold from the inherited round over the agents in descending priority. Every agent has been visited at least once and at most the cap, and nobody is in progress. The path belongs to its plan, as `Planner.PlanMeaning` spells out. |
| Planner.Plan | pypibt/pibt.py:250-286 | The step's plan is `Planner.ChooseAll` from `Planner.InitRound` over `Planner.AgentOrder`. Every agent ends with an operation of the planner's length and a path of one more cell starting at its own cell. |
| Planner.PlanMeaning | pypibt/pibt.py:256-270 | A planned operation is an allowed operation with its own path, the inherited operation with the fallback path, or all waits in place. |
| Planner.Act | pypibt/pibt.py:297-305 | Only R and C turn the heading, by one step mod 4. Only F moves, and only onto a valid cell one step ahead. |
| Planner.Advance | pypibt/pibt.py:288-311 | Every agent carries out the first action of its operation. The next inherited operation is the rest followed by a wait. Nothing else in the solver changes. |
| Planner.Step | pypibt/pibt.py:250-312 | The plan is `Planner.Plan`, and the move is `Planner.Advance` of its operations. There are exactly N positions. Every agent moves at most one cell, and only onto a valid cell. When every inherited operation was executable, each agent moves to the second cell of its planned path and stays executable. |
| Planner.Execute | pypibt/pibt.py:288-312 | Each agent carries out the first action of its planned operation, as `Planner.Advance` says. Every agent moves at most one cell, and only onto a valid cell. When every inherited operation was executable, each agent moves to the second cell of its planned path. |
| Planner.StepFollowsPlan | pypibt/pibt.py:288-311 | When every inherited operation is executable, the executed first action lands on the planned path's second cell. Every new inherited operation is then executable. |
| Planner.InheritedContinues | pypibt/pibt.py:309 | The rest of an executable operation, followed by a wait, is executable from where its first action leads. |
| Planner.FreshExecutable | pypibt/pibt.py:105-107 | The initial all-wait operations are executable anywhere. |
| Planner.UpdateGoal | pypibt/pibt.py:246-248 | Only that agent's goal changes. |
| Planner.InitialPriorities | pypibt/pibt.py:315-317 | Each priority is distance / grid size. It is non-negative, and a nearer agent gets a strictly smaller priority. |
| Planner.UpdatePriorities | pypibt/pibt.py:324-330 | An agent off its goal gains one. An agent on its goal keeps only its fractional part. With non-negative priorities, every agent off its goal then outranks every agent on its goal. |
| Planner.RunStep | pypibt/pibt.py:320-330 | One turn of the loop. The new positions and solver are `Planner.Advance` of `Planner.Plan` for the current positions and priorities. Then the priorities are updated on the new positions and stay non-negative. |
| Planner.KeepRunning | pypibt/pibt.py:319-323 | A turn that moves every agent at most one cell, keeps the solver's grid, goals and parameters, and keeps the priorities non-negative extends a valid run by one configuration. |
| Planner.Run | pypibt/pibt.py:314-334 | The first configuration is the starts. There are at most max_timestep+1 configurations, each agent moving at most one cell between two. The loop stops early exactly when every agent is at its goal. |
| Simulation.NewSim | pypibt/simulation.py:44-93 | Goals are the starts. Every agent is idle with no task. Priorities are zero, lists are empty, and the counter and clock are zero. |
| Simulation.NewSimInv | pypibt/simulation.py:66-82 | The simulation invariant holds initially. |
| Simulation.ExactlyOne | pypibt/simulation.py:112-173 | Every generated task id is in exactly one of pending, active and completed, once. No other id is in any. |
| Simulation.TaskHolderUnique | pypibt/simulation.py:164-166 | No two agents hold the same task. |
| Simulation.AddTask | pypibt/simulation.py:105-112 | A new task gets the current counter as its id, the chosen stations and the current time, and is appended to pending. The counter rises by one. |
| Simulation.AddTaskInv | pypibt/simulation.py:105-112 | Adding a task keeps the invariant. |
| Simulation.GenerateTasks | pypibt/simulation.py:95-112 | New tasks get consecutive ids from the counter, in arrival order, and are appended to pending. The counter rises by their number. Old tasks are unchanged. |
| Simulation.GenerateTasksNew | pypibt/simulation.py:105-111 | The j-th arrival becomes task counter + j, with its stations and the current time. |
| Simulation.GenerateTasksInv | pypibt/simulation.py:95-112 | Generating tasks keeps the invariant. |
| Simulation.PickUp | pypibt/simulation.py:122-126 | The agent becomes MOVING_TO_DELIVERY. The task records the pick-up time. The agent's goal becomes the delivery cell. Nothing else changes. |
| Simulation.Deliver | pypibt/simulation.py:128-136 | The agent becomes IDLE with no task. The task records the delivery time and moves from active to completed. The agent's goal becomes its current cell. Nothing else changes. |
| Simulation.Remove | pypibt/simulation.py:131 | Removal drops exactly one occurrence of the id. |
| Simulation.Arrive | pypibt/simulation.py:116-136 | Only the checked agent changes, by at most one step of its cycle. It changes exactly when it stands on its target cell. The invariant holds. |
| Simulation.CheckArrivals | pypibt/simulation.py:114-136 | The invariant holds afterwards. Positions, priorities, pending list, counter and clock are unchanged. |
| Simulation.CheckArrivalsEach | pypibt/simulation.py:116-136 | Each agent ends as its own check decides. On its pickup cell it is picked up, on its delivery cell it is delivered, and otherwise it is unchanged. |
| Simulation.IdleAgents | pypibt/simulation.py:144 | Exactly the idle agents, in index order. |
| Simulation.PickupTable | pypibt/simulation.py:84-89 | Each entry is the BFS distance from a task's pickup cell to an agent's cell. |
| Simulation.FirstMin | pypibt/simulation.py:154-157 | The chosen entry is minimal, and every earlier entry is strictly larger, as Python's `min` picks. |
| Simulation.AssignOne | pypibt/simulation.py:164-173 | The task records its assignee and moves from pending to active. The agent becomes MOVING_TO_PICKUP with that task. Its goal becomes the pickup cell. The invariant holds. |
| Simulation.Visit | pypibt/simulation.py:147-169 | One turn of the greedy loop keeps the invariant. No agent takes a second task, and only the visited task can leave pending. |
| Simulation.VisitAssigns | pypibt/simulation.py:154-170 | A task that leaves pending goes to the first idle agent at the smallest distance, and that distance is not the marker. |
| Simulation.AssignTasks | pypibt/simulation.py:138-173 | The invariant holds. No task joins the pending list. An agent changes only from idle to MOVING_TO_PICKUP. Positions, priorities, completed list, counter and clock are unchanged. |
| Simulation.AssignTasksMoved | pypibt/simulation.py:164-170 | A task that left pending is active and assigned to an agent that was idle. That agent is MOVING_TO_PICKUP with the task, its goal being the pickup cell. |
| Simulation.AssignTasksUnreachable | pypibt/simulation.py:159-162 | A task no idle agent can reach stays pending. |
| Simulation.AssignTasksMaximal | pypibt/simulation.py:147-162 | After assignment, no idle agent can reach a task still pending. |
| Simulation.Tick | pypibt/simulation.py:175-196 | The result is `Simulation.Bookkeep` followed by the move: only positions, solver headings and inherited operations, and priorities differ from the bookkept state, and the goals are those after assignment. The priorities are updated from the positions before the step against those goals. The new positions and solver are `Planner.Advance` of `Planner.Plan` on those priorities. The clock rises by one and the counter by the number of arrivals. The invariant holds, and every agent moves at most one cell. |
| Simulation.Move | pypibt/simulation.py:186-196 | From the bookkept state: the priority update on the current positions and goals, then the planner step with `Planner.Plan`. The invariant holds, the goals stay, and nothing outside positions, solver and priorities changes. |
| Simulation.Bookkeep | pypibt/simulation.py:180-184 | Task generation, arrival checks and assignment keep the invariant and move no agent. |

## Left out

- Randomness becomes input. The initial headings, start cells and task arrivals (count and stations) are parameters. The candidate shuffle at pypibt/pibt.py:176 is left out, so ties keep the dictionary's insertion order; only the weight order is proved.
- Priorities are exact reals, not IEEE floats; `floor` is `.Floor`.
- Collision-freedom of `step` is not claimed, because `step` does not guarantee it. A failed selection's fallback path is reserved without a conflict check.
- Epibt.Push: its own contract does not say when the push succeeds, because that needs the pushed agent's selection, a call its termination measure cannot name in a contract. `Epibt.PushSucceeds` states it: when the pushed agent's selection succeeds, so does the push, with the candidate taken.
- Epibt.Select: on success the contract states that the agent holds one of its candidates, not that it still holds every slot of that path. A restore deeper in the recursion re-reserves a displaced agent's whole old path. That can overwrite slots the displaced agent did not hold before, including the initiator's.
- The per-agent candidate lists are computed once, at the start of a step. `_epibt_select` calls `_get_sorted_candidates` again at each visit, from the same cell, heading and goal. A revisit therefore gets the same candidates with the same weights. But the shuffle at pypibt/pibt.py:176 runs on every call, so candidates of equal weight may come in a new order. The model fixes one tie order per agent for the whole step.
- The solver reads distances through `DistTable.Distance`, a fresh table's answer, rather than threading each agent's cached table. `DistTable.CacheIndependent` shows the two agree.
- The assignment reads every pickup distance before the loop. `_assign_tasks` reads them inside the loop, but the loop moves no agent and changes no pickup cell.
- `_assign_tasks` removes assigned tasks from pending after its loop. The model removes each at assignment. The loop iterates over a snapshot of the pending list either way.
- Simulation.AssignTasksMaximal: the contract states the distance is at least the marker, not equal to it. Model distances are unbounded integers, so a real distance is below the marker only on grids of fewer than 2^31 cells.
- Planner.Run: the contract does not state the priorities used at each step. The initial ones come through `Planner.StartPriorities`, which exposes only their length and sign.
- Start placement in `MAPDSimulation.__init__` is an input. The model does not compute the walkable cells, exclude the stations or draw without replacement.
- Integer widths: distances are unbounded naturals, not int32.
- DistTable.Init: requires the goal to lie inside the grid. `DistTable.__post_init__` writes the goal's entry with numpy indexing, which would wrap a negative index and raise IndexError beyond the grid. Every goal pypibt passes is a start cell or a station cell, all inside the grid, so that path is not modelled. `Epibt.NewSolver`, `Planner.UpdateGoal` and `Simulation.NewSim` carry the same requirement, and the invariant `Simulation.Shape` includes it.
- The visualizer, the physics animation, the demo app and the package's re-exports are outside the core.
- `is_valid_mapf_solution` and `save_configs_for_visualizer` are not part of this model.

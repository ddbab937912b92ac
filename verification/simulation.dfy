/** The pickup-and-delivery simulation around the planner: tasks arrive,
    idle agents are greedily matched to pending tasks by distance, agents
    pick up and deliver, and every tick updates the priorities and runs one
    planner step. An agent cycles IDLE -> MOVING_TO_PICKUP ->
    MOVING_TO_DELIVERY -> IDLE; a task moves pending -> active ->
    completed. */
module Simulation {
  import opened Common
  import opened Grid
  import opened DistTable
  import opened Operations
  import opened Epibt
  import opened Planner

  datatype AgentState = Idle | MovingToPickup | MovingToDelivery

  datatype Task = Task(
    id: nat,
    pickup: Coord,
    delivery: Coord,
    createdAt: nat,
    assignedTo: Option<nat>,
    pickedUpAt: Option<nat>,
    deliveredAt: Option<nat>)

  /** An agent and the id of its current task, if any. */
  datatype AgentInfo = AgentInfo(id: nat, state: AgentState, task: Option<nat>)

  /** The simulation: the planner, the agents' positions and priorities,
      every task ever generated by id, the id lists, the next task id, the
      clock, and the stations tasks are drawn from. */
  datatype Sim = Sim(
    solver: Solver,
    config: seq<Coord>,
    priorities: seq<real>,
    agents: seq<AgentInfo>,
    tasks: map<nat, Task>,
    pending: seq<nat>,
    active: seq<nat>,
    completed: seq<nat>,
    counter: nat,
    timestep: nat,
    pickups: seq<Coord>,
    deliveries: seq<Coord>)

  /** The simulation builds its planner with the constructor's defaults:
      operations of three actions and at most ten revisits. */
  const OpLen: nat := 3
  const MaxRevisits: nat := 10

  // ---------------------------------------------------------------------
  // Invariants
  // ---------------------------------------------------------------------

  /** Every id below `counter` is in exactly one of the lists, once; no
      other id is in any. */
  ghost predicate Conserved(pending: seq<nat>, active: seq<nat>, completed: seq<nat>, counter: nat) {
    forall id: nat :: multiset(pending)[id] + multiset(active)[id] + multiset(completed)[id] == (if id < counter then 1 else 0)
  }

  /** The shape of the simulation: one position, priority and record per
      agent of the planner, positions on walkable cells, stations inside the
      grid, every task stored under its own id. */
  ghost predicate Shape(sim: Sim) {
    && sim.solver.Wf()
    && |sim.config| == |sim.solver.goals| && |sim.priorities| == |sim.solver.goals| && |sim.agents| == |sim.solver.goals|
    && (forall i :: 0 <= i < |sim.config| ==> IsValidCoord(sim.solver.grid, sim.config[i]))
    && (forall i :: 0 <= i < |sim.priorities| ==> sim.priorities[i] >= 0.0)
    && (forall i :: 0 <= i < |sim.pickups| ==> InBounds(sim.solver.grid, sim.pickups[i]))
    && (forall i :: 0 <= i < |sim.deliveries| ==> InBounds(sim.solver.grid, sim.deliveries[i]))
    && (forall i :: 0 <= i < |sim.agents| ==> sim.agents[i].id == i)
    && (forall id: nat :: id in sim.tasks <==> id < sim.counter)
    && (forall id :: id in sim.tasks ==> sim.tasks[id].id == id)
    && (forall id :: id in sim.tasks ==> InBounds(sim.solver.grid, sim.tasks[id].pickup) && InBounds(sim.solver.grid, sim.tasks[id].delivery))
  }

  /** An agent is idle exactly when it has no task; a busy agent's task is
      active, assigned to it, and its goal is the task's pickup or delivery
      cell according to its state. */
  ghost predicate AgentOk(sim: Sim, i: nat)
    requires Shape(sim) && i < |sim.agents|
  {
    var a := sim.agents[i];
    && (a.state == Idle <==> a.task.None?)
    && (a.task.Some? ==>
          && a.task.value in sim.active && a.task.value in sim.tasks
          && sim.tasks[a.task.value].assignedTo == Some(i)
          && (a.state == MovingToPickup ==> sim.solver.goals[i] == sim.tasks[a.task.value].pickup)
          && (a.state == MovingToDelivery ==> sim.solver.goals[i] == sim.tasks[a.task.value].delivery))
  }

  /** Every active task is the current task of the agent it is assigned
      to; no pending task is assigned. */
  ghost predicate TasksOk(sim: Sim)
    requires Shape(sim)
  {
    && (forall id :: id in sim.active ==>
          && id in sim.tasks && sim.tasks[id].assignedTo.Some?
          && sim.tasks[id].assignedTo.value < |sim.agents|
          && sim.agents[sim.tasks[id].assignedTo.value].task == Some(id))
    && (forall id :: id in sim.pending ==> id in sim.tasks && sim.tasks[id].assignedTo.None?)
  }

  ghost predicate Inv(sim: Sim) {
    && Shape(sim)
    && (forall i :: 0 <= i < |sim.agents| ==> AgentOk(sim, i))
    && TasksOk(sim)
    && Conserved(sim.pending, sim.active, sim.completed, sim.counter)
  }

  /** No two agents hold the same task. */
  lemma TaskHolderUnique(sim: Sim, i: nat, j: nat)
    requires Inv(sim) && i < |sim.agents| && j < |sim.agents|
    requires sim.agents[i].task.Some? && sim.agents[i].task == sim.agents[j].task
    ensures i == j
  {
    assert AgentOk(sim, i) && AgentOk(sim, j);
  }

  /** A generated task is in exactly one list. */
  lemma ExactlyOne(sim: Sim, id: nat)
    requires Inv(sim)
    ensures id < sim.counter <==> id in sim.pending || id in sim.active || id in sim.completed
    ensures id in sim.pending ==> id !in sim.active && id !in sim.completed
    ensures id in sim.active ==> id !in sim.completed
    ensures multiset(sim.pending)[id] <= 1 && multiset(sim.active)[id] <= 1 && multiset(sim.completed)[id] <= 1
  {
    assert multiset(sim.pending)[id] + multiset(sim.active)[id] + multiset(sim.completed)[id] == (if id < sim.counter then 1 else 0);
  }

  /** The simulation at time zero: every agent idle at its start, which is
      also its goal, with priority zero, and no task yet. */
  function NewSim(grid: Grid, starts: seq<Coord>, orientations: seq<Orientation>,
                  pickups: seq<Coord>, deliveries: seq<Coord>): (sim: Sim)
    requires grid.Wf() && |orientations| == |starts|
    requires forall i :: 0 <= i < |starts| ==> IsValidCoord(grid, starts[i])
    requires forall i :: 0 <= i < |pickups| ==> InBounds(grid, pickups[i])
    requires forall i :: 0 <= i < |deliveries| ==> InBounds(grid, deliveries[i])
    ensures sim.counter == 0 && sim.timestep == 0 && sim.config == starts
    ensures sim.solver.Wf() && sim.solver.goals == starts && sim.solver.grid == grid
    ensures |sim.agents| == |starts| && forall i :: 0 <= i < |sim.agents| ==> sim.agents[i] == AgentInfo(i, Idle, None)
    ensures |sim.priorities| == |starts| && forall i :: 0 <= i < |starts| ==> sim.priorities[i] == 0.0
    ensures sim.tasks == map[] && sim.pending == [] && sim.active == [] && sim.completed == []
    ensures sim.pickups == pickups && sim.deliveries == deliveries
  {
    assert forall i :: 0 <= i < |starts| ==> IsValidCoord(grid, starts[i]) && InBounds(grid, starts[i]);
    var sv := NewSolver(grid, starts, orientations, OpLen, MaxRevisits);
    Sim(sv, starts, ZeroPriorities(|starts|), IdleRecords(|starts|), map[], [], [], [], 0, 0, pickups, deliveries)
  }

  function ZeroPriorities(n: nat): (prio: seq<real>)
    ensures |prio| == n && forall i :: 0 <= i < n ==> prio[i] == 0.0
  {
    seq(n, _ => 0.0)
  }

  /** Agents `0..n-1`, each idle with no task. */
  function IdleRecords(n: nat): (agents: seq<AgentInfo>)
    ensures |agents| == n && forall i :: 0 <= i < n ==> agents[i] == AgentInfo(i, Idle, None)
  {
    seq(n, (i: nat) => AgentInfo(i, Idle, None))
  }

  /** The invariants hold from the start. */
  lemma NewSimInv(grid: Grid, starts: seq<Coord>, orientations: seq<Orientation>,
                  pickups: seq<Coord>, deliveries: seq<Coord>)
    requires grid.Wf() && |orientations| == |starts|
    requires forall i :: 0 <= i < |starts| ==> IsValidCoord(grid, starts[i])
    requires forall i :: 0 <= i < |pickups| ==> InBounds(grid, pickups[i])
    requires forall i :: 0 <= i < |deliveries| ==> InBounds(grid, deliveries[i])
    ensures Inv(NewSim(grid, starts, orientations, pickups, deliveries))
  {
    var sim := NewSim(grid, starts, orientations, pickups, deliveries);
    NewSimShape(grid, starts, orientations, pickups, deliveries);
    NoTasksInv(sim);
  }

  /** With no task yet and every agent idle, the shape is all there is to
      the invariants. */
  lemma NoTasksInv(sim: Sim)
    requires Shape(sim) && sim.counter == 0 && sim.pending == [] && sim.active == [] && sim.completed == []
    requires forall i :: 0 <= i < |sim.agents| ==> sim.agents[i].state == Idle && sim.agents[i].task == None
    ensures Inv(sim)
  {
    assert forall i :: 0 <= i < |sim.agents| ==> AgentOk(sim, i);
  }

  lemma NewSimShape(grid: Grid, starts: seq<Coord>, orientations: seq<Orientation>,
                    pickups: seq<Coord>, deliveries: seq<Coord>)
    requires grid.Wf() && |orientations| == |starts|
    requires forall i :: 0 <= i < |starts| ==> IsValidCoord(grid, starts[i])
    requires forall i :: 0 <= i < |pickups| ==> InBounds(grid, pickups[i])
    requires forall i :: 0 <= i < |deliveries| ==> InBounds(grid, deliveries[i])
    ensures Shape(NewSim(grid, starts, orientations, pickups, deliveries))
  {
    var sim := NewSim(grid, starts, orientations, pickups, deliveries);
    assert forall i :: 0 <= i < |sim.config| ==> IsValidCoord(sim.solver.grid, sim.config[i]);
    assert forall id: nat :: id in sim.tasks <==> id < sim.counter;
  }

  // ---------------------------------------------------------------------
  // Task generation
  // ---------------------------------------------------------------------

  /** A new pending task from stations `arrival`, with the next id. */
  function AddTask(sim: Sim, arrival: (nat, nat)): (r: Sim)
    requires arrival.0 < |sim.pickups| && arrival.1 < |sim.deliveries|
    ensures r == sim.(tasks := r.tasks, pending := r.pending, counter := r.counter)
    ensures r.counter == sim.counter + 1 && r.pending == sim.pending + [sim.counter]
    ensures r.tasks == sim.tasks[sim.counter := Task(sim.counter, sim.pickups[arrival.0], sim.deliveries[arrival.1],
                                                     sim.timestep, None, None, None)]
  {
    var t := Task(sim.counter, sim.pickups[arrival.0], sim.deliveries[arrival.1], sim.timestep, None, None, None);
    sim.(tasks := sim.tasks[sim.counter := t], pending := sim.pending + [sim.counter], counter := sim.counter + 1)
  }

  lemma AddTaskInv(sim: Sim, arrival: (nat, nat))
    requires Inv(sim) && arrival.0 < |sim.pickups| && arrival.1 < |sim.deliveries|
    ensures Inv(AddTask(sim, arrival))
  {
    var r := AddTask(sim, arrival);
    assert forall i :: 0 <= i < |r.agents| ==> AgentOk(sim, i);
    forall i | 0 <= i < |r.agents|
      ensures AgentOk(r, i)
    {
      assert AgentOk(sim, i);
      if r.agents[i].task.Some? {
        assert r.agents[i].task.value != sim.counter;
      }
    }
    forall id: nat
      ensures multiset(r.pending)[id] + multiset(r.active)[id] + multiset(r.completed)[id] == (if id < r.counter then 1 else 0)
    {
      assert multiset(r.pending) == multiset(sim.pending) + multiset{sim.counter};
    }
  }

  /** The tasks that arrive in one tick, given as pickup and delivery
      station indices: consecutive ids from the counter, created now,
      appended to the pending list in arrival order. */
  function GenerateTasks(sim: Sim, arrivals: seq<(nat, nat)>): (r: Sim)
    requires forall j :: 0 <= j < |arrivals| ==> arrivals[j].0 < |sim.pickups| && arrivals[j].1 < |sim.deliveries|
    ensures r == sim.(tasks := r.tasks, pending := r.pending, counter := r.counter)
    ensures r.counter == sim.counter + |arrivals|
    ensures r.pending == sim.pending + seq(|arrivals|, j => sim.counter + j)
    ensures forall id :: id in sim.tasks && id < sim.counter ==> id in r.tasks && r.tasks[id] == sim.tasks[id]
    decreases |arrivals|
  {
    if arrivals == [] then sim
    else
      var next := AddTask(sim, arrivals[0]);
      var r := GenerateTasks(next, arrivals[1..]);
      assert seq(|arrivals|, j => sim.counter + j) == [sim.counter] + seq(|arrivals| - 1, j => next.counter + j);
      r
  }

  /** The `j`-th arrival becomes the unassigned task with id `counter + j`,
      created at the current time step, with the stations it names. */
  lemma {:induction false} GenerateTasksNew(sim: Sim, arrivals: seq<(nat, nat)>, j: nat)
    requires forall j :: 0 <= j < |arrivals| ==> arrivals[j].0 < |sim.pickups| && arrivals[j].1 < |sim.deliveries|
    requires j < |arrivals|
    ensures var r := GenerateTasks(sim, arrivals);
            && sim.counter + j in r.tasks
            && r.tasks[sim.counter + j] == Task(sim.counter + j, sim.pickups[arrivals[j].0], sim.deliveries[arrivals[j].1],
                                                sim.timestep, None, None, None)
    decreases |arrivals|, 1
  {
    if j == 0 {
      GenerateTasksFirst(sim, arrivals);
    } else {
      GenerateTasksLater(sim, arrivals, j);
    }
  }

  /** The first arrival's task survives the ones generated after it. */
  lemma GenerateTasksFirst(sim: Sim, arrivals: seq<(nat, nat)>)
    requires forall j :: 0 <= j < |arrivals| ==> arrivals[j].0 < |sim.pickups| && arrivals[j].1 < |sim.deliveries|
    requires 0 < |arrivals|
    ensures var r := GenerateTasks(sim, arrivals);
            && sim.counter in r.tasks
            && r.tasks[sim.counter] == Task(sim.counter, sim.pickups[arrivals[0].0], sim.deliveries[arrivals[0].1],
                                            sim.timestep, None, None, None)
  {
    var next := AddTask(sim, arrivals[0]);
    assert sim.counter in next.tasks && sim.counter < next.counter;
  }

  lemma {:induction false} GenerateTasksLater(sim: Sim, arrivals: seq<(nat, nat)>, j: nat)
    requires forall j :: 0 <= j < |arrivals| ==> arrivals[j].0 < |sim.pickups| && arrivals[j].1 < |sim.deliveries|
    requires 0 < j < |arrivals|
    ensures var r := GenerateTasks(sim, arrivals);
            && sim.counter + j in r.tasks
            && r.tasks[sim.counter + j] == Task(sim.counter + j, sim.pickups[arrivals[j].0], sim.deliveries[arrivals[j].1],
                                                sim.timestep, None, None, None)
    decreases |arrivals|, 0
  {
    var next := AddTask(sim, arrivals[0]);
    GenerateTasksNew(next, arrivals[1..], j - 1);
    assert arrivals[1..][j - 1] == arrivals[j];
  }

  /** Generating tasks keeps the invariants: the new ids extend the range
      and land in the pending list only. */
  lemma {:induction false} GenerateTasksInv(sim: Sim, arrivals: seq<(nat, nat)>)
    requires Inv(sim)
    requires forall j :: 0 <= j < |arrivals| ==> arrivals[j].0 < |sim.pickups| && arrivals[j].1 < |sim.deliveries|
    ensures Inv(GenerateTasks(sim, arrivals))
    decreases |arrivals|
  {
    if arrivals != [] {
      AddTaskInv(sim, arrivals[0]);
      GenerateTasksInv(AddTask(sim, arrivals[0]), arrivals[1..]);
    }
  }

  // ---------------------------------------------------------------------
  // Arrivals
  // ---------------------------------------------------------------------

  /** The position of the first occurrence of `x` in `s`. */
  function IndexOf(s: seq<nat>, x: nat): (j: nat)
    requires x in s
    ensures j < |s| && s[j] == x && x !in s[..j]
  {
    if s[0] == x then 0
    else
      var j := IndexOf(s[1..], x);
      assert s[..j + 1] == [s[0]] + s[1..][..j];
      j + 1
  }

  /** `s` without the first occurrence of `x`, as Python's `list.remove`. */
  function Remove(s: seq<nat>, x: nat): (r: seq<nat>)
    requires x in s
    ensures multiset(r) == multiset(s) - multiset{x}
  {
    var j := IndexOf(s, x);
    assert s == s[..j] + [x] + s[j + 1..];
    s[..j] + s[j + 1..]
  }

  /** Agent `i` is on the cell its state heads for: the pickup cell of its
      task while moving to the pickup, the delivery cell while moving to the
      delivery. */
  predicate AtPickup(sim: Sim, i: nat)
    requires i < |sim.agents| && i < |sim.config|
  {
    var a := sim.agents[i];
    a.state == MovingToPickup && a.task.Some? && a.task.value in sim.tasks && sim.config[i] == sim.tasks[a.task.value].pickup
  }

  predicate AtDelivery(sim: Sim, i: nat)
    requires i < |sim.agents| && i < |sim.config|
  {
    var a := sim.agents[i];
    a.state == MovingToDelivery && a.task.Some? && a.task.value in sim.tasks && sim.config[i] == sim.tasks[a.task.value].delivery
  }

  /** Picking up: the task records the time, the agent heads for the
      delivery cell, which becomes its goal. */
  function PickUp(sim: Sim, i: nat): (r: Sim)
    requires Inv(sim) && i < |sim.agents| && AtPickup(sim, i)
    ensures Inv(r)
    ensures var a, id := sim.agents[i], sim.agents[i].task.value;
            && r.agents == sim.agents[i := a.(state := MovingToDelivery)]
            && r.tasks == sim.tasks[id := sim.tasks[id].(pickedUpAt := Some(sim.timestep))]
            && r.solver.goals == sim.solver.goals[i := sim.tasks[id].delivery]
            && r == sim.(agents := r.agents, tasks := r.tasks, solver := r.solver)
  {
    var a := sim.agents[i];
    var id := a.task.value;
    var t := sim.tasks[id];
    var r := sim.(tasks := sim.tasks[id := t.(pickedUpAt := Some(sim.timestep))],
                  agents := sim.agents[i := a.(state := MovingToDelivery)],
                  solver := UpdateGoal(sim.solver, i, t.delivery));
    PickUpInv(sim, i, r);
    r
  }

  /** Delivering: the task records the time and moves from the active to
      the completed list; the agent becomes idle with no task, and its goal
      becomes the cell it stands on. */
  function Deliver(sim: Sim, i: nat): (r: Sim)
    requires Inv(sim) && i < |sim.agents| && AtDelivery(sim, i)
    ensures Inv(r)
    ensures var a, id := sim.agents[i], sim.agents[i].task.value;
            && r.agents == sim.agents[i := a.(state := Idle, task := None)]
            && r.tasks == sim.tasks[id := sim.tasks[id].(deliveredAt := Some(sim.timestep))]
            && r.solver.goals == sim.solver.goals[i := sim.config[i]]
            && id in sim.active && id !in r.active && (forall t :: t in r.active <==> t in sim.active && t != id)
            && r.completed == sim.completed + [id]
            && r == sim.(agents := r.agents, tasks := r.tasks, solver := r.solver, active := r.active, completed := r.completed)
  {
    assert AgentOk(sim, i);
    var a := sim.agents[i];
    var id := a.task.value;
    var t := sim.tasks[id];
    var r := sim.(tasks := sim.tasks[id := t.(deliveredAt := Some(sim.timestep))],
                  active := Remove(sim.active, id), completed := sim.completed + [id],
                  agents := sim.agents[i := a.(state := Idle, task := None)],
                  solver := UpdateGoal(sim.solver, i, sim.config[i]));
    assert Delivered(sim, i, r);
    DeliveredOnce(sim, i, r);
    DeliverInv(sim, i, r);
    r
  }

  /** A task's pickup and delivery cells never change. */
  ghost predicate SameRoutes(before: map<nat, Task>, after: map<nat, Task>) {
    forall id :: id in before ==> id in after && after[id].pickup == before[id].pickup && after[id].delivery == before[id].delivery
  }

  /** Agent `i`'s arrival check: a pick-up on its pickup cell, else a
      delivery on its delivery cell, else nothing. Only agent `i` changes
      state, by at most one step of its cycle. */
  function Arrive(sim: Sim, i: nat): (r: Sim)
    requires Inv(sim) && i < |sim.agents|
    ensures Inv(r)
    ensures r.config == sim.config && r.priorities == sim.priorities && r.pending == sim.pending
    ensures r.counter == sim.counter && r.timestep == sim.timestep
    ensures r.pickups == sim.pickups && r.deliveries == sim.deliveries
    ensures |r.agents| == |sim.agents| && forall j :: 0 <= j < |sim.agents| && j != i ==> r.agents[j] == sim.agents[j]
    ensures Advanced(sim.agents[i], r.agents[i])
    ensures r.agents[i] != sim.agents[i] <==> AtPickup(sim, i) || AtDelivery(sim, i)
    ensures SameRoutes(sim.tasks, r.tasks)
  {
    if AtPickup(sim, i) then
      PickUpFrame(sim, i);
      PickUp(sim, i)
    else if AtDelivery(sim, i) then
      DeliverFrame(sim, i);
      Deliver(sim, i)
    else sim
  }

  /** A pick-up changes agent `i` and its task's record, nothing else. */
  lemma PickUpFrame(sim: Sim, i: nat)
    requires Inv(sim) && i < |sim.agents| && AtPickup(sim, i)
    ensures var r := PickUp(sim, i);
            && r.config == sim.config && r.priorities == sim.priorities && r.pending == sim.pending
            && r.counter == sim.counter && r.timestep == sim.timestep
            && r.pickups == sim.pickups && r.deliveries == sim.deliveries
            && |r.agents| == |sim.agents| && (forall j :: 0 <= j < |sim.agents| && j != i ==> r.agents[j] == sim.agents[j])
            && Advanced(sim.agents[i], r.agents[i]) && r.agents[i] != sim.agents[i]
            && SameRoutes(sim.tasks, r.tasks)
  {
  }

  /** A delivery changes agent `i`, its task's record and the active and
      completed lists, nothing else. */
  lemma DeliverFrame(sim: Sim, i: nat)
    requires Inv(sim) && i < |sim.agents| && AtDelivery(sim, i)
    ensures var r := Deliver(sim, i);
            && r.config == sim.config && r.priorities == sim.priorities && r.pending == sim.pending
            && r.counter == sim.counter && r.timestep == sim.timestep
            && r.pickups == sim.pickups && r.deliveries == sim.deliveries
            && |r.agents| == |sim.agents| && (forall j :: 0 <= j < |sim.agents| && j != i ==> r.agents[j] == sim.agents[j])
            && Advanced(sim.agents[i], r.agents[i]) && r.agents[i] != sim.agents[i]
            && SameRoutes(sim.tasks, r.tasks)
  {
  }

  lemma PickUpInv(sim: Sim, i: nat, r: Sim)
    requires Inv(sim) && i < |sim.agents| && sim.agents[i].state == MovingToPickup && sim.agents[i].task.Some?
    requires var id := sim.agents[i].task.value;
             id in sim.tasks &&
             r == sim.(tasks := sim.tasks[id := sim.tasks[id].(pickedUpAt := Some(sim.timestep))],
                       agents := sim.agents[i := sim.agents[i].(state := MovingToDelivery)],
                       solver := UpdateGoal(sim.solver, i, sim.tasks[id].delivery))
    ensures Inv(r)
  {
    var id := sim.agents[i].task.value;
    forall j | 0 <= j < |r.agents|
      ensures AgentOk(r, j)
    {
      assert AgentOk(sim, j);
      if j != i && r.agents[j].task == Some(id) {
        TaskHolderUnique(sim, i, j);
      }
    }
  }

  ghost predicate Delivered(sim: Sim, i: nat, r: Sim)
    requires Inv(sim) && i < |sim.agents|
  {
    && sim.agents[i].state == MovingToDelivery && sim.agents[i].task.Some?
    && var id := sim.agents[i].task.value;
       && id in sim.tasks && id in sim.active && IsValidCoord(sim.solver.grid, sim.config[i])
       && r == sim.(tasks := sim.tasks[id := sim.tasks[id].(deliveredAt := Some(sim.timestep))],
                    active := Remove(sim.active, id), completed := sim.completed + [id],
                    agents := sim.agents[i := sim.agents[i].(state := Idle, task := None)],
                    solver := UpdateGoal(sim.solver, i, sim.config[i]))
  }

  /** A delivery keeps the shape: only an agent's record, a goal, a task's
      timestamps and the lists change. */
  lemma DeliveredShape(sim: Sim, i: nat, r: Sim)
    requires Inv(sim) && i < |sim.agents| && Delivered(sim, i, r)
    ensures Shape(r)
  {
    assert r.solver.grid == sim.solver.grid && |r.solver.goals| == |sim.solver.goals|;
  }

  /** The delivered task was the only copy in the active list. */
  lemma DeliveredOnce(sim: Sim, i: nat, r: Sim)
    requires Inv(sim) && i < |sim.agents| && Delivered(sim, i, r)
    ensures var id := sim.agents[i].task.value;
            && multiset(sim.active)[id] == 1 && id !in r.active
            && forall t :: t in r.active <==> t in sim.active && t != id
  {
    var id := sim.agents[i].task.value;
    ExactlyOne(sim, id);
    assert multiset(r.active) == multiset(sim.active) - multiset{id};
    assert multiset(r.active)[id] == 0;
    forall t
      ensures t in r.active <==> t in sim.active && t != id
    {
      assert t in r.active <==> t in multiset(r.active);
    }
  }

  lemma DeliverInv(sim: Sim, i: nat, r: Sim)
    requires Inv(sim) && i < |sim.agents| && Delivered(sim, i, r)
    ensures Inv(r)
  {
    DeliveredShape(sim, i, r);
    DeliveredOnce(sim, i, r);
    DeliverAgentsOk(sim, i, r);
    DeliverTasksOk(sim, i, r);
    DeliverConserved(sim, i, r);
  }

  /** After a delivery every agent's record still agrees with its task. */
  lemma DeliverAgentsOk(sim: Sim, i: nat, r: Sim)
    requires Inv(sim) && i < |sim.agents| && Delivered(sim, i, r) && Shape(r)
    requires var id := sim.agents[i].task.value; forall t :: t in r.active <==> t in sim.active && t != id
    ensures forall j :: 0 <= j < |r.agents| ==> AgentOk(r, j)
  {
    var id := sim.agents[i].task.value;
    forall j | 0 <= j < |r.agents|
      ensures AgentOk(r, j)
    {
      assert AgentOk(sim, j);
      if j != i && r.agents[j].task == Some(id) {
        TaskHolderUnique(sim, i, j);
      }
    }
  }

  /** After a delivery every active task is still held by its agent. */
  lemma DeliverTasksOk(sim: Sim, i: nat, r: Sim)
    requires Inv(sim) && i < |sim.agents| && Delivered(sim, i, r) && Shape(r)
    requires var id := sim.agents[i].task.value; forall t :: t in r.active <==> t in sim.active && t != id
    ensures TasksOk(r)
  {
    assert TasksOk(sim);
  }

  /** A delivery moves one id from the active to the completed list. */
  lemma DeliverConserved(sim: Sim, i: nat, r: Sim)
    requires Inv(sim) && i < |sim.agents| && Delivered(sim, i, r)
    ensures Conserved(r.pending, r.active, r.completed, r.counter)
  {
    var id := sim.agents[i].task.value;
    assert multiset(r.active) == multiset(sim.active) - multiset{id};
    forall t: nat
      ensures multiset(r.pending)[t] + multiset(r.active)[t] + multiset(r.completed)[t] == (if t < r.counter then 1 else 0)
    {
      assert multiset(sim.pending)[t] + multiset(sim.active)[t] + multiset(sim.completed)[t] == (if t < sim.counter then 1 else 0);
    }
  }

  /** Every agent's arrival check, in index order, from agent `i` on. Each
      agent from `i` on ends as its own check against `sim` decides. */
  function CheckFrom(sim: Sim, i: nat): (r: Sim)
    requires Inv(sim) && i <= |sim.agents|
    ensures Inv(r)
    ensures r.config == sim.config && r.priorities == sim.priorities && r.pending == sim.pending
    ensures r.counter == sim.counter && r.timestep == sim.timestep
    ensures r.pickups == sim.pickups && r.deliveries == sim.deliveries
    ensures |r.agents| == |sim.agents| && forall j :: 0 <= j < i ==> r.agents[j] == sim.agents[j]
    ensures forall j :: i <= j < |sim.agents| ==> r.agents[j] == Arrive(sim, j).agents[j]
    decreases |sim.agents| - i
  {
    if i == |sim.agents| then sim
    else
      var next := Arrive(sim, i);
      var r := CheckFrom(next, i + 1);
      CheckChain(sim, i, r);
      r
  }

  /** Agent `i`'s check followed by the later agents' checks: the earlier
      agents are untouched and each agent from `i` on ends as its own check
      against `sim` decides. */
  lemma CheckChain(sim: Sim, i: nat, r: Sim)
    requires Inv(sim) && i < |sim.agents|
    requires var next := Arrive(sim, i);
             && |r.agents| == |next.agents|
             && (forall j :: 0 <= j < i + 1 ==> r.agents[j] == next.agents[j])
             && (forall j :: i + 1 <= j < |next.agents| ==> r.agents[j] == Arrive(next, j).agents[j])
    ensures forall j :: 0 <= j < i ==> r.agents[j] == sim.agents[j]
    ensures forall j :: i <= j < |sim.agents| ==> r.agents[j] == Arrive(sim, j).agents[j]
  {
    ArriveOthers(sim, i);
  }

  /** The check of agent `i` leaves every other agent's own check as it
      was: their records are untouched and no task's route changes. */
  lemma ArriveOthers(sim: Sim, i: nat)
    requires Inv(sim) && i < |sim.agents|
    ensures forall j :: 0 <= j < |sim.agents| && j != i ==> Arrive(Arrive(sim, i), j).agents[j] == Arrive(sim, j).agents[j]
  {
    var next := Arrive(sim, i);
    forall j | 0 <= j < |sim.agents| && j != i
      ensures Arrive(next, j).agents[j] == Arrive(sim, j).agents[j]
    {
      assert AgentOk(sim, j);
      assert AtPickup(next, j) == AtPickup(sim, j);
      assert AtDelivery(next, j) == AtDelivery(sim, j);
    }
  }

  /** One arrival check moves an agent at most one state along its cycle,
      keeping its task while it heads for the delivery. */
  ghost predicate Advanced(a: AgentInfo, b: AgentInfo) {
    || b == a
    || (a.state == MovingToPickup && b == a.(state := MovingToDelivery))
    || (a.state == MovingToDelivery && b == a.(state := Idle, task := None))
  }

  /** Every agent's arrival check. The invariants hold after it, and each
      agent ends as its own check decides: picked up if it was on its
      pickup cell, delivered and idle if on its delivery cell, unchanged
      otherwise. */
  function CheckArrivals(sim: Sim): (r: Sim)
    requires Inv(sim)
    ensures Inv(r)
    ensures r.config == sim.config && r.priorities == sim.priorities && r.pending == sim.pending
    ensures r.counter == sim.counter && r.timestep == sim.timestep
    ensures r.pickups == sim.pickups && r.deliveries == sim.deliveries
    ensures |r.agents| == |sim.agents|
  {
    CheckFrom(sim, 0)
  }

  /** Each agent's state after the arrival check, as its own check decides. */
  lemma CheckArrivalsEach(sim: Sim, j: nat)
    requires Inv(sim) && j < |sim.agents|
    ensures var a, b := sim.agents[j], CheckArrivals(sim).agents[j];
            && Advanced(a, b)
            && (AtPickup(sim, j) ==> b == a.(state := MovingToDelivery))
            && (AtDelivery(sim, j) ==> b == a.(state := Idle, task := None))
            && (!AtPickup(sim, j) && !AtDelivery(sim, j) ==> b == a)
  {
    if AtPickup(sim, j) {
      assert Arrive(sim, j) == PickUp(sim, j);
    } else if AtDelivery(sim, j) {
      assert Arrive(sim, j) == Deliver(sim, j);
    }
  }

  // ---------------------------------------------------------------------
  // Assignment
  // ---------------------------------------------------------------------

  /** The idle agents in index order. */
  function IdleAgents(agents: seq<AgentInfo>): (idle: seq<nat>)
    ensures forall a :: 0 <= a < |idle| ==> idle[a] < |agents|
    ensures forall x: nat :: x in idle <==> x < |agents| && agents[x].state == Idle
    ensures Increasing(idle)
  {
    if agents == [] then []
    else
      var n := |agents| - 1;
      var rest := IdleAgents(agents[..n]);
      assert forall x :: 0 <= x < n ==> agents[..n][x] == agents[x];
      rest + (if agents[n].state == Idle then [n] else [])
  }

  predicate Increasing(s: seq<nat>) {
    forall a, b :: 0 <= a < b < |s| ==> s[a] < s[b]
  }

  /** The distance from the pickup cell of task `id` to the cell of agent
      `a`, as the pickup's distance table reads it; the unreached marker
      for an unknown task or agent. */
  function PickupDist(sim: Sim, id: nat, a: nat): int
    requires sim.solver.grid.Wf()
  {
    if id in sim.tasks && InBounds(sim.solver.grid, sim.tasks[id].pickup) && a < |sim.config|
    then Distance(sim.solver.grid, sim.tasks[id].pickup, sim.config[a])
    else Unreached
  }

  /** Pickup distances by task id and agent, as the assignment loop reads
      them. */
  type Distances = map<nat, seq<int>>

  function DistOf(dist: Distances, id: nat, a: nat): int {
    if id in dist && a < |dist[id]| then dist[id][a] else Unreached
  }

  /** The distances of every known task's pickup to every agent. The loop
      moves no agent and changes no pickup cell, so reading them up front
      gives what the per-station tables give when read inside the loop. */
  function PickupTable(sim: Sim): (dist: Distances)
    requires sim.solver.grid.Wf()
    ensures forall id: nat, a: nat :: DistOf(dist, id, a) == PickupDist(sim, id, a)
  {
    map id | id in sim.tasks :: seq(|sim.config|, (a: nat) requires a < |sim.config| => PickupDist(sim, id, a))
  }

  /** The position of the first smallest entry, as Python's `min` finds it
      scanning left to right and replacing its pick only by a strictly
      smaller entry. */
  function FirstMin(ds: seq<int>): (k: nat)
    requires |ds| > 0
    ensures k < |ds|
    ensures forall m :: 0 <= m < |ds| ==> ds[k] <= ds[m]
    ensures forall m :: 0 <= m < k ==> ds[m] > ds[k]
  {
    var n := |ds| - 1;
    if n == 0 then 0
    else
      var k := FirstMin(ds[..n]);
      assert forall m :: 0 <= m < n ==> ds[..n][m] == ds[m];
      if ds[n] < ds[k] then n else k
  }

  /** The pickup distances of the idle agents, in list order. */
  function Dists(dist: Distances, id: nat, idle: seq<nat>): (ds: seq<int>)
    ensures |ds| == |idle| && forall m :: 0 <= m < |idle| ==> ds[m] == DistOf(dist, id, idle[m])
  {
    seq(|idle|, m requires 0 <= m < |idle| => DistOf(dist, id, idle[m]))
  }

  /** `r` is `sim` with task `id` given to agent `b`. */
  ghost predicate Assigned(sim: Sim, id: nat, b: nat, r: Sim)
    requires Shape(sim) && b < |sim.agents|
  {
    && id in sim.tasks
    && id in sim.pending
    && sim.agents[b].state == Idle
    && r == sim.(tasks := sim.tasks[id := sim.tasks[id].(assignedTo := Some(b))],
                 agents := sim.agents[b := AgentInfo(b, MovingToPickup, Some(id))],
                 active := sim.active + [id],
                 pending := Remove(sim.pending, id),
                 solver := UpdateGoal(sim.solver, b, sim.tasks[id].pickup))
  }

  /** Task `id` goes to idle agent `b`: the task records its assignee and
      moves from the pending to the active list; the agent heads for the
      pickup cell, which becomes its goal. */
  function AssignOne(sim: Sim, id: nat, b: nat): (r: Sim)
    requires Inv(sim) && id in sim.pending && b < |sim.agents| && sim.agents[b].state == Idle
    ensures Inv(r)
    ensures id in sim.tasks
    ensures r.agents == sim.agents[b := AgentInfo(b, MovingToPickup, Some(id))]
    ensures r.tasks == sim.tasks[id := sim.tasks[id].(assignedTo := Some(b))]
    ensures r.active == sim.active + [id]
    ensures id !in r.pending && forall t :: t in r.pending <==> t in sim.pending && t != id
    ensures r.solver.goals == sim.solver.goals[b := sim.tasks[id].pickup]
    ensures r == sim.(tasks := r.tasks, agents := r.agents, active := r.active, pending := r.pending, solver := r.solver)
    ensures r.solver == sim.solver.(goals := r.solver.goals)
    ensures SameRoutes(sim.tasks, r.tasks)
  {
    assert TasksOk(sim);
    var t := sim.tasks[id];
    var r := sim.(tasks := sim.tasks[id := t.(assignedTo := Some(b))],
                  agents := sim.agents[b := AgentInfo(b, MovingToPickup, Some(id))],
                  active := sim.active + [id],
                  pending := Remove(sim.pending, id),
                  solver := UpdateGoal(sim.solver, b, t.pickup));
    assert Assigned(sim, id, b, r);
    AssignedShape(sim, id, b, r);
    AssignedPending(sim, id, b, r);
    AssignedAgents(sim, id, b, r);
    AssignedTasks(sim, id, b, r);
    AssignedConserved(sim, id, b, r);
    r
  }

  /** An assignment keeps the shape: only an agent's record, a goal, a
      task's assignee and the lists change. */
  lemma AssignedShape(sim: Sim, id: nat, b: nat, r: Sim)
    requires Inv(sim) && b < |sim.agents| && Assigned(sim, id, b, r)
    ensures Shape(r)
  {
    assert r.solver.grid == sim.solver.grid && |r.solver.goals| == |sim.solver.goals|;
  }

  /** The assigned task leaves the pending list, which held it once. */
  lemma AssignedPending(sim: Sim, id: nat, b: nat, r: Sim)
    requires Inv(sim) && b < |sim.agents| && Assigned(sim, id, b, r)
    ensures id !in r.pending && forall t :: t in r.pending <==> t in sim.pending && t != id
    ensures id !in sim.active
  {
    ExactlyOne(sim, id);
    assert multiset(r.pending) == multiset(sim.pending) - multiset{id};
    assert multiset(r.pending)[id] == 0;
    forall t
      ensures t in r.pending <==> t in sim.pending && t != id
    {
      assert t in r.pending <==> t in multiset(r.pending);
    }
  }

  lemma AssignedAgents(sim: Sim, id: nat, b: nat, r: Sim)
    requires Inv(sim) && b < |sim.agents| && Assigned(sim, id, b, r)
    requires Shape(r) && id !in sim.active
    ensures forall j :: 0 <= j < |r.agents| ==> AgentOk(r, j)
  {
    forall j | 0 <= j < |r.agents|
      ensures AgentOk(r, j)
    {
      assert AgentOk(sim, j);
    }
  }

  lemma AssignedTasks(sim: Sim, id: nat, b: nat, r: Sim)
    requires Inv(sim) && b < |sim.agents| && Assigned(sim, id, b, r)
    requires Shape(r) && id !in r.pending && forall t :: t in r.pending <==> t in sim.pending && t != id
    ensures TasksOk(r)
  {
    assert AgentOk(sim, b);
    assert TasksOk(sim);
  }

  lemma AssignedConserved(sim: Sim, id: nat, b: nat, r: Sim)
    requires Inv(sim) && b < |sim.agents| && Assigned(sim, id, b, r)
    ensures Conserved(r.pending, r.active, r.completed, r.counter)
  {
    forall t: nat
      ensures multiset(r.pending)[t] + multiset(r.active)[t] + multiset(r.completed)[t] == (if t < r.counter then 1 else 0)
    {
      assert multiset(sim.pending)[t] + multiset(sim.active)[t] + multiset(sim.completed)[t] == (if t < sim.counter then 1 else 0);
    }
  }

  /** The idle list the assignment loop keeps: exactly the idle agents, in
      index order. */
  ghost predicate IdleList(sim: Sim, idle: seq<nat>) {
    && Increasing(idle)
    && forall x: nat :: x in idle <==> x < |sim.agents| && sim.agents[x].state == Idle
  }

  /** The tasks of `queue` from `j` on are distinct and still pending. */
  ghost predicate Unvisited(sim: Sim, queue: seq<nat>, j: nat) {
    && j <= |queue|
    && (forall k :: j <= k < |queue| ==> queue[k] in sim.pending)
    && (forall a, b :: j <= a < b < |queue| ==> queue[a] != queue[b])
  }

  /** `idle[k]` is the first agent of `idle` at the smallest distance from
      the pickup of task `id`. */
  ghost predicate FirstClosest(dist: Distances, id: nat, idle: seq<nat>, k: nat) {
    && k < |idle|
    && (forall m :: 0 <= m < |idle| ==> DistOf(dist, id, idle[k]) <= DistOf(dist, id, idle[m]))
    && (forall m :: 0 <= m < k ==> DistOf(dist, id, idle[m]) > DistOf(dist, id, idle[k]))
  }

  /** The position in `idle` of the agent Python's `min` picks for
      task `id`. */
  function Pick(dist: Distances, id: nat, idle: seq<nat>): (k: nat)
    requires |idle| > 0
    ensures FirstClosest(dist, id, idle, k)
  {
    FirstMin(Dists(dist, id, idle))
  }

  /** One turn of the greedy loop, on the `j`-th task of `queue`: the
      state and the idle list after it. The task goes to the first idle
      agent at the smallest distance from its pickup, unless that distance
      is the unreached marker, in which case nothing changes. */
  function Visit(sim: Sim, dist: Distances, queue: seq<nat>, j: nat, idle: seq<nat>): (r: (Sim, seq<nat>))
    requires Inv(sim) && Unvisited(sim, queue, j) && IdleList(sim, idle) && j < |queue| && idle != []
    ensures Inv(r.0) && Unvisited(r.0, queue, j + 1) && IdleList(r.0, r.1)
    ensures r.0 == sim.(tasks := r.0.tasks, agents := r.0.agents, active := r.0.active, pending := r.0.pending, solver := r.0.solver)
    ensures r.0.solver.grid == sim.solver.grid && SameRoutes(sim.tasks, r.0.tasks)
    ensures forall t :: t in r.0.pending ==> t in sim.pending
    ensures forall a :: 0 <= a < |sim.agents| ==> Kept(sim.agents[a], r.0.agents[a])
    ensures forall t :: t in sim.pending && t != queue[j] ==> t in r.0.pending
    ensures forall x :: x in r.1 ==> x in idle
  {
    var id := queue[j];
    assert forall m :: 0 <= m < |idle| ==> idle[m] in idle;
    var k := Pick(dist, id, idle);
    if DistOf(dist, id, idle[k]) == Unreached then
      (sim, idle)
    else
      var next := AssignOne(sim, id, idle[k]);
      AssignStep(sim, queue, j, idle, k, next);
      (next, idle[..k] + idle[k + 1..])
  }

  /** The greedy loop over the pending tasks in order, from the `j`-th on,
      stopping once no agent is idle. */
  function AssignFrom(sim: Sim, dist: Distances, queue: seq<nat>, j: nat, idle: seq<nat>): (r: Sim)
    requires Inv(sim) && Unvisited(sim, queue, j) && IdleList(sim, idle)
    ensures Inv(r)
    ensures r == sim.(tasks := r.tasks, agents := r.agents, active := r.active, pending := r.pending, solver := r.solver)
    ensures r.solver.grid == sim.solver.grid && SameRoutes(sim.tasks, r.tasks)
    ensures forall t :: t in r.pending ==> t in sim.pending
    ensures |r.agents| == |sim.agents| && forall a :: 0 <= a < |sim.agents| ==> Kept(sim.agents[a], r.agents[a])
    decreases |queue| - j
  {
    if j == |queue| || idle == [] then sim
    else
      var v := Visit(sim, dist, queue, j, idle);
      var r := AssignFrom(v.0, dist, queue, j + 1, v.1);
      KeptTrans(sim, v.0, r);
      r
  }

  /** Two stretches of assignment make one: routes stay, and no agent
      leaves a task or takes a second. */
  lemma KeptTrans(a: Sim, b: Sim, c: Sim)
    requires SameRoutes(a.tasks, b.tasks) && SameRoutes(b.tasks, c.tasks)
    requires |b.agents| == |a.agents| && |c.agents| == |b.agents|
    requires forall x :: 0 <= x < |a.agents| ==> Kept(a.agents[x], b.agents[x])
    requires forall x :: 0 <= x < |b.agents| ==> Kept(b.agents[x], c.agents[x])
    ensures SameRoutes(a.tasks, c.tasks)
    ensures forall x :: 0 <= x < |a.agents| ==> Kept(a.agents[x], c.agents[x])
  {
    SameRoutesTrans(a.tasks, b.tasks, c.tasks);
  }

  /** During assignment an agent keeps its record, or goes from idle to
      heading for a pickup. */
  ghost predicate Kept(a: AgentInfo, b: AgentInfo) {
    b == a || (a.state == Idle && b.state == MovingToPickup)
  }

  lemma SameRoutesTrans(a: map<nat, Task>, b: map<nat, Task>, c: map<nat, Task>)
    requires SameRoutes(a, b) && SameRoutes(b, c)
    ensures SameRoutes(a, c)
  {
  }

  lemma AssignStep(sim: Sim, queue: seq<nat>, j: nat, idle: seq<nat>, k: nat, next: Sim)
    requires Inv(sim) && Unvisited(sim, queue, j) && IdleList(sim, idle) && j < |queue| && k < |idle|
    requires idle[k] < |sim.agents| && queue[j] in sim.pending && Inv(next)
    requires next.agents == sim.agents[idle[k] := AgentInfo(idle[k], MovingToPickup, Some(queue[j]))]
    requires forall t :: t in next.pending <==> t in sim.pending && t != queue[j]
    ensures Unvisited(next, queue, j + 1) && IdleList(next, idle[..k] + idle[k + 1..])
    ensures forall a :: 0 <= a < |sim.agents| ==> Kept(sim.agents[a], next.agents[a])
    ensures forall x :: x in idle[..k] + idle[k + 1..] ==> x in idle
  {
    var rest := idle[..k] + idle[k + 1..];
    assert idle[k] in idle;
    assert forall m :: 0 <= m < |rest| ==> rest[m] == if m < k then idle[m] else idle[m + 1];
    forall x: nat
      ensures x in rest <==> x < |next.agents| && next.agents[x].state == Idle
    {
      if x in rest {
        var m :| 0 <= m < |rest| && rest[m] == x;
        var m' := if m < k then m else m + 1;
        assert idle[m'] == x && m' != k;
        assert x in idle && x != idle[k];
      }
      if x < |next.agents| && next.agents[x].state == Idle {
        assert x != idle[k] && sim.agents[x] == next.agents[x];
        var m :| 0 <= m < |idle| && idle[m] == x;
        assert m != k;
        assert rest[if m < k then m else m - 1] == x;
      }
    }
  }

  /** The greedy assignment over the whole pending list, with the pickup
      distances of the current positions. */
  function AssignTasks(sim: Sim): (r: Sim)
    requires Inv(sim)
    ensures Inv(r)
    ensures r.config == sim.config && r.priorities == sim.priorities && r.completed == sim.completed
    ensures r.counter == sim.counter && r.timestep == sim.timestep
    ensures r.pickups == sim.pickups && r.deliveries == sim.deliveries && r.solver.grid == sim.solver.grid
    ensures forall t :: t in r.pending ==> t in sim.pending
    ensures forall a :: 0 <= a < |sim.agents| ==> Kept(sim.agents[a], r.agents[a])
  {
    ExactlyOnePending(sim);
    AssignFrom(sim, PickupTable(sim), sim.pending, 0, IdleAgents(sim.agents))
  }

  /** The pending list holds no task twice. */
  lemma ExactlyOnePending(sim: Sim)
    requires Inv(sim)
    ensures Unvisited(sim, sim.pending, 0)
  {
    forall a, b | 0 <= a < b < |sim.pending|
      ensures sim.pending[a] != sim.pending[b]
    {
      ExactlyOne(sim, sim.pending[a]);
      TwiceCounted(sim.pending, a, b);
    }
  }

  /** Two equal entries count twice in the multiset. */
  lemma TwiceCounted(s: seq<nat>, a: nat, b: nat)
    requires a < b < |s|
    ensures s[a] == s[b] ==> multiset(s)[s[a]] >= 2
  {
    var x := s[a];
    assert s == s[..b] + [s[b]] + s[b + 1..];
    assert x in s[..b];
  }

  // ---------------------------------------------------------------------
  // What the assignment achieves
  // ---------------------------------------------------------------------

  /** A turn that leaves its task pending changes nothing, and then no
      idle agent is closer to the pickup than the unreached marker. */
  lemma VisitStays(sim: Sim, dist: Distances, queue: seq<nat>, j: nat, idle: seq<nat>)
    requires Inv(sim) && Unvisited(sim, queue, j) && IdleList(sim, idle) && j < |queue| && idle != []
    requires queue[j] in Visit(sim, dist, queue, j, idle).0.pending
    ensures Visit(sim, dist, queue, j, idle) == (sim, idle)
    ensures forall a :: a in idle ==> DistOf(dist, queue[j], a) >= Unreached
  {
    var k := Pick(dist, queue[j], idle);
    assert forall a :: a in idle ==> exists m :: 0 <= m < |idle| && idle[m] == a;
  }

  /** A task every idle agent finds unreached stays pending. */
  lemma VisitUnreached(sim: Sim, dist: Distances, queue: seq<nat>, j: nat, idle: seq<nat>)
    requires Inv(sim) && Unvisited(sim, queue, j) && IdleList(sim, idle) && j < |queue| && idle != []
    requires forall a :: 0 <= a < |sim.agents| && sim.agents[a].state == Idle ==> DistOf(dist, queue[j], a) == Unreached
    ensures queue[j] in Visit(sim, dist, queue, j, idle).0.pending
  {
    var k := Pick(dist, queue[j], idle);
    assert idle[k] in idle;
  }

  /** A turn that assigns its task gives it to the first idle agent at the
      smallest distance from the pickup, which is not the unreached
      marker. */
  lemma VisitAssigns(sim: Sim, dist: Distances, queue: seq<nat>, j: nat, idle: seq<nat>)
    requires Inv(sim) && Unvisited(sim, queue, j) && IdleList(sim, idle) && j < |queue| && idle != []
    requires queue[j] !in Visit(sim, dist, queue, j, idle).0.pending
    ensures var id, k := queue[j], Pick(dist, queue[j], idle);
            var r := Visit(sim, dist, queue, j, idle).0;
            && DistOf(dist, id, idle[k]) != Unreached
            && idle[k] < |r.agents| && r.agents[idle[k]] == AgentInfo(idle[k], MovingToPickup, Some(id))
            && id in r.tasks && r.tasks[id].assignedTo == Some(idle[k])
  {
    assert forall m :: 0 <= m < |idle| ==> idle[m] in idle;
  }

  /** The loop ends at once when the queue is exhausted or nobody is
      idle. */
  lemma AssignFromDone(sim: Sim, dist: Distances, queue: seq<nat>, j: nat, idle: seq<nat>)
    requires Inv(sim) && Unvisited(sim, queue, j) && IdleList(sim, idle)
    requires j == |queue| || idle == []
    ensures AssignFrom(sim, dist, queue, j, idle) == sim
  {
  }

  /** The loop after one turn: the turn's state, and the rest of the loop
      run from it. */
  lemma AssignFromStep(sim: Sim, dist: Distances, queue: seq<nat>, j: nat, idle: seq<nat>) returns (v: (Sim, seq<nat>))
    requires Inv(sim) && Unvisited(sim, queue, j) && IdleList(sim, idle) && j < |queue| && idle != []
    ensures v == Visit(sim, dist, queue, j, idle)
    ensures Inv(v.0) && Unvisited(v.0, queue, j + 1) && IdleList(v.0, v.1)
    ensures AssignFrom(sim, dist, queue, j, idle) == AssignFrom(v.0, dist, queue, j + 1, v.1)
    ensures forall t :: t in sim.pending && t != queue[j] ==> t in v.0.pending
    ensures forall a :: 0 <= a < |sim.agents| ==> Kept(sim.agents[a], v.0.agents[a])
  {
    v := Visit(sim, dist, queue, j, idle);
  }

  /** After the loop, a task of the queue that is still pending has no idle
      agent closer to its pickup than the unreached marker: the greedy
      pass leaves no assignment it could have made. */
  lemma {:induction false} AssignFromMaximal(sim: Sim, dist: Distances, queue: seq<nat>, j: nat, idle: seq<nat>)
    requires Inv(sim) && Unvisited(sim, queue, j) && IdleList(sim, idle)
    ensures var r := AssignFrom(sim, dist, queue, j, idle);
            forall k, a :: j <= k < |queue| && queue[k] in r.pending && 0 <= a < |sim.agents| && r.agents[a].state == Idle ==>
              DistOf(dist, queue[k], a) >= Unreached
    decreases |queue| - j, 1
  {
    if j == |queue| || idle == [] {
      AssignFromDone(sim, dist, queue, j, idle);
    } else {
      MaximalStep(sim, dist, queue, j, idle);
    }
  }

  lemma {:induction false} MaximalStep(sim: Sim, dist: Distances, queue: seq<nat>, j: nat, idle: seq<nat>)
    requires Inv(sim) && Unvisited(sim, queue, j) && IdleList(sim, idle) && j < |queue| && idle != []
    ensures var r := AssignFrom(sim, dist, queue, j, idle);
            forall k, a :: j <= k < |queue| && queue[k] in r.pending && 0 <= a < |sim.agents| && r.agents[a].state == Idle ==>
              DistOf(dist, queue[k], a) >= Unreached
    decreases |queue| - j, 0
  {
    var v := AssignFromStep(sim, dist, queue, j, idle);
    AssignFromMaximal(v.0, dist, queue, j + 1, v.1);
    MaximalHead(sim, dist, queue, j, idle);
  }

  /** The turn's own task, if the loop leaves it pending, had every agent
      idle at the end at the unreached marker. */
  lemma MaximalHead(sim: Sim, dist: Distances, queue: seq<nat>, j: nat, idle: seq<nat>)
    requires Inv(sim) && Unvisited(sim, queue, j) && IdleList(sim, idle) && j < |queue| && idle != []
    ensures var r := AssignFrom(sim, dist, queue, j, idle);
            queue[j] in r.pending ==>
              forall a :: 0 <= a < |sim.agents| && r.agents[a].state == Idle ==> DistOf(dist, queue[j], a) >= Unreached
  {
    var v := AssignFromStep(sim, dist, queue, j, idle);
    var r := AssignFrom(v.0, dist, queue, j + 1, v.1);
    if queue[j] in r.pending {
      VisitStays(sim, dist, queue, j, idle);
      forall a | 0 <= a < |sim.agents| && r.agents[a].state == Idle
        ensures DistOf(dist, queue[j], a) >= Unreached
      {
        assert Kept(v.0.agents[a], r.agents[a]);
      }
    }
  }

  /** A task of the queue whose pickup every idle agent finds unreached
      stays pending. */
  lemma {:induction false} AssignFromUnreachable(sim: Sim, dist: Distances, queue: seq<nat>, j: nat, idle: seq<nat>, k: nat)
    requires Inv(sim) && Unvisited(sim, queue, j) && IdleList(sim, idle) && j <= k < |queue|
    requires forall a :: 0 <= a < |sim.agents| && sim.agents[a].state == Idle ==> DistOf(dist, queue[k], a) == Unreached
    ensures queue[k] in AssignFrom(sim, dist, queue, j, idle).pending
    decreases |queue| - j, 1
  {
    if idle == [] {
      AssignFromDone(sim, dist, queue, j, idle);
    } else {
      UnreachableStep(sim, dist, queue, j, idle, k);
    }
  }

  lemma {:induction false} UnreachableStep(sim: Sim, dist: Distances, queue: seq<nat>, j: nat, idle: seq<nat>, k: nat)
    requires Inv(sim) && Unvisited(sim, queue, j) && IdleList(sim, idle) && j <= k < |queue| && idle != []
    requires forall a :: 0 <= a < |sim.agents| && sim.agents[a].state == Idle ==> DistOf(dist, queue[k], a) == Unreached
    ensures queue[k] in AssignFrom(sim, dist, queue, j, idle).pending
    decreases |queue| - j, 0
  {
    var v := AssignFromStep(sim, dist, queue, j, idle);
    if k == j {
      VisitUnreached(sim, dist, queue, j, idle);
      AssignFromKeeps(v.0, dist, queue, j + 1, v.1, queue[j]);
    } else {
      forall a | 0 <= a < |sim.agents| && v.0.agents[a].state == Idle
        ensures DistOf(dist, queue[k], a) == Unreached
      {
        assert Kept(sim.agents[a], v.0.agents[a]);
      }
      AssignFromUnreachable(v.0, dist, queue, j + 1, v.1, k);
    }
  }

  /** A pending task the loop does not reach stays pending. */
  lemma {:induction false} AssignFromKeeps(sim: Sim, dist: Distances, queue: seq<nat>, j: nat, idle: seq<nat>, t: nat)
    requires Inv(sim) && Unvisited(sim, queue, j) && IdleList(sim, idle)
    requires t in sim.pending && forall k :: j <= k < |queue| ==> queue[k] != t
    ensures t in AssignFrom(sim, dist, queue, j, idle).pending
    decreases |queue| - j, 1
  {
    if j == |queue| || idle == [] {
      AssignFromDone(sim, dist, queue, j, idle);
    } else {
      KeepsStep(sim, dist, queue, j, idle, t);
    }
  }

  lemma {:induction false} KeepsStep(sim: Sim, dist: Distances, queue: seq<nat>, j: nat, idle: seq<nat>, t: nat)
    requires Inv(sim) && Unvisited(sim, queue, j) && IdleList(sim, idle) && j < |queue| && idle != []
    requires t in sim.pending && forall k :: j <= k < |queue| ==> queue[k] != t
    ensures t in AssignFrom(sim, dist, queue, j, idle).pending
    decreases |queue| - j, 0
  {
    var v := AssignFromStep(sim, dist, queue, j, idle);
    AssignFromKeeps(v.0, dist, queue, j + 1, v.1, t);
  }

  /** The greedy pass over the whole pending list leaves no assignment it
      could have made: an agent still idle is at the unreached marker from
      the pickup of every task still pending. */
  lemma AssignTasksMaximal(sim: Sim, t: nat, a: nat)
    requires Inv(sim) && a < |sim.agents|
    requires t in AssignTasks(sim).pending && AssignTasks(sim).agents[a].state == Idle
    ensures PickupDist(sim, t, a) >= Unreached
  {
    var dist := PickupTable(sim);
    ExactlyOnePending(sim);
    MaximalAt(sim, dist, sim.pending, IdleAgents(sim.agents), t, a);
  }

  /** `AssignFromMaximal` for one task and agent, over a whole queue. */
  lemma MaximalAt(sim: Sim, dist: Distances, queue: seq<nat>, idle: seq<nat>, t: nat, a: nat)
    requires Inv(sim) && Unvisited(sim, queue, 0) && IdleList(sim, idle) && t in queue && a < |sim.agents|
    requires var r := AssignFrom(sim, dist, queue, 0, idle);
             t in r.pending && r.agents[a].state == Idle
    ensures DistOf(dist, t, a) >= Unreached
  {
    AssignFromMaximal(sim, dist, queue, 0, idle);
    var k :| 0 <= k < |queue| && queue[k] == t;
  }

  /** A pending task whose pickup no idle agent can reach stays pending. */
  lemma AssignTasksUnreachable(sim: Sim, t: nat)
    requires Inv(sim) && t in sim.pending
    requires forall a :: 0 <= a < |sim.agents| && sim.agents[a].state == Idle ==> PickupDist(sim, t, a) == Unreached
    ensures t in AssignTasks(sim).pending
  {
    var dist := PickupTable(sim);
    ExactlyOnePending(sim);
    var k :| 0 <= k < |sim.pending| && sim.pending[k] == t;
    AssignFromUnreachable(sim, dist, sim.pending, 0, IdleAgents(sim.agents), k);
  }

  /** A task that leaves the pending list becomes active, held by an agent
      that was idle and now heads for the task's pickup cell. */
  lemma AssignTasksMoved(sim: Sim, t: nat)
    requires Inv(sim) && t in sim.pending && t !in AssignTasks(sim).pending
    ensures var r := AssignTasks(sim);
            && t in r.active && t in r.tasks && r.tasks[t].assignedTo.Some?
            && var b := r.tasks[t].assignedTo.value;
               && b < |sim.agents| && sim.agents[b].state == Idle
               && r.agents[b] == AgentInfo(b, MovingToPickup, Some(t))
               && r.solver.goals[b] == r.tasks[t].pickup
  {
    var r := AssignTasks(sim);
    ExactlyOne(sim, t);
    ExactlyOne(r, t);
    assert TasksOk(r);
    var b := r.tasks[t].assignedTo.value;
    assert AgentOk(r, b) && AgentOk(sim, b);
    assert Kept(sim.agents[b], r.agents[b]);
  }

  // ---------------------------------------------------------------------
  // One tick
  // ---------------------------------------------------------------------

  /** One tick of the simulation. The clock advances; the tick's arrivals,
      given as station indices, become pending tasks created at the new
      time; agents on their pickup or delivery cell advance their task;
      idle agents are matched to pending tasks; every agent off its goal
      gains one unit of priority and every agent on it keeps the
      fractional part; then the planner moves every agent at most one
      cell. The priorities are updated from the positions before the move
      and the goals after the matching. */
  method Tick(sim: Sim, arrivals: seq<(nat, nat)>) returns (r: Sim)
    requires Inv(sim)
    requires forall j :: 0 <= j < |arrivals| ==> arrivals[j].0 < |sim.pickups| && arrivals[j].1 < |sim.deliveries|
    ensures Inv(r)
    ensures r.timestep == sim.timestep + 1 && r.counter == sim.counter + |arrivals|
    ensures r.pickups == sim.pickups && r.deliveries == sim.deliveries
    ensures |r.config| == |sim.config| && forall i :: 0 <= i < |r.config| ==> Manhattan(sim.config[i], r.config[i]) <= 1
    ensures r.priorities == UpdatePriorities(sim.priorities, sim.config, r.solver.goals)
    ensures var s := Bookkeep(sim, arrivals);
            && r == s.(config := r.config, solver := r.solver, priorities := r.priorities)
            && r.solver.goals == s.solver.goals
            && (r.config, r.solver) == Advance(s.solver, s.config, Plan(s.solver, s.config, r.priorities).ops)
  {
    var s := Bookkeep(sim, arrivals);
    r := Move(s);
  }

  /** The part of a tick after the bookkeeping: the priorities are updated
      from the current positions and goals, and the planner moves every
      agent at most one cell along its plan. Nothing else changes. */
  method Move(s: Sim) returns (r: Sim)
    requires Inv(s)
    ensures Inv(r)
    ensures r == s.(config := r.config, solver := r.solver, priorities := r.priorities)
    ensures r.solver.goals == s.solver.goals
    ensures r.priorities == UpdatePriorities(s.priorities, s.config, s.solver.goals)
    ensures |r.config| == |s.config| && forall i :: 0 <= i < |r.config| ==> Manhattan(s.config[i], r.config[i]) <= 1
    ensures (r.config, r.solver) == Advance(s.solver, s.config, Plan(s.solver, s.config, r.priorities).ops)
  {
    var prio := UpdatePriorities(s.priorities, s.config, s.solver.goals);
    var q, next, plan := Step(s.solver, s.config, prio);
    r := s.(config := q, solver := next, priorities := prio);
    MoveInv(s, r);
  }

  /** The part of a tick before the move: the clock advances, the arrivals
      become tasks, arrivals at stations are checked and idle agents are
      matched. No agent moves and no priority changes. */
  function Bookkeep(sim: Sim, arrivals: seq<(nat, nat)>): (r: Sim)
    requires Inv(sim)
    requires forall j :: 0 <= j < |arrivals| ==> arrivals[j].0 < |sim.pickups| && arrivals[j].1 < |sim.deliveries|
    ensures Inv(r)
    ensures r.timestep == sim.timestep + 1 && r.counter == sim.counter + |arrivals|
    ensures r.pickups == sim.pickups && r.deliveries == sim.deliveries
    ensures r.config == sim.config && r.priorities == sim.priorities
  {
    var s0 := sim.(timestep := sim.timestep + 1);
    ClockInv(sim, s0);
    GenerateTasksInv(s0, arrivals);
    AssignTasks(CheckArrivals(GenerateTasks(s0, arrivals)))
  }

  /** The clock is not part of the invariants. */
  lemma ClockInv(sim: Sim, r: Sim)
    requires Inv(sim) && r == sim.(timestep := r.timestep)
    ensures Inv(r)
  {
    assert Shape(r);
    forall i | 0 <= i < |r.agents|
      ensures AgentOk(r, i)
    {
      assert AgentOk(sim, i);
    }
  }

  /** Moving agents onto valid cells with non-negative priorities keeps the
      invariants: the goals, the agents' records and the tasks stay as
      they were. */
  lemma MoveInv(s: Sim, r: Sim)
    requires Inv(s)
    requires r == s.(config := r.config, solver := r.solver, priorities := r.priorities)
    requires r.solver == s.solver.(orientations := r.solver.orientations, inherited := r.solver.inherited) && r.solver.Wf()
    requires |r.config| == |s.config| && |r.priorities| == |s.priorities|
    requires forall i :: 0 <= i < |r.config| && r.config[i] != s.config[i] ==> IsValidCoord(s.solver.grid, r.config[i])
    requires forall i :: 0 <= i < |r.priorities| ==> r.priorities[i] >= 0.0
    ensures Inv(r)
  {
    forall i | 0 <= i < |r.config|
      ensures IsValidCoord(r.solver.grid, r.config[i])
    {
      assert IsValidCoord(s.solver.grid, s.config[i]);
    }
    assert r.solver.goals == s.solver.goals && r.solver.grid == s.solver.grid;
    assert Shape(r);
    forall i | 0 <= i < |r.agents|
      ensures AgentOk(r, i)
    {
      assert AgentOk(s, i);
    }
  }
}

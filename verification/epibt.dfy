/** The recursive operation selection of Enhanced PIBT: an agent tries its
    candidates in order, takes the first whose path is free, and may push a
    single lower-priority agent off its path, asking that agent in turn to
    choose again; a failed push is undone and the next candidate tried. */
module Epibt {
  import opened Common
  import opened Grid
  import opened Operations
  import opened Reservation
  import opened Candidates

  /** The solver's state that persists from one step to the next. The
      distance tables are not stored: `Distance` is the answer any of them
      gives (see `DistTable.CacheIndependent`). */
  datatype Solver = Solver(
    grid: Grid,
    goals: seq<Coord>,
    opLen: nat,
    maxRevisits: nat,
    operations: seq<Operation>,
    orientations: seq<Orientation>,
    inherited: seq<Operation>)
  {
    ghost predicate Wf() {
      && grid.Wf()
      && opLen >= 1
      && |orientations| == |goals| && |inherited| == |goals|
      && (forall i :: 0 <= i < |goals| ==> InBounds(grid, goals[i]))
      && (forall i :: 0 <= i < |inherited| ==> |inherited[i]| == opLen)
      && (forall i :: 0 <= i < |operations| ==> |operations[i]| == opLen)
    }
  }

  /** A fresh solver: the pruned operations of length `opLen`, every agent
      inheriting all waits. The orientations, drawn at random by
      `PIBT.__init__`, are an input. */
  function NewSolver(grid: Grid, goals: seq<Coord>, orientations: seq<Orientation>, opLen: nat, maxRevisits: nat): (sv: Solver)
    requires grid.Wf() && opLen >= 1 && |orientations| == |goals|
    requires forall i :: 0 <= i < |goals| ==> InBounds(grid, goals[i])
    ensures sv.Wf() && sv.goals == goals && sv.orientations == orientations
    ensures sv.grid == grid && sv.opLen == opLen && sv.maxRevisits == maxRevisits
    ensures forall op :: op in sv.operations <==> |op| == opLen && Pruned(op)
    ensures forall i :: 0 <= i < |goals| ==> sv.inherited[i] == Waits(opLen)
  {
    var ops := GenerateOperations(opLen).value;
    Solver(grid, goals, opLen, maxRevisits, ops, orientations, seq(|goals|, _ => Waits(opLen)))
  }

  /** The state of one step's planning: the configuration planned from;
      for each agent its sorted candidates and its fallback path, both fixed
      for the step since they depend only on the agent's start cell,
      orientation, goal and inherited operation; the priorities; per-agent
      visit counts and in-progress flags; each agent's current operation
      and path; and the reservations. */
  datatype Round = Round(
    qFrom: seq<Coord>,
    cands: seq<seq<Candidate>>,
    fallback: seq<seq<Coord>>,
    priorities: seq<real>,
    visit: seq<nat>,
    hit: seq<bool>,
    ops: seq<Operation>,
    paths: seq<seq<Coord>>,
    reserved: Table)

  ghost predicate RoundWf(sv: Solver, st: Round) {
    && sv.Wf()
    && |st.qFrom| == |sv.goals| && |st.cands| == |sv.goals| && |st.fallback| == |sv.goals|
    && |st.priorities| == |sv.goals| && |st.visit| == |sv.goals|
    && |st.hit| == |sv.goals| && |st.ops| == |sv.goals| && |st.paths| == |sv.goals|
  }

  /** Every reserved slot lies on the current path of its holder. */
  ghost predicate Owned(st: Round) {
    forall s :: s in st.reserved ==> st.reserved[s] < |st.paths| && OnPath(st.paths[st.reserved[s]], s)
  }

  /** `k` holds no slot. */
  ghost predicate Free(tab: Table, k: nat) {
    forall s :: s in tab ==> tab[s] != k
  }

  /** Agent `j` holds no slot in `b` that it did not hold in `a`. */
  ghost predicate Shrinks(a: Table, b: Table, j: nat) {
    forall s :: s in b && b[s] == j ==> s in a && a[s] == j
  }

  lemma ShrinksTrans(a: Table, b: Table, c: Table, j: nat)
    requires Shrinks(a, b, j) && Shrinks(b, c, j)
    ensures Shrinks(a, c, j)
  {
    forall s | s in c && c[s] == j
      ensures s in a && a[s] == j
    {
      assert s in b && b[s] == j;
    }
  }

  /** The path of an agent whose selection fails: the cells of its inherited
      operation, or standing still for the whole window when that operation
      is blocked. */
  function FallbackPath(sv: Solver, coord: Coord, k: nat): (path: seq<Coord>)
    requires sv.Wf() && k < |sv.goals|
    ensures |path| == sv.opLen + 1 && path[0] == coord
    ensures ComputeCellPath(sv.grid, coord, sv.orientations[k], sv.inherited[k]).Some? ==>
              path == ComputeCellPath(sv.grid, coord, sv.orientations[k], sv.inherited[k]).value.cells
    ensures ComputeCellPath(sv.grid, coord, sv.orientations[k], sv.inherited[k]).None? ==>
              forall t :: 0 <= t < |path| ==> path[t] == coord
  {
    match ComputeCellPath(sv.grid, coord, sv.orientations[k], sv.inherited[k])
    case Some(cp) => cp.cells
    case None => Stay(coord, sv.opLen + 1)
  }

  /** Agent `i`, standing on `coord` with candidates `cs` and fallback path
      `fb`, has an operation and a path that agree: one of its candidates,
      the inherited operation with the fallback path, or all waits in
      place. */
  ghost predicate PlanOk(sv: Solver, i: nat, coord: Coord, cs: seq<Candidate>, fb: seq<Coord>, op: Operation, path: seq<Coord>)
    requires sv.Wf() && i < |sv.goals|
  {
    || Candidate(op, path) in cs
    || (op == sv.inherited[i] && path == fb)
    || (op == Waits(sv.opLen) && path == Stay(coord, sv.opLen + 1))
  }

  ghost predicate AllPlanned(sv: Solver, st: Round) {
    RoundWf(sv, st) && forall i :: 0 <= i < |sv.goals| ==>
      PlanOk(sv, i, st.qFrom[i], st.cands[i], st.fallback[i], st.ops[i], st.paths[i])
  }

  /** What a selection for `k` with initiator priority `p` promises about
      the other agents, whatever its outcome: visits only grow; an agent
      whose visit count did not change keeps its operation and path and
      gains no slot; an agent whose count changed was not in progress, had
      priority below `p`, and stays within the revisit budget. */
  ghost predicate Keeps(sv: Solver, st: Round, r: Round, k: nat, p: real) {
    && RoundWf(sv, st) && RoundWf(sv, r)
    && r.qFrom == st.qFrom && r.cands == st.cands && r.fallback == st.fallback && r.priorities == st.priorities
    && (forall j :: 0 <= j < |st.visit| ==> st.visit[j] <= r.visit[j])
    && (forall j :: 0 <= j < |st.visit| && j != k && r.visit[j] == st.visit[j] ==>
          r.ops[j] == st.ops[j] && r.paths[j] == st.paths[j] && Shrinks(st.reserved, r.reserved, j))
    && (forall j :: 0 <= j < |st.visit| && j != k && r.visit[j] != st.visit[j] ==>
          !st.hit[j] && st.priorities[j] < p && r.visit[j] <= sv.maxRevisits)
  }

  lemma KeepsTrans(sv: Solver, a: Round, b: Round, c: Round, k: nat, p: real)
    requires RoundWf(sv, a) && RoundWf(sv, b) && RoundWf(sv, c)
    requires Keeps(sv, a, b, k, p) && Keeps(sv, b, c, k, p) && b.hit == a.hit
    ensures Keeps(sv, a, c, k, p)
  {
    forall j | 0 <= j < |a.visit| && j != k && c.visit[j] == a.visit[j]
      ensures Shrinks(a.reserved, c.reserved, j)
    {
      assert b.visit[j] == a.visit[j];
      ShrinksTrans(a.reserved, b.reserved, c.reserved, j);
    }
  }

  // ---------------------------------------------------------------------
  // The revisit budget
  // ---------------------------------------------------------------------

  /** The visits still allowed before every agent reaches `cap`, one pair
      (agent, visit count) per allowed visit. */
  ghost function Budget(visit: seq<nat>, cap: nat): set<(nat, nat)> {
    set j: nat, v: nat | j < |visit| && visit[j] <= v < cap :: (j, v)
  }

  /** More visits leave less budget. */
  lemma BudgetMono(a: seq<nat>, b: seq<nat>, cap: nat)
    requires |a| == |b| && forall j :: 0 <= j < |a| ==> a[j] <= b[j]
    ensures Budget(b, cap) <= Budget(a, cap)
  {
  }

  /** A visit to an agent below the cap uses up one unit of budget. */
  lemma BudgetInc(a: seq<nat>, k: nat, cap: nat)
    requires k < |a| && a[k] < cap
    ensures Budget(a[k := a[k] + 1], cap) < Budget(a, cap)
  {
    assert (k, a[k]) in Budget(a, cap);
  }

  // ---------------------------------------------------------------------
  // Selection
  // ---------------------------------------------------------------------

  /** The single element of a one-element set. */
  function Only(s: set<nat>): (x: nat)
    requires |s| == 1
    ensures s == {x}
  {
    var x :| x in s;
    assert |s - {x}| == 0;
    x
  }

  /** Chooses an operation for agent `k`: counts the visit, marks `k` in
      progress, and tries its sorted candidates. On success `k` holds one of
      its candidates; on failure it falls back to its inherited operation
      and holds no slot. Either way it is no longer in progress and its
      visit count is one higher. */
  function Select(sv: Solver, st: Round, k: nat, p: real): (res: (bool, Round))
    requires RoundWf(sv, st) && k < |sv.goals|
    requires Owned(st) && AllPlanned(sv, st) && Free(st.reserved, k) && !st.hit[k]
    ensures RoundWf(sv, res.1) && Owned(res.1) && AllPlanned(sv, res.1)
    ensures Keeps(sv, st, res.1, k, p)
    ensures res.1.hit == st.hit && res.1.visit[k] == st.visit[k] + 1
    ensures res.0 ==> Candidate(res.1.ops[k], res.1.paths[k]) in st.cands[k]
    ensures !res.0 ==> res.1.ops[k] == sv.inherited[k] && res.1.paths[k] == st.fallback[k] && Free(res.1.reserved, k)
    ensures |st.cands[k]| > 0 && GetConflicts(st.reserved, k, st.cands[k][0].path) == {} ==>
              res.0 && res.1.ops[k] == st.cands[k][0].op && res.1.paths[k] == st.cands[k][0].path
    decreases Budget(st.visit[k := st.visit[k] + 1], sv.maxRevisits), 1, 0, 0
  {
    var entered := st.(visit := st.visit[k := st.visit[k] + 1], hit := st.hit[k := true]);
    var res := TryCandidates(sv, entered, k, p, 0);
    EnterKeeps(sv, st, entered, res.1, k, p);
    res
  }

  /** What trying the candidates of `k`, which is in progress, promises: a
      consistent state, the other agents kept as `Keeps` says, `k` no
      longer in progress and not visited again; on success `k` holds one
      of its candidates, on failure its fallback and no slot. */
  ghost predicate Outcome(sv: Solver, st: Round, k: nat, p: real, res: (bool, Round)) {
    var r := res.1;
    && RoundWf(sv, st) && k < |sv.goals|
    && RoundWf(sv, r) && Owned(r) && AllPlanned(sv, r)
    && Keeps(sv, st, r, k, p)
    && r.hit == st.hit[k := false] && r.visit[k] == st.visit[k]
    && (res.0 ==> Candidate(r.ops[k], r.paths[k]) in st.cands[k])
    && (!res.0 ==> r.ops[k] == sv.inherited[k] && r.paths[k] == st.fallback[k] && Free(r.reserved, k))
  }

  /** What the initiator `k` makes of one candidate: its path is free; it
      is passed over; or it is in the way of a single agent `l` that may be
      pushed. */
  datatype Verdict = Open | Pass | Contested(l: nat)

  /** Agent `l` may be pushed by an initiator of priority `p`: it is not in
      progress, has visits left and has lower priority. */
  predicate Pushable(sv: Solver, st: Round, l: nat, p: real)
    requires RoundWf(sv, st)
  {
    l < |sv.goals| && !st.hit[l] && st.visit[l] < sv.maxRevisits && st.priorities[l] < p
  }

  /** The test the selection makes of a candidate whose path is in the way
      of the agents `conflicts`: none, more than one, or one agent that is
      in progress, out of visits or not of lower priority. */
  function Judge(sv: Solver, st: Round, p: real, conflicts: set<nat>): (v: Verdict)
    requires RoundWf(sv, st)
    ensures v.Open? <==> conflicts == {}
    ensures v.Pass? <==> conflicts != {} && (|conflicts| > 1 || forall l :: l in conflicts ==> !Pushable(sv, st, l, p))
    ensures v.Contested? ==> conflicts == {v.l} && Pushable(sv, st, v.l, p)
  {
    if conflicts == {} then Open
    else if |conflicts| > 1 then Pass
    else
      var l := Only(conflicts);
      if Pushable(sv, st, l, p) then Contested(l) else Pass
  }

  /** The verdict on each candidate of `k`, in order. */
  function Verdicts(sv: Solver, st: Round, k: nat, p: real): (vs: seq<Verdict>)
    requires RoundWf(sv, st) && k < |sv.goals|
    ensures |vs| == |st.cands[k]|
  {
    seq(|st.cands[k]|, i requires 0 <= i < |st.cands[k]| =>
      Judge(sv, st, p, GetConflicts(st.reserved, k, st.cands[k][i].path)))
  }

  /** The first position from `from` on whose verdict is not `Pass`, or
      `|vs|` when there is none. */
  function FirstTried(vs: seq<Verdict>, from: nat): (j: nat)
    requires from <= |vs|
    ensures from <= j <= |vs|
    ensures forall i :: from <= i < j ==> vs[i].Pass?
    ensures j < |vs| ==> !vs[j].Pass?
    decreases |vs| - from
  {
    if from == |vs| || !vs[from].Pass? then from
    else FirstTried(vs, from + 1)
  }

  /** `FirstTried` is the position its contract describes. */
  lemma {:induction false} FirstTriedIs(vs: seq<Verdict>, from: nat, j: nat)
    requires from <= j <= |vs|
    requires forall i :: from <= i < j ==> vs[i].Pass?
    requires j < |vs| ==> !vs[j].Pass?
    ensures FirstTried(vs, from) == j
    decreases j - from
  {
    if from < j {
      FirstTriedIs(vs, from + 1, j);
    }
  }

  /** The candidates of `k` from the `from`-th on: the first free one is
      taken; one held by a single agent `l` that is not in progress, has
      visits left and has priority below `p` is taken tentatively while `l`
      chooses again (`Push`); with none left, `k` falls back. */
  function TryCandidates(sv: Solver, st: Round, k: nat, p: real, from: nat): (res: (bool, Round))
    requires RoundWf(sv, st) && k < |sv.goals| && from <= |st.cands[k]|
    requires Owned(st) && AllPlanned(sv, st) && Free(st.reserved, k) && st.hit[k]
    ensures Outcome(sv, st, k, p, res)
    ensures from < |st.cands[k]| && GetConflicts(st.reserved, k, st.cands[k][from].path) == {} ==>
              res.0 && res.1.ops[k] == st.cands[k][from].op && res.1.paths[k] == st.cands[k][from].path
    decreases Budget(st.visit, sv.maxRevisits), 0, |st.cands[k]| - from, 2
  {
    var vs := Verdicts(sv, st, k, p);
    var j := FirstTried(vs, from);
    if j == |st.cands[k]| then
      var r := st.(ops := st.ops[k := sv.inherited[k]], paths := st.paths[k := st.fallback[k]],
                   hit := st.hit[k := false]);
      FallBackKeeps(sv, st, r, k, p);
      (false, r)
    else
      var c := st.cands[k][j];
      var v := vs[j];
      if v.Open? then
        var r := st.(ops := st.ops[k := c.op], paths := st.paths[k := c.path],
                     reserved := ReservePath(st.reserved, k, c.path), hit := st.hit[k := false]);
        TakeKeeps(sv, st, r, k, p, c);
        (true, r)
      else
        ConflictHolds(st.reserved, k, c.path, v.l);
        Push(sv, st, k, p, j, v.l)
  }

  /** `k` takes its `from`-th candidate from `l`, the only agent in its way,
      and asks `l` to choose again. If `l` succeeds, so does `k`; if not,
      `k` gives the slots back, `l` gets its old operation and path again,
      and `k` goes on with its next candidate. */
  function Push(sv: Solver, st: Round, k: nat, p: real, from: nat, l: nat): (res: (bool, Round))
    requires RoundWf(sv, st) && k < |sv.goals| && from < |st.cands[k]|
    requires Owned(st) && AllPlanned(sv, st) && Free(st.reserved, k) && st.hit[k]
    requires l != k && exists s :: s in st.reserved && st.reserved[s] == l
    requires !st.hit[l] && st.visit[l] < sv.maxRevisits && st.priorities[l] < p
    ensures Outcome(sv, st, k, p, res)
    decreases Budget(st.visit, sv.maxRevisits), 0, |st.cands[k]| - from, 1
  {
    var c := st.cands[k][from];
    var pushed := PushOff(sv, st, k, l, p, c);
    BudgetInc(st.visit, l, sv.maxRevisits);
    var sub := Select(sv, pushed, l, p);
    var after := sub.1;
    if sub.0 then
      PushWins(sv, st, pushed, after, k, l, p, c);
      (true, after.(hit := after.hit[k := false]))
    else
      SubKeepsK(sv, st, pushed, after, k, l, p, c);
      var restored := Restore(sv, st, pushed, after, k, l, p, c);
      Retry(sv, st, restored, k, p, from)
  }

  /** After a failed push, `k` goes on with the candidate after its
      `from`-th from the restored round. */
  function Retry(sv: Solver, st: Round, restored: Round, k: nat, p: real, from: nat): (res: (bool, Round))
    requires RoundWf(sv, st) && k < |sv.goals| && from < |st.cands[k]| && st.hit[k]
    requires RoundWf(sv, restored) && Owned(restored) && AllPlanned(sv, restored) && Free(restored.reserved, k)
    requires Keeps(sv, st, restored, k, p) && restored.hit == st.hit && restored.visit[k] == st.visit[k]
    ensures Outcome(sv, st, k, p, res)
    decreases Budget(st.visit, sv.maxRevisits), 0, |st.cands[k]| - from, 0
  {
    BudgetMono(st.visit, restored.visit, sv.maxRevisits);
    var res := TryCandidates(sv, restored, k, p, from + 1);
    KeepsTrans(sv, st, restored, res.1, k, p);
    res
  }

  /** `k` takes candidate `c` and `l` loses every slot it held. */
  function PushOff(sv: Solver, st: Round, k: nat, l: nat, p: real, c: Candidate): (pushed: Round)
    requires RoundWf(sv, st) && k < |sv.goals| && Owned(st) && AllPlanned(sv, st) && Free(st.reserved, k)
    requires c in st.cands[k]
    requires l != k && exists s :: s in st.reserved && st.reserved[s] == l
    ensures pushed == st.(ops := st.ops[k := c.op], paths := st.paths[k := c.path], reserved := pushed.reserved)
    ensures l < |sv.goals| && RoundWf(sv, pushed) && Owned(pushed) && AllPlanned(sv, pushed) && Free(pushed.reserved, l)
    ensures forall j :: 0 <= j < |sv.goals| && j != k ==> Shrinks(st.reserved, pushed.reserved, j)
  {
    var pushed := st.(ops := st.ops[k := c.op], paths := st.paths[k := c.path],
                      reserved := ReservePath(UnreservePath(st.reserved, l, st.paths[l]), k, c.path));
    PushReady(sv, st, pushed, k, l, p, c);
    pushed
  }

  /** Undoes a failed push: `k` gives up the slots of `c` and `l` gets its
      old operation and path, and their slots, back. */
  function Restore(sv: Solver, st: Round, pushed: Round, after: Round, k: nat, l: nat, p: real, c: Candidate): (restored: Round)
    requires RoundWf(sv, st) && RoundWf(sv, pushed) && RoundWf(sv, after) && k < |sv.goals| && l < |sv.goals| && l != k
    requires AllPlanned(sv, st) && st.hit[k]
    requires pushed == st.(ops := st.ops[k := c.op], paths := st.paths[k := c.path], reserved := pushed.reserved)
    requires forall j :: 0 <= j < |sv.goals| && j != k ==> Shrinks(st.reserved, pushed.reserved, j)
    requires !st.hit[l] && st.visit[l] < sv.maxRevisits && st.priorities[l] < p
    requires Keeps(sv, pushed, after, l, p) && after.visit[l] == pushed.visit[l] + 1 && after.hit == pushed.hit
    requires Owned(after) && AllPlanned(sv, after) && Free(after.reserved, l)
    requires after.paths[k] == c.path && after.visit[k] == st.visit[k]
    ensures RoundWf(sv, restored) && Owned(restored) && AllPlanned(sv, restored) && Free(restored.reserved, k)
    ensures Keeps(sv, st, restored, k, p) && restored.hit == st.hit && restored.visit[k] == st.visit[k]
    ensures restored.ops[l] == st.ops[l] && restored.paths[l] == st.paths[l]
    ensures forall t :: 0 <= t < |st.paths[l]| ==>
              Slot(t, st.paths[l][t]) in restored.reserved && restored.reserved[Slot(t, st.paths[l][t])] == l
  {
    var restored := after.(ops := after.ops[l := st.ops[l]], paths := after.paths[l := st.paths[l]],
                           reserved := ReservePath(UnreservePath(after.reserved, k, c.path), l, st.paths[l]));
    RestoreKeeps(sv, st, pushed, after, restored, k, l, p, c);
    restored
  }

  // ---------------------------------------------------------------------
  // Which candidate is taken
  // ---------------------------------------------------------------------

  /** The `i`-th candidate of `k` is passed over: its path is in the way of
      more than one agent, or of a single agent that may not be pushed. */
  ghost predicate Skipped(sv: Solver, st: Round, k: nat, p: real, i: nat)
    requires RoundWf(sv, st) && k < |sv.goals| && i < |st.cands[k]|
  {
    var conflicts := GetConflicts(st.reserved, k, st.cands[k][i].path);
    && conflicts != {}
    && (|conflicts| > 1 || forall l :: l in conflicts ==> !Pushable(sv, st, l, p))
  }

  /** The selection's own test passes over exactly the candidates that
      `Skipped` describes. */
  lemma PassedOver(sv: Solver, st: Round, k: nat, p: real, from: nat, j: nat)
    requires RoundWf(sv, st) && k < |sv.goals| && Owned(st) && from <= j <= |st.cands[k]|
    requires forall i :: from <= i < j ==> Skipped(sv, st, k, p, i)
    ensures var vs := Verdicts(sv, st, k, p);
            forall i :: from <= i < j ==> vs[i].Pass?
  {
    var vs := Verdicts(sv, st, k, p);
    forall i | from <= i < j
      ensures vs[i].Pass?
    {
      assert Skipped(sv, st, k, p, i);
    }
  }

  /** When every candidate from the `from`-th up to the `j`-th is passed
      over and the `j`-th is free, `k` takes the `j`-th, reserves its path,
      and nothing else changes. */
  lemma TakesFirstOpen(sv: Solver, st: Round, k: nat, p: real, from: nat, j: nat)
    requires RoundWf(sv, st) && k < |sv.goals| && from <= j < |st.cands[k]|
    requires Owned(st) && AllPlanned(sv, st) && Free(st.reserved, k) && st.hit[k]
    requires forall i :: from <= i < j ==> Skipped(sv, st, k, p, i)
    requires GetConflicts(st.reserved, k, st.cands[k][j].path) == {}
    ensures var c := st.cands[k][j];
            TryCandidates(sv, st, k, p, from)
            == (true, st.(ops := st.ops[k := c.op], paths := st.paths[k := c.path],
                          reserved := ReservePath(st.reserved, k, c.path), hit := st.hit[k := false]))
  {
    PassedOver(sv, st, k, p, from, j);
    var vs := Verdicts(sv, st, k, p);
    FirstTriedIs(vs, from, j);
  }

  /** When every candidate from the `from`-th on is passed over, `k` falls
      back to its inherited operation, reserves nothing, and nothing else
      changes. */
  lemma NothingOpenFallsBack(sv: Solver, st: Round, k: nat, p: real, from: nat)
    requires RoundWf(sv, st) && k < |sv.goals| && from <= |st.cands[k]|
    requires Owned(st) && AllPlanned(sv, st) && Free(st.reserved, k) && st.hit[k]
    requires forall i :: from <= i < |st.cands[k]| ==> Skipped(sv, st, k, p, i)
    ensures TryCandidates(sv, st, k, p, from)
            == (false, st.(ops := st.ops[k := sv.inherited[k]], paths := st.paths[k := st.fallback[k]],
                           hit := st.hit[k := false]))
  {
    PassedOver(sv, st, k, p, from, |st.cands[k]|);
    FirstTriedIs(Verdicts(sv, st, k, p), from, |st.cands[k]|);
  }

  /** When every candidate from the `from`-th up to the `j`-th is passed
      over and the `j`-th is in the way of one agent `l` that may be pushed,
      `k` pushes `l`; if `l` then chooses successfully, `k` ends with the
      `j`-th candidate. */
  lemma PushesFirstContested(sv: Solver, st: Round, k: nat, p: real, from: nat, j: nat, l: nat)
    requires RoundWf(sv, st) && k < |sv.goals| && from <= j < |st.cands[k]|
    requires Owned(st) && AllPlanned(sv, st) && Free(st.reserved, k) && st.hit[k]
    requires forall i :: from <= i < j ==> Skipped(sv, st, k, p, i)
    requires GetConflicts(st.reserved, k, st.cands[k][j].path) == {l} && Pushable(sv, st, l, p)
    ensures l != k && exists s :: s in st.reserved && st.reserved[s] == l
    ensures var c := st.cands[k][j];
            var res := TryCandidates(sv, st, k, p, from);
            res == Push(sv, st, k, p, j, l) &&
            (Select(sv, PushOff(sv, st, k, l, p, c), l, p).0 ==> res.0 && res.1.ops[k] == c.op && res.1.paths[k] == c.path)
  {
    var v := Judge(sv, st, p, {l});
    assert v == Contested(l) by {
      assert Only({l}) == l;
    }
    PassedOver(sv, st, k, p, from, j);
    var vs := Verdicts(sv, st, k, p);
    FirstTriedIs(vs, from, j);
    if Select(sv, PushOff(sv, st, k, l, p, st.cands[k][j]), l, p).0 {
      PushSucceeds(sv, st, k, p, j, l);
    }
  }

  /** A push succeeds when the pushed agent chooses again successfully:
      `k` then keeps the candidate it took. */
  lemma PushSucceeds(sv: Solver, st: Round, k: nat, p: real, from: nat, l: nat)
    requires RoundWf(sv, st) && k < |sv.goals| && from < |st.cands[k]|
    requires Owned(st) && AllPlanned(sv, st) && Free(st.reserved, k) && st.hit[k]
    requires l != k && exists s :: s in st.reserved && st.reserved[s] == l
    requires !st.hit[l] && st.visit[l] < sv.maxRevisits && st.priorities[l] < p
    requires Select(sv, PushOff(sv, st, k, l, p, st.cands[k][from]), l, p).0
    ensures var res := Push(sv, st, k, p, from, l);
            res.0 && res.1.ops[k] == st.cands[k][from].op && res.1.paths[k] == st.cands[k][from].path
  {
    var c := st.cands[k][from];
    var pushed := PushOff(sv, st, k, l, p, c);
    var after := Select(sv, pushed, l, p).1;
    SubKeepsK(sv, st, pushed, after, k, l, p, c);
  }

  /** A push fails when the pushed agent's selection fails: `l` is then
      restored and `k` goes on with its next candidate from the restored
      round. */
  lemma PushFailsRetries(sv: Solver, st: Round, k: nat, p: real, from: nat, l: nat)
    requires RoundWf(sv, st) && k < |sv.goals| && from < |st.cands[k]|
    requires Owned(st) && AllPlanned(sv, st) && Free(st.reserved, k) && st.hit[k]
    requires l != k && exists s :: s in st.reserved && st.reserved[s] == l
    requires !st.hit[l] && st.visit[l] < sv.maxRevisits && st.priorities[l] < p
    requires !Select(sv, PushOff(sv, st, k, l, p, st.cands[k][from]), l, p).0
    ensures var c := st.cands[k][from];
            var pushed := PushOff(sv, st, k, l, p, c);
            var after := Select(sv, pushed, l, p).1;
            Push(sv, st, k, p, from, l) == TryCandidates(sv, Restore(sv, st, pushed, after, k, l, p, c), k, p, from + 1)
  {
  }

  /** When a push fails and the candidate after the pushed one is in
      nobody's way in the restored round, `k` takes that candidate. */
  lemma PushFailsTakesNext(sv: Solver, st: Round, k: nat, p: real, from: nat, l: nat)
    requires RoundWf(sv, st) && k < |sv.goals| && from + 1 < |st.cands[k]|
    requires Owned(st) && AllPlanned(sv, st) && Free(st.reserved, k) && st.hit[k]
    requires l != k && exists s :: s in st.reserved && st.reserved[s] == l
    requires !st.hit[l] && st.visit[l] < sv.maxRevisits && st.priorities[l] < p
    requires !Select(sv, PushOff(sv, st, k, l, p, st.cands[k][from]), l, p).0
    requires var c := st.cands[k][from];
             var pushed := PushOff(sv, st, k, l, p, c);
             var restored := Restore(sv, st, pushed, Select(sv, pushed, l, p).1, k, l, p, c);
             GetConflicts(restored.reserved, k, st.cands[k][from + 1].path) == {}
    ensures var res := Push(sv, st, k, p, from, l);
            res.0 && res.1.ops[k] == st.cands[k][from + 1].op && res.1.paths[k] == st.cands[k][from + 1].path
  {
    PushFailsRetries(sv, st, k, p, from, l);
  }

  // ---------------------------------------------------------------------
  // One lemma per branch of the selection
  // ---------------------------------------------------------------------

  /** Entering `k` changes only `k`'s own visit count and flag. */
  lemma EnterKeeps(sv: Solver, st: Round, entered: Round, r: Round, k: nat, p: real)
    requires RoundWf(sv, st) && k < |sv.goals| && !st.hit[k]
    requires entered == st.(visit := st.visit[k := st.visit[k] + 1], hit := st.hit[k := true])
    requires Keeps(sv, entered, r, k, p) && r.hit == entered.hit[k := false] && r.visit[k] == entered.visit[k]
    ensures Keeps(sv, st, r, k, p) && r.hit == st.hit && r.visit[k] == st.visit[k] + 1
  {
    assert st.hit[k := false] == st.hit;
  }

  lemma FallBackKeeps(sv: Solver, st: Round, r: Round, k: nat, p: real)
    requires RoundWf(sv, st) && k < |sv.goals| && Owned(st) && AllPlanned(sv, st) && Free(st.reserved, k)
    requires r == st.(ops := st.ops[k := sv.inherited[k]], paths := st.paths[k := st.fallback[k]],
                      hit := st.hit[k := false])
    ensures RoundWf(sv, r) && Owned(r) && AllPlanned(sv, r) && Keeps(sv, st, r, k, p)
  {
    assert PlanOk(sv, k, r.qFrom[k], r.cands[k], r.fallback[k], r.ops[k], r.paths[k]);
  }

  lemma TakeKeeps(sv: Solver, st: Round, r: Round, k: nat, p: real, c: Candidate)
    requires RoundWf(sv, st) && k < |sv.goals| && Owned(st) && AllPlanned(sv, st) && Free(st.reserved, k)
    requires c in st.cands[k]
    requires r == st.(ops := st.ops[k := c.op], paths := st.paths[k := c.path],
                      reserved := ReservePath(st.reserved, k, c.path), hit := st.hit[k := false])
    ensures RoundWf(sv, r) && Owned(r) && AllPlanned(sv, r) && Keeps(sv, st, r, k, p)
  {
    assert PlanOk(sv, k, r.qFrom[k], r.cands[k], r.fallback[k], r.ops[k], r.paths[k]);
  }

  /** Pushing `l` off leaves a state in which `l` may be asked to choose. */
  lemma PushReady(sv: Solver, st: Round, pushed: Round, k: nat, l: nat, p: real, c: Candidate)
    requires RoundWf(sv, st) && k < |sv.goals| && Owned(st) && AllPlanned(sv, st) && Free(st.reserved, k)
    requires c in st.cands[k]
    requires l != k && exists s :: s in st.reserved && st.reserved[s] == l
    requires pushed == st.(ops := st.ops[k := c.op], paths := st.paths[k := c.path],
                           reserved := ReservePath(UnreservePath(st.reserved, l, st.paths[l]), k, c.path))
    ensures l < |sv.goals| && l != k
    ensures RoundWf(sv, pushed) && Owned(pushed) && AllPlanned(sv, pushed) && Free(pushed.reserved, l)
    ensures forall j :: 0 <= j < |sv.goals| && j != k ==> Shrinks(st.reserved, pushed.reserved, j)
  {
    var u := UnreservePath(st.reserved, l, st.paths[l]);
    assert Free(u, l);
    assert PlanOk(sv, k, pushed.qFrom[k], pushed.cands[k], pushed.fallback[k], pushed.ops[k], pushed.paths[k]);
  }

  /** The pushed agent's selection leaves `k`, which is in progress, alone. */
  lemma SubKeepsK(sv: Solver, st: Round, pushed: Round, after: Round, k: nat, l: nat, p: real, c: Candidate)
    requires RoundWf(sv, pushed) && RoundWf(sv, after) && k < |sv.goals| && l < |sv.goals| && l != k
    requires pushed.hit[k] && Keeps(sv, pushed, after, l, p) && after.hit == pushed.hit
    requires pushed.ops[k] == c.op && pushed.paths[k] == c.path
    ensures after.visit[k] == pushed.visit[k] && after.ops[k] == c.op && after.paths[k] == c.path
    ensures Shrinks(pushed.reserved, after.reserved, k)
  {
  }

  /** `l` chose again: `k` keeps the candidate it took. */
  lemma PushWins(sv: Solver, st: Round, pushed: Round, after: Round, k: nat, l: nat, p: real, c: Candidate)
    requires RoundWf(sv, st) && RoundWf(sv, pushed) && RoundWf(sv, after) && k < |sv.goals| && l < |sv.goals| && l != k
    requires c in st.cands[k] && st.hit[k]
    requires pushed == st.(ops := st.ops[k := c.op], paths := st.paths[k := c.path], reserved := pushed.reserved)
    requires forall j :: 0 <= j < |sv.goals| && j != k ==> Shrinks(st.reserved, pushed.reserved, j)
    requires !st.hit[l] && st.visit[l] < sv.maxRevisits && st.priorities[l] < p
    requires Owned(after) && AllPlanned(sv, after)
    requires Keeps(sv, pushed, after, l, p) && after.visit[l] == pushed.visit[l] + 1 && after.hit == pushed.hit
    ensures Outcome(sv, st, k, p, (true, after.(hit := after.hit[k := false])))
  {
    SubKeepsK(sv, st, pushed, after, k, l, p, c);
    var r := after.(hit := after.hit[k := false]);
    forall j | 0 <= j < |st.visit| && j != k && r.visit[j] == st.visit[j]
      ensures r.ops[j] == st.ops[j] && r.paths[j] == st.paths[j] && Shrinks(st.reserved, r.reserved, j)
    {
      assert j != l;
      assert after.visit[j] == pushed.visit[j];
      ShrinksTrans(st.reserved, pushed.reserved, after.reserved, j);
    }
    forall j | 0 <= j < |st.visit| && j != k && r.visit[j] != st.visit[j]
      ensures !st.hit[j] && st.priorities[j] < p && r.visit[j] <= sv.maxRevisits
    {
      if j != l {
        assert after.visit[j] != pushed.visit[j];
      }
    }
    assert Keeps(sv, st, r, k, p);
  }

  /** Undoing a failed push: `k` gives up its tentative path and `l` gets
      its old operation and path back. */
  lemma RestoreKeeps(sv: Solver, st: Round, pushed: Round, after: Round, restored: Round, k: nat, l: nat, p: real, c: Candidate)
    requires RoundWf(sv, st) && RoundWf(sv, pushed) && RoundWf(sv, after) && k < |sv.goals| && l < |sv.goals| && l != k
    requires AllPlanned(sv, st) && st.hit[k]
    requires pushed == st.(ops := st.ops[k := c.op], paths := st.paths[k := c.path], reserved := pushed.reserved)
    requires forall j :: 0 <= j < |sv.goals| && j != k ==> Shrinks(st.reserved, pushed.reserved, j)
    requires !st.hit[l] && st.visit[l] < sv.maxRevisits && st.priorities[l] < p
    requires Keeps(sv, pushed, after, l, p) && after.visit[l] == pushed.visit[l] + 1 && after.hit == pushed.hit
    requires Owned(after) && AllPlanned(sv, after) && Free(after.reserved, l)
    requires after.paths[k] == c.path && after.visit[k] == st.visit[k]
    requires restored == after.(ops := after.ops[l := st.ops[l]], paths := after.paths[l := st.paths[l]],
                                reserved := ReservePath(UnreservePath(after.reserved, k, c.path), l, st.paths[l]))
    ensures RoundWf(sv, restored) && Owned(restored) && AllPlanned(sv, restored) && Free(restored.reserved, k)
    ensures Keeps(sv, st, restored, k, p) && restored.hit == st.hit && restored.visit[k] == st.visit[k]
  {
    RestoreTable(after, restored, k, l, c.path, st.paths[l]);
    assert PlanOk(sv, l, restored.qFrom[l], restored.cands[l], restored.fallback[l], restored.ops[l], restored.paths[l]) by {
      assert PlanOk(sv, l, st.qFrom[l], st.cands[l], st.fallback[l], st.ops[l], st.paths[l]);
    }
    forall j | 0 <= j < |st.visit| && j != k && restored.visit[j] == st.visit[j]
      ensures restored.ops[j] == st.ops[j] && restored.paths[j] == st.paths[j] && Shrinks(st.reserved, restored.reserved, j)
    {
      assert j != l;
      assert after.visit[j] == pushed.visit[j];
      ShrinksTrans(st.reserved, pushed.reserved, after.reserved, j);
      ShrinksTrans(st.reserved, after.reserved, restored.reserved, j);
    }
    forall j | 0 <= j < |st.visit| && j != k && restored.visit[j] != st.visit[j]
      ensures !st.hit[j] && st.priorities[j] < p && restored.visit[j] <= sv.maxRevisits
    {
      if j != l {
        assert after.visit[j] != pushed.visit[j];
      }
    }
  }

  /** The reservations after undoing a push: every slot lies on its
      holder's path, `k` holds nothing, and no agent but `l` gains a slot. */
  lemma RestoreTable(after: Round, restored: Round, k: nat, l: nat, path: seq<Coord>, oldPath: seq<Coord>)
    requires l < |after.paths| && l != k && k < |after.paths|
    requires Owned(after) && Free(after.reserved, l) && after.paths[k] == path
    requires restored == after.(ops := restored.ops, paths := after.paths[l := oldPath],
                                reserved := ReservePath(UnreservePath(after.reserved, k, path), l, oldPath))
    ensures Owned(restored) && Free(restored.reserved, k)
    ensures forall j :: j != l ==> Shrinks(after.reserved, restored.reserved, j)
  {
    var u := UnreservePath(after.reserved, k, path);
    assert Free(u, k);
    assert forall s :: s in u ==> u[s] != l;
  }
}

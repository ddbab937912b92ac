/** One step of the planner and the run loop around it: the initial
    reservations from the inherited operations, the order in which agents
    choose, the selection loop, the execution of every agent's first
    action, and the priority update between steps. */
module Planner {
  import opened Common
  import opened Grid
  import opened DistTable
  import opened Operations
  import opened Reservation
  import opened Candidates
  import opened Epibt

  // ---------------------------------------------------------------------
  // The order in which agents choose
  // ---------------------------------------------------------------------

  /** Agent `a` chooses before agent `b`: higher priority first, equal
      priorities in index order (Python's `sorted` is stable). */
  predicate Before(prio: seq<real>, a: nat, b: nat)
    requires a < |prio| && b < |prio|
  {
    prio[a] > prio[b] || (prio[a] == prio[b] && a < b)
  }

  /** `s` lists agents of `prio`, each strictly before the ones after it. */
  ghost predicate Ranked(prio: seq<real>, s: seq<nat>) {
    && (forall i :: 0 <= i < |s| ==> s[i] < |prio|)
    && (forall i, j :: 0 <= i < j < |s| ==> Before(prio, s[i], s[j]))
  }

  /** Places agent `i`, whose index exceeds every agent in `order`, after
      the agents whose priority is at least its own. */
  function Insert(prio: seq<real>, order: seq<nat>, i: nat): (r: seq<nat>)
    requires i < |prio| && Ranked(prio, order)
    requires forall j :: 0 <= j < |order| ==> order[j] < i
    ensures Ranked(prio, r) && multiset(r) == multiset(order) + multiset{i}
  {
    if order == [] then [i]
    else if prio[order[0]] < prio[i] then
      RankedFront(prio, order, i);
      [i] + order
    else
      var rest := Insert(prio, order[1..], i);
      RankedBehind(prio, order, i, rest);
      [order[0]] + rest
  }

  /** An agent of higher priority than the head of a ranked list ranks
      before all of it. */
  lemma RankedFront(prio: seq<real>, order: seq<nat>, i: nat)
    requires i < |prio| && Ranked(prio, order) && order != [] && prio[order[0]] < prio[i]
    ensures Ranked(prio, [i] + order)
  {
    forall j | 0 < j < |order|
      ensures prio[order[j]] <= prio[order[0]]
    {
      assert Before(prio, order[0], order[j]);
    }
  }

  /** The head of a ranked list, with priority at least agent `i`'s and a
      smaller index, ranks before the rest with `i` inserted. */
  lemma RankedBehind(prio: seq<real>, order: seq<nat>, i: nat, rest: seq<nat>)
    requires i < |prio| && Ranked(prio, order) && order != [] && prio[order[0]] >= prio[i]
    requires forall j :: 0 <= j < |order| ==> order[j] < i
    requires Ranked(prio, rest) && multiset(rest) == multiset(order[1..]) + multiset{i}
    ensures Ranked(prio, [order[0]] + rest) && multiset([order[0]] + rest) == multiset(order) + multiset{i}
  {
    assert order == [order[0]] + order[1..];
    forall j | 0 <= j < |rest|
      ensures Before(prio, order[0], rest[j])
    {
      assert rest[j] in multiset(rest);
      if rest[j] != i {
        assert rest[j] in multiset(order[1..]);
        var m :| 0 <= m < |order[1..]| && order[1..][m] == rest[j];
        assert Before(prio, order[0], order[m + 1]);
      }
    }
  }

  /** Agents `0..n-1` in the order they choose. */
  function OrderOf(prio: seq<real>, n: nat): (r: seq<nat>)
    requires n <= |prio|
    ensures Ranked(prio, r) && multiset(r) == multiset(Range(n))
  {
    if n == 0 then []
    else
      var order := OrderOf(prio, n - 1);
      forall j | 0 <= j < |order| ensures order[j] < n - 1 {
        assert order[j] in multiset(Range(n - 1));
      }
      assert Range(n) == Range(n - 1) + [n - 1];
      Insert(prio, order, n - 1)
  }

  /** The indices `0..n-1` in increasing order. */
  function Range(n: nat): (r: seq<nat>)
    ensures |r| == n && forall i :: 0 <= i < n ==> r[i] == i
  {
    seq(n, i => i)
  }

  /** The order of the main loop: every agent exactly once, by decreasing
      priority, ties by index. */
  function AgentOrder(prio: seq<real>): (r: seq<nat>)
    ensures |r| == |prio| && Ranked(prio, r)
    ensures forall x: nat :: x in r <==> x < |prio|
    ensures forall i, j :: 0 <= i < j < |r| ==> r[i] != r[j]
  {
    var r := OrderOf(prio, |prio|);
    assert |r| == |multiset(r)| == |multiset(Range(|prio|))| == |prio|;
    forall x: nat ensures x in r <==> x < |prio| {
      assert x in r <==> x in multiset(Range(|prio|));
      if x < |prio| {
        assert Range(|prio|)[x] == x;
      }
    }
    forall i, j | 0 <= i < j < |r| ensures r[i] != r[j] {
      assert Before(prio, r[i], r[j]);
    }
    r
  }

  // ---------------------------------------------------------------------
  // The initial round
  // ---------------------------------------------------------------------

  /** The reservations of the paths of agents `0..n-1`, made in index
      order, a later agent overwriting an earlier one. */
  function ReserveAll(paths: seq<seq<Coord>>, n: nat): (tab: Table)
    requires n <= |paths|
    ensures forall s :: s in tab ==> LastOn(paths, n, s, tab[s])
    ensures forall s, i :: 0 <= i < n && OnPath(paths[i], s) ==> s in tab
  {
    if n == 0 then map[]
    else
      var prev := ReserveAll(paths, n - 1);
      var tab := ReservePath(prev, n - 1, paths[n - 1]);
      forall s | s in tab
        ensures LastOn(paths, n, s, tab[s])
      {
        if !OnPath(paths[n - 1], s) {
          assert LastOn(paths, n - 1, s, prev[s]);
        }
      }
      forall s, i | 0 <= i < n && OnPath(paths[i], s)
        ensures s in tab
      {
        if i < n - 1 && !OnPath(paths[n - 1], s) {
          assert s in prev;
        }
      }
      tab
  }

  /** Among agents `0..n-1`, `i` is the last whose path has slot `s`. */
  ghost predicate LastOn(paths: seq<seq<Coord>>, n: nat, s: Slot, i: nat)
    requires n <= |paths|
  {
    i < n && OnPath(paths[i], s) && forall j :: i < j < n ==> !OnPath(paths[j], s)
  }

  /** The candidates and fallback path of every agent are the ones its
      start cell, orientation, goal and inherited operation give. */
  ghost predicate Prepared(sv: Solver, st: Round) {
    && RoundWf(sv, st)
    && (forall i :: 0 <= i < |sv.goals| ==>
          st.cands[i] == GetSortedCandidates(sv.grid, sv.goals[i], sv.operations, st.qFrom[i], sv.orientations[i]))
    && (forall i :: 0 <= i < |sv.goals| ==> st.fallback[i] == FallbackPath(sv, st.qFrom[i], i))
  }

  /** The round a step starts from: every agent on its inherited operation
      and its cells, or waiting in place when that operation is blocked;
      their slots reserved in index order; nobody visited. */
  function InitRound(sv: Solver, qFrom: seq<Coord>, priorities: seq<real>): (st: Round)
    requires sv.Wf() && |qFrom| == |sv.goals| && |priorities| == |sv.goals|
    ensures Prepared(sv, st) && st.qFrom == qFrom && st.priorities == priorities
    ensures Owned(st) && AllPlanned(sv, st)
    ensures forall i :: 0 <= i < |sv.goals| ==> st.visit[i] == 0 && !st.hit[i] && st.paths[i] == st.fallback[i]
    ensures forall i :: 0 <= i < |sv.goals| ==>
              st.ops[i] == (if ComputeCellPath(sv.grid, qFrom[i], sv.orientations[i], sv.inherited[i]).Some?
                            then sv.inherited[i] else Waits(sv.opLen))
    ensures forall s, i :: 0 <= i < |sv.goals| && OnPath(st.paths[i], s) ==> s in st.reserved
  {
    var n := |sv.goals|;
    var cands := AllCandidates(sv, qFrom);
    var fallback := AllFallbacks(sv, qFrom);
    var ops := StartOps(sv, qFrom);
    StartPlanned(sv, qFrom, cands, fallback, ops);
    Round(qFrom, cands, fallback, priorities, Zeros(n), Clear(n), ops, fallback, ReserveAll(fallback, n))
  }

  function Zeros(n: nat): (r: seq<nat>)
    ensures |r| == n && forall i :: 0 <= i < n ==> r[i] == 0
  {
    seq(n, _ => 0)
  }

  function Clear(n: nat): (r: seq<bool>)
    ensures |r| == n && forall i :: 0 <= i < n ==> !r[i]
  {
    seq(n, _ => false)
  }

  /** Each agent's start operation agrees with its fallback path. */
  lemma StartPlanned(sv: Solver, qFrom: seq<Coord>, cands: seq<seq<Candidate>>, fallback: seq<seq<Coord>>, ops: seq<Operation>)
    requires sv.Wf() && |qFrom| == |sv.goals| && |cands| == |sv.goals|
    requires fallback == AllFallbacks(sv, qFrom) && ops == StartOps(sv, qFrom)
    ensures forall i :: 0 <= i < |sv.goals| ==> PlanOk(sv, i, qFrom[i], cands[i], fallback[i], ops[i], fallback[i])
  {
  }

  /** Every agent's sorted candidates from its start cell. */
  function AllCandidates(sv: Solver, qFrom: seq<Coord>): (cands: seq<seq<Candidate>>)
    requires sv.Wf() && |qFrom| == |sv.goals|
    ensures |cands| == |sv.goals|
    ensures forall i :: 0 <= i < |sv.goals| ==>
              cands[i] == GetSortedCandidates(sv.grid, sv.goals[i], sv.operations, qFrom[i], sv.orientations[i])
  {
    seq(|sv.goals|, i requires 0 <= i < |sv.goals| =>
          GetSortedCandidates(sv.grid, sv.goals[i], sv.operations, qFrom[i], sv.orientations[i]))
  }

  /** Every agent's fallback path from its start cell. */
  function AllFallbacks(sv: Solver, qFrom: seq<Coord>): (fallback: seq<seq<Coord>>)
    requires sv.Wf() && |qFrom| == |sv.goals|
    ensures |fallback| == |sv.goals|
    ensures forall i :: 0 <= i < |sv.goals| ==> fallback[i] == FallbackPath(sv, qFrom[i], i)
  {
    seq(|sv.goals|, i requires 0 <= i < |sv.goals| => FallbackPath(sv, qFrom[i], i))
  }

  /** Every agent's operation before the selection loop: its inherited
      operation, or all waits when that operation is blocked, so that the
      operation always agrees with the fallback path. */
  function StartOps(sv: Solver, qFrom: seq<Coord>): (ops: seq<Operation>)
    requires sv.Wf() && |qFrom| == |sv.goals|
    ensures |ops| == |sv.goals|
    ensures forall i :: 0 <= i < |sv.goals| ==>
              ops[i] == (if ComputeCellPath(sv.grid, qFrom[i], sv.orientations[i], sv.inherited[i]).Some?
                         then sv.inherited[i] else Waits(sv.opLen))
    ensures forall i :: 0 <= i < |sv.goals| ==>
              (ops[i] == sv.inherited[i] && AllFallbacks(sv, qFrom)[i] == FallbackPath(sv, qFrom[i], i))
              || (ops[i] == Waits(sv.opLen) && FallbackPath(sv, qFrom[i], i) == Stay(qFrom[i], sv.opLen + 1))
  {
    seq(|sv.goals|, i requires 0 <= i < |sv.goals| =>
          if ComputeCellPath(sv.grid, qFrom[i], sv.orientations[i], sv.inherited[i]).Some?
          then sv.inherited[i] else Waits(sv.opLen))
  }

  // ---------------------------------------------------------------------
  // What a plan means
  // ---------------------------------------------------------------------

  /** A planned agent holds one of its candidates (an operation of the list
      with its cell path), its inherited operation with the fallback path,
      or all waits in place. */
  lemma PlanMeaning(sv: Solver, st: Round, i: nat)
    requires Prepared(sv, st) && AllPlanned(sv, st) && i < |sv.goals|
    ensures || (st.ops[i] in sv.operations && PathOf(sv.grid, st.qFrom[i], sv.orientations[i], st.ops[i], st.paths[i]))
            || (st.ops[i] == sv.inherited[i] && st.paths[i] == FallbackPath(sv, st.qFrom[i], i))
            || (st.ops[i] == Waits(sv.opLen) && st.paths[i] == Stay(st.qFrom[i], sv.opLen + 1))
    ensures |st.ops[i]| == sv.opLen && |st.paths[i]| == sv.opLen + 1 && st.paths[i][0] == st.qFrom[i]
  {
    var cs := st.cands[i];
    if Candidate(st.ops[i], st.paths[i]) in cs {
      CandidateMeaning(sv.grid, sv.goals[i], sv.operations, st.qFrom[i], sv.orientations[i], Candidate(st.ops[i], st.paths[i]));
    }
  }

  /** An agent may carry out its inherited operation from `q`. */
  ghost predicate Executable(sv: Solver, q: seq<Coord>)
    requires sv.Wf() && |q| == |sv.goals|
  {
    forall i :: 0 <= i < |q| ==> ComputeCellPath(sv.grid, q[i], sv.orientations[i], sv.inherited[i]).Some?
  }

  // ---------------------------------------------------------------------
  // Executing the first action
  // ---------------------------------------------------------------------

  /** One action carried out: a forward step only onto a valid cell; turns
      change the heading. */
  function Act(g: Grid, pos: Coord, ori: Orientation, a: Action): (r: (Coord, Orientation))
    requires g.Wf()
    ensures r.1 == Turn(ori, a)
    ensures r.0 == pos || (a == F && r.0 == Ahead(pos, ori) && IsValidCoord(g, r.0))
    ensures a == F && IsValidCoord(g, Ahead(pos, ori)) ==> r.0 == Ahead(pos, ori)
  {
    if a == F then
      var next := Ahead(pos, ori);
      (if IsValidCoord(g, next) then next else pos, ori)
    else (pos, Turn(ori, a))
  }

  /** The solver after every agent carried out the first action of its
      operation: new positions and headings, and the rest of each operation
      followed by a wait as the next step's inherited operation. */
  function Advance(sv: Solver, qFrom: seq<Coord>, ops: seq<Operation>): (r: (seq<Coord>, Solver))
    requires sv.Wf() && |qFrom| == |sv.goals| && |ops| == |sv.goals|
    requires forall i :: 0 <= i < |ops| ==> |ops[i]| == sv.opLen
    ensures |r.0| == |sv.goals| && r.1.Wf()
    ensures r.1 == sv.(orientations := r.1.orientations, inherited := r.1.inherited)
    ensures forall i :: 0 <= i < |ops| ==>
              (r.0[i], r.1.orientations[i]) == Act(sv.grid, qFrom[i], sv.orientations[i], ops[i][0])
    ensures forall i :: 0 <= i < |ops| ==> r.1.inherited[i] == ops[i][1..] + [W]
  {
    var n := |sv.goals|;
    var moved := seq(n, i requires 0 <= i < n => Act(sv.grid, qFrom[i], sv.orientations[i], ops[i][0]));
    (seq(n, i requires 0 <= i < n => moved[i].0),
     sv.(orientations := seq(n, i requires 0 <= i < n => moved[i].1),
         inherited := seq(n, i requires 0 <= i < n => ops[i][1..] + [W])))
  }

  /** One step of a path's heading: `[a] + rest` turns like `rest` from
      the heading after `a`. */
  lemma {:induction false} CountCons(a: Action, rest: Operation, x: Action)
    ensures Count([a] + rest, x) == (if a == x then 1 else 0) + Count(rest, x)
    decreases |rest|
  {
    if rest != [] {
      var init := rest[..|rest| - 1];
      assert ([a] + rest)[..|rest|] == [a] + init;
      CountCons(a, init, x);
    }
  }

  lemma HeadingShift(ori: Orientation, a: Action, rest: Operation)
    ensures HeadingAfter(ori, [a] + rest) == HeadingAfter(Turn(ori, a), rest)
  {
    CountCons(a, rest, R);
    CountCons(a, rest, C);
    var d := Count(rest, R) - Count(rest, C);
    if a == R {
      ModAdd(ori + 1, d);
    } else if a == C {
      ModAdd(ori - 1, d);
    }
  }

  /** Reducing mod 4 before adding changes nothing mod 4. */
  lemma ModAdd(x: int, d: int)
    ensures (x % 4 + d) % 4 == (x + d) % 4
  {
    assert x == 4 * (x / 4) + x % 4;
  }

  /** Where the first action alone takes the agent, with no walkability
      check. */
  function Moved(c: Coord, ori: Orientation, a: Action): Coord {
    if a == F then Ahead(c, ori) else c
  }

  lemma {:induction false} PosShift(c: Coord, ori: Orientation, a: Action, rest: Operation)
    ensures PosAfter(c, ori, [a] + rest) == PosAfter(Moved(c, ori, a), Turn(ori, a), rest)
    decreases |rest|
  {
    if rest == [] {
      assert ([a] + rest)[..0] == [];
    } else {
      var init := rest[..|rest| - 1];
      assert ([a] + rest)[..|rest|] == [a] + init;
      PosShift(c, ori, a, init);
      HeadingShift(ori, a, init);
    }
  }

  /** The first action of an executable operation moves the agent onto the
      second cell of its path. */
  lemma FirstStep(g: Grid, c: Coord, ori: Orientation, op: Operation)
    requires g.Wf() && |op| >= 1 && ComputeCellPath(g, c, ori, op).Some?
    ensures Act(g, c, ori, op[0]).0 == ComputeCellPath(g, c, ori, op).value.cells[1]
    ensures Act(g, c, ori, op[0]).0 == Moved(c, ori, op[0])
  {
    PathSteps(g, c, ori, op, 0);
    assert op[..0] == [];
  }

  /** Operation inheritance: after the first action of an executable
      operation, the rest of it followed by a wait is executable from where
      the agent now stands, and its path is the rest of the old path with
      the agent staying at its last cell. */
  lemma InheritedContinues(g: Grid, c: Coord, ori: Orientation, op: Operation)
    requires g.Wf() && |op| >= 1 && ComputeCellPath(g, c, ori, op).Some?
    ensures var (c2, ori2) := Act(g, c, ori, op[0]);
            var cells := ComputeCellPath(g, c, ori, op).value.cells;
            var next := ComputeCellPath(g, c2, ori2, op[1..] + [W]);
            next.Some? && next.value.cells == cells[1..] + [cells[|op|]]
  {
    var (c2, ori2) := Act(g, c, ori, op[0]);
    FirstStep(g, c, ori, op);
    var cells := ComputeCellPath(g, c, ori, op).value.cells;
    var op2 := op[1..] + [W];
    var n := |op|;
    // Before the appended wait, the new operation replays the old one.
    forall j | 0 <= j < n
      ensures PosAfter(c2, ori2, op2[..j]) == PosAfter(c, ori, op[..j + 1])
      ensures HeadingAfter(ori2, op2[..j]) == HeadingAfter(ori, op[..j + 1])
    {
      assert op2[..j] == op[1..j + 1];
      assert op[..j + 1] == [op[0]] + op[1..j + 1];
      PosShift(c, ori, op[0], op[1..j + 1]);
      HeadingShift(ori, op[0], op[1..j + 1]);
    }
    forall j | 0 <= j < n
      ensures !Blocked(g, c2, ori2, op2, j)
    {
      if j < n - 1 {
        assert op2[j] == op[j + 1];
        assert op[..j + 2][..j + 1] == op[..j + 1];
        assert !Blocked(g, c, ori, op, j + 1);
      } else {
        assert op2[j] == W;
      }
    }
    var next := ComputeCellPath(g, c2, ori2, op2);
    assert next.Some?;
    forall j | 0 <= j <= n
      ensures next.value.cells[j] == (cells[1..] + [cells[n]])[j]
    {
      if j == n {
        assert op2[..n] == op2[..n - 1] + [W];
        assert op2 == op2[..n];
        assert op2[..n - 1] == op[1..n];
        assert op[..n] == [op[0]] + op[1..n];
        PosShift(c, ori, op[0], op[1..n]);
        assert op[..n] == op;
      }
    }
  }

  // ---------------------------------------------------------------------
  // One step
  // ---------------------------------------------------------------------

  /** The most visits an agent gets in one step: one as the loop reaches
      it, and at most the revisit limit when others push it. */
  function VisitCap(sv: Solver): nat {
    if sv.maxRevisits > 1 then sv.maxRevisits else 1
  }

  /** The loop's turn for an agent `k` not yet visited: its slots are
      freed, it chooses with its own priority, and on failure its fallback
      path is reserved. Afterwards `k` has the operation and path its
      selection gave it (the first candidate, when that is in nobody's
      way), `k` has been visited, nobody is in progress, and no agent
      exceeds its visits. */
  function Choose(sv: Solver, st: Round, k: nat): (r: Round)
    requires RoundWf(sv, st) && k < |sv.goals| && Owned(st) && AllPlanned(sv, st) && st.visit[k] == 0
    requires forall j :: 0 <= j < |sv.goals| ==> !st.hit[j] && st.visit[j] <= VisitCap(sv)
    ensures RoundWf(sv, r) && Owned(r) && AllPlanned(sv, r)
    ensures r.qFrom == st.qFrom && r.cands == st.cands && r.fallback == st.fallback && r.priorities == st.priorities
    ensures forall j :: 0 <= j < |sv.goals| ==> !r.hit[j] && st.visit[j] <= r.visit[j] <= VisitCap(sv)
    ensures r.visit[k] == 1
    ensures var freed := st.(reserved := UnreservePath(st.reserved, k, st.paths[k]));
            var res := Select(sv, freed, k, st.priorities[k]);
            r.ops[k] == res.1.ops[k] && r.paths[k] == res.1.paths[k]
    ensures var freed := st.(reserved := UnreservePath(st.reserved, k, st.paths[k]));
            |st.cands[k]| > 0 && GetConflicts(freed.reserved, k, st.cands[k][0].path) == {} ==>
              r.ops[k] == st.cands[k][0].op && r.paths[k] == st.cands[k][0].path
  {
    FreeAgent(sv, st, k);
    var freed := st.(reserved := UnreservePath(st.reserved, k, st.paths[k]));
    var res := Select(sv, freed, k, st.priorities[k]);
    if res.0 then res.1
    else
      ReserveOwn(sv, res.1, k);
      res.1.(reserved := ReservePath(res.1.reserved, k, res.1.paths[k]))
  }

  /** Freeing an agent's slots leaves every other plan and slot as it was. */
  lemma FreeAgent(sv: Solver, st: Round, k: nat)
    requires RoundWf(sv, st) && k < |sv.goals| && Owned(st) && AllPlanned(sv, st)
    ensures var freed := st.(reserved := UnreservePath(st.reserved, k, st.paths[k]));
            Owned(freed) && AllPlanned(sv, freed) && Free(freed.reserved, k)
  {
  }

  /** An agent holding no slot may reserve its own path. */
  lemma ReserveOwn(sv: Solver, st: Round, k: nat)
    requires RoundWf(sv, st) && k < |sv.goals| && Owned(st) && AllPlanned(sv, st) && Free(st.reserved, k)
    ensures var r := st.(reserved := ReservePath(st.reserved, k, st.paths[k]));
            RoundWf(sv, r) && Owned(r) && AllPlanned(sv, r)
  {
  }

  /** The selection loop as a fold: the agents of `order` take their turn
      one after the other, and an agent visited already, by a push during
      an earlier turn, is skipped. Every agent of `order` ends visited,
      nobody is in progress and nobody exceeds its visits. */
  function ChooseAll(sv: Solver, st: Round, order: seq<nat>): (r: Round)
    requires RoundWf(sv, st) && Owned(st) && AllPlanned(sv, st)
    requires forall j :: 0 <= j < |sv.goals| ==> !st.hit[j] && st.visit[j] <= VisitCap(sv)
    requires forall m :: 0 <= m < |order| ==> order[m] < |sv.goals|
    ensures RoundWf(sv, r) && Owned(r) && AllPlanned(sv, r)
    ensures r.qFrom == st.qFrom && r.cands == st.cands && r.fallback == st.fallback && r.priorities == st.priorities
    ensures forall j :: 0 <= j < |sv.goals| ==> !r.hit[j] && st.visit[j] <= r.visit[j] <= VisitCap(sv)
    ensures forall m :: 0 <= m < |order| ==> r.visit[order[m]] >= 1
    decreases |order|
  {
    if order == [] then st
    else
      var k := order[0];
      var next := if st.visit[k] == 0 then Choose(sv, st, k) else st;
      var r := ChooseAll(sv, next, order[1..]);
      assert forall m :: 1 <= m < |order| ==> order[m] == order[1..][m - 1];
      r
  }

  /** The selection loop: every agent of `order` not visited yet chooses,
      in that order. Afterwards every agent has been visited, nobody is in
      progress, nobody exceeds its visits, and every plan still agrees
      with its agent and every slot with its holder. */
  method SelectAll(sv: Solver, st0: Round, order: seq<nat>) returns (st: Round)
    requires RoundWf(sv, st0) && Owned(st0) && AllPlanned(sv, st0)
    requires forall j :: 0 <= j < |sv.goals| ==> !st0.hit[j] && st0.visit[j] == 0
    requires forall m :: 0 <= m < |order| ==> order[m] < |sv.goals|
    requires forall j :: 0 <= j < |sv.goals| ==> j in order
    ensures RoundWf(sv, st) && Owned(st) && AllPlanned(sv, st)
    ensures st.qFrom == st0.qFrom && st.cands == st0.cands && st.fallback == st0.fallback && st.priorities == st0.priorities
    ensures forall j :: 0 <= j < |sv.goals| ==> !st.hit[j] && 1 <= st.visit[j] <= VisitCap(sv)
    ensures st == ChooseAll(sv, st0, order)
  {
    st := st0;
    var idx := 0;
    while idx < |order|
      invariant 0 <= idx <= |order|
      invariant RoundWf(sv, st) && Owned(st) && AllPlanned(sv, st)
      invariant forall j :: 0 <= j < |sv.goals| ==> !st.hit[j] && st.visit[j] <= VisitCap(sv)
      invariant ChooseAll(sv, st, order[idx..]) == ChooseAll(sv, st0, order)
    {
      var k := order[idx];
      assert order[idx..][1..] == order[idx + 1..];
      if st.visit[k] == 0 {
        st := Choose(sv, st, k);
      }
      idx := idx + 1;
    }
    assert order[idx..] == [];
    forall j | 0 <= j < |sv.goals|
      ensures st.visit[j] >= 1
    {
      assert j in order;
      var m :| 0 <= m < |order| && order[m] == j;
    }
  }

  /** The plan of a step: from the inherited operations, every agent takes
      its turn in descending priority, ties by ascending index, skipping
      the agents visited already. Every planned operation has the
      planner's length and its path starts at the agent's cell. */
  function Plan(sv: Solver, qFrom: seq<Coord>, priorities: seq<real>): (plan: Round)
    requires sv.Wf() && |qFrom| == |sv.goals| && |priorities| == |sv.goals|
    ensures Prepared(sv, plan) && plan.qFrom == qFrom && plan.priorities == priorities
    ensures Owned(plan) && AllPlanned(sv, plan)
    ensures forall i :: 0 <= i < |sv.goals| ==>
              |plan.ops[i]| == sv.opLen && |plan.paths[i]| == sv.opLen + 1 && plan.paths[i][0] == qFrom[i]
  {
    var plan := ChooseAll(sv, InitRound(sv, qFrom, priorities), AgentOrder(priorities));
    PlannedShapes(sv, plan);
    plan
  }

  /** The planning half of a step: start from the inherited operations and
      let every agent not yet visited choose in priority order; an agent
      whose selection fails keeps its fallback path reserved. */
  method PlanStep(sv: Solver, qFrom: seq<Coord>, priorities: seq<real>) returns (plan: Round)
    requires sv.Wf() && |qFrom| == |sv.goals| && |priorities| == |sv.goals|
    ensures Prepared(sv, plan) && plan.qFrom == qFrom && plan.priorities == priorities
    ensures Owned(plan) && AllPlanned(sv, plan)
    ensures forall i :: 0 <= i < |sv.goals| ==> !plan.hit[i] && 1 <= plan.visit[i] <= VisitCap(sv)
    ensures forall i :: 0 <= i < |sv.goals| ==>
              |plan.ops[i]| == sv.opLen && |plan.paths[i]| == sv.opLen + 1 && plan.paths[i][0] == qFrom[i]
    ensures plan == Plan(sv, qFrom, priorities)
  {
    var st0 := InitRound(sv, qFrom, priorities);
    var order := ChoiceOrder(priorities);
    plan := SelectAll(sv, st0, order);
    PlannedShapes(sv, plan);
  }

  /** `AgentOrder`, with only the facts the selection loop needs: it lists
      every agent and nothing else. */
  method ChoiceOrder(priorities: seq<real>) returns (order: seq<nat>)
    ensures order == AgentOrder(priorities)
    ensures forall m :: 0 <= m < |order| ==> order[m] < |priorities|
    ensures forall j :: 0 <= j < |priorities| ==> j in order
  {
    order := AgentOrder(priorities);
  }

  /** Every planned operation has the planner's length and its path starts
      at the agent's cell. */
  lemma PlannedShapes(sv: Solver, plan: Round)
    requires Prepared(sv, plan) && AllPlanned(sv, plan)
    ensures forall i :: 0 <= i < |sv.goals| ==>
              |plan.ops[i]| == sv.opLen && |plan.paths[i]| == sv.opLen + 1 && plan.paths[i][0] == plan.qFrom[i]
  {
    forall i | 0 <= i < |sv.goals|
      ensures |plan.ops[i]| == sv.opLen && |plan.paths[i]| == sv.opLen + 1 && plan.paths[i][0] == plan.qFrom[i]
    {
      PlanMeaning(sv, plan, i);
    }
  }

  /** One step: plan, then carry out every agent's first action. The plan
      is `Plan`. Every agent moves at most one cell, only onto a valid
      cell, and when every inherited operation was executable, onto the
      second cell of its planned path, leaving every inherited operation
      executable again. */
  method Step(sv: Solver, qFrom: seq<Coord>, priorities: seq<real>) returns (qTo: seq<Coord>, next: Solver, plan: Round)
    requires sv.Wf() && |qFrom| == |sv.goals| && |priorities| == |sv.goals|
    ensures plan == Plan(sv, qFrom, priorities)
    ensures plan.qFrom == qFrom && plan.priorities == priorities && |plan.ops| == |sv.goals| && |plan.paths| == |sv.goals|
    ensures forall i :: 0 <= i < |sv.goals| ==> |plan.ops[i]| == sv.opLen && |plan.paths[i]| == sv.opLen + 1
    ensures (qTo, next) == Advance(sv, qFrom, plan.ops)
    ensures |qTo| == |sv.goals| && next.Wf()
    ensures forall i :: 0 <= i < |qTo| ==> Manhattan(qFrom[i], qTo[i]) <= 1
    ensures forall i :: 0 <= i < |qTo| && qTo[i] != qFrom[i] ==> IsValidCoord(sv.grid, qTo[i])
    ensures Executable(sv, qFrom) ==> Executable(next, qTo)
    ensures Executable(sv, qFrom) ==> forall i :: 0 <= i < |qTo| ==> qTo[i] == plan.paths[i][1]
  {
    plan := PlanStep(sv, qFrom, priorities);
    qTo, next := Execute(sv, plan);
  }

  /** The moving half of a step: every agent carries out the first action
      of its planned operation. Every agent moves at most one cell, only
      onto a valid cell, and when every inherited operation was executable,
      onto the second cell of its planned path, leaving every inherited
      operation executable again. */
  method Execute(sv: Solver, plan: Round) returns (qTo: seq<Coord>, next: Solver)
    requires sv.Wf() && Prepared(sv, plan) && AllPlanned(sv, plan)
    requires forall i :: 0 <= i < |sv.goals| ==>
               |plan.ops[i]| == sv.opLen && |plan.paths[i]| == sv.opLen + 1 && plan.paths[i][0] == plan.qFrom[i]
    ensures (qTo, next) == Advance(sv, plan.qFrom, plan.ops)
    ensures |qTo| == |sv.goals| && next.Wf()
    ensures forall i :: 0 <= i < |qTo| ==> Manhattan(plan.qFrom[i], qTo[i]) <= 1
    ensures forall i :: 0 <= i < |qTo| && qTo[i] != plan.qFrom[i] ==> IsValidCoord(sv.grid, qTo[i])
    ensures Executable(sv, plan.qFrom) ==> Executable(next, qTo)
    ensures Executable(sv, plan.qFrom) ==> forall i :: 0 <= i < |qTo| ==> qTo[i] == plan.paths[i][1]
  {
    var moved := Advance(sv, plan.qFrom, plan.ops);
    qTo, next := moved.0, moved.1;
    StepFollowsPlan(sv, plan, qTo, next);
  }

  /** When every inherited operation is executable, every agent moves to
      the second cell of its path, and every operation it inherits next is
      executable from where it arrives. */
  lemma StepFollowsPlan(sv: Solver, plan: Round, qTo: seq<Coord>, next: Solver)
    requires Prepared(sv, plan) && AllPlanned(sv, plan)
    requires forall i :: 0 <= i < |sv.goals| ==> |plan.ops[i]| == sv.opLen && |plan.paths[i]| == sv.opLen + 1
    requires (qTo, next) == Advance(sv, plan.qFrom, plan.ops)
    ensures Executable(sv, plan.qFrom) ==> Executable(next, qTo)
    ensures Executable(sv, plan.qFrom) ==> forall i :: 0 <= i < |qTo| ==> qTo[i] == plan.paths[i][1]
  {
    if Executable(sv, plan.qFrom) {
      forall i | 0 <= i < |qTo|
        ensures qTo[i] == plan.paths[i][1]
        ensures ComputeCellPath(next.grid, qTo[i], next.orientations[i], next.inherited[i]).Some?
      {
        var c, ori, op := plan.qFrom[i], sv.orientations[i], plan.ops[i];
        PlanMeaning(sv, plan, i);
        if op == Waits(sv.opLen) && plan.paths[i] == Stay(c, sv.opLen + 1) {
          WaitPath(sv.grid, c, ori, sv.opLen);
        }
        assert ComputeCellPath(sv.grid, c, ori, op).Some? && ComputeCellPath(sv.grid, c, ori, op).value.cells == plan.paths[i];
        FirstStep(sv.grid, c, ori, op);
        InheritedContinues(sv.grid, c, ori, op);
      }
    }
  }

  /** A fresh solver inherits only waits, which are executable anywhere. */
  lemma FreshExecutable(grid: Grid, goals: seq<Coord>, orientations: seq<Orientation>, opLen: nat, maxRevisits: nat, q: seq<Coord>)
    requires grid.Wf() && opLen >= 1 && |orientations| == |goals| && |q| == |goals|
    requires forall i :: 0 <= i < |goals| ==> InBounds(grid, goals[i])
    ensures Executable(NewSolver(grid, goals, orientations, opLen, maxRevisits), q)
  {
    var sv := NewSolver(grid, goals, orientations, opLen, maxRevisits);
    forall i | 0 <= i < |q|
      ensures ComputeCellPath(grid, q[i], orientations[i], sv.inherited[i]).Some?
    {
      WaitPath(grid, q[i], orientations[i], opLen);
    }
  }

  /** Gives agent `i` a new goal; nothing else changes, and from then on its
      candidates are weighed by distances to the new goal. */
  function UpdateGoal(sv: Solver, i: nat, goal: Coord): (r: Solver)
    requires sv.Wf() && i < |sv.goals| && InBounds(sv.grid, goal)
    ensures r.Wf() && |r.goals| == |sv.goals| && r.goals[i] == goal
    ensures forall j :: 0 <= j < |sv.goals| && j != i ==> r.goals[j] == sv.goals[j]
    ensures r == sv.(goals := r.goals)
  {
    sv.(goals := sv.goals[i := goal])
  }

  // ---------------------------------------------------------------------
  // Priorities and the run loop
  // ---------------------------------------------------------------------

  /** A grid with a cell in it has a positive size. */
  lemma SizePositive(g: Grid, c: Coord)
    requires InBounds(g, c)
    ensures g.Size() > 0
  {
    assert g.height >= 1 && g.width >= 1;
    assert g.height * g.width >= g.width;
  }

  /** The starting priorities: each agent's distance from its start to its
      goal, as a fraction of the number of cells; so an agent farther from
      its goal starts with a higher priority. */
  function InitialPriorities(g: Grid, goals: seq<Coord>, starts: seq<Coord>): (prio: seq<real>)
    requires g.Wf() && |starts| == |goals|
    requires forall i :: 0 <= i < |goals| ==> InBounds(g, goals[i])
    ensures |prio| == |starts|
    ensures forall i :: 0 <= i < |starts| ==> prio[i] == Fraction(Distance(g, goals[i], starts[i]), g.Size())
    ensures forall i :: 0 <= i < |starts| ==> 0.0 <= prio[i]
    ensures forall i, j ::
              (0 <= i < |starts| && 0 <= j < |starts| && Distance(g, goals[i], starts[i]) < Distance(g, goals[j], starts[j]))
              ==> prio[i] < prio[j]
  {
    if |goals| == 0 then []
    else
      SizePositive(g, goals[0]);
      var ds := seq(|starts|, i requires 0 <= i < |starts| => Distance(g, goals[i], starts[i]));
      Fractions(ds, g.Size())
  }

  /** Each of `ds` as a fraction of `n`, in order; a smaller entry gives a
      strictly smaller fraction. */
  function Fractions(ds: seq<int>, n: nat): (r: seq<real>)
    requires n > 0
    ensures |r| == |ds|
    ensures forall i :: 0 <= i < |ds| ==> r[i] == Fraction(ds[i], n)
    ensures forall i, j :: 0 <= i < |ds| && 0 <= j < |ds| && ds[i] < ds[j] ==> r[i] < r[j]
  {
    var r := seq(|ds|, i requires 0 <= i < |ds| => Fraction(ds[i], n));
    forall i, j | 0 <= i < |ds| && 0 <= j < |ds| && ds[i] < ds[j]
      ensures r[i] < r[j]
    {
      FractionMono(ds[i], ds[j], n);
    }
    r
  }

  /** `d / n` as Python's true division. */
  function Fraction(d: int, n: nat): (r: real)
    requires n > 0
    ensures d >= 0 ==> r >= 0.0
    ensures r * (n as real) == d as real
  {
    (d as real) / (n as real)
  }

  lemma FractionMono(a: int, b: int, n: nat)
    requires n > 0 && a < b
    ensures Fraction(a, n) < Fraction(b, n)
  {
    var x, y := Fraction(a, n), Fraction(b, n);
    if x >= y {
      assert x * (n as real) >= y * (n as real);
    }
  }

  /** The update after a step: an agent off its goal gains one, an agent on
      its goal keeps only the fractional part of its priority. With
      non-negative priorities, every agent off its goal then outranks
      every agent on its goal, and priorities stay non-negative. */
  function UpdatePriorities(prio: seq<real>, q: seq<Coord>, goals: seq<Coord>): (r: seq<real>)
    requires |prio| == |q| == |goals|
    ensures |r| == |prio|
    ensures forall i :: 0 <= i < |r| && q[i] != goals[i] ==> r[i] == prio[i] + 1.0
    ensures forall i :: 0 <= i < |r| && q[i] == goals[i] ==>
              0.0 <= r[i] < 1.0 && r[i] == prio[i] - prio[i].Floor as real
    ensures (forall i :: 0 <= i < |prio| ==> prio[i] >= 0.0) ==>
              && (forall i :: 0 <= i < |r| ==> r[i] >= 0.0)
              && (forall i, j :: 0 <= i < |r| && 0 <= j < |r| && q[i] != goals[i] && q[j] == goals[j] ==> r[j] < r[i])
  {
    seq(|prio|, i requires 0 <= i < |prio| =>
          if q[i] != goals[i] then prio[i] + 1.0 else prio[i] - prio[i].Floor as real)
  }

  /** From configuration `t - 1` to `t` every agent moves at most one cell. */
  ghost predicate OneMove(configs: seq<seq<Coord>>, t: nat)
    requires 0 < t < |configs|
  {
    && |configs[t - 1]| == |configs[t]|
    && forall i :: 0 <= i < |configs[t]| ==> Manhattan(configs[t - 1][i], configs[t][i]) <= 1
  }

  lemma ExtendMoves(configs: seq<seq<Coord>>, q: seq<Coord>)
    requires |configs| >= 1 && forall t :: 0 < t < |configs| ==> OneMove(configs, t)
    requires |q| == |configs[|configs| - 1]|
    requires forall i :: 0 <= i < |q| ==> Manhattan(configs[|configs| - 1][i], q[i]) <= 1
    ensures forall t :: 0 < t < |configs| + 1 ==> OneMove(configs + [q], t)
  {
    var ext := configs + [q];
    forall t | 0 < t < |ext|
      ensures OneMove(ext, t)
    {
      assert ext[t - 1] == configs[t - 1];
      if t < |configs| {
        assert ext[t] == configs[t];
        assert OneMove(configs, t);
      }
    }
  }

  /** One turn of the run loop: a step, then the priority update. */
  method RunStep(sv: Solver, q: seq<Coord>, prio: seq<real>) returns (q2: seq<Coord>, sv2: Solver, prio2: seq<real>)
    requires sv.Wf() && |q| == |sv.goals| && |prio| == |sv.goals|
    requires forall i :: 0 <= i < |prio| ==> prio[i] >= 0.0
    ensures |q2| == |sv.goals| && sv2.Wf() && sv2 == sv.(orientations := sv2.orientations, inherited := sv2.inherited)
    ensures forall i :: 0 <= i < |q| ==> Manhattan(q[i], q2[i]) <= 1
    ensures (q2, sv2) == Advance(sv, q, Plan(sv, q, prio).ops)
    ensures prio2 == UpdatePriorities(prio, q2, sv.goals)
    ensures |prio2| == |sv.goals| && forall i :: 0 <= i < |prio2| ==> prio2[i] >= 0.0
  {
    var plan;
    q2, sv2, plan := Step(sv, q, prio);
    prio2 := UpdatePriorities(prio, q2, sv.goals);
  }

  /** What the run loop keeps: the configurations so far start with
      `starts`, have one position per agent and differ by at most one cell
      per agent and step; the planner keeps its grid, goals and parameters;
      the priorities stay non-negative. */
  ghost predicate Running(sv0: Solver, starts: seq<Coord>, configs: seq<seq<Coord>>, sv: Solver, prio: seq<real>) {
    && 1 <= |configs| && configs[0] == starts
    && sv.Wf() && sv == sv0.(orientations := sv.orientations, inherited := sv.inherited)
    && |prio| == |sv0.goals| && (forall i :: 0 <= i < |prio| ==> prio[i] >= 0.0)
    && (forall t :: 0 <= t < |configs| ==> |configs[t]| == |sv0.goals|)
    && (forall t :: 0 < t < |configs| ==> OneMove(configs, t))
  }

  /** One turn of the loop keeps `Running`. */
  method RunTurn(sv0: Solver, starts: seq<Coord>, configs: seq<seq<Coord>>, sv: Solver, prio: seq<real>)
    returns (configs2: seq<seq<Coord>>, sv2: Solver, prio2: seq<real>)
    requires Running(sv0, starts, configs, sv, prio)
    ensures Running(sv0, starts, configs2, sv2, prio2)
    ensures |configs2| == |configs| + 1 && configs2[..|configs|] == configs
  {
    var q;
    q, sv2, prio2 := RunStep(sv, configs[|configs| - 1], prio);
    KeepRunning(sv0, starts, configs, sv, prio, q, sv2, prio2);
    configs2 := configs + [q];
    assert configs2[..|configs|] == configs;
  }

  /** A turn that moves every agent at most one cell, keeps the planner's
      grid, goals and parameters and keeps the priorities non-negative
      keeps `Running`. */
  lemma KeepRunning(sv0: Solver, starts: seq<Coord>, configs: seq<seq<Coord>>, sv: Solver, prio: seq<real>,
                    q: seq<Coord>, sv2: Solver, prio2: seq<real>)
    requires Running(sv0, starts, configs, sv, prio)
    requires |q| == |sv.goals| && sv2.Wf() && sv2 == sv.(orientations := sv2.orientations, inherited := sv2.inherited)
    requires forall i :: 0 <= i < |configs[|configs| - 1]| ==> Manhattan(configs[|configs| - 1][i], q[i]) <= 1
    requires |prio2| == |sv.goals| && forall i :: 0 <= i < |prio2| ==> prio2[i] >= 0.0
    ensures Running(sv0, starts, configs + [q], sv2, prio2)
  {
    ExtendMoves(configs, q);
    assert (configs + [q])[0] == configs[0];
    forall t | 0 <= t < |configs| + 1
      ensures |(configs + [q])[t]| == |sv0.goals|
    {
      if t < |configs| {
        assert (configs + [q])[t] == configs[t];
      }
    }
  }

  /** The priorities a run starts from, `InitialPriorities`, with only the
      facts the run loop needs. */
  method StartPriorities(sv0: Solver, starts: seq<Coord>) returns (prio: seq<real>)
    requires sv0.Wf() && |starts| == |sv0.goals|
    ensures |prio| == |sv0.goals| && forall i :: 0 <= i < |prio| ==> prio[i] >= 0.0
  {
    prio := InitialPriorities(sv0.grid, sv0.goals, starts);
  }

  /** The run loop: plan and move until every agent stands on its goal or
      `maxTimestep` steps are done. The configurations start with `starts`,
      each agent moves at most one cell per step, and the run stops at the
      first configuration after the start that puts every agent on its
      goal. */
  method Run(sv0: Solver, starts: seq<Coord>, maxTimestep: nat) returns (configs: seq<seq<Coord>>, sv: Solver)
    requires sv0.Wf() && |starts| == |sv0.goals|
    ensures 1 <= |configs| <= maxTimestep + 1 && configs[0] == starts
    ensures forall t :: 0 <= t < |configs| ==> |configs[t]| == |sv0.goals|
    ensures forall t :: 0 < t < |configs| ==> OneMove(configs, t)
    ensures forall t :: 0 < t < |configs| - 1 ==> configs[t] != sv0.goals
    ensures |configs| <= maxTimestep ==> configs[|configs| - 1] == sv0.goals
    ensures sv.Wf() && sv == sv0.(orientations := sv.orientations, inherited := sv.inherited)
  {
    var prio := StartPriorities(sv0, starts);
    configs := [starts];
    sv := sv0;
    while |configs| <= maxTimestep
      invariant Running(sv0, starts, configs, sv, prio) && |configs| <= maxTimestep + 1
      invariant forall t :: 0 < t < |configs| ==> configs[t] != sv0.goals
      decreases maxTimestep + 1 - |configs|
    {
      var before := configs;
      configs, sv, prio := RunTurn(sv0, starts, configs, sv, prio);
      assert forall t :: 0 < t < |before| ==> configs[t] == before[t];
      if configs[|configs| - 1] == sv0.goals {
        break;
      }
    }
  }
}

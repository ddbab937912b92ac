/** The time-indexed reservation table: which agent holds each cell at each
    step of the planning window, and the conflicts a candidate path has with
    the paths already held. */
module Reservation {
  import opened Grid

  /** Cell `cell` at time step `t` of the window. */
  datatype Slot = Slot(t: nat, cell: Coord)

  /** The holder of each reserved slot; a slot absent from the map holds the
      NIL marker. */
  type Table = map<Slot, nat>

  /** The slots a path occupies: its `t`-th cell at time `t`. */
  ghost predicate OnPath(path: seq<Coord>, s: Slot) {
    s.t < |path| && path[s.t] == s.cell
  }

  /** The loop of `_reserve_path` over the path from step `i` on. */
  function ReserveFrom(tab: Table, agent: nat, path: seq<Coord>, i: nat): (r: Table)
    requires i <= |path|
    ensures forall t :: i <= t < |path| ==> Slot(t, path[t]) in r && r[Slot(t, path[t])] == agent
    ensures forall s: Slot :: !(i <= s.t && OnPath(path, s)) ==> (s in r <==> s in tab) && (s in tab ==> r[s] == tab[s])
    decreases |path| - i
  {
    if i == |path| then tab
    else ReserveFrom(tab[Slot(i, path[i]) := agent], agent, path, i + 1)
  }

  /** Marks every slot of `path` as held by `agent`, overwriting whoever held
      it; every other slot keeps its holder. */
  function ReservePath(tab: Table, agent: nat, path: seq<Coord>): (r: Table)
    ensures forall s :: OnPath(path, s) ==> s in r && r[s] == agent
    ensures forall s :: !OnPath(path, s) ==> (s in r <==> s in tab) && (s in tab ==> r[s] == tab[s])
  {
    var r := ReserveFrom(tab, agent, path, 0);
    assert forall s :: OnPath(path, s) ==> s == Slot(s.t, path[s.t]);
    r
  }

  function UnreserveFrom(tab: Table, agent: nat, path: seq<Coord>, i: nat): (r: Table)
    requires i <= |path|
    ensures forall s: Slot :: i <= s.t && OnPath(path, s) ==> (s in r <==> s in tab && tab[s] != agent)
    ensures forall s: Slot :: !(i <= s.t && OnPath(path, s)) ==> (s in r <==> s in tab)
    ensures forall s :: s in r ==> s in tab && r[s] == tab[s]
    decreases |path| - i
  {
    if i == |path| then tab
    else
      var s := Slot(i, path[i]);
      var next := if s in tab && tab[s] == agent then tab - {s} else tab;
      UnreserveFrom(next, agent, path, i + 1)
  }

  /** Frees the slots of `path` that `agent` still holds; a slot of the path
      taken over by another agent, and every slot off the path, is left as
      it is. */
  function UnreservePath(tab: Table, agent: nat, path: seq<Coord>): (r: Table)
    ensures forall s :: s in r <==> s in tab && !(OnPath(path, s) && tab[s] == agent)
    ensures forall s :: s in r ==> r[s] == tab[s]
  {
    UnreserveFrom(tab, agent, path, 0)
  }

  /** Reserving a path on free slots and then unreserving it restores the
      table. */
  lemma UnreserveUndoesReserve(tab: Table, agent: nat, path: seq<Coord>)
    requires forall t :: 0 <= t < |path| ==> Slot(t, path[t]) !in tab
    ensures UnreservePath(ReservePath(tab, agent, path), agent, path) == tab
  {
    var r := UnreservePath(ReservePath(tab, agent, path), agent, path);
    forall s
      ensures s in r <==> s in tab
    {
      if OnPath(path, s) {
        assert Slot(s.t, path[s.t]) == s;
      }
    }
  }

  // ---------------------------------------------------------------------
  // Conflicts
  // ---------------------------------------------------------------------

  /** Another agent `l` holds the path's cell at some step. */
  ghost predicate VertexConflict(tab: Table, agent: nat, path: seq<Coord>, l: nat) {
    l != agent && exists t :: 0 <= t < |path| && Slot(t, path[t]) in tab && tab[Slot(t, path[t])] == l
  }

  /** Another agent `l` makes the opposite move in the same step: it holds
      the path's new cell just before and the path's old cell just after. */
  ghost predicate SwapAt(tab: Table, path: seq<Coord>, l: nat, t: int) {
    && 0 < t < |path| && path[t] != path[t - 1]
    && Slot(t - 1, path[t]) in tab && tab[Slot(t - 1, path[t])] == l
    && Slot(t, path[t - 1]) in tab && tab[Slot(t, path[t - 1])] == l
  }

  ghost predicate SwapConflict(tab: Table, agent: nat, path: seq<Coord>, l: nat) {
    l != agent && exists t :: SwapAt(tab, path, l, t)
  }

  /** `l` holds the path's slot at step `t` or swaps with it there. */
  ghost predicate ConflictAt(tab: Table, path: seq<Coord>, l: nat, t: int) {
    || (0 <= t < |path| && Slot(t, path[t]) in tab && tab[Slot(t, path[t])] == l)
    || SwapAt(tab, path, l, t)
  }

  /** The conflicts found at steps `i` and later. */
  function ConflictsFrom(tab: Table, agent: nat, path: seq<Coord>, i: nat): (r: set<nat>)
    requires i <= |path|
    ensures forall l :: l in r <==> l != agent && exists t :: i <= t < |path| && ConflictAt(tab, path, l, t)
    decreases |path| - i
  {
    if i == |path| then {}
    else
      var rest := ConflictsFrom(tab, agent, path, i + 1);
      var vertex := Slot(i, path[i]);
      var v := if vertex in tab && tab[vertex] != agent then {tab[vertex]} else {};
      var e :=
        if i > 0 && path[i] != path[i - 1] then
          var before := Slot(i - 1, path[i]);
          if before in tab && tab[before] != agent then
            var after := Slot(i, path[i - 1]);
            if after in tab && tab[after] == tab[before] then {tab[before]} else {}
          else {}
        else {};
      assert forall l :: l in v + e <==> l != agent && ConflictAt(tab, path, l, i);
      forall l | l != agent && exists t :: i <= t < |path| && ConflictAt(tab, path, l, t)
        ensures l in rest + v + e
      {
        var t :| i <= t < |path| && ConflictAt(tab, path, l, t);
        if t > i {
          assert l in rest;
        }
      }
      forall l | l in rest + v + e
        ensures l != agent && exists t :: i <= t < |path| && ConflictAt(tab, path, l, t)
      {
        if l in rest {
          var t :| i + 1 <= t < |path| && ConflictAt(tab, path, l, t);
          assert i <= t;
        } else {
          assert ConflictAt(tab, path, l, i);
        }
      }
      rest + v + e
  }

  /** The agents whose reservations `path` runs into: exactly the other
      agents holding one of its slots, and the other agents swapping cells
      with it in some step. Never `agent` itself. */
  function GetConflicts(tab: Table, agent: nat, path: seq<Coord>): (r: set<nat>)
    ensures agent !in r
    ensures forall l :: l in r <==> VertexConflict(tab, agent, path, l) || SwapConflict(tab, agent, path, l)
  {
    var r := ConflictsFrom(tab, agent, path, 0);
    forall l
      ensures l in r <==> VertexConflict(tab, agent, path, l) || SwapConflict(tab, agent, path, l)
    {
      if l in r {
        var t :| 0 <= t < |path| && ConflictAt(tab, path, l, t);
        if !SwapAt(tab, path, l, t) {
          assert VertexConflict(tab, agent, path, l);
        }
      }
      if VertexConflict(tab, agent, path, l) {
        var t :| 0 <= t < |path| && Slot(t, path[t]) in tab && tab[Slot(t, path[t])] == l;
        assert ConflictAt(tab, path, l, t);
      }
      if SwapConflict(tab, agent, path, l) {
        var t :| SwapAt(tab, path, l, t);
        assert ConflictAt(tab, path, l, t);
      }
    }
    r
  }

  /** With no conflict, every slot of the path is free or already held by
      the agent, so reserving it takes nothing from anyone. */
  lemma NoConflictsFreeSlots(tab: Table, agent: nat, path: seq<Coord>)
    requires GetConflicts(tab, agent, path) == {}
    ensures forall t :: 0 <= t < |path| ==> Slot(t, path[t]) !in tab || tab[Slot(t, path[t])] == agent
  {
    forall t | 0 <= t < |path| && Slot(t, path[t]) in tab
      ensures tab[Slot(t, path[t])] == agent
    {
      var l := tab[Slot(t, path[t])];
      if l != agent {
        assert VertexConflict(tab, agent, path, l);
      }
    }
  }

  /** Once a path is reserved, nobody holds one of its slots but the agent,
      and the swaps are untouched: the slots a swap needs are off the path. */
  lemma ReservedPathConflicts(tab: Table, agent: nat, path: seq<Coord>, l: nat)
    ensures l in GetConflicts(ReservePath(tab, agent, path), agent, path) <==> SwapConflict(tab, agent, path, l)
  {
    var r := ReservePath(tab, agent, path);
    forall t | 0 < t < |path| && path[t] != path[t - 1]
      ensures SwapAt(r, path, l, t) <==> SwapAt(tab, path, l, t)
    {
      assert !OnPath(path, Slot(t - 1, path[t])) && !OnPath(path, Slot(t, path[t - 1]));
    }
    if SwapConflict(r, agent, path, l) {
      var t :| SwapAt(r, path, l, t);
      assert SwapAt(tab, path, l, t);
    }
    if SwapConflict(tab, agent, path, l) {
      var t :| SwapAt(tab, path, l, t);
      assert SwapAt(r, path, l, t);
    }
  }

  /** Every agent in conflict with a path holds some slot of the table. */
  lemma ConflictHolds(tab: Table, agent: nat, path: seq<Coord>, l: nat)
    requires l in GetConflicts(tab, agent, path)
    ensures exists s :: s in tab && tab[s] == l
  {
    if VertexConflict(tab, agent, path, l) {
      var t :| 0 <= t < |path| && Slot(t, path[t]) in tab && tab[Slot(t, path[t])] == l;
    } else {
      var t :| SwapAt(tab, path, l, t);
    }
  }
}

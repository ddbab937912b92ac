/** The lazy distance table: breadth-first search from one goal cell that is
    advanced only as far as a query needs, with every distance it has found
    cached for later queries. */
module DistTable {
  import opened Common
  import opened Grid

  /** The answer for an invalid or unreachable cell: the largest int32. */
  const Unreached: int := 0x7fff_ffff

  /** `table` holds the resolved cells and their distances; a cell absent
      from it reads as `Unreached`. `queue` is the BFS frontier, front first. */
  datatype DistTable = DistTable(grid: Grid, goal: Coord, queue: seq<Coord>, table: map<Coord, nat>)

  /** The table entry of a cell as the numpy distance array reads it. */
  function Lookup(dt: DistTable, c: Coord): int {
    if c in dt.table then dt.table[c] else Unreached
  }

  // ---------------------------------------------------------------------
  // Reference notions: walks to the goal
  // ---------------------------------------------------------------------

  /** `p` is a walk that ends at `goal`, each step going to a walkable
      4-neighbour of the cell before it. */
  ghost predicate IsWalk(g: Grid, goal: Coord, p: seq<Coord>)
    requires g.Wf()
  {
    && |p| > 0 && p[|p| - 1] == goal
    && forall i :: 0 <= i < |p| - 1 ==> p[i + 1] in GetNeighbors(g, p[i])
  }

  /** There is a walk of exactly `n` steps from `c` to `goal`. */
  ghost predicate PathTo(g: Grid, goal: Coord, c: Coord, n: nat)
    requires g.Wf()
  {
    exists p :: IsWalk(g, goal, p) && |p| == n + 1 && p[0] == c
  }

  /** A walk from a neighbour extends to a walk one step longer. */
  lemma WalkCons(g: Grid, goal: Coord, c: Coord, p: seq<Coord>)
    requires g.Wf() && IsWalk(g, goal, p) && p[0] in GetNeighbors(g, c)
    ensures IsWalk(g, goal, [c] + p)
  {
    var w := [c] + p;
    forall i | 0 <= i < |w| - 1
      ensures w[i + 1] in GetNeighbors(g, w[i])
    {
      if i > 0 {
        assert w[i] == p[i - 1] && w[i + 1] == p[i];
      }
    }
  }

  /** Dropping the first cell of a walk leaves a walk. */
  lemma WalkTail(g: Grid, goal: Coord, p: seq<Coord>)
    requires g.Wf() && IsWalk(g, goal, p) && |p| > 1
    ensures IsWalk(g, goal, p[1..]) && p[1] in GetNeighbors(g, p[0])
  {
    var w := p[1..];
    forall i | 0 <= i < |w| - 1
      ensures w[i + 1] in GetNeighbors(g, w[i])
    {
      assert w[i] == p[i + 1] && w[i + 1] == p[i + 2];
    }
  }

  /** `d` is the length of a shortest walk from `c` to `goal`. */
  ghost predicate IsDistance(g: Grid, goal: Coord, c: Coord, d: nat)
    requires g.Wf()
  {
    PathTo(g, goal, c, d) && forall k: nat :: k < d ==> !PathTo(g, goal, c, k)
  }

  ghost predicate Unreachable(g: Grid, goal: Coord, c: Coord)
    requires g.Wf()
  {
    forall k: nat :: !PathTo(g, goal, c, k)
  }

  lemma DistanceUnique(g: Grid, goal: Coord, c: Coord, a: nat, b: nat)
    requires g.Wf() && IsDistance(g, goal, c, a) && IsDistance(g, goal, c, b)
    ensures a == b
  {
  }

  // ---------------------------------------------------------------------
  // The table invariant
  // ---------------------------------------------------------------------

  function AllCells(g: Grid): set<Coord> {
    set y: int, x: int | 0 <= y < g.height && 0 <= x < g.width :: Coord(y, x)
  }

  /** Frontier distances never decrease front to back and span at most one. */
  ghost predicate QueueOrdered(table: map<Coord, nat>, q: seq<Coord>)
    requires forall i :: 0 <= i < |q| ==> q[i] in table
  {
    forall i, j :: 0 <= i <= j < |q| ==> table[q[i]] <= table[q[j]] <= table[q[i]] + 1
  }

  /** An expanded cell: no farther than the frontier's front, and every
      neighbour of it is resolved at most one step farther. */
  ghost predicate Closed(g: Grid, table: map<Coord, nat>, q: seq<Coord>, c: Coord)
    requires g.Wf() && c in table
    requires forall i :: 0 <= i < |q| ==> q[i] in table
  {
    && (|q| > 0 ==> table[c] <= table[q[0]])
    && forall v :: v in GetNeighbors(g, c) ==> v in table && table[v] <= table[c] + 1
  }

  ghost predicate Inv(dt: DistTable) {
    && dt.grid.Wf()
    && InBounds(dt.grid, dt.goal)
    && dt.goal in dt.table && dt.table[dt.goal] == 0
    && (forall c :: c in dt.table ==> InBounds(dt.grid, c))
    && (forall i :: 0 <= i < |dt.queue| ==> dt.queue[i] in dt.table)
    && QueueOrdered(dt.table, dt.queue)
    && (forall c {:trigger Closed(dt.grid, dt.table, dt.queue, c)} :: c in dt.table && c !in dt.queue ==> Closed(dt.grid, dt.table, dt.queue, c))
    && (forall c {:trigger PathTo(dt.grid, dt.goal, c, dt.table[c])} :: c in dt.table ==> PathTo(dt.grid, dt.goal, c, dt.table[c]))
  }

  /** A fresh table: only the goal is resolved, at distance 0, and it is the
      whole frontier. */
  function Init(g: Grid, goal: Coord): (dt: DistTable)
    requires g.Wf() && InBounds(g, goal)
    ensures Inv(dt)
    ensures dt.grid == g && dt.goal == goal
    ensures dt.queue == [goal] && Lookup(dt, goal) == 0
    ensures forall c :: c != goal ==> Lookup(dt, c) == Unreached
  {
    assert IsWalk(g, goal, [goal]);
    DistTable(g, goal, [goal], map[goal := 0])
  }

  /** Any walk to the goal starts at a cell resolved no farther than the
      walk's length, or is longer than the frontier's front distance. */
  lemma {:induction false} ReachBoundWalk(dt: DistTable, p: seq<Coord>)
    requires Inv(dt) && IsWalk(dt.grid, dt.goal, p)
    ensures (p[0] in dt.table && dt.table[p[0]] <= |p| - 1) || (|dt.queue| > 0 && dt.table[dt.queue[0]] < |p| - 1)
    decreases |p|
  {
    if |p| > 1 {
      WalkTail(dt.grid, dt.goal, p);
      var c, v := p[0], p[1];
      ReachBoundWalk(dt, p[1..]);
      if v in dt.table && dt.table[v] <= |p| - 2 {
        if v in dt.queue {
          var i :| 0 <= i < |dt.queue| && dt.queue[i] == v;
          assert dt.table[dt.queue[0]] <= dt.table[dt.queue[i]];
        } else {
          NeighborsSymmetric(dt.grid, c, v);
          assert Closed(dt.grid, dt.table, dt.queue, v);
        }
      }
    }
  }

  lemma ReachBound(dt: DistTable, c: Coord, k: nat)
    requires Inv(dt) && PathTo(dt.grid, dt.goal, c, k)
    ensures (c in dt.table && dt.table[c] <= k) || (|dt.queue| > 0 && dt.table[dt.queue[0]] < k)
  {
    var p :| IsWalk(dt.grid, dt.goal, p) && |p| == k + 1 && p[0] == c;
    ReachBoundWalk(dt, p);
  }

  /** A resolved cell is at most one step farther than the frontier's front. */
  lemma ResolvedNearFront(dt: DistTable, c: Coord)
    requires Inv(dt) && c in dt.table && |dt.queue| > 0
    ensures dt.table[c] <= dt.table[dt.queue[0]] + 1
  {
    if c in dt.queue {
      var i :| 0 <= i < |dt.queue| && dt.queue[i] == c;
      assert dt.table[dt.queue[0]] <= dt.table[dt.queue[i]] <= dt.table[dt.queue[0]] + 1;
    } else {
      assert Closed(dt.grid, dt.table, dt.queue, c);
    }
  }

  /** Under the invariant every cached entry is the shortest distance. */
  lemma ResolvedIsDistance(dt: DistTable, c: Coord)
    requires Inv(dt) && c in dt.table
    ensures IsDistance(dt.grid, dt.goal, c, dt.table[c])
  {
    if |dt.queue| > 0 {
      ResolvedNearFront(dt, c);
    }
    forall k: nat | k < dt.table[c]
      ensures !PathTo(dt.grid, dt.goal, c, k)
    {
      if PathTo(dt.grid, dt.goal, c, k) {
        ReachBound(dt, c, k);
        assert false;
      }
    }
  }

  /** With an empty frontier, a cell that is not resolved cannot be reached. */
  lemma ExhaustedIsUnreachable(dt: DistTable, c: Coord)
    requires Inv(dt) && dt.queue == [] && c !in dt.table
    ensures Unreachable(dt.grid, dt.goal, c)
  {
    forall k: nat
      ensures !PathTo(dt.grid, dt.goal, c, k)
    {
      if PathTo(dt.grid, dt.goal, c, k) {
        ReachBound(dt, c, k);
      }
    }
  }

  // ---------------------------------------------------------------------
  // One expansion step
  // ---------------------------------------------------------------------

  /** Visits the neighbours `nbrs` of a cell at distance `d` in order: each
      one not yet resolved gets distance `d + 1` and joins the back of the
      frontier; resolved ones are left alone. */
  function Relax(table: map<Coord, nat>, queue: seq<Coord>, nbrs: seq<Coord>, d: nat): (r: (map<Coord, nat>, seq<Coord>))
    ensures forall c :: c in table ==> c in r.0 && r.0[c] == table[c]
    ensures forall v :: v in nbrs ==> v in r.0
    ensures |r.1| >= |queue| && r.1[..|queue|] == queue
    ensures forall i :: |queue| <= i < |r.1| ==> r.1[i] in nbrs && r.1[i] !in table && r.1[i] in r.0 && r.0[r.1[i]] == d + 1
    ensures forall c :: c in r.0 && c !in table ==> c in r.1[|queue|..]
    decreases |nbrs|
  {
    if nbrs == [] then (table, queue)
    else
      var v := nbrs[0];
      if v !in table then
        var r := Relax(table[v := d + 1], queue + [v], nbrs[1..], d);
        assert r.1[..|queue|] == (queue + [v])[..|queue|];
        assert r.1[|queue|] == v;
        r
      else
        Relax(table, queue, nbrs[1..], d)
  }

  lemma FrontValues(dt: DistTable, i: nat)
    requires Inv(dt) && i < |dt.queue|
    ensures dt.table[dt.queue[0]] <= dt.table[dt.queue[i]] <= dt.table[dt.queue[0]] + 1
  {
  }

  /** The shape of one expansion of the front cell `u` at distance `d`:
      the old frontier minus its front, then the newly resolved neighbours. */
  ghost predicate PopResult(dt: DistTable, t': map<Coord, nat>, q': seq<Coord>)
    requires dt.grid.Wf() && |dt.queue| > 0 && dt.queue[0] in dt.table
  {
    (t', q') == Relax(dt.table, dt.queue[1..], GetNeighbors(dt.grid, dt.queue[0]), dt.table[dt.queue[0]])
  }

  /** The frontier after an expansion lies within one step of the expanded
      cell's distance, and every cell on it is resolved. */
  lemma PopBand(dt: DistTable, t': map<Coord, nat>, q': seq<Coord>)
    requires Inv(dt) && |dt.queue| > 0 && PopResult(dt, t', q')
    ensures forall i :: 0 <= i < |q'| ==> q'[i] in t'
    ensures forall i :: 0 <= i < |q'| ==> dt.table[dt.queue[0]] <= t'[q'[i]] <= dt.table[dt.queue[0]] + 1
    ensures forall i :: 0 <= i < |dt.queue| - 1 ==> q'[i] == dt.queue[i + 1]
    ensures forall i :: |dt.queue| - 1 <= i < |q'| ==> t'[q'[i]] == dt.table[dt.queue[0]] + 1 && q'[i] !in dt.table
  {
    var q, t := dt.queue, dt.table;
    var rest := q[1..];
    forall i | 0 <= i < |q'|
      ensures q'[i] in t' && t[q[0]] <= t'[q'[i]] <= t[q[0]] + 1
    {
      if i < |rest| {
        assert q'[i] == rest[i] == q[i + 1];
        FrontValues(dt, i + 1);
      }
    }
  }

  lemma PopKeys(dt: DistTable, t': map<Coord, nat>, q': seq<Coord>)
    requires Inv(dt) && |dt.queue| > 0 && PopResult(dt, t', q')
    ensures forall c :: c in t' ==> InBounds(dt.grid, c)
    ensures forall c :: c in t' && c !in dt.table ==> c in GetNeighbors(dt.grid, dt.queue[0]) && t'[c] == dt.table[dt.queue[0]] + 1
    ensures forall c :: c in t' && c !in dt.table ==> c in q'
  {
    var rest := dt.queue[1..];
    forall c | c in t' && c !in dt.table
      ensures c in GetNeighbors(dt.grid, dt.queue[0]) && t'[c] == dt.table[dt.queue[0]] + 1 && c in q'
    {
      assert c in q'[|rest|..];
      var i :| |rest| <= i < |q'| && q'[i] == c;
    }
  }

  lemma PopOrdered(dt: DistTable, t': map<Coord, nat>, q': seq<Coord>)
    requires Inv(dt) && |dt.queue| > 0 && PopResult(dt, t', q')
    requires forall i :: 0 <= i < |q'| ==> q'[i] in t'
    ensures QueueOrdered(t', q')
  {
    PopBand(dt, t', q');
    var q := dt.queue;
    forall i, j | 0 <= i <= j < |q'|
      ensures t'[q'[i]] <= t'[q'[j]] <= t'[q'[i]] + 1
    {
      if j < |q| - 1 {
        assert q'[i] == q[i + 1] && q'[j] == q[j + 1];
        assert t'[q'[i]] == dt.table[q[i + 1]] && t'[q'[j]] == dt.table[q[j + 1]];
      }
    }
  }

  lemma PopClosed(dt: DistTable, t': map<Coord, nat>, q': seq<Coord>, c: Coord)
    requires Inv(dt) && |dt.queue| > 0 && PopResult(dt, t', q')
    requires forall i :: 0 <= i < |q'| ==> q'[i] in t'
    requires c in t' && c !in q'
    ensures Closed(dt.grid, t', q', c)
  {
    PopBand(dt, t', q');
    PopKeys(dt, t', q');
    var g, q, t := dt.grid, dt.queue, dt.table;
    var u := q[0];
    var d := t[u];
    assert c in t;
    forall i | 1 <= i < |q|
      ensures q[i] != c
    {
      assert q'[i - 1] == q[i];
    }
    assert c !in q[1..];
    if |q'| > 0 {
      assert d <= t'[q'[0]];
    }
    if c == u {
      forall v | v in GetNeighbors(g, u)
        ensures v in t' && t'[v] <= d + 1
      {
        if v in t {
          ResolvedNearFront(dt, v);
        }
      }
    } else {
      assert q == [u] + q[1..];
      assert c !in q;
      assert Closed(g, t, q, c);
    }
  }

  /** A walk from a neighbour gives a walk one step longer. */
  lemma PathStep(g: Grid, goal: Coord, u: Coord, c: Coord, n: nat)
    requires g.Wf() && PathTo(g, goal, u, n) && u in GetNeighbors(g, c)
    ensures PathTo(g, goal, c, n + 1)
  {
    var p :| IsWalk(g, goal, p) && |p| == n + 1 && p[0] == u;
    WalkCons(g, goal, c, p);
    assert ([c] + p)[0] == c;
  }

  lemma PopPaths(dt: DistTable, t': map<Coord, nat>, q': seq<Coord>, c: Coord)
    requires Inv(dt) && |dt.queue| > 0 && PopResult(dt, t', q')
    requires c in t'
    ensures PathTo(dt.grid, dt.goal, c, t'[c])
  {
    PopKeys(dt, t', q');
    var u := dt.queue[0];
    if c !in dt.table {
      NeighborsSymmetric(dt.grid, u, c);
      assert PathTo(dt.grid, dt.goal, u, dt.table[u]);
      PathStep(dt.grid, dt.goal, u, c, dt.table[u]);
    } else {
      assert PathTo(dt.grid, dt.goal, c, dt.table[c]);
    }
  }

  /** Expanding the front cell keeps the invariant. */
  lemma PopPreservesInv(dt: DistTable, t': map<Coord, nat>, q': seq<Coord>)
    requires Inv(dt) && |dt.queue| > 0 && PopResult(dt, t', q')
    ensures Inv(DistTable(dt.grid, dt.goal, q', t'))
  {
    PopBand(dt, t', q');
    PopKeys(dt, t', q');
    PopOrdered(dt, t', q');
    forall c | c in t' && c !in q'
      ensures Closed(dt.grid, t', q', c)
    {
      PopClosed(dt, t', q', c);
    }
    forall c | c in t'
      ensures PathTo(dt.grid, dt.goal, c, t'[c])
    {
      PopPaths(dt, t', q', c);
    }
  }

  // ---------------------------------------------------------------------
  // Queries
  // ---------------------------------------------------------------------

  /** The search loop: expand the frontier front to back until `target` is
      the expanded cell or the frontier runs dry. */
  function Search(dt: DistTable, target: Coord): (res: (int, DistTable))
    requires Inv(dt) && IsValidCoord(dt.grid, target)
    requires target in dt.table ==> target in dt.queue
    ensures Inv(res.1) && res.1.grid == dt.grid && res.1.goal == dt.goal
    ensures forall c :: c in dt.table ==> c in res.1.table && res.1.table[c] == dt.table[c]
    ensures !Unreachable(dt.grid, dt.goal, target) ==>
              res.0 >= 0 && IsDistance(dt.grid, dt.goal, target, res.0) && target in res.1.table && res.1.table[target] == res.0
    ensures Unreachable(dt.grid, dt.goal, target) ==>
              res.0 == Unreached && res.1.queue == [] && target !in res.1.table
    decreases AllCells(dt.grid) - dt.table.Keys, |dt.queue|
  {
    if dt.queue == [] then
      ExhaustedIsUnreachable(dt, target);
      (Unreached, dt)
    else
      var u := dt.queue[0];
      var d := dt.table[u];
      var r := Relax(dt.table, dt.queue[1..], GetNeighbors(dt.grid, u), d);
      var next := DistTable(dt.grid, dt.goal, r.1, r.0);
      PopPreservesInv(dt, r.0, r.1);
      if u == target then
        ResolvedIsDistance(dt, target);
        (d, next)
      else
        PopProgress(dt, r, target);
        Search(next, target)
  }

  /** Expanding a front cell other than `target` keeps `target` on the
      frontier if it was resolved, and makes progress: either a new cell is
      resolved or the frontier shrinks. */
  lemma PopProgress(dt: DistTable, r: (map<Coord, nat>, seq<Coord>), target: Coord)
    requires Inv(dt) && dt.queue != [] && dt.queue[0] != target
    requires target in dt.table ==> target in dt.queue
    requires r == Relax(dt.table, dt.queue[1..], GetNeighbors(dt.grid, dt.queue[0]), dt.table[dt.queue[0]])
    ensures target in r.0 ==> target in r.1
    ensures dt.table.Keys <= r.0.Keys <= AllCells(dt.grid)
    ensures r.0.Keys == dt.table.Keys ==> |r.1| < |dt.queue|
  {
    var next := DistTable(dt.grid, dt.goal, r.1, r.0);
    PopPreservesInv(dt, r.0, r.1);
    if target in dt.table {
      var i :| 0 <= i < |dt.queue| && dt.queue[i] == target;
      assert next.queue[i - 1] == target;
    } else if target in next.table {
      assert target in r.1[|dt.queue[1..]|..];
    }
    if |r.1| >= |dt.queue| {
      var v := r.1[|dt.queue| - 1];
      assert v !in dt.table && v in r.0;
      assert r.0.Keys != dt.table.Keys;
    }
  }

  /** Distance from `target` to the goal: `Unreached` for an invalid or
      unreachable cell, the shortest walk length otherwise. A resolved
      entry is answered straight from the table with nothing expanded, and
      no entry that was already resolved changes. */
  function Get(dt: DistTable, target: Coord): (res: (int, DistTable))
    requires Inv(dt)
    ensures Inv(res.1) && res.1.grid == dt.grid && res.1.goal == dt.goal
    ensures forall c :: c in dt.table ==> c in res.1.table && res.1.table[c] == dt.table[c]
    ensures !IsValidCoord(dt.grid, target) ==> res == (Unreached, dt)
    ensures IsValidCoord(dt.grid, target) && target in dt.table ==> res == (dt.table[target], dt)
    ensures IsValidCoord(dt.grid, target) && Unreachable(dt.grid, dt.goal, target) ==>
              res.0 == Unreached && res.1.queue == [] && target !in res.1.table
    ensures IsValidCoord(dt.grid, target) && !Unreachable(dt.grid, dt.goal, target) ==>
              res.0 >= 0 && IsDistance(dt.grid, dt.goal, target, res.0) && target in res.1.table && res.1.table[target] == res.0
  {
    if !IsValidCoord(dt.grid, target) then (Unreached, dt)
    else if target in dt.table then
      ResolvedIsDistance(dt, target);
      (dt.table[target], dt)
    else Search(dt, target)
  }

  /** Asking twice gives the same answer, and the second query expands
      nothing. */
  lemma GetIdempotent(dt: DistTable, target: Coord)
    requires Inv(dt)
    ensures Get(Get(dt, target).1, target) == Get(dt, target)
  {
    var (d, dt2) := Get(dt, target);
    if IsValidCoord(dt.grid, target) && !Unreachable(dt.grid, dt.goal, target) {
      assert target in dt2.table && dt2.table[target] == d;
    }
  }

  /** The distance a fresh table reports. */
  function Distance(g: Grid, goal: Coord, c: Coord): (d: int)
    requires g.Wf() && InBounds(g, goal)
    ensures !IsValidCoord(g, c) || Unreachable(g, goal, c) ==> d == Unreached
    ensures IsValidCoord(g, c) && !Unreachable(g, goal, c) ==> d >= 0 && IsDistance(g, goal, c, d)
  {
    Get(Init(g, goal), c).0
  }

  /** Caching is invisible: a query on any table reached from the goal's
      fresh table answers what the fresh table answers, whatever was asked
      before. */
  lemma CacheIndependent(dt: DistTable, c: Coord)
    requires Inv(dt)
    ensures Get(dt, c).0 == Distance(dt.grid, dt.goal, c)
  {
    var a := Get(dt, c).0;
    var b := Distance(dt.grid, dt.goal, c);
    if IsValidCoord(dt.grid, c) && !Unreachable(dt.grid, dt.goal, c) {
      DistanceUnique(dt.grid, dt.goal, c, a, b);
    }
  }
}

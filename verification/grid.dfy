/** Grid helpers: the walkability matrix, the expansion of rectangular areas
    into cell lists, cell validity and the 4-neighbourhood of a cell.
    Cells are (row, column) pairs, row first, as in Python's `(y, x)` tuples. */
module Grid {
  import opened Common

  datatype Coord = Coord(y: int, x: int)

  /** A `height` x `width` walkability matrix: `free[y][x]` holds for a
      walkable cell and fails for an obstacle. */
  datatype Grid = Grid(height: nat, width: nat, free: seq<seq<bool>>) {

    /** The matrix is rectangular with the recorded shape. */
    ghost predicate Wf() {
      |free| == height && forall y :: 0 <= y < height ==> |free[y]| == width
    }

    /** Number of cells, walkable or not (numpy's `grid.size`). */
    function Size(): nat {
      height * width
    }
  }

  predicate InRange(c: Coord, height: nat, width: nat) {
    0 <= c.y < height && 0 <= c.x < width
  }

  predicate InBounds(g: Grid, c: Coord) {
    InRange(c, g.height, g.width)
  }

  /** A cell is valid when it lies inside the grid and is walkable. */
  predicate IsValidCoord(g: Grid, c: Coord)
    requires g.Wf()
  {
    InBounds(g, c) && g.free[c.y][c.x]
  }

  function Abs(n: int): nat {
    if n < 0 then -n else n
  }

  function Manhattan(a: Coord, b: Coord): nat {
    Abs(a.y - b.y) + Abs(a.x - b.x)
  }

  // ---------------------------------------------------------------------
  // Building the grid
  // ---------------------------------------------------------------------

  /** numpy's reading of an index `i` into an axis of length `n`: negative
      indices count from the end, anything else outside the axis raises. */
  function WrapIndex(i: int, n: nat): Option<int> {
    if 0 <= i < n then Some(i)
    else if i < 0 && 0 <= i + n then Some(i + n)
    else None
  }

  function WrapCoord(c: Coord, height: nat, width: nat): Option<Coord> {
    match (WrapIndex(c.y, height), WrapIndex(c.x, width))
    case (Some(y), Some(x)) => Some(Coord(y, x))
    case _ => None
  }

  lemma WrapCoordInRange(c: Coord, height: nat, width: nat)
    ensures WrapCoord(c, height, width).Some? ==> InRange(WrapCoord(c, height, width).value, height, width)
    ensures InRange(c, height, width) ==> WrapCoord(c, height, width) == Some(c)
  {
  }

  /** Builds the height x width grid with every listed obstacle blocked.
      An obstacle index outside numpy's accepted range raises an
      IndexError, modelled as `None`; a negative index wraps around. */
  method GetGrid(height: nat, width: nat, obstacles: seq<Coord>) returns (r: Option<Grid>)
    ensures r.Some? <==> forall i :: 0 <= i < |obstacles| ==> WrapCoord(obstacles[i], height, width).Some?
    ensures r.Some? ==> r.value.Wf() && r.value.height == height && r.value.width == width
    ensures r.Some? ==> forall c :: InRange(c, height, width) ==>
              (!r.value.free[c.y][c.x] <==> exists i :: 0 <= i < |obstacles| && WrapCoord(obstacles[i], height, width) == Some(c))
    ensures r.Some? && (forall i :: 0 <= i < |obstacles| ==> InRange(obstacles[i], height, width)) ==>
              forall c :: IsValidCoord(r.value, c) <==> InRange(c, height, width) && c !in obstacles
  {
    var free := seq(height, _ => seq(width, _ => true));
    var i := 0;
    while i < |obstacles|
      invariant 0 <= i <= |obstacles|
      invariant forall j :: 0 <= j < i ==> WrapCoord(obstacles[j], height, width).Some?
      invariant |free| == height && forall y :: 0 <= y < height ==> |free[y]| == width
      invariant forall c :: InRange(c, height, width) ==>
                  (!free[c.y][c.x] <==> exists j :: 0 <= j < i && WrapCoord(obstacles[j], height, width) == Some(c))
    {
      var w := WrapCoord(obstacles[i], height, width);
      if w.None? {
        return None;
      }
      WrapCoordInRange(obstacles[i], height, width);
      var c := w.value;
      free := free[c.y := free[c.y][c.x := false]];
      i := i + 1;
    }
    r := Some(Grid(height, width, free));
    if forall j :: 0 <= j < |obstacles| ==> InRange(obstacles[j], height, width) {
      forall c | InRange(c, height, width)
        ensures !free[c.y][c.x] <==> c in obstacles
      {
        if c in obstacles {
          var j :| 0 <= j < |obstacles| && obstacles[j] == c;
          WrapCoordInRange(obstacles[j], height, width);
        }
        if !free[c.y][c.x] {
          var j :| 0 <= j < |obstacles| && WrapCoord(obstacles[j], height, width) == Some(c);
          WrapCoordInRange(obstacles[j], height, width);
        }
      }
    }
  }

  // ---------------------------------------------------------------------
  // Expanding areas
  // ---------------------------------------------------------------------

  /** An entry of an area list: a single cell, or the rectangle with the
      two given corners, both inclusive. */
  datatype Area = Cell(c: Coord) | Rect(lo: Coord, hi: Coord)

  /** Row `y`, columns `x1` up to but excluding `x`, left to right. */
  function RowCells(y: int, x1: int, x: int): seq<Coord>
    decreases x - x1
  {
    if x <= x1 then [] else RowCells(y, x1, x - 1) + [Coord(y, x - 1)]
  }

  /** Rows `y1` up to but excluding `y`, each from column `x1` to `x2`
      inclusive: the order of the two nested loops. */
  function RectCells(y1: int, y: int, x1: int, x2: int): seq<Coord>
    decreases y - y1
  {
    if y <= y1 then [] else RectCells(y1, y - 1, x1, x2) + RowCells(y - 1, x1, x2 + 1)
  }

  function AreaCells(a: Area): seq<Coord> {
    match a
    case Cell(c) => [c]
    case Rect(lo, hi) => RectCells(lo.y, hi.y + 1, lo.x, hi.x)
  }

  /** The per-item expansions, concatenated in input order. */
  function Flatten(areas: seq<Area>): seq<Coord> {
    if areas == [] then [] else Flatten(areas[..|areas| - 1]) + AreaCells(areas[|areas| - 1])
  }

  /** How many cells an item stands for. */
  function AreaCount(a: Area): nat {
    match a
    case Cell(_) => 1
    case Rect(lo, hi) =>
      if hi.y < lo.y || hi.x < lo.x then 0 else (hi.y - lo.y + 1) * (hi.x - lo.x + 1)
  }

  function TotalCount(areas: seq<Area>): nat {
    if areas == [] then 0 else TotalCount(areas[..|areas| - 1]) + AreaCount(areas[|areas| - 1])
  }

  /** Row-major order on cells. */
  predicate RowMajorLess(a: Coord, b: Coord) {
    a.y < b.y || (a.y == b.y && a.x < b.x)
  }

  ghost predicate RowMajorSorted(s: seq<Coord>) {
    forall i, j :: 0 <= i < j < |s| ==> RowMajorLess(s[i], s[j])
  }

  lemma SortedAppend(a: seq<Coord>, b: seq<Coord>)
    requires RowMajorSorted(a) && RowMajorSorted(b)
    requires forall i, j :: 0 <= i < |a| && 0 <= j < |b| ==> RowMajorLess(a[i], b[j])
    ensures RowMajorSorted(a + b)
  {
  }

  lemma {:induction false} RowCellsSpec(y: int, x1: int, x: int)
    ensures |RowCells(y, x1, x)| == if x <= x1 then 0 else x - x1
    ensures forall c :: c in RowCells(y, x1, x) <==> c.y == y && x1 <= c.x < x
    ensures RowMajorSorted(RowCells(y, x1, x))
    decreases x - x1
  {
    if x > x1 {
      RowCellsSpec(y, x1, x - 1);
      var r := RowCells(y, x1, x - 1);
      SortedAppend(r, [Coord(y, x - 1)]);
    }
  }

  lemma RectCellsSpec(y1: int, y: int, x1: int, x2: int)
    ensures |RectCells(y1, y, x1, x2)| == (if y <= y1 then 0 else y - y1) * (if x2 < x1 then 0 else x2 - x1 + 1)
    ensures forall c :: c in RectCells(y1, y, x1, x2) <==> y1 <= c.y < y && x1 <= c.x <= x2
    ensures RowMajorSorted(RectCells(y1, y, x1, x2))
  {
    RectCellsLength(y1, y, x1, x2);
    RectCellsMembers(y1, y, x1, x2);
    RectCellsSorted(y1, y, x1, x2);
  }

  lemma {:induction false} RectCellsLength(y1: int, y: int, x1: int, x2: int)
    ensures |RectCells(y1, y, x1, x2)| == (if y <= y1 then 0 else y - y1) * (if x2 < x1 then 0 else x2 - x1 + 1)
    decreases y - y1
  {
    if y > y1 {
      RectCellsLength(y1, y - 1, x1, x2);
      RowCellsSpec(y - 1, x1, x2 + 1);
      var w := if x2 < x1 then 0 else x2 - x1 + 1;
      var n := y - 1 - y1;
      assert |RectCells(y1, y - 1, x1, x2)| == n * w;
      assert |RowCells(y - 1, x1, x2 + 1)| == w;
      MulSucc(n, w);
    }
  }

  lemma MulSucc(n: int, w: int)
    ensures (n + 1) * w == n * w + w
  {
  }

  lemma {:induction false} RectCellsMembers(y1: int, y: int, x1: int, x2: int)
    ensures forall c :: c in RectCells(y1, y, x1, x2) <==> y1 <= c.y < y && x1 <= c.x <= x2
    decreases y - y1
  {
    if y > y1 {
      RectCellsMembers(y1, y - 1, x1, x2);
      RowCellsSpec(y - 1, x1, x2 + 1);
    }
  }

  lemma {:induction false} RectCellsSorted(y1: int, y: int, x1: int, x2: int)
    ensures RowMajorSorted(RectCells(y1, y, x1, x2))
    decreases y - y1
  {
    if y > y1 {
      RectCellsSorted(y1, y - 1, x1, x2);
      RectCellsMembers(y1, y - 1, x1, x2);
      RowCellsSpec(y - 1, x1, x2 + 1);
      var a := RectCells(y1, y - 1, x1, x2);
      var b := RowCells(y - 1, x1, x2 + 1);
      forall i, j | 0 <= i < |a| && 0 <= j < |b|
        ensures RowMajorLess(a[i], b[j])
      {
        assert a[i] in a && b[j] in b;
      }
      SortedAppend(a, b);
    }
  }

  /** An item's expansion: a single cell passes through unchanged; a
      rectangle yields exactly the cells between its corners, each once, in
      row-major order, and an inverted rectangle yields nothing. */
  lemma AreaCellsSpec(a: Area)
    ensures a.Cell? ==> AreaCells(a) == [a.c]
    ensures a.Rect? ==> forall c :: c in AreaCells(a) <==> a.lo.y <= c.y <= a.hi.y && a.lo.x <= c.x <= a.hi.x
    ensures RowMajorSorted(AreaCells(a))
    ensures |AreaCells(a)| == AreaCount(a)
    ensures a.Rect? && (a.hi.y < a.lo.y || a.hi.x < a.lo.x) ==> AreaCells(a) == []
  {
    if a.Rect? {
      RectCellsSpec(a.lo.y, a.hi.y + 1, a.lo.x, a.hi.x);
    }
  }

  lemma {:induction false} FlattenLength(areas: seq<Area>)
    ensures |Flatten(areas)| == TotalCount(areas)
  {
    if areas != [] {
      FlattenLength(areas[..|areas| - 1]);
      AreaCellsSpec(areas[|areas| - 1]);
    }
  }

  lemma {:induction false} FlattenMembers(areas: seq<Area>, c: Coord)
    ensures c in Flatten(areas) <==> exists i :: 0 <= i < |areas| && c in AreaCells(areas[i])
  {
    if areas != [] {
      var init := areas[..|areas| - 1];
      var last := areas[|areas| - 1];
      FlattenMembers(init, c);
      assert Flatten(areas) == Flatten(init) + AreaCells(last);
      if c in Flatten(init) {
        var i :| 0 <= i < |init| && c in AreaCells(init[i]);
        assert areas[i] == init[i];
      } else if c in AreaCells(last) {
        assert c in AreaCells(areas[|areas| - 1]);
      }
      if exists i :: 0 <= i < |areas| && c in AreaCells(areas[i]) {
        var i :| 0 <= i < |areas| && c in AreaCells(areas[i]);
        if i < |init| {
          assert init[i] == areas[i];
        }
      }
    }
  }

  /** The cells of the rectangle from `lo` to `hi`, row by row, each row
      left to right. */
  method ExpandRect(lo: Coord, hi: Coord) returns (r: seq<Coord>)
    ensures r == RectCells(lo.y, hi.y + 1, lo.x, hi.x)
  {
    r := [];
    var y := lo.y;
    while y < hi.y + 1
      invariant lo.y <= y && (y <= hi.y + 1 || y == lo.y)
      invariant r == RectCells(lo.y, y, lo.x, hi.x)
    {
      var x := lo.x;
      while x < hi.x + 1
        invariant lo.x <= x && (x <= hi.x + 1 || x == lo.x)
        invariant r == RectCells(lo.y, y, lo.x, hi.x) + RowCells(y, lo.x, x)
      {
        r := r + [Coord(y, x)];
        x := x + 1;
      }
      y := y + 1;
    }
  }

  /** Expands a mixed list of cells and rectangles into one cell list: the
      per-item expansions concatenated in input order, as long as the sum of
      the per-item counts, holding exactly the cells some item covers. */
  method ExpandAreas(areas: seq<Area>) returns (r: seq<Coord>)
    ensures r == Flatten(areas)
    ensures |r| == TotalCount(areas)
    ensures forall c :: c in r <==> exists i :: 0 <= i < |areas| && c in AreaCells(areas[i])
  {
    r := [];
    var i := 0;
    while i < |areas|
      invariant 0 <= i <= |areas|
      invariant r == Flatten(areas[..i])
      decreases |areas| - i
    {
      match areas[i] {
        case Cell(c) =>
          r := r + [c];
        case Rect(lo, hi) =>
          var cells := ExpandRect(lo, hi);
          r := r + cells;
      }
      assert areas[..i + 1][..i] == areas[..i];
      i := i + 1;
    }
    assert areas[..i] == areas;
    FlattenLength(areas);
    forall c
      ensures c in r <==> exists i :: 0 <= i < |areas| && c in AreaCells(areas[i])
    {
      FlattenMembers(areas, c);
    }
  }

  // ---------------------------------------------------------------------
  // Neighbours
  // ---------------------------------------------------------------------

  /** Position of `v` in the fixed scan order around `c`: left, right, up,
      down; 4 for any other cell. */
  function DirRank(c: Coord, v: Coord): nat {
    if v == Coord(c.y, c.x - 1) then 0
    else if v == Coord(c.y, c.x + 1) then 1
    else if v == Coord(c.y - 1, c.x) then 2
    else if v == Coord(c.y + 1, c.x) then 3
    else 4
  }

  /** The four cells a unit step away from `c` are the only cells at
      Manhattan distance 1. */
  lemma AdjacentCases(c: Coord, v: Coord)
    requires Manhattan(c, v) == 1
    ensures DirRank(c, v) < 4
  {
  }

  /** `[v]` when `v` is valid, `[]` otherwise. */
  function Probe(g: Grid, v: Coord): (r: seq<Coord>)
    requires g.Wf()
  {
    if IsValidCoord(g, v) then [v] else []
  }

  ghost predicate RankSorted(c: Coord, s: seq<Coord>) {
    forall i, j :: 0 <= i < j < |s| ==> DirRank(c, s[i]) < DirRank(c, s[j])
  }

  lemma RankAppend(c: Coord, a: seq<Coord>, b: seq<Coord>)
    requires RankSorted(c, a) && RankSorted(c, b)
    requires forall i, j :: 0 <= i < |a| && 0 <= j < |b| ==> DirRank(c, a[i]) < DirRank(c, b[j])
    ensures RankSorted(c, a + b)
  {
  }

  lemma ProbeFacts(g: Grid, c: Coord, v: Coord)
    requires g.Wf() && Manhattan(c, v) == 1
    ensures forall w :: w in Probe(g, v) ==> w == v && IsValidCoord(g, w) && Manhattan(c, w) == 1
    ensures RankSorted(c, Probe(g, v)) && |Probe(g, v)| <= 1
  {
  }

  lemma NeighborFacts(g: Grid, c: Coord, l: seq<Coord>, rt: seq<Coord>, u: seq<Coord>, d: seq<Coord>)
    requires g.Wf() && IsValidCoord(g, c)
    requires l == Probe(g, Coord(c.y, c.x - 1)) && rt == Probe(g, Coord(c.y, c.x + 1))
    requires u == Probe(g, Coord(c.y - 1, c.x)) && d == Probe(g, Coord(c.y + 1, c.x))
    ensures forall v :: v in l + rt + u + d ==> IsValidCoord(g, v) && Manhattan(c, v) == 1
    ensures forall v :: IsValidCoord(g, v) && Manhattan(c, v) == 1 ==> v in l + rt + u + d
    ensures |l + rt + u + d| <= 4
    ensures RankSorted(c, l + rt + u + d)
  {
    ProbeFacts(g, c, Coord(c.y, c.x - 1));
    ProbeFacts(g, c, Coord(c.y, c.x + 1));
    ProbeFacts(g, c, Coord(c.y - 1, c.x));
    ProbeFacts(g, c, Coord(c.y + 1, c.x));
    NeighborsRanked(c, l, rt, u, d);
    NeighborsComplete(g, c, l, rt, u, d);
  }

  /** The four probes, in scan order, are ranked. */
  lemma NeighborsRanked(c: Coord, l: seq<Coord>, rt: seq<Coord>, u: seq<Coord>, d: seq<Coord>)
    requires forall w :: w in l ==> w == Coord(c.y, c.x - 1)
    requires forall w :: w in rt ==> w == Coord(c.y, c.x + 1)
    requires forall w :: w in u ==> w == Coord(c.y - 1, c.x)
    requires forall w :: w in d ==> w == Coord(c.y + 1, c.x)
    requires |l| <= 1 && |rt| <= 1 && |u| <= 1 && |d| <= 1
    ensures RankSorted(c, l + rt + u + d)
  {
    assert forall i :: 0 <= i < |l| ==> l[i] in l;
    assert forall i :: 0 <= i < |rt| ==> rt[i] in rt;
    assert forall i :: 0 <= i < |u| ==> u[i] in u;
    assert forall i :: 0 <= i < |d| ==> d[i] in d;
    RankAppend(c, l, rt);
    RankAppend(c, l + rt, u);
    RankAppend(c, l + rt + u, d);
  }

  /** Every walkable neighbour turns up in one of the four probes. */
  lemma NeighborsComplete(g: Grid, c: Coord, l: seq<Coord>, rt: seq<Coord>, u: seq<Coord>, d: seq<Coord>)
    requires g.Wf()
    requires l == Probe(g, Coord(c.y, c.x - 1)) && rt == Probe(g, Coord(c.y, c.x + 1))
    requires u == Probe(g, Coord(c.y - 1, c.x)) && d == Probe(g, Coord(c.y + 1, c.x))
    ensures forall v :: IsValidCoord(g, v) && Manhattan(c, v) == 1 ==> v in l + rt + u + d
  {
    forall v | IsValidCoord(g, v) && Manhattan(c, v) == 1
      ensures v in l + rt + u + d
    {
      AdjacentCases(c, v);
    }
  }

  /** The walkable 4-neighbours of a valid cell, scanned left, right, up,
      down; no neighbours for an invalid cell. */
  function GetNeighbors(g: Grid, c: Coord): (r: seq<Coord>)
    requires g.Wf()
    ensures !IsValidCoord(g, c) ==> r == []
    ensures forall v :: v in r ==> IsValidCoord(g, v) && Manhattan(c, v) == 1
    ensures IsValidCoord(g, c) ==> forall v {:trigger v in r} :: IsValidCoord(g, v) && Manhattan(c, v) == 1 ==> v in r
    ensures |r| <= 4
    ensures forall i, j :: 0 <= i < j < |r| ==> DirRank(c, r[i]) < DirRank(c, r[j])
  {
    if !IsValidCoord(g, c) then []
    else
      var left := if c.x > 0 && g.free[c.y][c.x - 1] then [Coord(c.y, c.x - 1)] else [];
      var right := if c.x < g.width - 1 && g.free[c.y][c.x + 1] then [Coord(c.y, c.x + 1)] else [];
      var up := if c.y > 0 && g.free[c.y - 1][c.x] then [Coord(c.y - 1, c.x)] else [];
      var down := if c.y < g.height - 1 && g.free[c.y + 1][c.x] then [Coord(c.y + 1, c.x)] else [];
      NeighborFacts(g, c, left, right, up, down);
      left + right + up + down
  }

  /** Adjacency is symmetric: `v` is listed around `u` exactly when `u` is
      listed around `v`. */
  lemma NeighborsSymmetric(g: Grid, u: Coord, v: Coord)
    requires g.Wf()
    ensures v in GetNeighbors(g, u) <==> u in GetNeighbors(g, v)
  {
    if v in GetNeighbors(g, u) {
      assert IsValidCoord(g, u) by {
        assert GetNeighbors(g, u) != [];
      }
      assert Manhattan(v, u) == Manhattan(u, v);
    }
    if u in GetNeighbors(g, v) {
      assert IsValidCoord(g, v) by {
        assert GetNeighbors(g, v) != [];
      }
      assert Manhattan(v, u) == Manhattan(u, v);
    }
  }
}

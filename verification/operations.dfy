/** Multi-action operations: words over forward, turn-right, turn-left and
    wait, their enumeration with pruning, and the cells an agent occupies
    while carrying one out. */
module Operations {
  import opened Common
  import opened Grid

  /** F: one cell forward along the heading; R: turn clockwise; C: turn
      counter-clockwise; W: wait. */
  datatype Action = F | R | C | W

  type Operation = seq<Action>

  /** 0 = north, 1 = east, 2 = south, 3 = west. */
  type Orientation = o: int | 0 <= o < 4

  // ---------------------------------------------------------------------
  // Enumeration
  // ---------------------------------------------------------------------

  /** Position of an action in the alphabet "FRCW" the words are drawn from. */
  function Rank(a: Action): nat {
    match a
    case F => 0
    case R => 1
    case C => 2
    case W => 3
  }

  /** Strict lexicographic order on words of equal length, by `Rank`. */
  predicate LexLess(a: Operation, b: Operation) {
    && |a| > 0 && |b| > 0
    && (Rank(a[0]) < Rank(b[0]) || (a[0] == b[0] && LexLess(a[1..], b[1..])))
  }

  ghost predicate StrictlySorted(ws: seq<Operation>) {
    forall i, j :: 0 <= i < j < |ws| ==> LexLess(ws[i], ws[j])
  }

  /** Each word of `ws` with `a` put in front. */
  function Prefix(a: Action, ws: seq<Operation>): (r: seq<Operation>)
    ensures |r| == |ws|
    ensures forall i :: 0 <= i < |ws| ==> r[i] == [a] + ws[i]
  {
    seq(|ws|, i requires 0 <= i < |ws| => [a] + ws[i])
  }

  /** The words of `ws`, each prefixed by each action of `acts` in turn, the
      action varying slowest. */
  function Blocks(acts: seq<Action>, ws: seq<Operation>): seq<Operation>
    decreases |acts|
  {
    if acts == [] then [] else Prefix(acts[0], ws) + Blocks(acts[1..], ws)
  }

  /** The alphabet in the order `itertools.product` enumerates it. */
  const Alphabet: seq<Action> := [F, R, C, W]

  /** Every word of length `n` over `acts`, in the order of the Cartesian
      product: the first action varies slowest. */
  function Product(acts: seq<Action>, n: nat): seq<Operation>
    decreases n
  {
    if n == 0 then [[]] else Blocks(acts, Product(acts, n - 1))
  }

  /** The words `itertools.product` enumerates: all of length `n` over "FRCW". */
  function Words(n: nat): seq<Operation> {
    Product(Alphabet, n)
  }

  lemma PrefixMember(a: Action, ws: seq<Operation>, w: Operation)
    ensures w in Prefix(a, ws) <==> |w| > 0 && w[0] == a && w[1..] in ws
  {
    var p := Prefix(a, ws);
    if |w| > 0 && w[0] == a && w[1..] in ws {
      var j :| 0 <= j < |ws| && ws[j] == w[1..];
      assert w == [a] + ws[j] == p[j];
    }
    if w in p {
      var j :| 0 <= j < |p| && p[j] == w;
      assert w[1..] == ws[j];
    }
  }

  lemma {:induction false} BlocksMember(acts: seq<Action>, ws: seq<Operation>, w: Operation)
    ensures w in Blocks(acts, ws) <==> |w| > 0 && w[0] in acts && w[1..] in ws
    decreases |acts|
  {
    if acts != [] {
      PrefixMember(acts[0], ws, w);
      BlocksMember(acts[1..], ws, w);
      assert forall a :: a in acts <==> a == acts[0] || a in acts[1..];
    }
  }

  /** The product holds exactly the words of length `n` drawn from `acts`. */
  lemma {:induction false} ProductMember(acts: seq<Action>, n: nat, w: Operation)
    ensures w in Product(acts, n) <==> |w| == n && forall i :: 0 <= i < |w| ==> w[i] in acts
    decreases n
  {
    if n > 0 {
      var ws := Product(acts, n - 1);
      BlocksMember(acts, ws, w);
      if |w| > 0 {
        ProductMember(acts, n - 1, w[1..]);
        assert forall i :: 1 <= i < |w| ==> w[i] == w[1..][i - 1];
      }
    } else if |w| == 0 {
      assert w == [];
    }
  }

  /** The enumeration holds exactly the words of length `n`. */
  lemma WordsMember(n: nat, w: Operation)
    ensures w in Words(n) <==> |w| == n
  {
    ProductMember(Alphabet, n, w);
    forall i | 0 <= i < |w|
      ensures w[i] in Alphabet
    {
      match w[i]
      case F => assert Alphabet[0] == F;
      case R => assert Alphabet[1] == R;
      case C => assert Alphabet[2] == C;
      case W => assert Alphabet[3] == W;
    }
  }

  lemma PrefixSorted(a: Action, ws: seq<Operation>)
    requires StrictlySorted(ws)
    ensures StrictlySorted(Prefix(a, ws))
  {
    var p := Prefix(a, ws);
    forall i, j | 0 <= i < j < |p|
      ensures LexLess(p[i], p[j])
    {
      assert p[i][1..] == ws[i] && p[j][1..] == ws[j];
    }
  }

  /** Ranks strictly increase along `acts`. */
  ghost predicate RankIncreasing(acts: seq<Action>) {
    forall i, j :: 0 <= i < j < |acts| ==> Rank(acts[i]) < Rank(acts[j])
  }

  lemma {:induction false} BlocksHeads(acts: seq<Action>, ws: seq<Operation>, i: nat)
    requires i < |Blocks(acts, ws)|
    ensures |Blocks(acts, ws)[i]| > 0 && Blocks(acts, ws)[i][0] in acts
    decreases |acts|
  {
    var p := Prefix(acts[0], ws);
    if i >= |p| {
      BlocksHeads(acts[1..], ws, i - |p|);
    }
  }

  lemma {:induction false} BlocksSorted(acts: seq<Action>, ws: seq<Operation>)
    requires StrictlySorted(ws) && RankIncreasing(acts)
    ensures StrictlySorted(Blocks(acts, ws))
    decreases |acts|
  {
    if acts != [] {
      var p := Prefix(acts[0], ws);
      var rest := Blocks(acts[1..], ws);
      PrefixSorted(acts[0], ws);
      BlocksSorted(acts[1..], ws);
      var s := p + rest;
      forall i, j | 0 <= i < j < |s|
        ensures LexLess(s[i], s[j])
      {
        if j < |p| {
          assert s[i] == p[i] && s[j] == p[j];
        } else if i >= |p| {
          assert s[i] == rest[i - |p|] && s[j] == rest[j - |p|];
        } else {
          BlocksHeads(acts[1..], ws, j - |p|);
          assert s[i] == p[i] && s[j] == rest[j - |p|];
          var k :| 0 <= k < |acts[1..]| && acts[1..][k] == s[j][0];
          assert acts[k + 1] == s[j][0];
        }
      }
    }
  }

  lemma AlphabetIncreasing()
    ensures RankIncreasing(Alphabet)
  {
    forall i, j | 0 <= i < j < |Alphabet|
      ensures Rank(Alphabet[i]) < Rank(Alphabet[j])
    {
      assert forall k :: 0 <= k < |Alphabet| ==> Rank(Alphabet[k]) == k;
    }
  }

  lemma {:induction false} ProductSorted(acts: seq<Action>, n: nat)
    requires RankIncreasing(acts)
    ensures StrictlySorted(Product(acts, n))
    decreases n
  {
    if n > 0 {
      var ws := Product(acts, n - 1);
      ProductSorted(acts, n - 1);
      BlocksSorted(acts, ws);
    }
  }

  lemma WordsSorted(n: nat)
    ensures StrictlySorted(Words(n))
  {
    AlphabetIncreasing();
    ProductSorted(Alphabet, n);
  }

  /** R directly followed by C, or C by R: the two turns cancel. */
  predicate Cancels(a: Action, b: Action) {
    (a == R && b == C) || (a == C && b == R)
  }

  /** The words kept by the enumeration: no cancelling pair of adjacent
      turns, and not ending in a turn. */
  predicate Pruned(op: Operation) {
    && |op| > 0
    && (forall i :: 0 <= i < |op| - 1 ==> !Cancels(op[i], op[i + 1]))
    && op[|op| - 1] != R && op[|op| - 1] != C
  }

  /** The words of `ws` that pass the pruning rules, in their order. */
  function Keep(ws: seq<Operation>): (r: seq<Operation>)
    ensures forall w :: w in r <==> w in ws && Pruned(w)
    ensures StrictlySorted(ws) ==> StrictlySorted(r)
  {
    if ws == [] then []
    else
      var rest := Keep(ws[1..]);
      if Pruned(ws[0]) then
        assert StrictlySorted(ws) ==> forall j :: 0 <= j < |rest| ==> LexLess(ws[0], rest[j]) by {
          if StrictlySorted(ws) {
            forall j | 0 <= j < |rest|
              ensures LexLess(ws[0], rest[j])
            {
              assert rest[j] in rest;
              var i :| 0 <= i < |ws[1..]| && ws[1..][i] == rest[j];
              assert ws[i + 1] == rest[j];
            }
          }
        }
        [ws[0]] + rest
      else rest
  }

  /** The pruned operations of length `n`. Length 0 raises an IndexError
      in Python (the last action of the empty word is looked up), so
      it yields `None`. */
  function GenerateOperations(n: nat): (r: Option<seq<Operation>>)
    ensures r.None? <==> n == 0
    ensures r.Some? ==> forall w :: w in r.value <==> |w| == n && Pruned(w)
    ensures r.Some? ==> StrictlySorted(r.value)
  {
    if n == 0 then None
    else
      forall w
        ensures w in Words(n) <==> |w| == n
      {
        WordsMember(n, w);
      }
      WordsSorted(n);
      Some(Keep(Words(n)))
  }

  /** A strictly sorted list holds no word twice. */
  lemma SortedDistinct(ws: seq<Operation>)
    requires StrictlySorted(ws)
    ensures NoDuplicates(ws)
  {
    forall i, j | 0 <= i < j < |ws|
      ensures ws[i] != ws[j]
    {
      LexIrreflexive(ws[i]);
    }
  }

  lemma LexIrreflexive(a: Operation)
    ensures !LexLess(a, a)
  {
    if |a| > 0 {
      LexIrreflexive(a[1..]);
    }
  }

  // ---------------------------------------------------------------------
  // Headings and positions
  // ---------------------------------------------------------------------

  /** The cell one step from `c` along heading `o`. */
  function Ahead(c: Coord, o: Orientation): (r: Coord)
    ensures Manhattan(c, r) == 1
  {
    match o
    case 0 => Coord(c.y - 1, c.x)
    case 1 => Coord(c.y, c.x + 1)
    case 2 => Coord(c.y + 1, c.x)
    case 3 => Coord(c.y, c.x - 1)
  }

  function TurnRight(o: Orientation): Orientation {
    (o + 1) % 4
  }

  /** Counter-clockwise turn; `%` is floored on a positive modulus, as Python's `%`. */
  function TurnLeft(o: Orientation): Orientation {
    (o - 1) % 4
  }

  function Count(op: Operation, a: Action): (n: nat)
    ensures n <= |op|
  {
    if op == [] then 0
    else Count(op[..|op| - 1], a) + (if op[|op| - 1] == a then 1 else 0)
  }

  /** The heading after carrying out `op` from heading `ori`: one quarter
      turn clockwise per R, counter-clockwise per C. */
  function HeadingAfter(ori: Orientation, op: Operation): Orientation {
    (ori + Count(op, R) - Count(op, C)) % 4
  }

  /** Where the agent stands after `op`, with no walkability check. */
  function PosAfter(coord: Coord, ori: Orientation, op: Operation): Coord
    decreases |op|
  {
    if op == [] then coord
    else
      var init := op[..|op| - 1];
      var p := PosAfter(coord, ori, init);
      if op[|op| - 1] == F then Ahead(p, HeadingAfter(ori, init)) else p
  }

  /** Action `j` of `op` is a forward step onto a cell that is not walkable. */
  ghost predicate Blocked(g: Grid, coord: Coord, ori: Orientation, op: Operation, j: nat)
    requires g.Wf() && j < |op|
  {
    op[j] == F && !IsValidCoord(g, Ahead(PosAfter(coord, ori, op[..j]), HeadingAfter(ori, op[..j])))
  }

  /** One action's effect on the heading, as the loop computes it. */
  function Turn(o: Orientation, a: Action): Orientation {
    if a == R then TurnRight(o) else if a == C then TurnLeft(o) else o
  }

  lemma HeadingStep(ori: Orientation, op: Operation, a: Action)
    ensures HeadingAfter(ori, op + [a]) == Turn(HeadingAfter(ori, op), a)
  {
    assert (op + [a])[..|op|] == op;
    var x := ori + Count(op, R) - Count(op, C);
    if a == R {
      assert HeadingAfter(ori, op + [a]) == (x + 1) % 4;
    } else if a == C {
      assert HeadingAfter(ori, op + [a]) == (x - 1) % 4;
    } else {
      assert HeadingAfter(ori, op + [a]) == x % 4;
    }
  }

  // ---------------------------------------------------------------------
  // Cell paths
  // ---------------------------------------------------------------------

  /** The cell occupied at each time step 0..|op|, and the final heading. */
  datatype CellPath = CellPath(cells: seq<Coord>, heading: Orientation)

  /** The loop of `_compute_cell_path` from action `i` on, with the cell `cur`, the
      heading `o` and the cells collected so far. */
  function Trace(g: Grid, coord: Coord, ori: Orientation, op: Operation,
                 i: nat, cur: Coord, o: Orientation, cells: seq<Coord>): (r: Option<CellPath>)
    requires g.Wf() && i <= |op|
    requires cur == PosAfter(coord, ori, op[..i]) && o == HeadingAfter(ori, op[..i])
    requires |cells| == i + 1 && forall j {:trigger cells[j]} :: 0 <= j <= i ==> cells[j] == PosAfter(coord, ori, op[..j])
    ensures r.None? <==> exists j :: i <= j < |op| && Blocked(g, coord, ori, op, j)
    ensures r.Some? ==> |r.value.cells| == |op| + 1 && r.value.heading == HeadingAfter(ori, op)
    ensures r.Some? ==> forall j {:trigger r.value.cells[j]} :: 0 <= j <= |op| ==> r.value.cells[j] == PosAfter(coord, ori, op[..j])
    decreases |op| - i
  {
    if i == |op| then
      assert op[..i] == op;
      Some(CellPath(cells, o))
    else
      var a := op[i];
      assert op[..i + 1] == op[..i] + [a];
      assert op[..i + 1][..i] == op[..i];
      HeadingStep(ori, op[..i], a);
      if a == F && !IsValidCoord(g, Ahead(cur, o)) then
        assert Blocked(g, coord, ori, op, i);
        None
      else
        var next := if a == F then Ahead(cur, o) else cur;
        Trace(g, coord, ori, op, i + 1, next, Turn(o, a), cells + [next])
  }

  /** Carries out `op` from `coord` facing `ori`. `None` exactly when some
      forward step would land on a cell that is off the grid or blocked;
      otherwise one cell per time step, starting at `coord`, each the cell
      reached by the actions so far, and the heading they leave. */
  function ComputeCellPath(g: Grid, coord: Coord, ori: Orientation, op: Operation): (r: Option<CellPath>)
    requires g.Wf()
    ensures r.None? <==> exists j :: 0 <= j < |op| && Blocked(g, coord, ori, op, j)
    ensures r.Some? ==> |r.value.cells| == |op| + 1 && r.value.cells[0] == coord
    ensures r.Some? ==> forall j {:trigger r.value.cells[j]} :: 0 <= j <= |op| ==> r.value.cells[j] == PosAfter(coord, ori, op[..j])
    ensures r.Some? ==> r.value.heading == (ori + Count(op, R) - Count(op, C)) % 4
  {
    assert op[..0] == [];
    Trace(g, coord, ori, op, 0, coord, ori, [coord])
  }

  /** Along a computed path each step either stays put or moves one cell
      along the current heading onto a walkable cell, and it moves exactly
      when the action is F. */
  lemma PathSteps(g: Grid, coord: Coord, ori: Orientation, op: Operation, j: nat)
    requires g.Wf() && j < |op| && ComputeCellPath(g, coord, ori, op).Some?
    ensures var cells := ComputeCellPath(g, coord, ori, op).value.cells;
            && (op[j] == F ==> cells[j + 1] == Ahead(cells[j], HeadingAfter(ori, op[..j])) && IsValidCoord(g, cells[j + 1]))
            && (op[j] != F ==> cells[j + 1] == cells[j])
  {
    var cells := ComputeCellPath(g, coord, ori, op).value.cells;
    assert op[..j + 1][..j] == op[..j];
    assert op[..j + 1][j] == op[j];
    if op[j] == F {
      assert !Blocked(g, coord, ori, op, j);
    }
  }

  /** `n` waits. */
  function Waits(n: nat): (op: Operation)
    ensures |op| == n && forall i :: 0 <= i < n ==> op[i] == W
  {
    seq(n, _ => W)
  }

  /** `n` copies of one cell: an agent standing still. */
  function Stay(c: Coord, n: nat): (cells: seq<Coord>)
    ensures |cells| == n && forall i :: 0 <= i < n ==> cells[i] == c
  {
    seq(n, _ => c)
  }

  lemma {:induction false} WaitsDoNothing(coord: Coord, ori: Orientation, n: nat)
    ensures PosAfter(coord, ori, Waits(n)) == coord && HeadingAfter(ori, Waits(n)) == ori
    ensures Count(Waits(n), R) == 0 && Count(Waits(n), C) == 0
    decreases n
  {
    if n > 0 {
      assert Waits(n)[..n - 1] == Waits(n - 1);
      WaitsDoNothing(coord, ori, n - 1);
    }
  }

  /** Waiting is always possible and keeps the agent where it is. */
  lemma WaitPath(g: Grid, coord: Coord, ori: Orientation, n: nat)
    requires g.Wf()
    ensures ComputeCellPath(g, coord, ori, Waits(n)) == Some(CellPath(Stay(coord, n + 1), ori))
  {
    forall j | 0 <= j < n
      ensures !Blocked(g, coord, ori, Waits(n), j)
    {
    }
    var r := ComputeCellPath(g, coord, ori, Waits(n));
    forall j | 0 <= j <= n
      ensures r.value.cells[j] == coord
    {
      assert Waits(n)[..j] == Waits(j);
      WaitsDoNothing(coord, ori, j);
    }
    WaitsDoNothing(coord, ori, n);
    assert r.value.cells == Stay(coord, n + 1);
  }
}

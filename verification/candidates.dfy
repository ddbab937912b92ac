/** The candidate operations one agent may take in a step: every pruned
    operation it can carry out from where it stands, one per distinct cell
    path, ordered by how close the path ends to the agent's goal. */
module Candidates {
  import opened Common
  import opened Grid
  import opened DistTable
  import opened Operations

  /** An operation with the cells it occupies. */
  datatype Candidate = Candidate(op: Operation, path: seq<Coord>)

  /** A candidate with its weight, as collected before ordering. */
  datatype Entry = Entry(weight: int, op: Operation, path: seq<Coord>)

  /** Tie-break cost of one action: forward 0, turn 1, wait 2. */
  function ActionCost(a: Action): nat {
    match a
    case F => 0
    case R => 1
    case C => 1
    case W => 2
  }

  function Beta(op: Operation): (b: nat)
    ensures b <= 2 * |op|
  {
    if op == [] then 0 else ActionCost(op[0]) + Beta(op[1..])
  }

  /** The distance of the path's last cell to the goal, scaled by ten times
      the number of grid cells, plus the tie-break cost. */
  function Weight(g: Grid, goal: Coord, op: Operation, path: seq<Coord>): int
    requires g.Wf() && InBounds(g, goal) && |path| > 0
  {
    Distance(g, goal, path[|path| - 1]) * (g.Size() * 10) + Beta(op)
  }

  lemma MulMono(a: int, b: int, w: nat)
    requires a <= b
    ensures a * w <= b * w
  {
    assert b * w == a * w + (b - a) * w;
  }

  /** Alpha, ten times the number of cells, exceeds any tie-break cost of
      an operation shorter than five times the number of cells: a path
      whose last cell is strictly nearer the goal is strictly lighter,
      whatever the two operations. */
  lemma {:induction false} DistanceDominates(g: Grid, goal: Coord, op1: Operation, p1: seq<Coord>, op2: Operation, p2: seq<Coord>)
    requires g.Wf() && InBounds(g, goal) && |p1| > 0 && |p2| > 0
    requires 2 * |op1| < 10 * g.Size()
    requires Distance(g, goal, p1[|p1| - 1]) < Distance(g, goal, p2[|p2| - 1])
    ensures Weight(g, goal, op1, p1) < Weight(g, goal, op2, p2)
  {
    var d1, d2, alpha := Distance(g, goal, p1[|p1| - 1]), Distance(g, goal, p2[|p2| - 1]), g.Size() * 10;
    MulSucc(d1, alpha);
    MulMono(d1 + 1, d2, alpha);
    assert Beta(op1) < alpha;
  }

  /** The cell path of `op` from `coord` facing `ori`, when it has one. */
  ghost predicate PathOf(g: Grid, coord: Coord, ori: Orientation, op: Operation, path: seq<Coord>)
    requires g.Wf()
  {
    var r := ComputeCellPath(g, coord, ori, op);
    r.Some? && r.value.cells == path
  }

  /** The weighted candidates of `ops`, in their order, skipping the ones
      that run into an obstacle. */
  function Raw(g: Grid, goal: Coord, ops: seq<Operation>, coord: Coord, ori: Orientation): (r: seq<Entry>)
    requires g.Wf() && InBounds(g, goal)
    ensures RawFacts(g, goal, ops, coord, ori, r)
  {
    if ops == [] then []
    else
      var rest := Raw(g, goal, ops[1..], coord, ori);
      var cp := ComputeCellPath(g, coord, ori, ops[0]);
      if cp.None? then rest
      else [Entry(Weight(g, goal, ops[0], cp.value.cells), ops[0], cp.value.cells)] + rest
  }

  /** `raw` lists operations in the order of `ops`: the operation of each
      entry sits at a position of `ops` before which every operation with a
      path has an earlier entry. */
  ghost predicate RawOrdered(g: Grid, ops: seq<Operation>, coord: Coord, ori: Orientation, raw: seq<Entry>)
    requires g.Wf()
  {
    forall k :: 0 <= k < |raw| ==>
      exists m :: 0 <= m < |ops| && ops[m] == raw[k].op && EarlierListed(g, ops, coord, ori, raw, k, m)
  }

  /** The operations of `ops` from position `m` on with an earlier entry
      in `raw` before position `k`. */
  ghost predicate EarlierListed(g: Grid, ops: seq<Operation>, coord: Coord, ori: Orientation, raw: seq<Entry>, k: int, m: int)
    requires g.Wf() && 0 <= m <= |ops|
  {
    forall j :: 0 <= j < m && ComputeCellPath(g, coord, ori, ops[j]).Some? ==>
      exists k' :: 0 <= k' < k && k' < |raw| && raw[k'].op == ops[j]
  }

  lemma {:induction false} RawInOrder(g: Grid, goal: Coord, ops: seq<Operation>, coord: Coord, ori: Orientation)
    requires g.Wf() && InBounds(g, goal)
    ensures RawOrdered(g, ops, coord, ori, Raw(g, goal, ops, coord, ori))
    decreases |ops|
  {
    if ops != [] {
      var rest := Raw(g, goal, ops[1..], coord, ori);
      var raw := Raw(g, goal, ops, coord, ori);
      RawInOrder(g, goal, ops[1..], coord, ori);
      var shift := if ComputeCellPath(g, coord, ori, ops[0]).None? then 0 else 1;
      ConsOrdered(g, ops, coord, ori, rest, raw, shift);
    }
  }

  /** Putting the entry of `ops[0]`, if it has a path, before the entries
      of `ops[1..]` keeps the order. */
  lemma ConsOrdered(g: Grid, ops: seq<Operation>, coord: Coord, ori: Orientation, rest: seq<Entry>, raw: seq<Entry>, shift: nat)
    requires g.Wf() && ops != [] && shift <= 1 && |raw| == |rest| + shift && raw[shift..] == rest
    requires shift == 1 ==> raw[0].op == ops[0]
    requires shift == 0 ==> ComputeCellPath(g, coord, ori, ops[0]).None?
    requires RawOrdered(g, ops[1..], coord, ori, rest)
    ensures RawOrdered(g, ops, coord, ori, raw)
  {
    forall k | 0 <= k < |raw|
      ensures exists m :: 0 <= m < |ops| && ops[m] == raw[k].op && EarlierListed(g, ops, coord, ori, raw, k, m)
    {
      if k < shift {
        assert ops[0] == raw[k].op && EarlierListed(g, ops, coord, ori, raw, k, 0);
      } else {
        var m' :| 0 <= m' < |ops[1..]| && ops[1..][m'] == rest[k - shift].op && EarlierListed(g, ops[1..], coord, ori, rest, k - shift, m');
        var m := ConsOrderedAt(g, ops, coord, ori, rest, raw, shift, k, m');
      }
    }
  }

  lemma ConsOrderedAt(g: Grid, ops: seq<Operation>, coord: Coord, ori: Orientation, rest: seq<Entry>, raw: seq<Entry>, shift: nat, k: nat, m': nat)
    returns (m: nat)
    requires g.Wf() && ops != [] && shift <= 1 && |raw| == |rest| + shift && raw[shift..] == rest
    requires shift == 1 ==> raw[0].op == ops[0]
    requires shift == 0 ==> ComputeCellPath(g, coord, ori, ops[0]).None?
    requires shift <= k < |raw| && m' < |ops| - 1
    requires ops[1..][m'] == rest[k - shift].op && EarlierListed(g, ops[1..], coord, ori, rest, k - shift, m')
    ensures m < |ops| && ops[m] == raw[k].op && EarlierListed(g, ops, coord, ori, raw, k, m)
  {
    ShiftIndex(raw, rest, shift, k - shift);
    m := m' + 1;
    assert ops[m] == ops[1..][m'];
    ShiftEarlier(g, ops, coord, ori, rest, raw, shift, k, m');
  }

  /** An operation listed before the `m'`-th of `ops[1..]` with an entry
      before `k - shift` in `rest` has one before `k` in `raw`. */
  lemma ShiftEarlier(g: Grid, ops: seq<Operation>, coord: Coord, ori: Orientation, rest: seq<Entry>, raw: seq<Entry>, shift: nat, k: nat, m': nat)
    requires g.Wf() && ops != [] && shift <= 1 && |raw| == |rest| + shift && raw[shift..] == rest
    requires shift == 1 ==> raw[0].op == ops[0]
    requires shift == 0 ==> ComputeCellPath(g, coord, ori, ops[0]).None?
    requires shift <= k < |raw| && m' < |ops| - 1
    requires EarlierListed(g, ops[1..], coord, ori, rest, k - shift, m')
    ensures EarlierListed(g, ops, coord, ori, raw, k, m' + 1)
  {
    var tail := ops[1..];
    forall j | 0 <= j < m' + 1 && ComputeCellPath(g, coord, ori, ops[j]).Some?
      ensures exists k' :: 0 <= k' < k && k' < |raw| && raw[k'].op == ops[j]
    {
      if j == 0 {
        assert raw[0].op == ops[0];
      } else {
        assert tail[j - 1] == ops[j];
        var k' :| 0 <= k' < k - shift && k' < |rest| && rest[k'].op == tail[j - 1];
        ShiftIndex(raw, rest, shift, k');
      }
    }
  }

  lemma ShiftIndex(raw: seq<Entry>, rest: seq<Entry>, shift: nat, i: nat)
    requires shift <= |raw| && raw[shift..] == rest && i < |rest|
    ensures raw[i + shift] == rest[i]
  {
  }

  // ---------------------------------------------------------------------
  // Keeping the best entry per path
  // ---------------------------------------------------------------------

  ghost predicate PathsDistinct(s: seq<Entry>) {
    forall i, j :: 0 <= i < j < |s| ==> s[i].path != s[j].path
  }

  /** The index of the entry for `path`, if there is one. */
  function FindPath(s: seq<Entry>, path: seq<Coord>): (r: Option<nat>)
    ensures r.None? <==> forall i :: 0 <= i < |s| ==> s[i].path != path
    ensures r.Some? ==> r.value < |s| && s[r.value].path == path
  {
    if s == [] then None
    else if s[0].path == path then Some(0)
    else
      var r := FindPath(s[1..], path);
      if r.None? then None else Some(r.value + 1)
  }

  /** Every entry of `s` comes from `raw`. */
  ghost predicate FromRaw(s: seq<Entry>, raw: seq<Entry>) {
    forall i :: 0 <= i < |s| ==> s[i] in raw
  }

  /** Every path of `raw` has an entry in `s` no heavier than its own. */
  ghost predicate Covers(s: seq<Entry>, raw: seq<Entry>) {
    forall x :: x in raw ==> exists i :: 0 <= i < |s| && s[i].path == x.path && s[i].weight <= x.weight
  }

  /** Each entry of `s` is the lightest of `raw` for its path. */
  ghost predicate Lightest(s: seq<Entry>, raw: seq<Entry>) {
    forall i, x :: 0 <= i < |s| && x in raw && s[i].path == x.path ==> s[i].weight <= x.weight
  }

  lemma CoversTrans(a: seq<Entry>, b: seq<Entry>, c: seq<Entry>)
    requires Covers(a, b) && Covers(b, c)
    ensures Covers(a, c)
  {
    forall x | x in c
      ensures exists i :: 0 <= i < |a| && a[i].path == x.path && a[i].weight <= x.weight
    {
      var j :| 0 <= j < |b| && b[j].path == x.path && b[j].weight <= x.weight;
      assert b[j] in b;
    }
  }

  /** A dictionary update keyed by path: a new path is appended, a known one
      is replaced only by a strictly lighter entry, keeping its position. */
  function Upsert(s: seq<Entry>, e: Entry): (r: seq<Entry>)
    requires PathsDistinct(s)
    ensures PathsDistinct(r)
    ensures forall x :: x in r ==> x in s || x == e
    ensures Covers(r, s) && Covers(r, [e])
    ensures e in r && e !in s ==> forall i :: 0 <= i < |s| && s[i].path == e.path ==> e.weight < s[i].weight
  {
    var f := FindPath(s, e.path);
    if f.None? then
      var r := s + [e];
      assert r[|s|] == e;
      forall x | x in s
        ensures exists i :: 0 <= i < |r| && r[i].path == x.path && r[i].weight <= x.weight
      {
        var i :| 0 <= i < |s| && s[i] == x;
        assert r[i] == x;
      }
      r
    else if e.weight < s[f.value].weight then
      var r := s[f.value := e];
      forall x | x in s
        ensures exists i :: 0 <= i < |r| && r[i].path == x.path && r[i].weight <= x.weight
      {
        var i :| 0 <= i < |s| && s[i] == x;
        assert r[i].path == x.path && r[i].weight <= x.weight;
      }
      r
    else
      forall x | x in s
        ensures exists i :: 0 <= i < |s| && s[i].path == x.path && s[i].weight <= x.weight
      {
        var i :| 0 <= i < |s| && s[i] == x;
      }
      s
  }

  /** The entries of `raw` with one entry per path, in order of each path's
      first appearance, keeping the first among the lightest. */
  function Dedup(raw: seq<Entry>): (r: seq<Entry>)
    ensures PathsDistinct(r)
    ensures forall x :: x in r ==> x in raw
    decreases |raw|
  {
    if raw == [] then []
    else
      var acc := Dedup(raw[..|raw| - 1]);
      assert forall x :: x in raw <==> x in raw[..|raw| - 1] || x == raw[|raw| - 1];
      Upsert(acc, raw[|raw| - 1])
  }

  /** Every path of `raw` keeps an entry no heavier than any of its own. */
  lemma {:induction false} DedupCovers(raw: seq<Entry>)
    ensures Covers(Dedup(raw), raw)
    decreases |raw|
  {
    if raw != [] {
      var init, last := raw[..|raw| - 1], raw[|raw| - 1];
      DedupCovers(init);
      UpsertCovers(Dedup(init), init, last);
      assert raw == init + [last];
    }
  }

  /** Upserting `e` into a cover of `raw` covers `raw + [e]`. */
  lemma UpsertCovers(acc: seq<Entry>, raw: seq<Entry>, e: Entry)
    requires PathsDistinct(acc) && Covers(acc, raw)
    ensures Covers(Upsert(acc, e), raw + [e])
  {
    var r := Upsert(acc, e);
    CoversTrans(r, acc, raw);
    forall x | x in raw + [e]
      ensures exists i :: 0 <= i < |r| && r[i].path == x.path && r[i].weight <= x.weight
    {
      if x == e {
        assert x in [e];
      } else {
        assert x in raw;
      }
    }
  }

  /** Each entry of `s` is, among the entries of `raw` with its path, the
      first of the lightest: every earlier one is strictly heavier. */
  ghost predicate FirstLightest(s: seq<Entry>, raw: seq<Entry>) {
    forall x :: x in s ==>
      exists k :: 0 <= k < |raw| && raw[k] == x && forall j :: 0 <= j < k && raw[j].path == x.path ==> raw[j].weight > x.weight
  }

  /** A dictionary update replaces a path's entry only by a strictly
      lighter one, so each path keeps the first of its lightest entries. */
  lemma {:induction false} DedupFirst(raw: seq<Entry>)
    ensures FirstLightest(Dedup(raw), raw)
    decreases |raw|
  {
    if raw != [] {
      var init, last := raw[..|raw| - 1], raw[|raw| - 1];
      assert init + [last] == raw;
      var acc := Dedup(init);
      DedupFirst(init);
      DedupCovers(init);
      UpsertFirst(acc, init, last);
    }
  }

  /** Upserting `e` into the first-lightest entries of `raw` gives the
      first-lightest entries of `raw + [e]`. */
  lemma UpsertFirst(acc: seq<Entry>, raw: seq<Entry>, e: Entry)
    requires PathsDistinct(acc) && Covers(acc, raw) && FirstLightest(acc, raw)
    ensures FirstLightest(Upsert(acc, e), raw + [e])
  {
    var r := Upsert(acc, e);
    forall x | x in r
      ensures exists k :: 0 <= k < |raw + [e]| && (raw + [e])[k] == x &&
                forall j :: 0 <= j < k && (raw + [e])[j].path == x.path ==> (raw + [e])[j].weight > x.weight
    {
      if x in acc {
        FirstExtends(raw, e, x);
      } else {
        UpsertNewFirst(acc, raw, e);
      }
    }
  }

  /** An entry first of the lightest in `raw` stays so in `raw + [e]`. */
  lemma FirstExtends(raw: seq<Entry>, e: Entry, x: Entry)
    requires exists k :: 0 <= k < |raw| && raw[k] == x && forall j :: 0 <= j < k && raw[j].path == x.path ==> raw[j].weight > x.weight
    ensures exists k :: 0 <= k < |raw + [e]| && (raw + [e])[k] == x &&
              forall j :: 0 <= j < k && (raw + [e])[j].path == x.path ==> (raw + [e])[j].weight > x.weight
  {
    var k :| 0 <= k < |raw| && raw[k] == x && forall j :: 0 <= j < k && raw[j].path == x.path ==> raw[j].weight > x.weight;
    assert (raw + [e])[k] == x;
  }

  /** When the update takes `e` in, every earlier entry of `e`'s path is
      strictly heavier, so `e` is first of the lightest in `raw + [e]`. */
  lemma UpsertNewFirst(acc: seq<Entry>, raw: seq<Entry>, e: Entry)
    requires PathsDistinct(acc) && Covers(acc, raw) && e in Upsert(acc, e) && e !in acc
    ensures exists k :: 0 <= k < |raw + [e]| && (raw + [e])[k] == e &&
              forall j :: 0 <= j < k && (raw + [e])[j].path == e.path ==> (raw + [e])[j].weight > e.weight
  {
    var all := raw + [e];
    forall j | 0 <= j < |raw| && all[j].path == e.path
      ensures all[j].weight > e.weight
    {
      assert all[j] == raw[j] && raw[j] in raw;
    }
    assert all[|raw|] == e;
  }

  // ---------------------------------------------------------------------
  // Stable ordering by weight
  // ---------------------------------------------------------------------

  ghost predicate SortedByWeight(s: seq<Entry>) {
    forall i, j :: 0 <= i < j < |s| ==> s[i].weight <= s[j].weight
  }

  /** Puts `e` after every entry no heavier than it. */
  function InsertSorted(s: seq<Entry>, e: Entry): (r: seq<Entry>)
    ensures |r| == |s| + 1 && multiset(r) == multiset(s) + multiset{e}
    ensures forall x :: x in r <==> x in s || x == e
    ensures SortedByWeight(s) ==> SortedByWeight(r)
    ensures PathsDistinct(s) && (forall x :: x in s ==> x.path != e.path) ==> PathsDistinct(r)
  {
    if s == [] then [e]
    else if e.weight < s[0].weight then [e] + s
    else
      var rest := InsertSorted(s[1..], e);
      assert forall x :: x in s <==> x == s[0] || x in s[1..];
      InsertBehindSorted(s, e, rest);
      InsertBehindDistinct(s, e, rest);
      assert s == [s[0]] + s[1..];
      [s[0]] + rest
  }

  /** Placing `e` behind the first entry of `s`, no lighter than it, keeps
      the tail's order. */
  lemma InsertBehindSorted(s: seq<Entry>, e: Entry, rest: seq<Entry>)
    requires s != [] && s[0].weight <= e.weight
    requires forall x :: x in rest ==> x in s[1..] || x == e
    requires SortedByWeight(s) ==> SortedByWeight(rest)
    ensures SortedByWeight(s) ==> SortedByWeight([s[0]] + rest)
  {
    var r := [s[0]] + rest;
    if SortedByWeight(s) {
      forall j | 1 <= j < |r|
        ensures s[0].weight <= r[j].weight
      {
        assert r[j] in rest;
      }
    }
  }

  /** Placing `e` behind the first entry of `s` keeps paths distinct when
      `e`'s path is new. */
  lemma InsertBehindDistinct(s: seq<Entry>, e: Entry, rest: seq<Entry>)
    requires s != []
    requires forall x :: x in rest ==> x in s[1..] || x == e
    requires PathsDistinct(s) && (forall x :: x in s ==> x.path != e.path) ==> PathsDistinct(rest)
    ensures PathsDistinct(s) && (forall x :: x in s ==> x.path != e.path) ==> PathsDistinct([s[0]] + rest)
  {
    var r := [s[0]] + rest;
    if PathsDistinct(s) && (forall x :: x in s ==> x.path != e.path) {
      forall j | 1 <= j < |r|
        ensures s[0].path != r[j].path
      {
        assert r[j] in rest;
        if r[j] != e {
          var k :| 0 <= k < |s[1..]| && s[1..][k] == r[j];
          assert s[k + 1] == r[j];
        }
      }
    }
  }

  /** Insertion sort, first entry first: entries of equal weight keep their
      order. */
  function SortEntries(s: seq<Entry>): (r: seq<Entry>)
    ensures |r| == |s| && multiset(r) == multiset(s)
    ensures forall x :: x in r <==> x in s
    ensures SortedByWeight(r)
    ensures PathsDistinct(s) ==> PathsDistinct(r)
    decreases |s|
  {
    if s == [] then []
    else
      var init := s[..|s| - 1];
      var last := s[|s| - 1];
      assert forall x :: x in s <==> x in init || x == last;
      assert s == init + [last];
      var sorted := SortEntries(init);
      assert PathsDistinct(s) ==> forall x :: x in sorted ==> x.path != last.path by {
        if PathsDistinct(s) {
          forall x | x in sorted
            ensures x.path != last.path
          {
            var k :| 0 <= k < |init| && init[k] == x;
            assert s[k] == x;
          }
        }
      }
      InsertSorted(sorted, last)
  }

  function Strip(s: seq<Entry>): (r: seq<Candidate>)
    ensures Strips(s, r)
  {
    seq(|s|, i requires 0 <= i < |s| => Candidate(s[i].op, s[i].path))
  }

  /** `r` lists the operations and paths of `s`. */
  ghost predicate Strips(s: seq<Entry>, r: seq<Candidate>) {
    |r| == |s| && forall i :: 0 <= i < |s| ==> r[i] == Candidate(s[i].op, s[i].path)
  }

  // ---------------------------------------------------------------------
  // The candidate list
  // ---------------------------------------------------------------------

  /** The entries of `raw` are operations of `ops` with their paths and
      weights. */
  ghost predicate RawSound(g: Grid, goal: Coord, ops: seq<Operation>, coord: Coord, ori: Orientation, raw: seq<Entry>)
    requires g.Wf() && InBounds(g, goal)
  {
    forall x :: x in raw ==> x.op in ops && PathOf(g, coord, ori, x.op, x.path) && |x.path| > 0 && x.weight == Weight(g, goal, x.op, x.path)
  }

  /** Every operation of `ops` that has a path has an entry in `raw`. */
  ghost predicate RawComplete(g: Grid, ops: seq<Operation>, coord: Coord, ori: Orientation, raw: seq<Entry>)
    requires g.Wf()
  {
    forall op :: op in ops && ComputeCellPath(g, coord, ori, op).Some? ==> exists x :: x in raw && x.op == op
  }

  ghost predicate RawFacts(g: Grid, goal: Coord, ops: seq<Operation>, coord: Coord, ori: Orientation, raw: seq<Entry>)
    requires g.Wf() && InBounds(g, goal)
  {
    RawSound(g, goal, ops, coord, ori, raw) && RawComplete(g, ops, coord, ori, raw)
  }

  /** Each entry of `s` is an operation of `ops` with its path and weight. */
  ghost predicate Weighed(g: Grid, goal: Coord, ops: seq<Operation>, coord: Coord, ori: Orientation, s: seq<Entry>)
    requires g.Wf() && InBounds(g, goal)
  {
    forall i :: 0 <= i < |s| ==>
      s[i].op in ops && PathOf(g, coord, ori, s[i].op, s[i].path) && |s[i].path| > 0 && s[i].weight == Weight(g, goal, s[i].op, s[i].path)
  }

  /** The entries kept by removing duplicates and sorting. */
  function Kept(raw: seq<Entry>): (s: seq<Entry>)
    ensures PathsDistinct(s) && SortedByWeight(s)
  {
    SortEntries(Dedup(raw))
  }

  /** Removing duplicates and sorting keeps only entries of `raw`, ... */
  lemma KeptWeighed(g: Grid, goal: Coord, ops: seq<Operation>, coord: Coord, ori: Orientation, raw: seq<Entry>)
    requires g.Wf() && InBounds(g, goal) && RawSound(g, goal, ops, coord, ori, raw)
    ensures Weighed(g, goal, ops, coord, ori, Kept(raw))
  {
    var deduped := Dedup(raw);
    var s := Kept(raw);
    forall i | 0 <= i < |s|
      ensures s[i] in raw
    {
      assert s[i] in deduped;
    }
  }

  /** ... keeps an entry for every path of `raw`, no heavier than any of
      that path's entries ... */
  lemma KeptCovers(raw: seq<Entry>)
    ensures Covers(Kept(raw), raw)
  {
    var deduped := Dedup(raw);
    var s := Kept(raw);
    DedupCovers(raw);
    forall x | x in deduped
      ensures exists i :: 0 <= i < |s| && s[i].path == x.path && s[i].weight <= x.weight
    {
      assert x in s;
      var i :| 0 <= i < |s| && s[i] == x;
    }
    CoversTrans(s, deduped, raw);
  }

  /** ... and so, paths being distinct, each kept entry is the lightest for
      its path. */
  lemma KeptLightest(raw: seq<Entry>)
    ensures Lightest(Kept(raw), raw)
  {
    KeptCovers(raw);
    CoversLightest(Kept(raw), raw);
  }

  lemma CoversLightest(s: seq<Entry>, raw: seq<Entry>)
    requires Covers(s, raw) && PathsDistinct(s)
    ensures Lightest(s, raw)
  {
    forall i, x | 0 <= i < |s| && x in raw && s[i].path == x.path
      ensures s[i].weight <= x.weight
    {
      var j :| 0 <= j < |s| && s[j].path == x.path && s[j].weight <= x.weight;
      assert i == j;
    }
  }

  /** The ordered candidates of an agent at `coord` facing `ori` whose goal
      is `goal`:
      - each is an operation of `ops` with the cells it occupies;
      - no two share a cell path;
      - each candidate is the lightest operation of `ops` for its path,
        and of the equally light ones the first in `ops`, since a path's
        entry is replaced only by a strictly lighter one;
      - candidates appear in non-decreasing weight.
      That every operation with a path is represented is
      `SortedCandidatesCover`. Python's `_get_sorted_candidates` shuffles
      before its stable sort; here ties keep the order in which their paths first appear. */
  function GetSortedCandidates(g: Grid, goal: Coord, ops: seq<Operation>, coord: Coord, ori: Orientation): (r: seq<Candidate>)
    requires g.Wf() && InBounds(g, goal)
    ensures forall i :: 0 <= i < |r| ==> r[i].op in ops
    ensures forall i :: 0 <= i < |r| ==> PathOf(g, coord, ori, r[i].op, r[i].path)
    ensures forall i :: 0 <= i < |r| ==> |r[i].path| > 0
    ensures forall i, j :: 0 <= i < j < |r| ==> r[i].path != r[j].path
    ensures forall i, op :: 0 <= i < |r| && op in ops && PathOf(g, coord, ori, op, r[i].path) ==>
              Weight(g, goal, r[i].op, r[i].path) <= Weight(g, goal, op, r[i].path)
    ensures forall i, j :: 0 <= i < j < |r| ==> Weight(g, goal, r[i].op, r[i].path) <= Weight(g, goal, r[j].op, r[j].path)
    ensures forall i :: 0 <= i < |r| ==>
              exists m :: 0 <= m < |ops| && ops[m] == r[i].op &&
                forall j :: 0 <= j < m && PathOf(g, coord, ori, ops[j], r[i].path) ==>
                  Weight(g, goal, r[i].op, r[i].path) < Weight(g, goal, ops[j], r[i].path)
  {
    var raw := Raw(g, goal, ops, coord, ori);
    var s := Kept(raw);
    KeptWeighed(g, goal, ops, coord, ori, raw);
    KeptLightest(raw);
    KeptFirst(raw);
    RawInOrder(g, goal, ops, coord, ori);
    var r := Strip(s);
    StripMembers(g, goal, ops, coord, ori, s, r);
    StripSorted(g, goal, ops, coord, ori, s, r);
    StripLightest(g, goal, ops, coord, ori, raw, s, r);
    StripFirst(g, goal, ops, coord, ori, raw, s, r);
    r
  }

  /** Sorting keeps the first of the lightest entries of each path. */
  lemma KeptFirst(raw: seq<Entry>)
    ensures FirstLightest(Kept(raw), raw)
  {
    DedupFirst(raw);
  }

  /** The entry `x`, first of the lightest for its path in `raw`, has an
      operation that comes in `ops` after only strictly heavier operations
      with the same path. */
  lemma EntryEarliest(g: Grid, goal: Coord, ops: seq<Operation>, coord: Coord, ori: Orientation, raw: seq<Entry>, x: Entry)
    returns (m: nat)
    requires g.Wf() && InBounds(g, goal) && RawSound(g, goal, ops, coord, ori, raw) && RawOrdered(g, ops, coord, ori, raw)
    requires exists k :: 0 <= k < |raw| && raw[k] == x && forall j :: 0 <= j < k && raw[j].path == x.path ==> raw[j].weight > x.weight
    ensures |x.path| > 0 && m < |ops| && ops[m] == x.op
    ensures forall j :: 0 <= j < m && PathOf(g, coord, ori, ops[j], x.path) ==> Weight(g, goal, x.op, x.path) < Weight(g, goal, ops[j], x.path)
  {
    var k :| 0 <= k < |raw| && raw[k] == x && forall j :: 0 <= j < k && raw[j].path == x.path ==> raw[j].weight > x.weight;
    assert raw[k] in raw;
    m :| 0 <= m < |ops| && ops[m] == raw[k].op && EarlierListed(g, ops, coord, ori, raw, k, m);
    forall j | 0 <= j < m && PathOf(g, coord, ori, ops[j], x.path)
      ensures Weight(g, goal, x.op, x.path) < Weight(g, goal, ops[j], x.path)
    {
      var k' :| 0 <= k' < k && k' < |raw| && raw[k'].op == ops[j];
      assert raw[k'] in raw;
      assert raw[k'].path == x.path;
    }
  }

  lemma StripFirst(g: Grid, goal: Coord, ops: seq<Operation>, coord: Coord, ori: Orientation,
                   raw: seq<Entry>, s: seq<Entry>, r: seq<Candidate>)
    requires g.Wf() && InBounds(g, goal) && RawSound(g, goal, ops, coord, ori, raw) && RawOrdered(g, ops, coord, ori, raw)
    requires FirstLightest(s, raw) && Strips(s, r)
    ensures forall i :: 0 <= i < |r| ==>
              && |r[i].path| > 0
              && exists m :: 0 <= m < |ops| && ops[m] == r[i].op &&
                   forall j :: 0 <= j < m && PathOf(g, coord, ori, ops[j], r[i].path) ==>
                     Weight(g, goal, r[i].op, r[i].path) < Weight(g, goal, ops[j], r[i].path)
  {
    forall i | 0 <= i < |r|
      ensures && |r[i].path| > 0
              && exists m :: 0 <= m < |ops| && ops[m] == r[i].op &&
                   forall j :: 0 <= j < m && PathOf(g, coord, ori, ops[j], r[i].path) ==>
                     Weight(g, goal, r[i].op, r[i].path) < Weight(g, goal, ops[j], r[i].path)
    {
      assert s[i] in s;
      var m := EntryEarliest(g, goal, ops, coord, ori, raw, s[i]);
    }
  }

  /** With operations short enough that alpha outweighs their tie-break
      cost, the candidates come in order of how near their last cell is to
      the goal. */
  lemma CandidatesNearerFirst(g: Grid, goal: Coord, ops: seq<Operation>, coord: Coord, ori: Orientation, i: nat, j: nat)
    requires g.Wf() && InBounds(g, goal)
    requires forall op :: op in ops ==> 2 * |op| < 10 * g.Size()
    requires i < j < |GetSortedCandidates(g, goal, ops, coord, ori)|
    ensures var r := GetSortedCandidates(g, goal, ops, coord, ori);
            Distance(g, goal, r[i].path[|r[i].path| - 1]) <= Distance(g, goal, r[j].path[|r[j].path| - 1])
  {
    var r := GetSortedCandidates(g, goal, ops, coord, ori);
    if Distance(g, goal, r[j].path[|r[j].path| - 1]) < Distance(g, goal, r[i].path[|r[i].path| - 1]) {
      DistanceDominates(g, goal, r[j].op, r[j].path, r[i].op, r[i].path);
      assert false;
    }
  }

  /** A candidate is an operation of `ops` with its cell path. */
  lemma CandidateMeaning(g: Grid, goal: Coord, ops: seq<Operation>, coord: Coord, ori: Orientation, c: Candidate)
    requires g.Wf() && InBounds(g, goal) && c in GetSortedCandidates(g, goal, ops, coord, ori)
    ensures c.op in ops && PathOf(g, coord, ori, c.op, c.path)
  {
    var r := GetSortedCandidates(g, goal, ops, coord, ori);
    var m :| 0 <= m < |r| && r[m] == c;
  }

  lemma StripMembers(g: Grid, goal: Coord, ops: seq<Operation>, coord: Coord, ori: Orientation, s: seq<Entry>, r: seq<Candidate>)
    requires g.Wf() && InBounds(g, goal) && Weighed(g, goal, ops, coord, ori, s)
    requires PathsDistinct(s) && Strips(s, r)
    ensures forall i :: 0 <= i < |r| ==> r[i].op in ops
    ensures forall i :: 0 <= i < |r| ==> PathOf(g, coord, ori, r[i].op, r[i].path)
    ensures forall i :: 0 <= i < |r| ==> |r[i].path| > 0
    ensures forall i, j :: 0 <= i < j < |r| ==> r[i].path != r[j].path
  {
  }

  lemma StripSorted(g: Grid, goal: Coord, ops: seq<Operation>, coord: Coord, ori: Orientation, s: seq<Entry>, r: seq<Candidate>)
    requires g.Wf() && InBounds(g, goal) && Weighed(g, goal, ops, coord, ori, s)
    requires SortedByWeight(s) && Strips(s, r)
    requires forall i :: 0 <= i < |r| ==> |r[i].path| > 0
    ensures forall i, j :: 0 <= i < j < |r| ==> Weight(g, goal, r[i].op, r[i].path) <= Weight(g, goal, r[j].op, r[j].path)
  {
  }

  lemma StripLightest(g: Grid, goal: Coord, ops: seq<Operation>, coord: Coord, ori: Orientation,
                      raw: seq<Entry>, s: seq<Entry>, r: seq<Candidate>)
    requires g.Wf() && InBounds(g, goal) && RawFacts(g, goal, ops, coord, ori, raw) && Weighed(g, goal, ops, coord, ori, s)
    requires Lightest(s, raw) && Strips(s, r)
    requires forall i :: 0 <= i < |r| ==> |r[i].path| > 0
    ensures forall i, op :: 0 <= i < |r| && op in ops && PathOf(g, coord, ori, op, r[i].path) ==>
              Weight(g, goal, r[i].op, r[i].path) <= Weight(g, goal, op, r[i].path)
  {
    forall i, op | 0 <= i < |r| && op in ops && PathOf(g, coord, ori, op, r[i].path)
      ensures Weight(g, goal, r[i].op, r[i].path) <= Weight(g, goal, op, r[i].path)
    {
      var x :| x in raw && x.op == op;
      assert x.path == r[i].path;
    }
  }

  /** An entry of `raw` for `op` is covered by a candidate of `r` with the
      same path. */
  lemma StripCovers(g: Grid, goal: Coord, ops: seq<Operation>, coord: Coord, ori: Orientation,
                    raw: seq<Entry>, s: seq<Entry>, r: seq<Candidate>, x: Entry) returns (i: nat)
    requires g.Wf() && InBounds(g, goal) && RawSound(g, goal, ops, coord, ori, raw) && Weighed(g, goal, ops, coord, ori, s)
    requires Covers(s, raw) && Strips(s, r) && x in raw
    ensures i < |r| && r[i].path == x.path && Weight(g, goal, r[i].op, r[i].path) <= Weight(g, goal, x.op, r[i].path)
  {
    i :| 0 <= i < |s| && s[i].path == x.path && s[i].weight <= x.weight;
    assert r[i].path == x.path;
  }

  /** Every operation of `ops` that can be carried out from `coord` facing
      `ori` is represented: some candidate has its cell path, at no greater
      weight. */
  lemma SortedCandidatesCover(g: Grid, goal: Coord, ops: seq<Operation>, coord: Coord, ori: Orientation, op: Operation)
    requires g.Wf() && InBounds(g, goal)
    requires op in ops && ComputeCellPath(g, coord, ori, op).Some?
    ensures var r := GetSortedCandidates(g, goal, ops, coord, ori);
            exists i :: 0 <= i < |r| && r[i].path == ComputeCellPath(g, coord, ori, op).value.cells
              && Weight(g, goal, r[i].op, r[i].path) <= Weight(g, goal, op, r[i].path)
  {
    var raw := Raw(g, goal, ops, coord, ori);
    var s := Kept(raw);
    KeptWeighed(g, goal, ops, coord, ori, raw);
    KeptCovers(raw);
    var x :| x in raw && x.op == op;
    var r := Strip(s);
    var i := StripCovers(g, goal, ops, coord, ori, raw, s, r, x);
    var cands := GetSortedCandidates(g, goal, ops, coord, ori);
    assert cands == r;
    assert x.path == ComputeCellPath(g, coord, ori, op).value.cells;
    assert i < |cands| && cands[i].path == ComputeCellPath(g, coord, ori, op).value.cells
      && Weight(g, goal, cands[i].op, cands[i].path) <= Weight(g, goal, op, cands[i].path);
  }
}

/**
 * Directions, move descriptors (the MoveData records of js/Board.js) and
 * their meaning. Every direction is reduced to "slide right" on a canonical
 * board: Forward(dir, grid) rotates or reflects the grid, Back(dir, _) undoes
 * it, and Pos(dir, idx, c) is the grid cell that column c of canonical row
 * idx stands for. A descriptor is replayed on a grid: a collapsed descriptor
 * clears its cell, any other one clears its source cell and writes nextValue
 * at its destination.
 */
module Moves {
  import opened Config
  import opened Grids
  import opened Options
  import opened Utils
  import opened RowSlide

  datatype Direction = Up | Down | Left | Right

  /** The arrow keys the listener accepts; key.replace('Arrow', '') names the direction. */
  function ArrowDirection(key: string): (d: Option<Direction>)
    ensures d.Some? <==> key in ["ArrowUp", "ArrowDown", "ArrowLeft", "ArrowRight"]
    ensures d.Some? ==> key == "Arrow" + DirectionName(d.value)
  {
    if key == "ArrowUp" then Some(Up)
    else if key == "ArrowDown" then Some(Down)
    else if key == "ArrowLeft" then Some(Left)
    else if key == "ArrowRight" then Some(Right)
    else None
  }

  function DirectionName(d: Direction): string {
    match d
    case Up => "Up"
    case Down => "Down"
    case Left => "Left"
    case Right => "Right"
  }

  /** One record of blockMoveData (the MoveData typedef of js/Board.js). */
  datatype MoveData = MoveData(prevRow: int, prevCol: int, nextRow: int, nextCol: int,
                               prevValue: int, nextValue: int, isCollapsed: bool, direction: Direction)
  {
    function Prev(): Coord { Coord(prevRow, prevCol) }
    function Next(): Coord { Coord(nextRow, nextCol) }
  }

  // ---------------------------------------------------------------------
  // The canonical scan of a row, as events

  /**
   * One event of the scan of a canonical row, at anchor `to` and probe `from`:
   * a slide moves `value` from the probe into the empty anchor; a merge
   * empties the probe and doubles the anchor, both holding `value`.
   */
  datatype RowStep = SlideStep(from: int, to: int, value: int) | MergeStep(from: int, to: int, value: int)

  /**
   * The row after one event, or None when the event does not fit the row:
   * the probe holds the value, every cell between probe and anchor is
   * empty, and the anchor is empty (slide) or holds the same value (merge).
   */
  function StepRow(row: seq<int>, s: RowStep): (r: Option<seq<int>>)
    ensures r.Some? ==> |r.value| == |row|
    ensures r.Some? ==> 0 <= s.from < s.to < |row| && forall m :: s.from < m < s.to ==> row[m] == 0
  {
    if !(0 <= s.from < s.to < |row|) || s.value == 0 || row[s.from] != s.value then None
    else if !(forall m :: s.from < m < s.to ==> row[m] == 0) then None
    else match s
      case SlideStep(j, i, v) => if row[i] == 0 then Some(row[j := 0][i := v]) else None
      case MergeStep(j, i, v) => if row[i] == v then Some(row[j := 0][i := 2 * v]) else None
  }

  /** The row after a sequence of events, each fitting the row it meets. */
  function ReplayRow(row: seq<int>, steps: seq<RowStep>): (r: Option<seq<int>>)
    ensures r.Some? ==> |r.value| == |row|
    decreases |steps|
  {
    if steps == [] then Some(row)
    else match ReplayRow(row, steps[..|steps| - 1])
      case None => None
      case Some(prev) => StepRow(prev, steps[|steps| - 1])
  }

  lemma ReplayRowSnoc(row: seq<int>, steps: seq<RowStep>, s: RowStep)
    requires ReplayRow(row, steps).Some?
    ensures ReplayRow(row, steps + [s]) == StepRow(ReplayRow(row, steps).value, s)
  {
    assert (steps + [s])[..|steps|] == steps;
  }

  /**
   * The order in which the scan emits events: the probe is below the anchor,
   * anchors never increase, and after a merge at anchor i every later event
   * lies strictly below i, so a doubled cell is never touched again.
   */
  predicate ScanOrder(steps: seq<RowStep>) {
    && (forall k :: 0 <= k < |steps| ==> 0 <= steps[k].from < steps[k].to)
    && (forall k, l :: 0 <= k < l < |steps| ==> steps[l].to <= steps[k].to)
    && (forall k, l :: 0 <= k < l < |steps| && steps[k].MergeStep? ==> steps[l].to < steps[k].to)
  }

  /** The values the merge events create, in the order the scan makes them. */
  function MergedValues(steps: seq<RowStep>): seq<int>
    decreases |steps|
  {
    if steps == [] then []
    else
      var s := steps[|steps| - 1];
      MergedValues(steps[..|steps| - 1]) + (if s.MergeStep? then [2 * s.value] else [])
  }

  lemma MergedValuesSnoc(steps: seq<RowStep>, s: RowStep)
    ensures MergedValues(steps + [s]) == MergedValues(steps) + (if s.MergeStep? then [2 * s.value] else [])
  {
    assert (steps + [s])[..|steps|] == steps;
  }

  /**
   * The events of the scan of one canonical row: in scan order, replaying
   * the row into its slide, and merging exactly the pairs the reference
   * merge joins.
   */
  ghost predicate RowEvents(row: seq<int>, steps: seq<RowStep>) {
    && ScanOrder(steps)
    && ReplayRow(row, steps) == Some(Slide(row))
    && MergedValues(steps) == Merges(NonZeros(row))
  }

  /** Sum over the non-zero cells of (distance from the end of the row); every event lowers it. */
  function Weight(s: seq<int>): int {
    if s == [] then 0 else (if s[0] != 0 then |s| else 0) + Weight(s[1..])
  }

  lemma {:induction false} WeightUpdate(s: seq<int>, k: int, x: int)
    requires 0 <= k < |s|
    ensures Weight(s[k := x]) == Weight(s) - (if s[k] != 0 then |s| - k else 0) + (if x != 0 then |s| - k else 0)
    decreases k
  {
    if k > 0 {
      WeightUpdate(s[1..], k - 1, x);
      assert s[k := x][1..] == s[1..][k - 1 := x];
    }
  }

  lemma StepRowLowersWeight(row: seq<int>, s: RowStep)
    requires StepRow(row, s).Some?
    ensures Weight(StepRow(row, s).value) < Weight(row)
  {
    WeightUpdate(row, s.from, 0);
    var r1 := row[s.from := 0];
    if s.SlideStep? {
      WeightUpdate(r1, s.to, s.value);
    } else {
      WeightUpdate(r1, s.to, 2 * s.value);
    }
  }

  /** A non-empty sequence of events always changes the row. */
  lemma {:induction false} ReplayRowChanges(row: seq<int>, steps: seq<RowStep>)
    requires steps != [] && ReplayRow(row, steps).Some?
    ensures Weight(ReplayRow(row, steps).value) < Weight(row)
    ensures ReplayRow(row, steps).value != row
    decreases |steps|
  {
    var init := steps[..|steps| - 1];
    var prev := ReplayRow(row, init).value;
    StepRowLowersWeight(prev, steps[|steps| - 1]);
    if init != [] {
      ReplayRowChanges(row, init);
    }
  }

  // ---------------------------------------------------------------------
  // Coordinates and grid transforms

  /**
   * The grid cell that column c of canonical row idx stands for:
   * Right (idx, c), Left (idx, N-1-c), Down (c, idx), Up (N-1-c, idx).
   */
  function Pos(dir: Direction, idx: int, c: int): Coord {
    match dir
    case Right => Coord(idx, c)
    case Left => Coord(idx, N - 1 - c)
    case Down => Coord(c, idx)
    case Up => Coord(N - 1 - c, idx)
  }

  /** The transform `move` applies first: every move becomes "slide right". */
  function Forward(dir: Direction, g: Grid): (h: Grid)
    requires IsGrid(g)
    ensures IsGrid(h)
  {
    match dir
    case Right => g
    case Left => MirrorRows(g)
    case Down => Transpose(g)
    case Up => MirrorRows(Transpose(g))
  }

  /** The transform `move` applies last, undoing Forward. */
  function Back(dir: Direction, h: Grid): (g: Grid)
    requires IsGrid(h)
    ensures IsGrid(g)
  {
    match dir
    case Right => h
    case Left => MirrorRows(h)
    case Down => Transpose(h)
    case Up => Transpose(MirrorRows(h))
  }

  /** Canonical cell (idx, c) is grid cell Pos(dir, idx, c). */
  lemma ForwardAt(dir: Direction, g: Grid, idx: int, c: int)
    requires IsGrid(g) && 0 <= idx < N && 0 <= c < N
    ensures InGrid(Pos(dir, idx, c))
    ensures Forward(dir, g)[idx][c] == Cell(g, Pos(dir, idx, c))
  {
  }

  lemma BackAt(dir: Direction, h: Grid, idx: int, c: int)
    requires IsGrid(h) && 0 <= idx < N && 0 <= c < N
    ensures InGrid(Pos(dir, idx, c))
    ensures Cell(Back(dir, h), Pos(dir, idx, c)) == h[idx][c]
  {
  }

  /** Within one canonical row, distinct columns are distinct grid cells. */
  lemma PosInjective(dir: Direction, idx: int, c: int, d: int)
    requires c != d
    ensures Pos(dir, idx, c) != Pos(dir, idx, d)
  {
  }

  /** Each direction's forward transform followed by its inverse gives back the grid. */
  lemma RoundTrip(dir: Direction, g: Grid)
    requires IsGrid(g)
    ensures Back(dir, Forward(dir, g)) == g
  {
    match dir
    case Right =>
    case Left => MirrorInvolution(g);
    case Down => TransposeInvolution(g);
    case Up =>
      MirrorInvolution(Transpose(g));
      TransposeInvolution(g);
  }

  /** And the inverse followed by the forward transform gives back the canonical board. */
  lemma RoundTripBack(dir: Direction, h: Grid)
    requires IsGrid(h)
    ensures Forward(dir, Back(dir, h)) == h
  {
    match dir
    case Right =>
    case Left => MirrorInvolution(h);
    case Down => TransposeInvolution(h);
    case Up =>
      TransposeInvolution(MirrorRows(h));
      MirrorInvolution(h);
  }

  /** Writing one canonical cell and transforming back writes the matching grid cell. */
  lemma BackSetCell(dir: Direction, h: Grid, idx: int, c: int, v: int)
    requires IsGrid(h) && 0 <= idx < N && 0 <= c < N
    ensures InGrid(Pos(dir, idx, c))
    ensures Back(dir, SetCell(h, Coord(idx, c), v)) == SetCell(Back(dir, h), Pos(dir, idx, c), v)
  {
    var a := Back(dir, SetCell(h, Coord(idx, c), v));
    var b := SetCell(Back(dir, h), Pos(dir, idx, c), v);
    forall r, col | 0 <= r < N && 0 <= col < N
      ensures a[r][col] == b[r][col]
    {
      assert Cell(b, Coord(r, col)) == b[r][col];
    }
    GridExt(a, b);
  }

  // ---------------------------------------------------------------------
  // Descriptors and their replay on a grid

  /**
   * The descriptors the scan pushes for one event of canonical row idx:
   * one for a slide; for a merge first the collapsed anchor record, then the
   * record moving the probe onto the anchor with the doubled value.
   */
  function Describe(dir: Direction, idx: int, s: RowStep): seq<MoveData> {
    var p := Pos(dir, idx, s.from);
    var q := Pos(dir, idx, s.to);
    match s
    case SlideStep(_, _, v) =>
      [MoveData(p.row, p.col, q.row, q.col, v, v, false, dir)]
    case MergeStep(_, _, v) =>
      [MoveData(q.row, q.col, q.row, q.col, v, v, true, dir),
       MoveData(p.row, p.col, q.row, q.col, v, 2 * v, false, dir)]
  }

  function DescribeAll(dir: Direction, idx: int, steps: seq<RowStep>): seq<MoveData>
    decreases |steps|
  {
    if steps == [] then [] else DescribeAll(dir, idx, steps[..|steps| - 1]) + Describe(dir, idx, steps[|steps| - 1])
  }

  lemma DescribeAllSnoc(dir: Direction, idx: int, steps: seq<RowStep>, s: RowStep)
    ensures DescribeAll(dir, idx, steps + [s]) == DescribeAll(dir, idx, steps) + Describe(dir, idx, s)
  {
    assert (steps + [s])[..|steps|] == steps;
  }

  /** Every descriptor of a row carries the direction of the move. */
  lemma {:induction false} DescribeAllDirection(dir: Direction, idx: int, steps: seq<RowStep>)
    ensures forall d :: d in DescribeAll(dir, idx, steps) ==> d.direction == dir
    decreases |steps|
  {
    if steps != [] {
      DescribeAllDirection(dir, idx, steps[..|steps| - 1]);
    }
  }

  /**
   * The records of a row come in the shapes the scan pushes: a collapsed
   * record stays on its cell and keeps its value, and is followed by the
   * record that moves the probe onto that cell with the doubled value; any
   * other record keeps its value unless it is that second record of a merge.
   */
  predicate EventShaped(ds: seq<MoveData>) {
    forall k :: 0 <= k < |ds| ==> ShapedAt(ds, k)
  }

  predicate ShapedAt(ds: seq<MoveData>, k: int)
    requires 0 <= k < |ds|
  {
    if ds[k].isCollapsed then
      && ds[k].Prev() == ds[k].Next() && ds[k].prevValue == ds[k].nextValue
      && k + 1 < |ds| && !ds[k + 1].isCollapsed && ds[k + 1].Next() == ds[k].Next()
      && ds[k + 1].prevValue == ds[k].prevValue && ds[k + 1].nextValue == 2 * ds[k].prevValue
    else
      ds[k].nextValue == ds[k].prevValue || (0 < k && ds[k - 1].isCollapsed)
  }

  /** Every row's records have the shapes of its slides and merges. */
  lemma {:induction false} DescribeAllShaped(dir: Direction, idx: int, steps: seq<RowStep>)
    ensures EventShaped(DescribeAll(dir, idx, steps))
    decreases |steps|
  {
    if steps != [] {
      var init := steps[..|steps| - 1];
      var s := steps[|steps| - 1];
      DescribeAllShaped(dir, idx, init);
      var a := DescribeAll(dir, idx, init);
      var b := Describe(dir, idx, s);
      var ds := a + b;
      assert DescribeAll(dir, idx, steps) == ds;
      var p, q := Pos(dir, idx, s.from), Pos(dir, idx, s.to);
      forall k | 0 <= k < |ds|
        ensures ShapedAt(ds, k)
      {
        if k < |a| {
          assert ShapedAt(a, k);
          assert ds[k] == a[k];
          if a[k].isCollapsed {
            assert ds[k + 1] == a[k + 1];
          } else if 0 < k {
            assert ds[k - 1] == a[k - 1];
          }
        } else {
          match s
          case SlideStep(_, _, v) =>
            assert b == [MoveData(p.row, p.col, q.row, q.col, v, v, false, dir)];
            assert ds[k] == b[0];
          case MergeStep(_, _, v) =>
            assert b == [MoveData(q.row, q.col, q.row, q.col, v, v, true, dir),
                         MoveData(p.row, p.col, q.row, q.col, v, 2 * v, false, dir)];
            assert ds[|a|] == b[0] && ds[|a| + 1] == b[1];
        }
      }
    }
  }

  /** The cells of a row that its merge events double. */
  function MergedCells(dir: Direction, idx: int, steps: seq<RowStep>): set<Coord> {
    set m | 0 <= m < |steps| && steps[m].MergeStep? :: Pos(dir, idx, steps[m].to)
  }

  /** A collapsed record names a cell doubled by one of the row's merges. */
  lemma {:induction false} CollapsedMerged(dir: Direction, idx: int, steps: seq<RowStep>)
    ensures forall d :: d in DescribeAll(dir, idx, steps) && d.isCollapsed ==> d.Prev() in MergedCells(dir, idx, steps)
    decreases |steps|
  {
    if steps != [] {
      var init := steps[..|steps| - 1];
      var s := steps[|steps| - 1];
      CollapsedMerged(dir, idx, init);
      assert MergedCells(dir, idx, init) <= MergedCells(dir, idx, steps) by {
        forall c | c in MergedCells(dir, idx, init)
          ensures c in MergedCells(dir, idx, steps)
        {
          var m :| 0 <= m < |init| && init[m].MergeStep? && c == Pos(dir, idx, init[m].to);
          assert steps[m] == init[m];
        }
      }
      if s.MergeStep? {
        assert Pos(dir, idx, steps[|steps| - 1].to) in MergedCells(dir, idx, steps);
      }
    }
  }

  /** No two collapsed records name the same cell. */
  predicate CollapsedOnce(ds: seq<MoveData>) {
    forall k, l :: 0 <= k < l < |ds| && ds[k].isCollapsed && ds[l].isCollapsed ==> ds[k].Prev() != ds[l].Prev()
  }

  /**
   * At most one merge per tile: two collapsed records of one row never
   * name the same cell, because the anchor moves below a merged cell.
   */
  lemma {:induction false} CollapsedDistinct(dir: Direction, idx: int, steps: seq<RowStep>)
    requires ScanOrder(steps)
    ensures CollapsedOnce(DescribeAll(dir, idx, steps))
    decreases |steps|
  {
    if steps != [] {
      var init := steps[..|steps| - 1];
      var s := steps[|steps| - 1];
      CollapsedDistinct(dir, idx, init);
      CollapsedMerged(dir, idx, init);
      var a := DescribeAll(dir, idx, init);
      var b := Describe(dir, idx, s);
      var ds := a + b;
      assert DescribeAll(dir, idx, steps) == ds;
      forall k, l | 0 <= k < l < |ds| && ds[k].isCollapsed && ds[l].isCollapsed
        ensures ds[k].Prev() != ds[l].Prev()
      {
        if l < |a| {
          assert ds[k] == a[k] && ds[l] == a[l];
          assert CollapsedOnce(a);
        } else {
          var p, q := Pos(dir, idx, s.from), Pos(dir, idx, s.to);
          match s
          case SlideStep(_, _, _) =>
            assert false;
          case MergeStep(_, _, v) =>
            assert b == [MoveData(q.row, q.col, q.row, q.col, v, v, true, dir),
                         MoveData(p.row, p.col, q.row, q.col, v, 2 * v, false, dir)];
            assert ds[|a|] == b[0] && ds[|a| + 1] == b[1];
            assert l == |a| && k < |a| && ds[l].Prev() == q;
            assert ds[k] == a[k] && a[k] in a;
            var m :| 0 <= m < |init| && init[m].MergeStep? && a[k].Prev() == Pos(dir, idx, init[m].to);
            assert steps[m] == init[m];
            assert steps[m].to > s.to;
            PosInjective(dir, idx, init[m].to, s.to);
            assert ds[k].Prev() != ds[l].Prev();
        }
      }
    }
  }

  /** A row produces no descriptor exactly when it has no event. */
  lemma {:induction false} DescribeAllEmpty(dir: Direction, idx: int, steps: seq<RowStep>)
    ensures DescribeAll(dir, idx, steps) == [] <==> steps == []
    decreases |steps|
  {
    if steps != [] {
      DescribeAllEmpty(dir, idx, steps[..|steps| - 1]);
    }
  }

  /**
   * One descriptor applied to a grid, or None when it does not fit: its
   * source must hold prevValue; a collapsed record stays in place and keeps
   * its value; any other record moves the value into an empty cell, keeping
   * or doubling it.
   */
  function ApplyDescriptor(g: Grid, d: MoveData): (r: Option<Grid>)
    requires IsGrid(g)
    ensures r.Some? ==> IsGrid(r.value)
  {
    var p := d.Prev();
    var q := d.Next();
    if !InGrid(p) || !InGrid(q) || d.prevValue == 0 || Cell(g, p) != d.prevValue then None
    else if d.isCollapsed then
      if p == q && d.nextValue == d.prevValue then Some(SetCell(g, p, 0)) else None
    else if p != q && Cell(g, q) == 0 && (d.nextValue == d.prevValue || d.nextValue == 2 * d.prevValue) then
      Some(SetCell(SetCell(g, p, 0), q, d.nextValue))
    else None
  }

  /** The descriptors applied in order. */
  function Replay(g: Grid, ds: seq<MoveData>): (r: Option<Grid>)
    requires IsGrid(g)
    ensures r.Some? ==> IsGrid(r.value)
    decreases |ds|
  {
    if ds == [] then Some(g)
    else match ApplyDescriptor(g, ds[0])
      case None => None
      case Some(g1) => Replay(g1, ds[1..])
  }

  lemma {:induction false} ReplayAppend(g: Grid, a: seq<MoveData>, b: seq<MoveData>)
    requires IsGrid(g)
    ensures Replay(g, a + b) == if Replay(g, a).Some? then Replay(Replay(g, a).value, b) else None
    decreases |a|
  {
    if a == [] {
      assert a + b == b;
    } else {
      assert (a + b)[0] == a[0] && (a + b)[1..] == a[1..] + b;
      if ApplyDescriptor(g, a[0]).Some? {
        ReplayAppend(ApplyDescriptor(g, a[0]).value, a[1..], b);
      }
    }
  }

  /** A non-collapsed record moves the probe's value into the empty cell, keeping or doubling it. */
  lemma ApplyShift(dir: Direction, h: Grid, idx: int, j: int, i: int, v: int, w: int)
    requires IsGrid(h) && 0 <= idx < N && 0 <= j < N && 0 <= i < N && j != i
    requires h[idx][j] == v && v != 0 && h[idx][i] == 0 && (w == v || w == 2 * v)
    ensures var p, q := Pos(dir, idx, j), Pos(dir, idx, i);
      ApplyDescriptor(Back(dir, h), MoveData(p.row, p.col, q.row, q.col, v, w, false, dir))
        == Some(Back(dir, h[idx := h[idx][j := 0][i := w]]))
  {
    var g := Back(dir, h);
    var p, q := Pos(dir, idx, j), Pos(dir, idx, i);
    var d := MoveData(p.row, p.col, q.row, q.col, v, w, false, dir);
    assert d.Prev() == p && d.Next() == q;
    PosInjective(dir, idx, j, i);
    BackAt(dir, h, idx, j);
    BackAt(dir, h, idx, i);
    assert ApplyDescriptor(g, d) == Some(SetCell(SetCell(g, p, 0), q, w));
    var h1 := SetCell(h, Coord(idx, j), 0);
    BackSetCell(dir, h, idx, j, 0);
    BackSetCell(dir, h1, idx, i, w);
    assert SetCell(h1, Coord(idx, i), w) == h[idx := h[idx][j := 0][i := w]];
  }

  /** A collapsed record clears the anchor it names. */
  lemma ApplyCollapse(dir: Direction, h: Grid, idx: int, i: int, v: int)
    requires IsGrid(h) && 0 <= idx < N && 0 <= i < N
    requires h[idx][i] == v && v != 0
    ensures var q := Pos(dir, idx, i);
      ApplyDescriptor(Back(dir, h), MoveData(q.row, q.col, q.row, q.col, v, v, true, dir))
        == Some(Back(dir, h[idx := h[idx][i := 0]]))
  {
    BackAt(dir, h, idx, i);
    BackSetCell(dir, h, idx, i, 0);
  }

  lemma ReplayOne(g: Grid, d: MoveData)
    requires IsGrid(g) && ApplyDescriptor(g, d).Some?
    ensures Replay(g, [d]) == ApplyDescriptor(g, d)
  {
    assert [d][1..] == [];
  }

  lemma ReplayPair(g: Grid, d0: MoveData, d1: MoveData, g1: Grid, g2: Grid)
    requires IsGrid(g) && IsGrid(g1)
    requires ApplyDescriptor(g, d0) == Some(g1) && ApplyDescriptor(g1, d1) == Some(g2)
    ensures Replay(g, [d0, d1]) == Some(g2)
  {
    assert [d0, d1][1..] == [d1];
    ReplayOne(g1, d1);
  }

  /** The second record of a merge, applied after the first, doubles the anchor and empties the probe. */
  lemma MergeShift(dir: Direction, h: Grid, idx: int, j: int, i: int, v: int)
    requires IsGrid(h) && 0 <= idx < N && 0 <= j < i < N
    requires h[idx][j] == v && h[idx][i] == v && v != 0
    ensures var p, q := Pos(dir, idx, j), Pos(dir, idx, i);
      ApplyDescriptor(Back(dir, h[idx := h[idx][i := 0]]), MoveData(p.row, p.col, q.row, q.col, v, 2 * v, false, dir))
        == Some(Back(dir, h[idx := h[idx][j := 0][i := 2 * v]]))
  {
    var h0 := h[idx := h[idx][i := 0]];
    ApplyShift(dir, h0, idx, j, i, v, 2 * v);
    assert h0[idx][j := 0][i := 2 * v] == h[idx][j := 0][i := 2 * v];
    assert h0[idx := h0[idx][j := 0][i := 2 * v]] == h[idx := h[idx][j := 0][i := 2 * v]];
  }

  lemma DescribeMerge(dir: Direction, h: Grid, idx: int, j: int, i: int, v: int)
    requires IsGrid(h) && 0 <= idx < N && 0 <= j < i < N
    requires h[idx][j] == v && h[idx][i] == v && v != 0
    ensures Replay(Back(dir, h), Describe(dir, idx, MergeStep(j, i, v))) == Some(Back(dir, h[idx := h[idx][j := 0][i := 2 * v]]))
  {
    var p, q := Pos(dir, idx, j), Pos(dir, idx, i);
    var d0 := MoveData(q.row, q.col, q.row, q.col, v, v, true, dir);
    var d1 := MoveData(p.row, p.col, q.row, q.col, v, 2 * v, false, dir);
    ApplyCollapse(dir, h, idx, i, v);
    MergeShift(dir, h, idx, j, i, v);
    ReplayPair(Back(dir, h), d0, d1, Back(dir, h[idx := h[idx][i := 0]]), Back(dir, h[idx := h[idx][j := 0][i := 2 * v]]));
  }

  /** The descriptors of one event replay, on the grid, that event of the canonical row. */
  lemma DescribeStep(dir: Direction, h: Grid, idx: int, s: RowStep)
    requires IsGrid(h) && 0 <= idx < N
    requires StepRow(h[idx], s).Some?
    ensures Replay(Back(dir, h), Describe(dir, idx, s)) == Some(Back(dir, h[idx := StepRow(h[idx], s).value]))
  {
    var row := h[idx];
    if s.SlideStep? {
      ApplyShift(dir, h, idx, s.from, s.to, s.value, s.value);
      ReplayOne(Back(dir, h), Describe(dir, idx, s)[0]);
    } else {
      DescribeMerge(dir, h, idx, s.from, s.to, s.value);
    }
  }

  /**
   * The descriptors of a whole row, applied to the grid, give the grid whose
   * canonical row idx is the replayed row.
   */
  lemma {:induction false} DescribeReplay(dir: Direction, h: Grid, idx: int, steps: seq<RowStep>)
    requires IsGrid(h) && 0 <= idx < N
    requires ReplayRow(h[idx], steps).Some?
    ensures Replay(Back(dir, h), DescribeAll(dir, idx, steps)) == Some(Back(dir, h[idx := ReplayRow(h[idx], steps).value]))
    decreases |steps|
  {
    if steps == [] {
      assert h[idx := h[idx]] == h;
    } else {
      var init := steps[..|steps| - 1];
      var s := steps[|steps| - 1];
      DescribeReplay(dir, h, idx, init);
      var r0 := ReplayRow(h[idx], init).value;
      var h1 := h[idx := r0];
      DescribeStep(dir, h1, idx, s);
      assert h1[idx := StepRow(r0, s).value] == h[idx := ReplayRow(h[idx], steps).value];
      ReplayAppend(Back(dir, h), DescribeAll(dir, idx, init), Describe(dir, idx, s));
    }
  }

  // ---------------------------------------------------------------------
  // Score and largest value carried by descriptors

  /** The score a turn earns: 2 * nextValue for each collapsed descriptor. */
  function Gain(ds: seq<MoveData>): int
    decreases |ds|
  {
    if ds == [] then 0
    else Gain(ds[..|ds| - 1]) + (if ds[|ds| - 1].isCollapsed then 2 * ds[|ds| - 1].nextValue else 0)
  }

  function Max(a: int, b: int): int {
    if a >= b then a else b
  }

  /** largestNum after the merges the descriptors record (a collapsed record of v makes 2v). */
  function LargestAfter(m: int, ds: seq<MoveData>): int
    decreases |ds|
  {
    if ds == [] then m
    else
      var before := LargestAfter(m, ds[..|ds| - 1]);
      if ds[|ds| - 1].isCollapsed then Max(before, 2 * ds[|ds| - 1].nextValue) else before
  }

  lemma {:induction false} GainAppend(a: seq<MoveData>, b: seq<MoveData>)
    ensures Gain(a + b) == Gain(a) + Gain(b)
    decreases |b|
  {
    if b == [] {
      assert a + b == a;
    } else {
      assert (a + b)[..|a + b| - 1] == a + b[..|b| - 1];
      GainAppend(a, b[..|b| - 1]);
    }
  }

  /** The larger of m and every value of xs. */
  function MaxOf(m: int, xs: seq<int>): int
    decreases |xs|
  {
    if xs == [] then m else Max(MaxOf(m, Init(xs)), Last(xs))
  }

  lemma {:induction false} MaxOfAppend(m: int, xs: seq<int>, ys: seq<int>)
    ensures MaxOf(m, xs + ys) == MaxOf(MaxOf(m, xs), ys)
    decreases |ys|
  {
    if ys == [] {
      assert xs + ys == xs;
    } else {
      assert Init(xs + ys) == xs + Init(ys);
      MaxOfAppend(m, xs, Init(ys));
    }
  }

  /** The records of one event score what its merge, if any, creates. */
  lemma GainStep(dir: Direction, idx: int, s: RowStep)
    ensures Gain(Describe(dir, idx, s)) == Sum(if s.MergeStep? then [2 * s.value] else [])
  {
    var b := Describe(dir, idx, s);
    if s.MergeStep? {
      assert |b| == 2 && b[..1][..0] == [] && b[..1] == [b[0]];
      assert Gain(b[..1]) == 2 * s.value;
      assert Init([2 * s.value]) == [];
    } else {
      assert b[..0] == [];
    }
  }

  /** A row's records score twice the value of every merge event: the sum of the values the merges create. */
  lemma {:induction false} GainDescribed(dir: Direction, idx: int, steps: seq<RowStep>)
    ensures Gain(DescribeAll(dir, idx, steps)) == Sum(MergedValues(steps))
    decreases |steps|
  {
    if steps != [] {
      var init, s := steps[..|steps| - 1], steps[|steps| - 1];
      GainDescribed(dir, idx, init);
      GainAppend(DescribeAll(dir, idx, init), Describe(dir, idx, s));
      SumAppend(MergedValues(init), if s.MergeStep? then [2 * s.value] else []);
      GainStep(dir, idx, s);
    }
  }

  /** The records of one event raise largestNum to what its merge, if any, creates. */
  lemma LargestStep(m: int, dir: Direction, idx: int, s: RowStep)
    ensures LargestAfter(m, Describe(dir, idx, s)) == MaxOf(m, if s.MergeStep? then [2 * s.value] else [])
  {
    var b := Describe(dir, idx, s);
    if s.MergeStep? {
      assert |b| == 2 && b[..1][..0] == [] && b[..1] == [b[0]];
      assert LargestAfter(m, b[..1]) == Max(m, 2 * s.value);
      assert Init([2 * s.value]) == [];
    } else {
      assert b[..0] == [];
    }
  }

  /** A row's records raise largestNum to the largest value its merges create. */
  lemma {:induction false} LargestDescribed(m: int, dir: Direction, idx: int, steps: seq<RowStep>)
    ensures LargestAfter(m, DescribeAll(dir, idx, steps)) == MaxOf(m, MergedValues(steps))
    decreases |steps|
  {
    if steps != [] {
      var init, s := steps[..|steps| - 1], steps[|steps| - 1];
      LargestDescribed(m, dir, idx, init);
      LargestAfterAppend(m, DescribeAll(dir, idx, init), Describe(dir, idx, s));
      MaxOfAppend(m, MergedValues(init), if s.MergeStep? then [2 * s.value] else []);
      LargestStep(LargestAfter(m, DescribeAll(dir, idx, init)), dir, idx, s);
    }
  }

  lemma {:induction false} LargestAfterAppend(m: int, a: seq<MoveData>, b: seq<MoveData>)
    ensures LargestAfter(m, a + b) == LargestAfter(LargestAfter(m, a), b)
    decreases |b|
  {
    if b == [] {
      assert a + b == a;
    } else {
      assert (a + b)[..|a + b| - 1] == a + b[..|b| - 1];
      LargestAfterAppend(m, a, b[..|b| - 1]);
    }
  }

  /** largestNum never decreases. */
  lemma {:induction false} LargestAfterGrows(m: int, ds: seq<MoveData>)
    ensures LargestAfter(m, ds) >= m
    decreases |ds|
  {
    if ds != [] {
      LargestAfterGrows(m, ds[..|ds| - 1]);
    }
  }

  // ---------------------------------------------------------------------
  // The whole move as a function of the grid

  function SlideAll(h: Grid): (r: Grid)
    requires IsGrid(h)
    ensures IsGrid(r)
  {
    seq(N, k requires 0 <= k < N => Slide(h[k]))
  }

  /** The grid after moving in direction dir: transform, slide every row right, transform back. */
  function MoveGrid(dir: Direction, g: Grid): (r: Grid)
    requires IsGrid(g)
    ensures IsGrid(r)
  {
    Back(dir, SlideAll(Forward(dir, g)))
  }

  /** The grid while the rows are scanned: rows below n slid, the others still as they were. */
  function SlidePrefix(h: Grid, n: int): (r: Grid)
    requires IsGrid(h)
    ensures IsGrid(r)
  {
    seq(N, k requires 0 <= k < N => if k < n then Slide(h[k]) else h[k])
  }

  lemma SlidePrefixStart(h: Grid)
    requires IsGrid(h)
    ensures SlidePrefix(h, 0) == h
  {
  }

  lemma SlidePrefixStep(h: Grid, n: int)
    requires IsGrid(h) && 0 <= n < N
    ensures SlidePrefix(h, n + 1) == SlidePrefix(h, n)[n := Slide(h[n])]
  {
  }

  lemma SlidePrefixDone(h: Grid)
    requires IsGrid(h)
    ensures SlidePrefix(h, N) == SlideAll(h)
  {
  }

  /**
   * One more row scanned: its descriptors, appended to those of the rows
   * before it, replay the old grid into the grid with one more row slid.
   */
  lemma RowScanned(dir: Direction, g: Grid, h: Grid, row: int, added: seq<MoveData>, steps: seq<RowStep>)
    requires IsGrid(g) && IsGrid(h) && 0 <= row < N
    requires Replay(g, added) == Some(Back(dir, SlidePrefix(h, row)))
    requires ReplayRow(h[row], steps) == Some(Slide(h[row]))
    ensures Replay(g, added + DescribeAll(dir, row, steps)) == Some(Back(dir, SlidePrefix(h, row + 1)))
  {
    var hp := SlidePrefix(h, row);
    assert hp[row] == h[row];
    DescribeReplay(dir, hp, row, steps);
    SlidePrefixStep(h, row);
    ReplayAppend(g, added, DescribeAll(dir, row, steps));
  }

  /** A row that changes makes the grid differ from the unscanned one. */
  lemma SlidePrefixChanged(h: Grid, row: int)
    requires IsGrid(h) && 0 <= row < N
    ensures SlidePrefix(h, row + 1) == h <==> SlidePrefix(h, row) == h && Slide(h[row]) == h[row]
  {
    SlidePrefixStep(h, row);
    if SlidePrefix(h, row + 1) == h {
      assert SlidePrefix(h, row + 1)[row] == Slide(h[row]);
      assert SlidePrefix(h, row) == SlidePrefix(h, row + 1)[row := h[row]];
    }
  }

  // ---------------------------------------------------------------------
  // The events of a whole move

  /** The records of the rows' events, row after row, as move pushes them. */
  function DescribeRows(dir: Direction, events: seq<seq<RowStep>>): seq<MoveData>
    decreases |events|
  {
    if events == [] then []
    else DescribeRows(dir, events[..|events| - 1]) + DescribeAll(dir, |events| - 1, events[|events| - 1])
  }

  lemma DescribeRowsSnoc(dir: Direction, events: seq<seq<RowStep>>, steps: seq<RowStep>)
    ensures DescribeRows(dir, events + [steps]) == DescribeRows(dir, events) + DescribeAll(dir, |events|, steps)
  {
    assert (events + [steps])[..|events|] == events;
  }

  /** The first |events| canonical rows of h, each with the events of its scan. */
  ghost predicate RowsEvents(h: Grid, events: seq<seq<RowStep>>)
    requires IsGrid(h)
  {
    |events| <= N && forall r :: 0 <= r < |events| ==> RowEvents(h[r], events[r])
  }

  /** Every canonical row of h with the events of its scan. */
  ghost predicate GridEvents(h: Grid, events: seq<seq<RowStep>>)
    requires IsGrid(h)
  {
    |events| == N && RowsEvents(h, events)
  }

  /** The score the reference merges of the first n canonical rows of h earn. */
  function RowsGain(h: Grid, n: int): int
    requires IsGrid(h) && 0 <= n <= N
    decreases n
  {
    if n == 0 then 0 else RowsGain(h, n - 1) + Sum(Merges(NonZeros(h[n - 1])))
  }

  /** largestNum, from m, after the reference merges of the first n canonical rows of h. */
  function RowsLargest(m: int, h: Grid, n: int): int
    requires IsGrid(h) && 0 <= n <= N
    decreases n
  {
    if n == 0 then m else MaxOf(RowsLargest(m, h, n - 1), Merges(NonZeros(h[n - 1])))
  }

  /** The score a move in direction dir earns on grid g: twice the value of every pair it merges. */
  function MoveGain(dir: Direction, g: Grid): int
    requires IsGrid(g)
  {
    RowsGain(Forward(dir, g), N)
  }

  /** largestNum after a move in direction dir on grid g, from m. */
  function MoveLargest(m: int, dir: Direction, g: Grid): int
    requires IsGrid(g)
  {
    RowsLargest(m, Forward(dir, g), N)
  }

  /** Dropping the last scanned row keeps the others; the last one merges what the reference merges. */
  lemma RowsEventsInit(h: Grid, events: seq<seq<RowStep>>)
    requires IsGrid(h) && RowsEvents(h, events) && events != []
    ensures RowsEvents(h, events[..|events| - 1])
    ensures MergedValues(events[|events| - 1]) == Merges(NonZeros(h[|events| - 1]))
  {
    var n := |events| - 1;
    forall r | 0 <= r < n
      ensures RowEvents(h[r], events[..n][r])
    {
      assert events[..n][r] == events[r];
    }
    assert RowEvents(h[n], events[n]);
  }

  /**
   * The records of the scanned rows score the rows' reference merges: the
   * score depends on the grid alone.
   */
  lemma {:induction false} EventsGain(dir: Direction, h: Grid, events: seq<seq<RowStep>>)
    requires IsGrid(h) && RowsEvents(h, events)
    ensures Gain(DescribeRows(dir, events)) == RowsGain(h, |events|)
    decreases |events|
  {
    if events != [] {
      var n := |events| - 1;
      var init, steps := events[..n], events[n];
      RowsEventsInit(h, events);
      EventsGain(dir, h, init);
      GainAppend(DescribeRows(dir, init), DescribeAll(dir, n, steps));
      GainDescribed(dir, n, steps);
    }
  }

  /**
   * The records of the scanned rows raise largestNum to the largest value
   * the rows' reference merges create: it depends on the grid alone.
   */
  lemma {:induction false} EventsLargest(m: int, dir: Direction, h: Grid, events: seq<seq<RowStep>>)
    requires IsGrid(h) && RowsEvents(h, events)
    ensures LargestAfter(m, DescribeRows(dir, events)) == RowsLargest(m, h, |events|)
    decreases |events|
  {
    if events != [] {
      var n := |events| - 1;
      var init, steps := events[..n], events[n];
      RowsEventsInit(h, events);
      EventsLargest(m, dir, h, init);
      LargestAfterAppend(m, DescribeRows(dir, init), DescribeAll(dir, n, steps));
      LargestDescribed(LargestAfter(m, DescribeRows(dir, init)), dir, n, steps);
    }
  }

  /** The row 2, 2, 0, 0 merges its one pair into a 4. */
  lemma PairRowMerges()
    ensures Merges(NonZeros([2, 2, 0, 0])) == [4]
  {
    assert [2, 2, 0, 0] == [2, 2] + [0, 0];
    NonZerosAppend([2, 2], [0, 0]);
    NonZerosOfFull([2, 2]);
    NonZerosOfZeros([0, 0]);
    assert [2, 2][..0] == [];
  }

  /**
   * A single pair: with 2, 2, 0, 0 as the first row of an otherwise empty
   * grid, a move right earns 4 points and makes 4 the largest merged value.
   */
  lemma PairMoveGain()
    ensures var z := [0, 0, 0, 0];
      var g := [[2, 2, 0, 0], z, z, z];
      IsGrid(g) && MoveGain(Right, g) == 4 && MoveLargest(0, Right, g) == 4
  {
    var z := [0, 0, 0, 0];
    var g := [[2, 2, 0, 0], z, z, z];
    PairRowMerges();
    NonZerosOfZeros(z);
    assert MaxOf(0, [4]) == 4;
    assert RowsGain(g, 1) == 4 && RowsLargest(0, g, 1) == 4;
  }
}

/**
 * The loop invariants of the in-place row scan of Board.getAfterMoveData,
 * stated on sequence values, and the step lemmas that carry them from one
 * probe and one anchor to the next.
 */
module RowScan {
  import opened Config
  import opened Grids
  import opened Options
  import opened RowSlide
  import opened Moves

  /**
   * The coordinates the scan writes into a record, chosen by direction as
   * in the source's if-chains: canonical cell `from` of row idx is the
   * source cell and `to` the destination.
   */
  function Record(direction: Direction, idx: int, from: int, to: int, prevValue: int, nextValue: int, isCollapsed: bool): (d: MoveData)
    ensures d.Prev() == Pos(direction, idx, from) && d.Next() == Pos(direction, idx, to)
    ensures d.prevValue == prevValue && d.nextValue == nextValue
    ensures d.isCollapsed == isCollapsed && d.direction == direction
  {
    match direction
    case Up => MoveData(N - 1 - from, idx, N - 1 - to, idx, prevValue, nextValue, isCollapsed, direction)
    case Down => MoveData(from, idx, to, idx, prevValue, nextValue, isCollapsed, direction)
    case Left => MoveData(idx, N - 1 - from, idx, N - 1 - to, prevValue, nextValue, isCollapsed, direction)
    case Right => MoveData(idx, from, idx, to, prevValue, nextValue, isCollapsed, direction)
  }

  /**
   * While anchor i is probed and the probe has come down to j: the cells
   * below j and above i are untouched, the cells from j up to i are empty,
   * and the anchor holds the one value, if any, that moved into it.
   */
  ghost predicate ProbeInv(a: seq<int>, b: seq<int>, i: int, j: int) {
    && 0 <= j <= i < |a| == |b|
    && b[..j] == a[..j] && b[i + 1..] == a[i + 1..]
    && (forall k :: j <= k < i ==> b[k] == 0)
    && NonZeros(a[..i + 1]) == NonZeros(a[..j]) + NonZeros([b[i]])
  }

  /**
   * The events so far replay `row` into `b`, in scan order, all at anchors
   * i or above; while anchor i is open no merge has happened at it.
   */
  ghost predicate Emitted(row: seq<int>, b: seq<int>, steps: seq<RowStep>, i: int, open: bool) {
    && ReplayRow(row, steps) == Some(b)
    && ScanOrder(steps)
    && (forall k :: 0 <= k < |steps| ==> steps[k].to >= i)
    && (open ==> forall k :: 0 <= k < |steps| && steps[k].MergeStep? ==> steps[k].to > i)
  }

  /**
   * The merges made so far, followed by the reference merges of the
   * unscanned prefix b[..i], are the reference merges of the whole row.
   */
  ghost predicate MergesDue(row: seq<int>, b: seq<int>, steps: seq<RowStep>, i: int)
    requires 0 <= i <= |b|
  {
    Merges(NonZeros(row)) == MergedValues(steps) + Merges(NonZeros(b[..i]))
  }

  /** Anchor i is final: what lies below it slides into the rest. */
  ghost predicate AnchorClosed(a: seq<int>, b: seq<int>, i: int)
    requires 0 <= i < |a| == |b|
  {
    Slide(a[..i + 1]) == Slide(b[..i]) + [b[i]] && b[i + 1..] == a[i + 1..]
  }

  /** Between anchors: the events replay the row into b and account for its merges. */
  ghost predicate Scanned(row: seq<int>, b: seq<int>, steps: seq<RowStep>, i: int)
    requires 0 <= i <= |b|
  {
    Emitted(row, b, steps, i, false) && MergesDue(row, b, steps, i)
  }

  /** While anchor i is open and the probe has come down to j; `a` is the row when the anchor opened. */
  ghost predicate Probing(row: seq<int>, a: seq<int>, b: seq<int>, steps: seq<RowStep>, i: int, j: int) {
    ProbeInv(a, b, i, j) && Emitted(row, b, steps, i, true) && MergesDue(row, a, steps, i + 1)
  }

  /** Anchor i is final, and the scan is between anchors again. */
  ghost predicate AnchorDone(row: seq<int>, a: seq<int>, b: seq<int>, steps: seq<RowStep>, i: int) {
    0 <= i < |a| == |b| && AnchorClosed(a, b, i) && Scanned(row, b, steps, i)
  }

  lemma OpenAnchor(row: seq<int>, a: seq<int>, steps: seq<RowStep>, i: int)
    requires 0 <= i < |a| && Scanned(row, a, steps, i + 1)
    ensures Probing(row, a, a, steps, i, i)
  {
    NonZerosStep(a, i);
    assert a[..i + 1][..i] == a[..i];
  }

  lemma SkipProbe(row: seq<int>, a: seq<int>, b: seq<int>, steps: seq<RowStep>, i: int, j: int)
    requires 0 <= j && Probing(row, a, b, steps, i, j + 1) && b[j] == 0
    ensures Probing(row, a, b, steps, i, j)
  {
    assert b[..j] == b[..j + 1][..j] && a[..j] == a[..j + 1][..j];
    assert a[j] == b[..j + 1][j];
    NonZerosStep(a, j);
    assert NonZeros([a[j]]) == [];
  }

  /** The probe's value moves into the empty anchor. */
  lemma SlideProbe(row: seq<int>, a: seq<int>, b: seq<int>, c: seq<int>, steps: seq<RowStep>, i: int, j: int)
    requires 0 <= j && Probing(row, a, b, steps, i, j + 1)
    requires b[j] != 0 && b[i] == 0
    requires |c| == |b| && c[j] == 0 && c[i] == b[j] && forall k :: 0 <= k < |b| && k != i && k != j ==> c[k] == b[k]
    ensures Probing(row, a, c, steps + [SlideStep(j, i, b[j])], i, j)
  {
    assert c == b[j := 0][i := b[j]];
    SlideProbeInv(a, b, c, i, j);
    SlideProbeEmitted(row, b, c, steps, i, j);
    SlideMergesDue(row, a, steps, i, SlideStep(j, i, b[j]));
  }

  /** A slide event makes no merge. */
  lemma SlideMergesDue(row: seq<int>, a: seq<int>, steps: seq<RowStep>, i: int, s: RowStep)
    requires 0 <= i < |a| && MergesDue(row, a, steps, i + 1) && s.SlideStep?
    ensures MergesDue(row, a, steps + [s], i + 1)
  {
    MergedValuesSnoc(steps, s);
  }

  lemma SlideProbeInv(a: seq<int>, b: seq<int>, c: seq<int>, i: int, j: int)
    requires 0 <= j && ProbeInv(a, b, i, j + 1)
    requires b[j] != 0 && b[i] == 0 && c == b[j := 0][i := b[j]]
    ensures ProbeInv(a, c, i, j)
  {
    assert b[..j] == b[..j + 1][..j] && a[..j] == a[..j + 1][..j];
    assert c[..j] == b[..j] && c[i + 1..] == b[i + 1..];
    assert a[j] == b[..j + 1][j];
    NonZerosStep(a, j);
    assert NonZeros([0]) == [];
  }

  lemma SlideProbeEmitted(row: seq<int>, b: seq<int>, c: seq<int>, steps: seq<RowStep>, i: int, j: int)
    requires 0 <= j < i < |b| && Emitted(row, b, steps, i, true)
    requires forall k :: j < k < i ==> b[k] == 0
    requires b[j] != 0 && b[i] == 0 && c == b[j := 0][i := b[j]]
    ensures Emitted(row, c, steps + [SlideStep(j, i, b[j])], i, true)
  {
    var s := SlideStep(j, i, b[j]);
    assert StepRow(b, s) == Some(c);
    ReplayRowSnoc(row, steps, s);
  }

  /** The probe's value equals the anchor's: one merge, and the anchor is final. */
  lemma MergeProbe(row: seq<int>, a: seq<int>, b: seq<int>, c: seq<int>, steps: seq<RowStep>, i: int, j: int)
    requires 0 <= j && Probing(row, a, b, steps, i, j + 1)
    requires b[j] != 0 && b[j] == b[i]
    requires |c| == |b| && c[j] == 0 && c[i] == 2 * b[i] && forall k :: 0 <= k < |b| && k != i && k != j ==> c[k] == b[k]
    ensures AnchorDone(row, a, c, steps + [MergeStep(j, i, b[i])], i)
  {
    assert c == b[j := 0][i := 2 * b[i]];
    MergeProbeClosed(a, b, c, i, j);
    MergeProbeEmitted(row, b, c, steps, i, j);
    MergeMergesDue(row, a, c, steps, i, MergeStep(j, i, b[i]));
  }

  /** A merge event makes the doubled value the reference merge makes next. */
  lemma MergeMergesDue(row: seq<int>, a: seq<int>, c: seq<int>, steps: seq<RowStep>, i: int, s: RowStep)
    requires 0 <= i < |a| == |c| && MergesDue(row, a, steps, i + 1) && s.MergeStep?
    requires Merges(NonZeros(a[..i + 1])) == [2 * s.value] + Merges(NonZeros(c[..i]))
    ensures MergesDue(row, c, steps + [s], i)
  {
    MergedValuesSnoc(steps, s);
  }

  lemma MergeProbeClosed(a: seq<int>, b: seq<int>, c: seq<int>, i: int, j: int)
    requires 0 <= j && ProbeInv(a, b, i, j + 1)
    requires b[j] != 0 && b[j] == b[i] && c == b[j := 0][i := 2 * b[i]]
    ensures AnchorClosed(a, c, i)
    ensures Merges(NonZeros(a[..i + 1])) == [2 * b[i]] + Merges(NonZeros(c[..i]))
  {
    assert b[..j] == b[..j + 1][..j] && a[..j] == a[..j + 1][..j];
    assert a[j] == b[..j + 1][j];
    assert c[..j] == a[..j];
    CloseMerged(a, c, j, i, b[i]);
    assert c[i + 1..] == b[i + 1..];
  }

  lemma MergeProbeEmitted(row: seq<int>, b: seq<int>, c: seq<int>, steps: seq<RowStep>, i: int, j: int)
    requires 0 <= j < i < |b| && Emitted(row, b, steps, i, true)
    requires forall k :: j < k < i ==> b[k] == 0
    requires b[j] != 0 && b[j] == b[i] && c == b[j := 0][i := 2 * b[i]]
    ensures Emitted(row, c, steps + [MergeStep(j, i, b[i])], i, false)
  {
    var s := MergeStep(j, i, b[i]);
    assert StepRow(b, s) == Some(c);
    ReplayRowSnoc(row, steps, s);
  }

  /** The probe holds a different value and the anchor is full: the anchor is final. */
  lemma BlockedProbe(row: seq<int>, a: seq<int>, b: seq<int>, steps: seq<RowStep>, i: int, j: int)
    requires 0 <= j && Probing(row, a, b, steps, i, j + 1)
    requires b[j] != 0 && b[i] != 0 && b[j] != b[i]
    ensures AnchorDone(row, a, b, steps, i)
  {
    CloseBlocked(a, b, j, i);
  }

  /** No probe is left: the anchor is final. */
  lemma ExhaustedProbe(row: seq<int>, a: seq<int>, b: seq<int>, steps: seq<RowStep>, i: int)
    requires Probing(row, a, b, steps, i, 0)
    ensures AnchorDone(row, a, b, steps, i)
  {
    CloseExhausted(a, b, i);
  }

  /** A final anchor extends the finished high end of the row by one cell. */
  lemma NextAnchor(row: seq<int>, a: seq<int>, b: seq<int>, i: int)
    requires 0 <= i < |a| == |b|
    requires Slide(row) == Slide(a[..i + 1]) + a[i + 1..]
    requires AnchorClosed(a, b, i)
    ensures Slide(row) == Slide(b[..i]) + b[i..]
  {
    assert b[i..] == [b[i]] + b[i + 1..];
  }

  lemma ScanStart(row: seq<int>)
    ensures Slide(row) == Slide(row[..|row|]) + row[|row|..]
    ensures Scanned(row, row, [], |row|)
  {
    assert row[..|row|] == row && row[|row|..] == [];
  }

  lemma ScanDone(row: seq<int>, b: seq<int>)
    requires |b| >= 1
    requires Slide(row) == Slide(b[..1]) + b[1..]
    ensures b == Slide(row)
  {
    SlideSingle(b[..1]);
    assert b[..1] + b[1..] == b;
  }

  /** With the whole row scanned, the merges made are the reference merges of the row. */
  lemma ScanMerged(row: seq<int>, b: seq<int>, steps: seq<RowStep>)
    requires MergesDue(row, b, steps, 0)
    ensures MergedValues(steps) == Merges(NonZeros(row))
  {
    assert b[..0] == [];
    assert MergedValues(steps) + [] == MergedValues(steps);
  }

  /** The descriptors and largestNum follow the events emitted so far. */
  ghost predicate Tracked(direction: Direction, idx: int, largest: int, steps: seq<RowStep>, moveData: seq<MoveData>, largestNum: int) {
    moveData == DescribeAll(direction, idx, steps) && largestNum == LargestAfter(largest, moveData)
  }

  /** The two records a merge pushes describe its event; largestNum takes the doubled value. */
  lemma TrackMerge(direction: Direction, idx: int, largest: int, steps: seq<RowStep>, ms: seq<MoveData>, m: int, j: int, i: int, v: int)
    requires Tracked(direction, idx, largest, steps, ms, m)
    ensures var d0, d1 := Record(direction, idx, i, i, 2 * v / 2, 2 * v / 2, true), Record(direction, idx, j, i, 2 * v / 2, 2 * v, false);
      Tracked(direction, idx, largest, steps + [MergeStep(j, i, v)], ms + [d0] + [d1], Max(m, 2 * v))
  {
    var d0, d1 := Record(direction, idx, i, i, 2 * v / 2, 2 * v / 2, true), Record(direction, idx, j, i, 2 * v / 2, 2 * v, false);
    assert 2 * v / 2 == v;
    assert [d0, d1] == Describe(direction, idx, MergeStep(j, i, v));
    DescribeAllSnoc(direction, idx, steps, MergeStep(j, i, v));
    assert ms + [d0] + [d1] == ms + [d0, d1];
    assert (ms + [d0] + [d1])[..|ms| + 1] == ms + [d0];
    assert (ms + [d0])[..|ms|] == ms;
  }

  /** The record a slide pushes describes its event; largestNum stays. */
  lemma TrackSlide(direction: Direction, idx: int, largest: int, steps: seq<RowStep>, ms: seq<MoveData>, m: int, j: int, i: int, v: int)
    requires Tracked(direction, idx, largest, steps, ms, m)
    ensures Tracked(direction, idx, largest, steps + [SlideStep(j, i, v)], ms + [Record(direction, idx, j, i, v, v, false)], m)
  {
    var d := Record(direction, idx, j, i, v, v, false);
    assert [d] == Describe(direction, idx, SlideStep(j, i, v));
    DescribeAllSnoc(direction, idx, steps, SlideStep(j, i, v));
    assert (ms + [d])[..|ms|] == ms;
  }

  /** Pushing the records of row |events| onto blockMoveData gives the records of all rows scanned so far. */
  lemma RowRecordsPushed(dir: Direction, before: seq<MoveData>, events: seq<seq<RowStep>>, steps: seq<RowStep>)
    ensures before + DescribeRows(dir, events) + DescribeAll(dir, |events|, steps) == before + DescribeRows(dir, events + [steps])
  {
    DescribeRowsSnoc(dir, events, steps);
  }

  /**
   * Move's row loop after `row` rows: the descriptors are those of the
   * scanned rows' events, they replay the old grid into the aligned grid
   * with those rows slid, there are none exactly when nothing has moved
   * yet, all carry the move's direction, and largestNum has taken every
   * merged value.
   */
  ghost predicate RowsScanned(dir: Direction, g0: Grid, h0: Grid, row: int, events: seq<seq<RowStep>>,
                              added: seq<MoveData>, largest: int, m: int)
    requires IsGrid(g0) && IsGrid(h0) && 0 <= row <= N
  {
    && |events| == row && RowsEvents(h0, events) && added == DescribeRows(dir, events)
    && Replay(g0, added) == Some(Back(dir, SlidePrefix(h0, row)))
    && (added == [] <==> SlidePrefix(h0, row) == h0)
    && (forall d :: d in added ==> d.direction == dir)
    && m == LargestAfter(largest, added)
  }

  /** Move's row loop carried from `row` to `row + 1` once getAfterMoveData has slid that row. */
  lemma RowPushed(dir: Direction, g0: Grid, h0: Grid, row: int, events: seq<seq<RowStep>>, added: seq<MoveData>,
                  steps: seq<RowStep>, moveData: seq<MoveData>, largest: int, m0: int, m1: int)
    requires IsGrid(g0) && IsGrid(h0) && 0 <= row < N
    requires RowsScanned(dir, g0, h0, row, events, added, largest, m0)
    requires RowEvents(h0[row], steps) && moveData == DescribeAll(dir, row, steps)
    requires moveData == [] <==> Slide(h0[row]) == h0[row]
    requires m1 == LargestAfter(m0, moveData)
    ensures RowsScanned(dir, g0, h0, row + 1, events + [steps], added + moveData, largest, m1)
  {
    DescribeRowsSnoc(dir, events, steps);
    assert RowsEvents(h0, events + [steps]) by {
      forall r | 0 <= r < row + 1
        ensures RowEvents(h0[r], (events + [steps])[r])
      {
        if r < row {
          assert (events + [steps])[r] == events[r];
        }
      }
    }
    RowScanned(dir, g0, h0, row, added, steps);
    SlidePrefixChanged(h0, row);
    DescribeAllDirection(dir, row, steps);
    LargestAfterAppend(largest, added, moveData);
  }
}

/**
 * The board of js/Board.js: the grid state, the list of empty cells, the
 * move descriptors of the current turn, score, high score, turn counter,
 * the largest merged value and the cleared flag. A move transforms the grid
 * so that it always slides "right", scans every row in place, and transforms
 * back; the turn then updates score and empty cells and spawns a block.
 *
 * The event callbacks (onBlockUpdate, onScoreUpdate, ...) only notify the
 * view and are not modelled; the methods return or expose what the
 * callbacks would receive. localStorage is replaced by a high-score
 * parameter, and Math.random by real parameters in [0, 1).
 */
module Boards {
  import opened Config
  import opened Grids
  import opened Options
  import opened Utils
  import opened RowSlide
  import opened Moves
  import opened Blocks
  import opened RowScan
  import opened Turns

  /** The observable values of a board at one moment. */
  datatype Snapshot = Snapshot(grid: Grid, empty: seq<Coord>, largest: int, score: int,
                               highScore: int, turn: int, cleared: bool)

  /**
   * What one arrow key does to the board, from s0 to s1: prevState holds
   * the grid before the move (prev); the descriptors are those of the
   * rows' scan events, replay that grid into the moved grid, and there are
   * none exactly when the move changes nothing. A move that changes nothing
   * leaves the board as it was. Any other move scores its merges, advances
   * the turn, sets cleared when the winning tile appears, spawns a block on
   * the entry of emptyPos that rIndex picks, and reports game over.
   */
  ghost predicate TurnPlayed(dir: Direction, s0: Snapshot, prev: Grid, s1: Snapshot, rValue: real, rIndex: real,
                             moved: seq<MoveData>, events: seq<seq<RowStep>>, spawned: Coord, gameOver: bool)
    requires IsGrid(s0.grid) && 0.0 <= rValue < 1.0 && 0.0 <= rIndex < 1.0
  {
    && MoveMade(dir, s0.grid, s0.largest, moved, events, prev, s1.largest)
    && TurnEnded(dir, s0, s1, rValue, rIndex, moved, spawned, gameOver)
  }

  /**
   * The move part of a turn: the copy holds g0, the descriptors are those
   * of the events of every canonical row, and they replay the move.
   */
  ghost predicate MoveMade(dir: Direction, g0: Grid, largest0: int, moved: seq<MoveData>, events: seq<seq<RowStep>>,
                           prev: Grid, largest: int)
    requires IsGrid(g0)
  {
    var g1 := MoveGrid(dir, g0);
    && prev == g0
    && GridEvents(Forward(dir, g0), events) && moved == DescribeRows(dir, events)
    && Replay(g0, moved) == Some(g1)
    && (moved == [] <==> g1 == g0)
    && (forall d :: d in moved ==> d.direction == dir)
    && largest == LargestAfter(largest0, moved)
  }

  /** The row loop's facts about the aligned board, read back in the grid's own orientation. */
  lemma MoveRecorded(dir: Direction, g0: Grid, h1: Grid, largest0: int, moved: seq<MoveData>,
                     events: seq<seq<RowStep>>, largest: int)
    requires IsGrid(g0) && IsGrid(h1) && h1 == SlideAll(Forward(dir, g0))
    requires GridEvents(Forward(dir, g0), events) && moved == DescribeRows(dir, events)
    requires Replay(g0, moved) == Some(Back(dir, h1))
    requires moved == [] <==> h1 == Forward(dir, g0)
    requires forall d :: d in moved ==> d.direction == dir
    requires largest == LargestAfter(largest0, moved)
    ensures MoveMade(dir, g0, largest0, moved, events, g0, largest)
  {
    RoundTrip(dir, g0);
    if Back(dir, h1) == g0 {
      RoundTripBack(dir, h1);
    }
  }

  /** The rest of a turn: nothing after a move that changed nothing, else update, spawn and game over. */
  ghost predicate TurnEnded(dir: Direction, s0: Snapshot, s1: Snapshot, rValue: real, rIndex: real,
                            moved: seq<MoveData>, spawned: Coord, gameOver: bool)
    requires IsGrid(s0.grid) && 0.0 <= rValue < 1.0 && 0.0 <= rIndex < 1.0
  {
    && (moved == [] ==> s1 == s0 && !gameOver)
    && (moved != [] ==>
          && Scored(s0, s1, moved)
          && Spawned(MoveGrid(dir, s0.grid), EmptyAfterAll(s0.empty, moved), s1, rValue, rIndex, spawned, gameOver))
  }

  /** update() and the clear test: the merges score, the turn advances, cleared follows the winning tile. */
  ghost predicate Scored(s0: Snapshot, s1: Snapshot, moved: seq<MoveData>) {
    && s1.score == s0.score + Gain(moved)
    && s1.highScore == (if Gain(moved) > 0 then Max(s0.highScore, s1.score) else s0.highScore)
    && s1.turn == s0.turn + 1
    && s1.cleared == (s1.largest == WIN_VALUE)
  }

  /**
   * createBlock() and the game-over test on the moved grid g1 with the
   * list e1 that update left: the block takes the entry rIndex picks, that
   * entry leaves the list (the others keep their order), and the cell it
   * names, empty before, receives a 2 or a 4.
   */
  ghost predicate Spawned(g1: Grid, e1: seq<Coord>, s1: Snapshot, rValue: real, rIndex: real, spawned: Coord, gameOver: bool)
    requires IsGrid(g1) && 0.0 <= rValue < 1.0 && 0.0 <= rIndex < 1.0
  {
    && |e1| > 0
    && (var k := PickIndex(rIndex, |e1|); spawned == e1[k] && s1.empty == e1[..k] + e1[k + 1..])
    && InGrid(spawned) && Cell(g1, spawned) == 0
    && s1.grid == SetCell(g1, spawned, BlockValue(None, rValue))
    && gameOver == (|s1.empty| == 0 && Locked(s1.grid))
  }

  /**
   * A turn's score, high score, largest merged value, cleared flag and turn
   * counter depend on the grid before the move alone: the score rises by
   * the reference merges' values, largestNum takes the largest of them, and
   * a move that changes nothing changes nothing.
   */
  lemma TurnScored(dir: Direction, s0: Snapshot, prev: Grid, s1: Snapshot, rValue: real, rIndex: real,
                   moved: seq<MoveData>, events: seq<seq<RowStep>>, spawned: Coord, gameOver: bool)
    requires IsGrid(s0.grid) && 0.0 <= rValue < 1.0 && 0.0 <= rIndex < 1.0
    requires TurnPlayed(dir, s0, prev, s1, rValue, rIndex, moved, events, spawned, gameOver)
    ensures s1.largest == MoveLargest(s0.largest, dir, s0.grid)
    ensures s1.score == s0.score + MoveGain(dir, s0.grid)
    ensures s1.highScore == if MoveGain(dir, s0.grid) > 0 then Max(s0.highScore, s1.score) else s0.highScore
    ensures MoveGrid(dir, s0.grid) == s0.grid ==> s1 == s0 && !gameOver
    ensures MoveGrid(dir, s0.grid) != s0.grid ==> s1.turn == s0.turn + 1 && s1.cleared == (s1.largest == WIN_VALUE)
  {
    EventsGain(dir, Forward(dir, s0.grid), events);
    EventsLargest(s0.largest, dir, Forward(dir, s0.grid), events);
  }

  class Board {
    var state: seq<array<int>>
    var prevState: seq<array<int>>
    const emptyPos: PositionList
    var blockMoveData: seq<MoveData>
    var score: int
    var highScore: int
    var turn: int
    var largestNum: int
    var cleared: bool

    ghost function Grid(): (g: Grid)
      requires IsBoard(state)
      reads this`state, state
      ensures IsGrid(g)
    {
      Contents(state)
    }

    /**
     * Between turns: N distinct rows of tiles, emptyPos lists exactly the
     * empty cells, and no descriptor is pending.
     */
    ghost predicate Valid()
      reads this, state, emptyPos
    {
      && IsBoard(state) && DistinctRows(state)
      && AllTiles(Grid())
      && EmptyMirrors(emptyPos.items, Grid())
      && blockMoveData == []
    }

    /**
     * A fresh board: score 0, turn 1, nothing merged yet, not cleared, and
     * the stored high score; initialize() then lays out an empty grid.
     */
    constructor (storedHighScore: int)
      ensures IsBoard(state) && DistinctRows(state) && Grid() == EmptyGrid()
      ensures emptyPos.items == AllCoords() && EmptyMirrors(emptyPos.items, Grid())
      ensures prevState == [] && blockMoveData == []
      ensures score == 0 && turn == 1 && largestNum == 0 && !cleared && highScore == storedHighScore
      ensures Valid()
    {
      state := [];
      prevState := [];
      emptyPos := new PositionList();
      blockMoveData := [];
      score := 0;
      turn := 1;
      largestNum := 0;
      cleared := false;
      highScore := storedHighScore;
      new;
      Initialize();
      EmptyGridMirrors();
    }

    /** Pushes N rows of N zeros and lists every cell, row by row, as empty. */
    method Initialize()
      requires state == [] && emptyPos.items == []
      modifies this`state, emptyPos
      ensures IsBoard(state) && DistinctRows(state) && Grid() == EmptyGrid()
      ensures forall k :: 0 <= k < N ==> fresh(state[k])
      ensures emptyPos.items == AllCoords()
    {
      for row := 0 to N
        invariant |state| == row && DistinctRows(state)
        invariant forall k :: 0 <= k < row ==> fresh(state[k]) && state[k].Length == N && state[k][..] == Zeros(N)
        invariant emptyPos.items == AllCoords()[..row * N]
      {
        var line := new int[N];
        state := state + [line];
        for col := 0 to N
          modifies line, emptyPos
          invariant forall k :: 0 <= k < col ==> line[k] == 0
          invariant forall k :: 0 <= k < row ==> state[k][..] == Zeros(N)
          invariant emptyPos.items == AllCoords()[..row * N + col]
        {
          line[col] := 0;
          emptyPos.Push(Coord(row, col));
          assert AllCoords()[row * N + col] == Coord(row, col);
          assert AllCoords()[..row * N + col + 1] == AllCoords()[..row * N + col] + [Coord(row, col)];
        }
        assert line[..] == Zeros(N);
      }
      assert AllCoords()[..N * N] == AllCoords();
      GridExt(Grid(), EmptyGrid());
    }

    /**
     * Scans canonical row `idx` (held by `arr`) from the high end, one anchor
     * i at a time. The row ends up slid, the returned descriptors replay the
     * scan's events on the grid, and largestNum absorbs every merged value.
     */
    method GetAfterMoveData(arr: array<int>, idx: int, direction: Direction) returns (moveData: seq<MoveData>, ghost steps: seq<RowStep>)
      requires arr.Length == N && 0 <= idx < N
      modifies arr, this`largestNum
      ensures arr[..] == Slide(old(arr[..]))
      ensures ReplayRow(old(arr[..]), steps) == Some(arr[..]) && ScanOrder(steps)
      ensures RowEvents(old(arr[..]), steps)
      ensures moveData == DescribeAll(direction, idx, steps)
      ensures EventShaped(moveData) && CollapsedOnce(moveData)
      ensures moveData == [] <==> arr[..] == old(arr[..])
      ensures largestNum == LargestAfter(old(largestNum), moveData)
    {
      ghost var row := arr[..];
      ghost var largest := largestNum;
      moveData := [];
      steps := [];
      ScanStart(row);
      for i := arr.Length downto 1
        invariant Slide(row) == Slide(arr[..][..i]) + arr[..][i..]
        invariant Scanned(row, arr[..], steps, i)
        invariant Tracked(direction, idx, largest, steps, moveData, largestNum)
      {
        ghost var a := arr[..];
        moveData, steps := ProbeAnchor(arr, idx, direction, i, row, largest, moveData, steps);
        NextAnchor(row, a, arr[..], i);
      }
      ScanDone(row, arr[..]);
      ScanMerged(row, arr[..], steps);
      DescribeAllShaped(direction, idx, steps);
      CollapsedDistinct(direction, idx, steps);
      DescribeAllEmpty(direction, idx, steps);
      if steps != [] {
        ReplayRowChanges(row, steps);
      }
    }

    /**
     * The inner loop of getAfterMoveData for anchor i: probes j below it skip
     * zeros, merge once into an equal anchor (and stop), slide into an empty
     * anchor, or stop at a different value. Records are pushed onto the
     * descriptors of the row so far.
     */
    method ProbeAnchor(arr: array<int>, idx: int, direction: Direction, i: int, ghost row: seq<int>, ghost largest: int,
                       moveData0: seq<MoveData>, ghost steps0: seq<RowStep>)
      returns (moveData: seq<MoveData>, ghost steps: seq<RowStep>)
      requires arr.Length == N && 0 <= idx < N && 0 <= i < N
      requires Scanned(row, arr[..], steps0, i + 1)
      requires Tracked(direction, idx, largest, steps0, moveData0, largestNum)
      modifies arr, this`largestNum
      ensures AnchorDone(row, old(arr[..]), arr[..], steps, i)
      ensures Tracked(direction, idx, largest, steps, moveData, largestNum)
    {
      ghost var a := arr[..];
      ghost var closed := false;
      moveData, steps := moveData0, steps0;
      OpenAnchor(row, a, steps, i);
      for j := i downto 0
        invariant Probing(row, a, arr[..], steps, i, j)
        invariant Tracked(direction, idx, largest, steps, moveData, largestNum)
        invariant !closed
      {
        if arr[j] == 0 {
          SkipProbe(row, a, arr[..], steps, i, j);
          continue;
        } else if arr[j] == arr[i] {
          moveData, steps := MergeInto(arr, idx, direction, i, j, row, a, largest, moveData, steps);
          closed := true;
          break;
        } else {
          if arr[i] == 0 {
            moveData, steps := SlideInto(arr, idx, direction, i, j, row, a, largest, moveData, steps);
          } else {
            BlockedProbe(row, a, arr[..], steps, i, j);
            closed := true;
            break;
          }
        }
      }
      if !closed {
        ExhaustedProbe(row, a, arr[..], steps, i);
      }
    }

    /**
     * The merge branch of the probe loop: the probe's value joins the equal
     * anchor, which doubles, and the two records of the merge are pushed.
     */
    method MergeInto(arr: array<int>, idx: int, direction: Direction, i: int, j: int, ghost row: seq<int>, ghost a: seq<int>,
                     ghost largest: int, moveData0: seq<MoveData>, ghost steps0: seq<RowStep>)
      returns (moveData: seq<MoveData>, ghost steps: seq<RowStep>)
      requires arr.Length == N && 0 <= idx < N && 0 <= j < i < N
      requires Probing(row, a, arr[..], steps0, i, j + 1) && arr[j] != 0 && arr[j] == arr[i]
      requires Tracked(direction, idx, largest, steps0, moveData0, largestNum)
      modifies arr, this`largestNum
      ensures AnchorDone(row, a, arr[..], steps, i)
      ensures Tracked(direction, idx, largest, steps, moveData, largestNum)
    {
      ghost var b, v, m := arr[..], arr[i], largestNum;
      arr[j] := 0;
      arr[i] := arr[i] * 2;
      var removedData := Record(direction, idx, i, i, arr[i] / 2, arr[i] / 2, true);
      var newData := Record(direction, idx, j, i, arr[i] / 2, arr[i], false);
      moveData := moveData0 + [removedData];
      moveData := moveData + [newData];
      largestNum := Max(largestNum, arr[i]);
      MergeProbe(row, a, b, arr[..], steps0, i, j);
      TrackMerge(direction, idx, largest, steps0, moveData0, m, j, i, v);
      steps := steps0 + [MergeStep(j, i, v)];
    }

    /**
     * The slide branch of the probe loop: the probe's value moves into the
     * empty anchor and one record is pushed.
     */
    method SlideInto(arr: array<int>, idx: int, direction: Direction, i: int, j: int, ghost row: seq<int>, ghost a: seq<int>,
                     ghost largest: int, moveData0: seq<MoveData>, ghost steps0: seq<RowStep>)
      returns (moveData: seq<MoveData>, ghost steps: seq<RowStep>)
      requires arr.Length == N && 0 <= idx < N && 0 <= j < i < N
      requires Probing(row, a, arr[..], steps0, i, j + 1) && arr[j] != 0 && arr[i] == 0
      requires Tracked(direction, idx, largest, steps0, moveData0, largestNum)
      modifies arr
      ensures Probing(row, a, arr[..], steps, i, j)
      ensures Tracked(direction, idx, largest, steps, moveData, largestNum)
    {
      ghost var b := arr[..];
      var temp := arr[j];
      arr[j] := arr[i];
      arr[i] := temp;
      var newData := Record(direction, idx, j, i, arr[i], arr[i], false);
      moveData := moveData0 + [newData];
      SlideProbe(row, a, b, arr[..], steps0, i, j);
      TrackSlide(direction, idx, largest, steps0, moveData0, largestNum, j, i, temp);
      steps := steps0 + [SlideStep(j, i, temp)];
    }

    /**
     * Transforms the grid so that the move slides right, scans every row,
     * and transforms back. The descriptors pushed onto blockMoveData are
     * those of the rows' scan events (`events`, one list per canonical row)
     * and replay the old grid into the new one; none is pushed exactly when
     * nothing moved.
     */
    method Move(dir: Direction) returns (ghost events: seq<seq<RowStep>>)
      requires IsBoard(state) && DistinctRows(state)
      modifies this`state, this`blockMoveData, this`largestNum, state
      ensures IsBoard(state) && DistinctRows(state)
      ensures forall k :: 0 <= k < N ==> state[k] in old(state) || fresh(state[k])
      ensures Grid() == MoveGrid(dir, old(Grid()))
      ensures |blockMoveData| >= |old(blockMoveData)| && blockMoveData[..|old(blockMoveData)|] == old(blockMoveData)
      ensures MoveMade(dir, old(Grid()), old(largestNum), blockMoveData[|old(blockMoveData)|..], events,
                       old(Grid()), largestNum)
    {
      ghost var g0, before := Grid(), blockMoveData;
      var currBoard := Align(dir);
      RoundTrip(dir, g0);
      ghost var added;
      added, events := SlideRows(currBoard, dir, g0);
      ghost var h1 := Contents(currBoard);
      Restore(dir, currBoard);
      assert blockMoveData[|before|..] == added;
      MoveRecorded(dir, g0, h1, old(largestNum), added, events, largestNum);
      forall k | 0 <= k < N
        ensures state[k] in old(state) || fresh(state[k])
      {
        if state[k] in currBoard {
          var l :| 0 <= l < N && currBoard[l] == state[k];
        }
      }
    }

    /**
     * The row loop of move: every row of the aligned board is slid to the
     * right by getAfterMoveData, and its descriptors are pushed onto
     * blockMoveData when there are any.
     */
    method SlideRows(currBoard: seq<array<int>>, dir: Direction, ghost g0: Grid)
      returns (ghost added: seq<MoveData>, ghost events: seq<seq<RowStep>>)
      requires IsBoard(currBoard) && DistinctRows(currBoard)
      requires IsGrid(g0) && Back(dir, Contents(currBoard)) == g0
      modifies currBoard, this`blockMoveData, this`largestNum
      ensures IsBoard(currBoard) && DistinctRows(currBoard)
      ensures Contents(currBoard) == SlideAll(old(Contents(currBoard)))
      ensures blockMoveData == old(blockMoveData) + added
      ensures GridEvents(old(Contents(currBoard)), events) && added == DescribeRows(dir, events)
      ensures Replay(g0, added) == Some(Back(dir, Contents(currBoard)))
      ensures added == [] <==> Contents(currBoard) == old(Contents(currBoard))
      ensures forall d :: d in added ==> d.direction == dir
      ensures largestNum == LargestAfter(old(largestNum), added)
    {
      ghost var before := blockMoveData;
      ghost var largest := largestNum;
      ghost var h0 := Contents(currBoard);
      added, events := [], [];
      SlidePrefixStart(h0);
      assert RowsScanned(dir, g0, h0, 0, events, added, largest, largestNum);
      for row := 0 to |currBoard|
        invariant Contents(currBoard) == SlidePrefix(h0, row)
        invariant blockMoveData == before + added
        invariant RowsScanned(dir, g0, h0, row, events, added, largest, largestNum)
      {
        added, events := ScanRow(currBoard, row, dir, g0, h0, before, events, added, largest);
      }
      SlidePrefixDone(h0);
    }

    /** One pass of move's row loop: row `row` is slid and its descriptors pushed. */
    method ScanRow(currBoard: seq<array<int>>, row: int, dir: Direction, ghost g0: Grid, ghost h0: Grid,
                   ghost before: seq<MoveData>, ghost events: seq<seq<RowStep>>, ghost added: seq<MoveData>, ghost largest: int)
      returns (ghost added': seq<MoveData>, ghost events': seq<seq<RowStep>>)
      requires IsBoard(currBoard) && DistinctRows(currBoard) && IsGrid(g0) && IsGrid(h0) && 0 <= row < N
      requires Contents(currBoard) == SlidePrefix(h0, row)
      requires blockMoveData == before + added
      requires RowsScanned(dir, g0, h0, row, events, added, largest, largestNum)
      modifies currBoard[row], this`blockMoveData, this`largestNum
      ensures Contents(currBoard) == SlidePrefix(h0, row + 1)
      ensures blockMoveData == before + added'
      ensures RowsScanned(dir, g0, h0, row + 1, events', added', largest, largestNum)
    {
      ghost var m0 := largestNum;
      assert currBoard[row][..] == h0[row] by {
        assert Contents(currBoard)[row] == currBoard[row][..];
      }
      var moveData, steps := GetAfterMoveData(currBoard[row], row, dir);
      assert RowEvents(h0[row], steps) && currBoard[row][..] == Slide(h0[row]);
      assert moveData == [] <==> Slide(h0[row]) == h0[row];
      if |moveData| > 0 {
        blockMoveData := blockMoveData + moveData;
      }
      SlidePrefixStep(h0, row);
      GridExt(Contents(currBoard), SlidePrefix(h0, row + 1));
      RowPushed(dir, g0, h0, row, events, added, steps, moveData, largest, m0, largestNum);
      RowRecordsPushed(dir, before, events, steps);
      added', events' := added + moveData, events + [steps];
    }

    /** The first if-chain of move: the board as it is scanned for direction dir. */
    method Align(dir: Direction) returns (currBoard: seq<array<int>>)
      requires IsBoard(state) && DistinctRows(state)
      modifies state
      ensures IsBoard(currBoard) && DistinctRows(currBoard)
      ensures Contents(currBoard) == Forward(dir, old(Grid()))
      ensures forall k :: 0 <= k < N ==> currBoard[k] in state || fresh(currBoard[k])
    {
      match dir
      case Up =>
        var swappedBoard := SwapRowsCols(state);
        currBoard := ReverseRowElements(swappedBoard);
      case Down =>
        currBoard := SwapRowsCols(state);
      case Left =>
        currBoard := ReverseRowElements(state);
      case Right =>
        currBoard := state;
    }

    /** The last if-chain of move: the scanned board turned back into the state. */
    method Restore(dir: Direction, currBoard: seq<array<int>>)
      requires IsBoard(currBoard) && DistinctRows(currBoard)
      modifies this`state, currBoard
      ensures IsBoard(state) && DistinctRows(state)
      ensures Grid() == Back(dir, old(Contents(currBoard)))
      ensures forall k :: 0 <= k < N ==> state[k] in currBoard || fresh(state[k])
    {
      match dir
      case Up =>
        var reversedBoard := ReverseRowElements(currBoard);
        state := SwapRowsCols(reversedBoard);
      case Down =>
        state := SwapRowsCols(currBoard);
      case Left =>
        state := ReverseRowElements(currBoard);
      case Right =>
        state := currBoard;
    }

    /** isStuck: the move just made produced no descriptor. */
    function IsStuck(): (stuck: bool)
      reads this
      ensures stuck <==> blockMoveData == []
    {
      |blockMoveData| == 0
    }

    /** isGameClear: a merge has made the winning tile. */
    function IsGameClear(): (clear: bool)
      reads this
      ensures clear <==> largestNum == WIN_VALUE
    {
      largestNum == 2048
    }

    /**
     * isGameOver: no cell is listed as empty, and no two neighbouring cells,
     * along a row or along a column, hold the same value.
     */
    method IsGameOver() returns (over: bool)
      requires IsBoard(state)
      ensures over <==> |emptyPos.items| == 0 && Locked(Grid())
    {
      if |emptyPos.items| > 0 {
        return false;
      }
      ghost var g := Grid();
      for row := 0 to N
        invariant forall r, c :: 0 <= r < row && 0 <= c < N - 1 ==> g[r][c] != g[r][c + 1]
      {
        for col := 0 to N - 1
          invariant forall c :: 0 <= c < col ==> g[row][c] != g[row][c + 1]
        {
          if state[row][col] == state[row][col + 1] {
            assert g[row][col] == g[row][col + 1];
            return false;
          }
        }
      }
      for col := 0 to N
        invariant forall r, c {:trigger g[r][c]} :: 0 <= r < N - 1 && 0 <= c < col ==> g[r][c] != g[r + 1][c]
      {
        for row := 0 to N - 1
          invariant forall r :: 0 <= r < row ==> g[r][col] != g[r + 1][col]
        {
          if state[row][col] == state[row + 1][col] {
            assert g[row][col] == g[row + 1][col];
            return false;
          }
        }
      }
      return true;
    }

    /**
     * update: walks the descriptors in order. A collapsed one scores twice its
     * value and may raise the high score; any other one takes its target out
     * of emptyPos (findIndex always finds it); every one lists its source as
     * empty. The descriptors are then dropped and the turn advances.
     * `before` is the grid the descriptors were made from.
     */
    method Update(ghost before: Grid)
      requires IsBoard(state) && IsGrid(before) && AllTiles(before)
      requires EmptyMirrors(emptyPos.items, before)
      requires Replay(before, blockMoveData) == Some(Grid())
      modifies this`score, this`highScore, this`blockMoveData, this`turn, emptyPos
      ensures emptyPos.items == EmptyAfterAll(old(emptyPos.items), old(blockMoveData))
      ensures EmptyMirrors(emptyPos.items, Grid())
      ensures score == old(score) + Gain(old(blockMoveData))
      ensures highScore == if Gain(old(blockMoveData)) > 0 then Max(old(highScore), score) else old(highScore)
      ensures blockMoveData == [] && turn == old(turn) + 1
    {
      UpdateAll(blockMoveData, before, Grid());
      blockMoveData := [];
      turn := turn + 1;
    }

    /**
     * The loop of update over the records `ds` made from grid `before`,
     * which replay it into `after`.
     */
    method UpdateAll(ds: seq<MoveData>, ghost before: Grid, ghost after: Grid)
      requires IsGrid(before) && AllTiles(before)
      requires EmptyMirrors(emptyPos.items, before)
      requires Replay(before, ds) == Some(after)
      modifies this`score, this`highScore, emptyPos
      ensures emptyPos.items == EmptyAfterAll(old(emptyPos.items), ds)
      ensures IsGrid(after) && EmptyMirrors(emptyPos.items, after)
      ensures score == old(score) + Gain(ds)
      ensures highScore == if Gain(ds) > 0 then Max(old(highScore), score) else old(highScore)
    {
      ghost var cur := before;
      ghost var s0, h0, e0 := score, highScore, emptyPos.items;
      UpdatingStart(ds, before, after, e0, s0, h0);
      for k := 0 to |ds|
        invariant Updating(ds, k, cur, after, emptyPos.items, e0, score, s0, highScore, h0)
      {
        var data := ds[k];
        UpdatingStep(ds, k, cur, after, emptyPos.items, e0, score, s0, highScore, h0);
        cur := ApplyDescriptor(cur, data).value;
        UpdateOne(data);
      }
      UpdatingDone(ds, cur, after, emptyPos.items, e0, score, s0, highScore, h0);
    }

    /** The body of update's loop for one descriptor. */
    method UpdateOne(data: MoveData)
      modifies this`score, this`highScore, emptyPos
      ensures emptyPos.items == EmptyAfter(old(emptyPos.items), data)
      ensures score == old(score) + if data.isCollapsed then 2 * data.nextValue else 0
      ensures highScore == if data.isCollapsed && score > old(highScore) then score else old(highScore)
    {
      if data.isCollapsed {
        score := score + data.nextValue * 2;
        if score > highScore {
          highScore := score;
        }
      } else {
        var nextPosIdx := emptyPos.FindIndex(data.Next());
        var removed := emptyPos.SpliceOne(nextPosIdx);
      }
      emptyPos.Push(data.Prev());
    }

    /** createBlock: a new Block on this board's state and emptyPos. */
    method CreateBlock(value: Option<int>, rValue: real, rIndex: real) returns (block: Block)
      requires IsBoard(state) && DistinctRows(state)
      requires |emptyPos.items| > 0 && forall c :: c in emptyPos.items ==> InGrid(c)
      requires 0.0 <= rValue < 1.0 && 0.0 <= rIndex < 1.0
      modifies state, emptyPos
      ensures fresh(block) && block.value == BlockValue(value, rValue)
      ensures var k := PickIndex(rIndex, |old(emptyPos.items)|);
        && Coord(block.row, block.col) == old(emptyPos.items)[k]
        && emptyPos.items == old(emptyPos.items)[..k] + old(emptyPos.items)[k + 1..]
      ensures Grid() == SetCell(old(Grid()), Coord(block.row, block.col), block.value)
      ensures EmptyMirrors(old(emptyPos.items), old(Grid())) ==> EmptyMirrors(emptyPos.items, Grid())
      ensures AllTiles(old(Grid())) && (value.None? || IsTile(value.value)) ==> AllTiles(Grid())
    {
      ghost var g0, e0 := Grid(), emptyPos.items;
      block := new Block(state, emptyPos, value, rValue, rIndex);
      if EmptyMirrors(e0, g0) {
        SpawnMirrors(e0, g0, PickIndex(rIndex, |e0|), block.value);
      }
      if AllTiles(g0) && (value.None? || IsTile(value.value)) {
        SpawnTiles(g0, Coord(block.row, block.col), block.value);
      }
    }

    /**
     * keyboardEventListener: ignored once the game is cleared and for any
     * key that is not an arrow; an arrow key plays one turn in its direction.
     * `moved` holds the turn's descriptors and `spawned` the new block's cell.
     */
    method KeyboardEventListener(key: string, rValue: real, rIndex: real)
      returns (gameOver: bool, ghost moved: seq<MoveData>, ghost events: seq<seq<RowStep>>, ghost spawned: Coord)
      requires Valid() && 0.0 <= rValue < 1.0 && 0.0 <= rIndex < 1.0
      modifies this`prevState, this`state, this`blockMoveData, this`largestNum, this`score, this`highScore,
               this`turn, this`cleared, state, emptyPos
      ensures Valid()
      ensures old(cleared) || ArrowDirection(key).None? ==> unchanged(this, emptyPos) && unchanged(state) && !gameOver
      ensures !old(cleared) && ArrowDirection(key).Some? ==>
        IsBoard(prevState) &&
        TurnPlayed(ArrowDirection(key).value, old(Snap()), Contents(prevState), Snap(), rValue, rIndex, moved, events, spawned, gameOver)
    {
      gameOver, moved, events, spawned := false, [], [], Coord(0, 0);
      if cleared {
        return;
      }
      var dir := ArrowDirection(key);
      if dir.None? {
        return;
      }
      gameOver, moved, events, spawned := PlayTurn(dir.value, rValue, rIndex);
    }

    /** The board's observable values. */
    ghost function Snap(): Snapshot
      requires IsBoard(state)
      reads this, state, emptyPos
    {
      Snapshot(Grid(), emptyPos.items, largestNum, score, highScore, turn, cleared)
    }

    /**
     * The listener's arrow-key branch: the grid is copied into prevState and
     * moved; a move that changed nothing ends the turn there, any other is
     * followed by update, the clear test, a new block (2 or 4, Math.random
     * supplied as rValue and rIndex) and the game-over test.
     */
    method PlayTurn(dir: Direction, rValue: real, rIndex: real)
      returns (gameOver: bool, ghost moved: seq<MoveData>, ghost events: seq<seq<RowStep>>, ghost spawned: Coord)
      requires Valid() && 0.0 <= rValue < 1.0 && 0.0 <= rIndex < 1.0
      modifies this`prevState, this`state, this`blockMoveData, this`largestNum, this`score, this`highScore,
               this`turn, this`cleared, state, emptyPos
      ensures Valid()
      ensures IsBoard(prevState)
      ensures TurnPlayed(dir, old(Snap()), Contents(prevState), Snap(), rValue, rIndex, moved, events, spawned, gameOver)
    {
      gameOver, spawned := false, Coord(0, 0);
      ghost var s0 := Snap();
      moved, events := CopyAndMove(dir);
      ghost var prev, largest := Contents(prevState), largestNum;
      assert MoveMade(dir, s0.grid, s0.largest, moved, events, prev, largest);
      assert Snap() == s0.(grid := Grid(), largest := largest);
      if IsStuck() {
        assert TurnEnded(dir, s0, Snap(), rValue, rIndex, moved, spawned, gameOver);
      } else {
        gameOver, spawned := EndTurn(s0.grid, rValue, rIndex);
      }
    }

    /**
     * The listener after a move that changed the grid: update and the clear
     * test, then the new block and the game-over test. `g0` is the grid
     * before the move; prevState is left as it is.
     */
    method EndTurn(ghost g0: Grid, rValue: real, rIndex: real) returns (gameOver: bool, ghost spawned: Coord)
      requires IsBoard(state) && DistinctRows(state) && IsGrid(g0) && AllTiles(g0)
      requires EmptyMirrors(emptyPos.items, g0)
      requires blockMoveData != [] && Replay(g0, blockMoveData) == Some(Grid())
      requires IsBoard(prevState) && forall k, l :: 0 <= k < N && 0 <= l < N ==> prevState[k] != state[l]
      requires 0.0 <= rValue < 1.0 && 0.0 <= rIndex < 1.0
      modifies this`blockMoveData, this`score, this`highScore, this`turn, this`cleared, state, emptyPos
      ensures Valid() && IsBoard(prevState) && Contents(prevState) == old(Contents(prevState))
      ensures Scored(old(Snap()), Snap(), old(blockMoveData))
      ensures Spawned(old(Grid()), EmptyAfterAll(old(emptyPos.items), old(blockMoveData)), Snap(),
                      rValue, rIndex, spawned, gameOver)
      ensures Snap().largest == old(largestNum)
    {
      UpdateTurn(g0);
      gameOver, spawned := SpawnAndCheck(rValue, rIndex, prevState);
    }

    /**
     * The start of the listener's arrow-key branch: prevState becomes a copy
     * of the grid (fresh rows, untouched by the move), then the move is made.
     * `moved` is the turn's list of descriptors.
     */
    method CopyAndMove(dir: Direction) returns (ghost moved: seq<MoveData>, ghost events: seq<seq<RowStep>>)
      requires IsBoard(state) && DistinctRows(state) && blockMoveData == []
      modifies this`prevState, this`state, this`blockMoveData, this`largestNum, state
      ensures IsBoard(state) && DistinctRows(state)
      ensures IsBoard(prevState) && Contents(prevState) == old(Grid())
      ensures forall k :: 0 <= k < N ==> state[k] in old(state) || fresh(state[k])
      ensures forall k, l :: 0 <= k < N && 0 <= l < N ==> prevState[k] != state[l]
      ensures moved == blockMoveData && Grid() == MoveGrid(dir, old(Grid()))
      ensures MoveMade(dir, old(Grid()), old(largestNum), moved, events, Contents(prevState), largestNum)
    {
      ghost var s0 := Snap();
      prevState := CopyMatrix(state);
      assert Grid() == s0.grid && Contents(prevState) == s0.grid;
      label Moving:
      events := Move(dir);
      ContentsUnchanged@Moving(prevState);
      moved := blockMoveData;
      assert moved == blockMoveData[0..];
    }

    /**
     * The listener after a move that changed the grid: update, then the
     * clear test. `g0` is the grid before the move; the move left at least
     * one cell empty for the new block.
     */
    method UpdateTurn(ghost g0: Grid)
      requires IsBoard(state) && IsGrid(g0) && AllTiles(g0)
      requires EmptyMirrors(emptyPos.items, g0)
      requires blockMoveData != [] && Replay(g0, blockMoveData) == Some(Grid())
      modifies this`blockMoveData, this`score, this`highScore, this`turn, this`cleared, emptyPos
      ensures AllTiles(Grid()) && EmptyMirrors(emptyPos.items, Grid()) && |emptyPos.items| > 0
      ensures emptyPos.items == EmptyAfterAll(old(emptyPos.items), old(blockMoveData))
      ensures blockMoveData == []
      ensures Scored(old(Snap()), Snap(), old(blockMoveData))
      ensures Snap() == old(Snap()).(empty := emptyPos.items, score := score, highScore := highScore,
                                      turn := turn, cleared := cleared)
    {
      ghost var moved := blockMoveData;
      ReplayTiles(g0, moved);
      Update(g0);
      cleared := IsGameClear();
      RoomAfterUpdate(emptyPos.items, g0, moved);
    }

    /**
     * The end of the listener's turn: a new block on one of the listed empty
     * cells, then the game-over test.
     */
    method SpawnAndCheck(rValue: real, rIndex: real, ghost kept: seq<array<int>>) returns (gameOver: bool, ghost spawned: Coord)
      requires IsBoard(state) && DistinctRows(state) && AllTiles(Grid()) && blockMoveData == []
      requires IsBoard(kept) && forall k, l :: 0 <= k < N && 0 <= l < N ==> kept[k] != state[l]
      requires EmptyMirrors(emptyPos.items, Grid()) && |emptyPos.items| > 0
      requires 0.0 <= rValue < 1.0 && 0.0 <= rIndex < 1.0
      modifies state, emptyPos
      ensures Valid()
      ensures Spawned(old(Grid()), old(emptyPos.items), Snap(), rValue, rIndex, spawned, gameOver)
      ensures Contents(kept) == old(Contents(kept))
      ensures Snap() == old(Snap()).(grid := Grid(), empty := emptyPos.items)
    {
      ghost var g1, e1 := Grid(), emptyPos.items;
      label Spawning:
      var block := CreateBlock(None, rValue, rIndex);
      spawned := Coord(block.row, block.col);
      gameOver := IsGameOver();
      ContentsUnchanged@Spawning(kept);
    }
  }
}

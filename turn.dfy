/**
 * What one turn of Board does to the bookkeeping beside the grid: the
 * emptyPos list that update and the Block constructor maintain, the tile
 * values, and the game-over test.
 */
module Turns {
  import opened Config
  import opened Grids
  import opened Options
  import opened RowSlide
  import opened Moves
  import opened Blocks

  // ---------------------------------------------------------------------
  // emptyPos through update

  /** The list update leaves after one record: a shift takes out its target, every record adds its source. */
  function EmptyAfter(e: seq<Coord>, d: MoveData): seq<Coord> {
    if d.isCollapsed then e + [d.Prev()]
    else
      var k := SpliceStart(IndexOf(e, d.Next()), |e|);
      (if k < |e| then e[..k] + e[k + 1..] else e) + [d.Prev()]
  }

  lemma NoDupRemove(e: seq<Coord>, k: int)
    requires NoDup(e) && 0 <= k < |e|
    ensures NoDup(e[..k] + e[k + 1..])
    ensures forall c :: c in e[..k] + e[k + 1..] <==> c in e && c != e[k]
  {
    var f := e[..k] + e[k + 1..];
    assert forall l :: 0 <= l < |f| ==> f[l] == if l < k then e[l] else e[l + 1];
    forall c
      ensures c in f <==> c in e && c != e[k]
    {
      if c in e && c != e[k] {
        var l :| 0 <= l < |e| && e[l] == c;
        assert f[if l < k then l else l - 1] == c;
      }
    }
  }

  lemma NoDupSnoc(e: seq<Coord>, c: Coord)
    requires NoDup(e) && c !in e
    ensures NoDup(e + [c])
  {
  }

  /**
   * A record that replays on `g` keeps emptyPos mirroring the grid, and the
   * findIndex of a shift finds its target: the splice never falls back on
   * the last entry.
   */
  lemma EmptyAfterMirrors(e: seq<Coord>, g: Grid, d: MoveData)
    requires IsGrid(g) && EmptyMirrors(e, g) && ApplyDescriptor(g, d).Some?
    ensures !d.isCollapsed ==> 0 <= IndexOf(e, d.Next()) < |e|
    ensures EmptyMirrors(EmptyAfter(e, d), ApplyDescriptor(g, d).value)
  {
    var g1 := ApplyDescriptor(g, d).value;
    var p, q := d.Prev(), d.Next();
    assert p !in e;
    if d.isCollapsed {
      assert g1 == SetCell(g, p, 0);
      NoDupSnoc(e, p);
    } else {
      assert g1 == SetCell(SetCell(g, p, 0), q, d.nextValue);
      assert d.nextValue != 0;
      assert q in e;
      var k := IndexOf(e, q);
      assert SpliceStart(k, |e|) == k;
      NoDupRemove(e, k);
      NoDupSnoc(e[..k] + e[k + 1..], p);
    }
  }

  /** The list update leaves after all the records, in order. */
  function EmptyAfterAll(e: seq<Coord>, ds: seq<MoveData>): seq<Coord>
    decreases |ds|
  {
    if ds == [] then e else EmptyAfterAll(EmptyAfter(e, ds[0]), ds[1..])
  }

  /** Along a replay, update's emptyPos keeps mirroring the grid. */
  lemma {:induction false} EmptyAfterAllMirrors(e: seq<Coord>, g: Grid, ds: seq<MoveData>)
    requires IsGrid(g) && EmptyMirrors(e, g) && Replay(g, ds).Some?
    ensures EmptyMirrors(EmptyAfterAll(e, ds), Replay(g, ds).value)
    decreases |ds|
  {
    if ds != [] {
      EmptyAfterMirrors(e, g, ds[0]);
      EmptyAfterAllMirrors(EmptyAfter(e, ds[0]), ApplyDescriptor(g, ds[0]).value, ds[1..]);
    }
  }

  /**
   * update's loop after k records: `cur` is the grid they have replayed
   * into, emptyPos mirrors it and is on its way to the final list, and the
   * score and high score have taken the first k records.
   */
  ghost predicate Updating(ds: seq<MoveData>, k: int, cur: Grid, after: Grid, e: seq<Coord>, e0: seq<Coord>,
                           s: int, s0: int, h: int, h0: int)
  {
    && 0 <= k <= |ds|
    && IsGrid(cur) && AllTiles(cur) && EmptyMirrors(e, cur)
    && Replay(cur, ds[k..]) == Some(after)
    && EmptyAfterAll(e, ds[k..]) == EmptyAfterAll(e0, ds)
    && Gain(ds[..k]) >= 0 && s == s0 + Gain(ds[..k])
    && h == if Gain(ds[..k]) > 0 then Max(h0, s) else h0
  }

  /** update's loop carried over record ds[k]. */
  lemma UpdatingStep(ds: seq<MoveData>, k: int, cur: Grid, after: Grid, e: seq<Coord>, e0: seq<Coord>,
                     s: int, s0: int, h: int, h0: int)
    requires Updating(ds, k, cur, after, e, e0, s, s0, h, h0) && k < |ds|
    ensures ApplyDescriptor(cur, ds[k]).Some?
    ensures !ds[k].isCollapsed ==> 0 <= IndexOf(e, ds[k].Next()) < |e|
    ensures var d := ds[k];
      var s1 := s + if d.isCollapsed then 2 * d.nextValue else 0;
      Updating(ds, k + 1, ApplyDescriptor(cur, d).value, after, EmptyAfter(e, d), e0,
               s1, s0, if d.isCollapsed && s1 > h then s1 else h, h0)
  {
    var d := ds[k];
    UpdateStep(cur, e, ds, k, after);
    EmptyAfterMirrors(e, cur, d);
    ApplyTiles(cur, d);
    var s1 := s + if d.isCollapsed then 2 * d.nextValue else 0;
    HighScoreStep(h0, h, s, s1, Gain(ds[..k]), Gain(ds[..k + 1]), d);
  }

  lemma UpdatingStart(ds: seq<MoveData>, g: Grid, after: Grid, e: seq<Coord>, s: int, h: int)
    requires IsGrid(g) && AllTiles(g) && EmptyMirrors(e, g) && Replay(g, ds) == Some(after)
    ensures Updating(ds, 0, g, after, e, e, s, s, h, h)
  {
    assert ds[0..] == ds && ds[..0] == [];
  }

  lemma UpdatingDone(ds: seq<MoveData>, cur: Grid, after: Grid, e: seq<Coord>, e0: seq<Coord>,
                     s: int, s0: int, h: int, h0: int)
    requires Updating(ds, |ds|, cur, after, e, e0, s, s0, h, h0)
    ensures IsGrid(after) && cur == after && e == EmptyAfterAll(e0, ds) && EmptyMirrors(e, after)
    ensures s == s0 + Gain(ds) && h == if Gain(ds) > 0 then Max(h0, s) else h0
  {
    assert ds[|ds|..] == [] && ds[..|ds|] == ds;
  }

  /** update's loop, one record further: the replay, the list and the gain each advance by ds[k]. */
  lemma UpdateStep(cur: Grid, e: seq<Coord>, ds: seq<MoveData>, k: int, g: Grid)
    requires IsGrid(cur) && 0 <= k < |ds| && Replay(cur, ds[k..]) == Some(g)
    ensures ApplyDescriptor(cur, ds[k]).Some?
    ensures Replay(ApplyDescriptor(cur, ds[k]).value, ds[k + 1..]) == Some(g)
    ensures EmptyAfterAll(e, ds[k..]) == EmptyAfterAll(EmptyAfter(e, ds[k]), ds[k + 1..])
    ensures Gain(ds[..k + 1]) == Gain(ds[..k]) + if ds[k].isCollapsed then 2 * ds[k].nextValue else 0
  {
    assert ds[k..][0] == ds[k] && ds[k..][1..] == ds[k + 1..];
    assert ds[..k + 1][..k] == ds[..k];
  }

  /**
   * The high score of update's loop: once some collapsed record has scored,
   * it is the larger of the old high score and the running score.
   */
  lemma HighScoreStep(h0: int, h: int, s: int, s1: int, gain: int, gain1: int, d: MoveData)
    requires gain >= 0 && h == (if gain > 0 then Max(h0, s) else h0)
    requires d.isCollapsed ==> d.nextValue >= 2
    requires gain1 == gain + (if d.isCollapsed then 2 * d.nextValue else 0) && s1 == s + gain1 - gain
    ensures gain1 >= 0
    ensures (if d.isCollapsed && s1 > h then s1 else h) == (if gain1 > 0 then Max(h0, s1) else h0)
  {
  }

  // ---------------------------------------------------------------------
  // Tiles

  lemma DoubleTile(v: int)
    requires v >= 2 && IsTile(v)
    ensures IsTile(2 * v)
  {
    assert 2 * v / 2 == v;
  }

  /** A record that replays on a grid of tiles leaves a grid of tiles; a collapsed one names a tile. */
  lemma ApplyTiles(g: Grid, d: MoveData)
    requires IsGrid(g) && AllTiles(g) && ApplyDescriptor(g, d).Some?
    ensures AllTiles(ApplyDescriptor(g, d).value)
    ensures d.prevValue >= 2 && (d.isCollapsed ==> d.nextValue >= 2)
  {
    var p := d.Prev();
    assert IsTile(Cell(g, p));
    if !d.isCollapsed && d.nextValue == 2 * d.prevValue {
      DoubleTile(d.prevValue);
    }
    var g1 := ApplyDescriptor(g, d).value;
    forall r, c | 0 <= r < N && 0 <= c < N
      ensures IsTile(g1[r][c])
    {
      assert g1[r][c] == Cell(g1, Coord(r, c));
      assert IsTile(Cell(g, Coord(r, c)));
    }
  }

  /** Replaying records on a grid of tiles leaves a grid of tiles. */
  lemma {:induction false} ReplayTiles(g: Grid, ds: seq<MoveData>)
    requires IsGrid(g) && AllTiles(g) && Replay(g, ds).Some?
    ensures AllTiles(Replay(g, ds).value)
    decreases |ds|
  {
    if ds != [] {
      ApplyTiles(g, ds[0]);
      ReplayTiles(ApplyDescriptor(g, ds[0]).value, ds[1..]);
    }
  }

  // ---------------------------------------------------------------------
  // After a move

  /** The source cell of the last record is empty once the records have been replayed. */
  lemma ReplayLeavesEmpty(g: Grid, ds: seq<MoveData>)
    requires IsGrid(g) && Replay(g, ds).Some? && ds != []
    ensures InGrid(ds[|ds| - 1].Prev()) && Cell(Replay(g, ds).value, ds[|ds| - 1].Prev()) == 0
  {
    var init, d := ds[..|ds| - 1], ds[|ds| - 1];
    assert init + [d] == ds;
    ReplayAppend(g, init, [d]);
    var g1 := Replay(g, init).value;
    ReplayOne(g1, d);
  }

  /** The source cell of the last record is in emptyPos after update: there is room for a new block. */
  lemma RoomAfterUpdate(e: seq<Coord>, g: Grid, ds: seq<MoveData>)
    requires IsGrid(g) && Replay(g, ds).Some? && ds != []
    requires EmptyMirrors(e, Replay(g, ds).value)
    ensures |e| > 0 && forall c :: c in e ==> InGrid(c)
  {
    ReplayLeavesEmpty(g, ds);
  }

  // ---------------------------------------------------------------------
  // The new block

  /** Taking the k-th entry out of emptyPos and filling its cell keeps the mirror. */
  lemma SpawnMirrors(e: seq<Coord>, g: Grid, k: int, v: int)
    requires IsGrid(g) && EmptyMirrors(e, g) && 0 <= k < |e| && v != 0
    ensures EmptyMirrors(e[..k] + e[k + 1..], SetCell(g, e[k], v))
  {
    NoDupRemove(e, k);
  }

  /** A new block of a tile value (2 or 4 when none is given) keeps the grid a grid of tiles. */
  lemma SpawnTiles(g: Grid, c: Coord, v: int)
    requires IsGrid(g) && AllTiles(g) && InGrid(c) && (v == 2 || v == 4 || IsTile(v))
    ensures AllTiles(SetCell(g, c, v))
  {
    assert IsTile(2) && IsTile(4);
    var g1 := SetCell(g, c, v);
    forall r, k | 0 <= r < N && 0 <= k < N
      ensures IsTile(g1[r][k])
    {
      assert g1[r][k] == Cell(g1, Coord(r, k));
      assert IsTile(Cell(g, Coord(r, k)));
    }
  }

  // ---------------------------------------------------------------------
  // Game over

  /** No two horizontally or vertically neighbouring cells hold the same value. */
  predicate Locked(g: Grid)
    requires IsGrid(g)
  {
    && (forall r, c :: 0 <= r < N && 0 <= c < N - 1 ==> g[r][c] != g[r][c + 1])
    && (forall r, c {:trigger g[r][c]} :: 0 <= r < N - 1 && 0 <= c < N ==> g[r][c] != g[r + 1][c])
  }

  predicate Full(g: Grid)
    requires IsGrid(g)
  {
    forall r, c :: 0 <= r < N && 0 <= c < N ==> g[r][c] != 0
  }

  /** Neighbouring canonical cells are neighbouring grid cells. */
  lemma PosNeighbours(dir: Direction, idx: int, c: int)
    requires 0 <= idx < N && 0 <= c < N - 1
    ensures var p, q := Pos(dir, idx, c), Pos(dir, idx, c + 1);
      (p.row == q.row && (p.col + 1 == q.col || q.col + 1 == p.col))
      || (p.col == q.col && (p.row + 1 == q.row || q.row + 1 == p.row))
  {
  }

  /** A full grid without equal neighbours is one that no move changes. */
  lemma LockedStuck(g: Grid, dir: Direction)
    requires IsGrid(g) && Full(g) && Locked(g)
    ensures MoveGrid(dir, g) == g
  {
    var h := Forward(dir, g);
    forall idx | 0 <= idx < N
      ensures Slide(h[idx]) == h[idx]
    {
      forall c | 0 <= c < N
        ensures h[idx][c] != 0
      {
        ForwardAt(dir, g, idx, c);
      }
      forall c | 0 <= c < N - 1
        ensures h[idx][c] != h[idx][c + 1]
      {
        ForwardAt(dir, g, idx, c);
        ForwardAt(dir, g, idx, c + 1);
        PosNeighbours(dir, idx, c);
      }
      SlideBlocked(h[idx]);
    }
    assert SlideAll(h) == h;
    RoundTrip(dir, g);
  }

  /** When isGameOver holds on a board whose emptyPos mirrors its grid, no move changes the grid. */
  lemma GameOverStuck(e: seq<Coord>, g: Grid, dir: Direction)
    requires IsGrid(g) && EmptyMirrors(e, g) && |e| == 0 && Locked(g)
    ensures MoveGrid(dir, g) == g
  {
    forall r, c | 0 <= r < N && 0 <= c < N
      ensures g[r][c] != 0
    {
      assert InGrid(Coord(r, c)) && Cell(g, Coord(r, c)) == g[r][c];
    }
    LockedStuck(g, dir);
  }
}

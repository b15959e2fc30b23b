/**
 * Cells, coordinates and grids shared by the engine. A grid value is the
 * row-major matrix `state` of the board: 0 is an empty cell, every other cell
 * holds a tile value. On the heap the board is a sequence of row arrays
 * (the outer JavaScript array is a value here, the rows are objects).
 */
module Grids {
  import opened Config

  /** A cell position (row, column); the source encodes it as the string `${row}${col}`. */
  datatype Coord = Coord(row: int, col: int)

  type Grid = seq<seq<int>>

  predicate InGrid(c: Coord) {
    0 <= c.row < N && 0 <= c.col < N
  }

  predicate IsGrid(g: Grid) {
    |g| == N && forall r :: 0 <= r < N ==> |g[r]| == N
  }

  function Cell(g: Grid, c: Coord): int
    requires IsGrid(g) && InGrid(c)
  {
    g[c.row][c.col]
  }

  /** The grid `g` with cell `c` set to `v` and every other cell kept. */
  function SetCell(g: Grid, c: Coord, v: int): (h: Grid)
    requires IsGrid(g) && InGrid(c)
    ensures IsGrid(h)
    ensures forall d :: InGrid(d) ==> Cell(h, d) == if d == c then v else Cell(g, d)
  {
    g[c.row := g[c.row][c.col := v]]
  }

  /** Two grids with the same cells are the same grid. */
  lemma GridExt(a: Grid, b: Grid)
    requires IsGrid(a) && IsGrid(b)
    requires forall r, c :: 0 <= r < N && 0 <= c < N ==> a[r][c] == b[r][c]
    ensures a == b
  {
    forall r | 0 <= r < N
      ensures a[r] == b[r]
    {
      assert forall c :: 0 <= c < N ==> a[r][c] == b[r][c];
    }
  }

  /** All N*N coordinates in row-major order, the order in which `initialize` lists them. */
  function AllCoords(): (s: seq<Coord>)
    ensures |s| == N * N
  {
    seq(N * N, k => Coord(k / N, k % N))
  }

  predicate NoDup<T(==)>(s: seq<T>) {
    forall k, l :: 0 <= k < l < |s| ==> s[k] != s[l]
  }

  /** `emptyPos` lists, without repetition, exactly the zero cells of `g`. */
  ghost predicate EmptyMirrors(e: seq<Coord>, g: Grid)
    requires IsGrid(g)
  {
    && NoDup(e)
    && (forall c :: c in e ==> InGrid(c) && Cell(g, c) == 0)
    && (forall c :: InGrid(c) && Cell(g, c) == 0 ==> c in e)
  }

  predicate IsPowerOfTwo(v: int)
    decreases if v < 0 then 0 else v
  {
    v == 1 || (v >= 2 && v % 2 == 0 && IsPowerOfTwo(v / 2))
  }

  /** A cell value of a reachable grid: empty, or a power of two of at least 2. */
  predicate IsTile(v: int) {
    v == 0 || (v >= 2 && IsPowerOfTwo(v))
  }

  predicate AllTiles(g: Grid)
    requires IsGrid(g)
  {
    forall r, c :: 0 <= r < N && 0 <= c < N ==> IsTile(g[r][c])
  }

  /** A board on the heap: N distinct row arrays of length N. */
  predicate IsBoard(board: seq<array<int>>) {
    |board| == N && forall k :: 0 <= k < N ==> board[k].Length == N
  }

  predicate DistinctRows(board: seq<array<int>>) {
    forall k, l :: 0 <= k < l < |board| ==> board[k] != board[l]
  }

  /** The grid value a board holds. */
  ghost function Contents(board: seq<array<int>>): (g: Grid)
    requires IsBoard(board)
    reads board
    ensures IsGrid(g)
    ensures forall r, c :: 0 <= r < N && 0 <= c < N ==> g[r][c] == board[r][c]
  {
    seq(N, k requires 0 <= k < N reads board => board[k][..])
  }

  /** A board whose rows no one has written still holds the same grid. */
  twostate lemma ContentsUnchanged(board: seq<array<int>>)
    requires IsBoard(board) && unchanged(board)
    ensures Contents(board) == old(Contents(board))
  {
  }

  /** `board[c.row][c.col] = v`: one cell of the board changes, no other. */
  method WriteCell(board: seq<array<int>>, c: Coord, v: int)
    requires IsBoard(board) && DistinctRows(board) && InGrid(c)
    modifies board
    ensures Contents(board) == SetCell(old(Contents(board)), c, v)
  {
    ghost var before := Contents(board);
    board[c.row][c.col] := v;
    GridExt(Contents(board), SetCell(before, c, v));
  }

  function EmptyGrid(): (g: Grid)
    ensures IsGrid(g) && forall r, c :: 0 <= r < N && 0 <= c < N ==> g[r][c] == 0
  {
    seq(N, _ => seq(N, _ => 0))
  }

  /** Listing every cell row by row mirrors the empty grid. */
  lemma EmptyGridMirrors()
    ensures EmptyMirrors(AllCoords(), EmptyGrid())
  {
    var e := AllCoords();
    forall k, l | 0 <= k < l < |e|
      ensures e[k] != e[l]
    {
      assert k == k / N * N + k % N && l == l / N * N + l % N;
    }
    forall c | InGrid(c) && Cell(EmptyGrid(), c) == 0
      ensures c in e
    {
      var k := c.row * N + c.col;
      assert k / N == c.row && k % N == c.col;
      assert e[k] == c;
    }
  }
}

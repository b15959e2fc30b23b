/**
 * The grid helpers of js/utils.js: transposition (swapRowsCols), in-place row
 * reversal (reverseRowElements), deep copy (copyMatrix) and objectMapper.
 * Each heap-level method is proved against a grid function on values.
 */
module Utils {
  import opened Config
  import opened Grids
  import opened Options

  /** The transposed grid: cell (r, c) comes from cell (c, r). */
  function Transpose(g: Grid): (t: Grid)
    requires IsGrid(g)
    ensures IsGrid(t)
    ensures forall r, c :: 0 <= r < N && 0 <= c < N ==> t[r][c] == g[c][r]
  {
    seq(N, r requires 0 <= r < N => seq(N, c requires 0 <= c < N => g[c][r]))
  }

  /** Every row read backwards: cell (r, c) comes from cell (r, N-1-c). */
  function MirrorRows(g: Grid): (t: Grid)
    requires IsGrid(g)
    ensures IsGrid(t)
    ensures forall r, c :: 0 <= r < N && 0 <= c < N ==> t[r][c] == g[r][N - 1 - c]
  {
    seq(N, r requires 0 <= r < N => seq(N, c requires 0 <= c < N => g[r][N - 1 - c]))
  }

  /** Transposing twice gives back the grid (the grid is square). */
  lemma TransposeInvolution(g: Grid)
    requires IsGrid(g)
    ensures Transpose(Transpose(g)) == g
  {
    GridExt(Transpose(Transpose(g)), g);
  }

  /** Reversing every row twice gives back the grid. */
  lemma MirrorInvolution(g: Grid)
    requires IsGrid(g)
    ensures MirrorRows(MirrorRows(g)) == g
  {
    GridExt(MirrorRows(MirrorRows(g)), g);
  }

  /**
   * swapRowsCols: a new board of fresh row arrays holding the transpose of
   * `board`; `board` itself is not changed (nothing is modified).
   */
  method SwapRowsCols(board: seq<array<int>>) returns (swapped: seq<array<int>>)
    requires IsBoard(board)
    ensures IsBoard(swapped) && DistinctRows(swapped)
    ensures forall k :: 0 <= k < N ==> fresh(swapped[k])
    ensures Contents(swapped) == Transpose(Contents(board))
  {
    swapped := [];
    for row := 0 to N
      invariant |swapped| == row
      invariant forall k :: 0 <= k < row ==> fresh(swapped[k]) && swapped[k].Length == N
      invariant DistinctRows(swapped)
      invariant forall k, c :: 0 <= k < row && 0 <= c < N ==> swapped[k][c] == board[c][k]
    {
      var line := new int[N];
      for col := 0 to N
        modifies line
        invariant forall c :: 0 <= c < col ==> line[c] == board[c][row]
      {
        line[col] := board[col][row];
      }
      swapped := swapped + [line];
    }
    GridExt(Contents(swapped), Transpose(Contents(board)));
  }

  /** Array.prototype.reverse: reverses `a` in place. */
  method ReverseInPlace(a: array<int>)
    modifies a
    ensures forall k :: 0 <= k < a.Length ==> a[k] == old(a[a.Length - 1 - k])
  {
    var s := a[..];
    forall k | 0 <= k < a.Length {
      a[k] := s[a.Length - 1 - k];
    }
  }

  /**
   * reverseRowElements: reverses every row of `board` IN PLACE and returns a
   * new outer sequence holding the very same row arrays, so the caller's
   * board is mirrored too.
   */
  method ReverseRowElements(board: seq<array<int>>) returns (reversed: seq<array<int>>)
    requires IsBoard(board) && DistinctRows(board)
    modifies board
    ensures reversed == board
    ensures Contents(reversed) == MirrorRows(old(Contents(board)))
  {
    ghost var before := Contents(board);
    reversed := [];
    for row := 0 to N
      invariant reversed == board[..row]
      invariant forall k, c :: 0 <= k < row && 0 <= c < N ==> board[k][c] == before[k][N - 1 - c]
      invariant forall k, c :: row <= k < N && 0 <= c < N ==> board[k][c] == before[k][c]
    {
      ReverseInPlace(board[row]);
      reversed := reversed + [board[row]];
    }
    GridExt(Contents(reversed), MirrorRows(before));
  }

  /**
   * copyMatrix: a new board whose rows are fresh arrays equal to the rows of
   * `source`; later writes to `source` cannot reach the copy.
   */
  method CopyMatrix(source: seq<array<int>>) returns (copied: seq<array<int>>)
    requires IsBoard(source)
    ensures IsBoard(copied) && DistinctRows(copied)
    ensures forall k :: 0 <= k < N ==> fresh(copied[k])
    ensures Contents(copied) == Contents(source)
  {
    copied := [];
    for i := 0 to N
      invariant |copied| == i
      invariant forall k :: 0 <= k < i ==> fresh(copied[k]) && copied[k].Length == N
      invariant DistinctRows(copied)
      invariant forall k, c :: 0 <= k < i && 0 <= c < N ==> copied[k][c] == source[k][c]
    {
      var line := new int[N];
      forall c | 0 <= c < N {
        line[c] := source[i][c];
      }
      copied := copied + [line];
    }
    GridExt(Contents(copied), Contents(source));
  }

  /** keys[k] is not assigned again by a later index below `upTo`. */
  predicate LastWrite<K(==)>(keys: seq<K>, k: int, upTo: int)
    requires 0 <= k < upTo <= |keys|
  {
    forall m :: k < m < upTo ==> keys[m] != keys[k]
  }

  /** values[i], or `undefined` past the end of `values`. */
  function ValueAt<V>(values: seq<V>, i: nat): Option<V> {
    if i < |values| then Some(values[i]) else None
  }

  /**
   * objectMapper: result[keys[i]] = values[i] for i in order, so a repeated
   * key keeps the value of its last occurrence; a missing value is undefined.
   */
  method ObjectMapper<K(==), V>(keys: seq<K>, values: seq<V>) returns (result: map<K, Option<V>>)
    ensures result.Keys == set i | 0 <= i < |keys| :: keys[i]
    ensures forall i :: 0 <= i < |keys| && LastWrite(keys, i, |keys|) ==> result[keys[i]] == ValueAt(values, i)
    ensures NoDup(keys) ==> forall i :: 0 <= i < |keys| ==> result[keys[i]] == ValueAt(values, i)
  {
    result := map[];
    for i := 0 to |keys|
      invariant result.Keys == set k | 0 <= k < i :: keys[k]
      invariant forall k :: 0 <= k < i && LastWrite(keys, k, i) ==> result[keys[k]] == ValueAt(values, k)
    {
      result := result[keys[i] := ValueAt(values, i)];
    }
  }
}

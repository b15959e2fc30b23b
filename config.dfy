/**
 * Constants of js/config.js. The engine assumes a square grid (swapRowsCols
 * reads board[col][row], and Left/Up use ROW_NUM - 1 - i as a column or row
 * index), so ROW_NUM and COL_NUM are one constant N here.
 */
module Config {
  /** ROW_NUM == COL_NUM */
  const N: nat := 4

  /** The value whose creation wins the game (Board.isGameClear). */
  const WIN_VALUE: int := 2048
}

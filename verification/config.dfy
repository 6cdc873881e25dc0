/** Configuration constants of the game (board size, piece codes, search depth, scores). */
module Config {

  /** Board size: 6 rows by 7 columns; row 0 is the top row. */
  const ROWS: int := 6
  const COLS: int := 7

  /** Cell codes. */
  const EMPTY: int := 0
  const HUMAN: int := 1
  const AI: int := 2

  /** Ply budget the search agent is constructed with. */
  const MAX_SEARCH_DEPTH: nat := 7

  /** Scores for a decided game. */
  const SCORE_WIN: int := 1000000
  const SCORE_DRAW: int := 0

  /** Index of the centre column (integer division of COLS by 2). */
  const CENTER: int := COLS / 2
}

/** The leaf evaluation of the search: a depth-biased score for a decided game, otherwise centre-column control. */
module Evaluation {
  import opened Config
  import opened Wrappers
  import opened BoardRules
  import opened WinCheck

  /** The cells of the centre column, top row first. */
  function CenterColumn(b: Board): (column: seq<int>)
    requires WellFormed(b)
    ensures |column| == ROWS
    ensures forall r :: 0 <= r < ROWS ==> column[r] == b[r][CENTER]
  {
    seq(ROWS, r requires 0 <= r < ROWS => b[r][CENTER])
  }

  /** Number of occurrences of `piece` in `column`. */
  function Count(column: seq<int>, piece: int): int {
    multiset(column)[piece] as int
  }

  /** Contribution of one centre cell: +3 for an AI piece, -3 for a human piece, 0 otherwise. */
  function CellWeight(piece: int): (w: int)
    ensures w == 3 * Count([piece], AI) - 3 * Count([piece], HUMAN)
  {
    if piece == AI then 3 else if piece == HUMAN then -3 else 0
  }

  /** Centre-column score accumulated over rows 0 .. n-1: three points per AI piece minus
      three points per human piece among those rows. */
  function CenterScoreUpTo(b: Board, n: int): (score: int)
    requires WellFormed(b) && 0 <= n <= ROWS
    decreases n
    ensures score == 3 * Count(CenterColumn(b)[..n], AI) - 3 * Count(CenterColumn(b)[..n], HUMAN)
    ensures -3 * n <= score <= 3 * n
  {
    if n == 0 then 0
    else
      var column := CenterColumn(b);
      assert column[..n] == column[..n - 1] + [column[n - 1]];
      CenterScoreUpTo(b, n - 1) + CellWeight(b[n - 1][CENTER])
  }

  /** The positional heuristic over the whole centre column. */
  function CenterScore(b: Board): (score: int)
    requires WellFormed(b)
    ensures score == 3 * Count(CenterColumn(b), AI) - 3 * Count(CenterColumn(b), HUMAN)
    ensures -3 * ROWS <= score <= 3 * ROWS
  {
    assert CenterColumn(b)[..ROWS] == CenterColumn(b);
    CenterScoreUpTo(b, ROWS)
  }

  /** The score of a decided game, from the AI's point of view, at ply `depth` of a search limited to `maxDepth`. */
  function WinScore(player: int, depth: int, maxDepth: int): (score: int)
    ensures score == SCORE_WIN + (maxDepth - depth) || score == -(SCORE_WIN + (maxDepth - depth))
    ensures depth <= maxDepth ==> (score >= SCORE_WIN <==> player == AI)
    ensures depth <= maxDepth ==> (score <= -SCORE_WIN <==> player != AI)
  {
    if player == AI then SCORE_WIN + (maxDepth - depth) else -SCORE_WIN - (maxDepth - depth)
  }

  /** Scores a position reached by `player` placing the piece at `last`: a depth-biased win or loss
      if that placement completes four in a row, otherwise the centre-column heuristic. */
  function CalculateScore(b: Board, last: Pos, player: int, depth: int, maxDepth: int): (score: int)
    requires WellFormed(b)
    ensures CheckWin(b, last.row, last.col, player) && player == AI ==> score == SCORE_WIN + (maxDepth - depth)
    ensures CheckWin(b, last.row, last.col, player) && player != AI ==> score == -SCORE_WIN - (maxDepth - depth)
    ensures !CheckWin(b, last.row, last.col, player) ==>
              score == 3 * Count(CenterColumn(b), AI) - 3 * Count(CenterColumn(b), HUMAN)
    ensures !CheckWin(b, last.row, last.col, player) ==> -3 * ROWS <= score <= 3 * ROWS
  {
    if CheckWin(b, last.row, last.col, player) then WinScore(player, depth, maxDepth)
    else CenterScore(b)
  }

  /** Decided games dominate the heuristic, and within a search a faster win (or a slower loss) scores higher. */
  lemma WinScoresOrdered(d1: int, d2: int, maxDepth: int, h: int)
    requires 0 <= d1 < d2 <= maxDepth
    requires -3 * ROWS <= h <= 3 * ROWS
    ensures WinScore(AI, d1, maxDepth) > WinScore(AI, d2, maxDepth) > h
    ensures WinScore(HUMAN, d1, maxDepth) < WinScore(HUMAN, d2, maxDepth) < h
  {
  }
}

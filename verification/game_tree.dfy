/** Plain depth-limited minimax over the same game tree the agent searches, without pruning.
    It is the reference the pruned search is proved against. */
module GameTree {
  import opened Config
  import opened Wrappers
  import opened BoardRules
  import opened WinCheck
  import opened Evaluation

  /** The player who made the move that reached a node: the human if the AI is now to move, else the AI. */
  function Mover(maximizing: bool): (p: int)
    ensures p == HUMAN || p == AI
    ensures p != ToMove(maximizing)
  {
    if maximizing then HUMAN else AI
  }

  /** The player to move at a node: the AI at a maximizing node, the human otherwise. */
  function ToMove(maximizing: bool): int {
    if maximizing then AI else HUMAN
  }

  function Max(x: int, y: int): int {
    if x >= y then x else y
  }

  function Min(x: int, y: int): int {
    if x <= y then x else y
  }

  /** Largest magnitude a value at ply `depth` can have: a win found at that ply. */
  function Bound(depth: int, maxDepth: int): int {
    SCORE_WIN + (maxDepth - depth)
  }

  /** The minimax value of the node reached by the placement `last`, at ply `depth` of a search limited to `maxDepth`.
      Leaves are, in this order: a win by the player who just moved, the depth cutoff, a board with no legal column. */
  function Minimax(b: Board, depth: int, maxDepth: int, maximizing: bool, last: Pos): (v: int)
    requires WellFormed(b) && 0 <= depth <= maxDepth
    decreases maxDepth - depth, 1, 0
    ensures -Bound(depth, maxDepth) <= v <= Bound(depth, maxDepth)
    ensures CheckWin(b, last.row, last.col, Mover(maximizing)) ==>
              if maximizing then v <= -SCORE_WIN else v >= SCORE_WIN
  {
    var mover := Mover(maximizing);
    if CheckWin(b, last.row, last.col, mover) then CalculateScore(b, last, mover, depth, maxDepth)
    else if depth == maxDepth then CalculateScore(b, last, mover, depth, maxDepth)
    else
      var moves := LegalActions(b);
      if |moves| == 0 then SCORE_DRAW
      else if maximizing then MaxOver(b, depth, maxDepth, moves)
      else MinOver(b, depth, maxDepth, moves)
  }

  /** The value of the child reached when the side to move drops into column `col`. */
  function ChildValue(b: Board, depth: int, maxDepth: int, maximizing: bool, col: int): (v: int)
    requires WellFormed(b) && 0 <= depth < maxDepth && 0 <= col < COLS
    decreases maxDepth - depth, 0, 0
    ensures -Bound(depth + 1, maxDepth) <= v <= Bound(depth + 1, maxDepth)
  {
    var (b', landing) := SimulateMove(b, col, ToMove(maximizing));
    Minimax(b', depth + 1, maxDepth, !maximizing, landing)
  }

  /** The largest child value over the columns `cols`. */
  function MaxOver(b: Board, depth: int, maxDepth: int, cols: seq<int>): (v: int)
    requires WellFormed(b) && 0 <= depth < maxDepth && |cols| > 0
    requires forall i :: 0 <= i < |cols| ==> 0 <= cols[i] < COLS
    decreases maxDepth - depth, 0, |cols|
    ensures -Bound(depth + 1, maxDepth) <= v <= Bound(depth + 1, maxDepth)
  {
    var v := ChildValue(b, depth, maxDepth, true, cols[0]);
    if |cols| == 1 then v else Max(v, MaxOver(b, depth, maxDepth, cols[1..]))
  }

  /** The smallest child value over the columns `cols`. */
  function MinOver(b: Board, depth: int, maxDepth: int, cols: seq<int>): (v: int)
    requires WellFormed(b) && 0 <= depth < maxDepth && |cols| > 0
    requires forall i :: 0 <= i < |cols| ==> 0 <= cols[i] < COLS
    decreases maxDepth - depth, 0, |cols|
    ensures -Bound(depth + 1, maxDepth) <= v <= Bound(depth + 1, maxDepth)
  {
    var v := ChildValue(b, depth, maxDepth, false, cols[0]);
    if |cols| == 1 then v else Min(v, MinOver(b, depth, maxDepth, cols[1..]))
  }

  /** A maximizing node's value is attained by some column and bounds every column's value from above. */
  lemma {:induction false} MaxOverIsMaximum(b: Board, depth: int, maxDepth: int, cols: seq<int>)
    requires WellFormed(b) && 0 <= depth < maxDepth && |cols| > 0
    requires forall i :: 0 <= i < |cols| ==> 0 <= cols[i] < COLS
    decreases |cols|
    ensures forall c :: c in cols ==> ChildValue(b, depth, maxDepth, true, c) <= MaxOver(b, depth, maxDepth, cols)
    ensures exists c :: c in cols && ChildValue(b, depth, maxDepth, true, c) == MaxOver(b, depth, maxDepth, cols)
  {
    if |cols| > 1 {
      var tail := cols[1..];
      MaxOverIsMaximum(b, depth, maxDepth, tail);
      HeadOrTail(cols);
      var head := ChildValue(b, depth, maxDepth, true, cols[0]);
      if head >= MaxOver(b, depth, maxDepth, tail) {
        assert cols[0] in cols && head == MaxOver(b, depth, maxDepth, cols);
      } else {
        var c :| c in tail && ChildValue(b, depth, maxDepth, true, c) == MaxOver(b, depth, maxDepth, tail);
        assert c in cols && ChildValue(b, depth, maxDepth, true, c) == MaxOver(b, depth, maxDepth, cols);
      }
    } else {
      assert cols == [cols[0]];
      assert cols[0] in cols && ChildValue(b, depth, maxDepth, true, cols[0]) == MaxOver(b, depth, maxDepth, cols);
    }
  }

  /** A minimizing node's value is attained by some column and bounds every column's value from below. */
  lemma {:induction false} MinOverIsMinimum(b: Board, depth: int, maxDepth: int, cols: seq<int>)
    requires WellFormed(b) && 0 <= depth < maxDepth && |cols| > 0
    requires forall i :: 0 <= i < |cols| ==> 0 <= cols[i] < COLS
    decreases |cols|
    ensures forall c :: c in cols ==> MinOver(b, depth, maxDepth, cols) <= ChildValue(b, depth, maxDepth, false, c)
    ensures exists c :: c in cols && ChildValue(b, depth, maxDepth, false, c) == MinOver(b, depth, maxDepth, cols)
  {
    if |cols| > 1 {
      var tail := cols[1..];
      MinOverIsMinimum(b, depth, maxDepth, tail);
      HeadOrTail(cols);
      var head := ChildValue(b, depth, maxDepth, false, cols[0]);
      if head <= MinOver(b, depth, maxDepth, tail) {
        assert cols[0] in cols && head == MinOver(b, depth, maxDepth, cols);
      } else {
        var c :| c in tail && ChildValue(b, depth, maxDepth, false, c) == MinOver(b, depth, maxDepth, tail);
        assert c in cols && ChildValue(b, depth, maxDepth, false, c) == MinOver(b, depth, maxDepth, cols);
      }
    } else {
      assert cols == [cols[0]];
      assert cols[0] in cols && ChildValue(b, depth, maxDepth, false, cols[0]) == MinOver(b, depth, maxDepth, cols);
    }
  }

  /** The leaves are tried in a fixed order, and an inner node takes the best child value for the side to move:
      a win by the player who just moved scores the depth-biased win even at the depth limit or on a full board;
      otherwise the depth limit scores the centre heuristic; otherwise a board with no legal column is a draw. */
  lemma MinimaxCases(b: Board, depth: int, maxDepth: int, maximizing: bool, last: Pos)
    requires WellFormed(b) && 0 <= depth <= maxDepth
    ensures var v := Minimax(b, depth, maxDepth, maximizing, last);
            var won := CheckWin(b, last.row, last.col, Mover(maximizing));
            && (won && maximizing ==> v == -SCORE_WIN - (maxDepth - depth))
            && (won && !maximizing ==> v == SCORE_WIN + (maxDepth - depth))
            && (!won && depth == maxDepth ==>
                  v == 3 * Count(CenterColumn(b), AI) - 3 * Count(CenterColumn(b), HUMAN))
            && (!won && depth < maxDepth && |LegalActions(b)| == 0 ==> v == SCORE_DRAW)
            && (!won && depth < maxDepth && maximizing ==>
                  forall c :: c in LegalActions(b) ==> ChildValue(b, depth, maxDepth, true, c) <= v)
            && (!won && depth < maxDepth && !maximizing ==>
                  forall c :: c in LegalActions(b) ==> v <= ChildValue(b, depth, maxDepth, false, c))
            && (!won && depth < maxDepth && |LegalActions(b)| > 0 ==>
                  exists c :: c in LegalActions(b) && ChildValue(b, depth, maxDepth, maximizing, c) == v)
  {
    var moves := LegalActions(b);
    if depth < maxDepth && |moves| > 0 {
      if maximizing {
        MaxOverIsMaximum(b, depth, maxDepth, moves);
      } else {
        MinOverIsMinimum(b, depth, maxDepth, moves);
      }
    }
  }

  /** The value of the AI dropping into column `col` at the root; the search below it starts at ply 0. */
  function RootValue(b: Board, maxDepth: nat, col: int): (v: int)
    requires WellFormed(b) && 0 <= col < COLS
    ensures -Bound(0, maxDepth) <= v <= Bound(0, maxDepth)
    ensures var (b', landing) := SimulateMove(b, col, AI);
            CheckWin(b', landing.row, landing.col, AI) ==> v == SCORE_WIN + maxDepth
  {
    var (b', landing) := SimulateMove(b, col, AI);
    MinimaxCases(b', 0, maxDepth, false, landing);
    Minimax(b', 0, maxDepth, false, landing)
  }

  /** `col` is legal, no legal column has a larger root value, and every lower legal column has a smaller one. */
  ghost predicate IsBestMove(b: Board, maxDepth: nat, col: int)
    requires WellFormed(b)
  {
    && col in LegalActions(b)
    && (forall c :: c in LegalActions(b) ==> RootValue(b, maxDepth, c) <= RootValue(b, maxDepth, col))
    && (forall c :: c in LegalActions(b) && c < col ==> RootValue(b, maxDepth, c) < RootValue(b, maxDepth, col))
  }

  /** At most one column is the best move, so the choice is determined by the board and the depth limit. */
  lemma BestMoveUnique(b: Board, maxDepth: nat, c1: int, c2: int)
    requires WellFormed(b) && IsBestMove(b, maxDepth, c1) && IsBestMove(b, maxDepth, c2)
    ensures c1 == c2
  {
  }
}

/** The agent's depth-limited minimax search with alpha-beta pruning, and its root move choice.
    The working board is threaded through every call: each simulated move is followed by its undo,
    and every call hands back the board it was given. */
module AlphaBeta {
  import opened Config
  import opened Wrappers
  import opened Extended
  import opened BoardRules
  import opened WinCheck
  import opened Evaluation
  import opened GameTree

  /** `v`, found with the window (alpha, beta), relates to the true value `exact` as fail-soft alpha-beta promises:
      exact inside the window, an upper bound at or below alpha, a lower bound at or above beta. */
  predicate FailSoft(v: int, alpha: ExtInt, beta: ExtInt, exact: int) {
    && (AtMost(Fin(v), alpha) ==> exact <= v)
    && (Less(alpha, Fin(v)) && Less(Fin(v), beta) ==> exact == v)
    && (AtMost(beta, Fin(v)) ==> v <= exact)
  }

  /** The recursive search at ply `depth` below the placement `last`. Returns the score and the working board. */
  function RunMinimax(b: Board, depth: int, maxDepth: int, maximizing: bool, last: Pos,
                      alpha: ExtInt, beta: ExtInt): (res: (int, Board))
    requires WellFormed(b) && 0 <= depth <= maxDepth && Less(alpha, beta)
    decreases maxDepth - depth, 1, 0
    ensures res.1 == b
    ensures FailSoft(res.0, alpha, beta, Minimax(b, depth, maxDepth, maximizing, last))
  {
    var mover := Mover(maximizing);
    if CheckWin(b, last.row, last.col, mover) then (CalculateScore(b, last, mover, depth, maxDepth), b)
    else if depth == maxDepth then (CalculateScore(b, last, mover, depth, maxDepth), b)
    else
      var moves := LegalActions(b);
      if |moves| == 0 then (SCORE_DRAW, b)
      else if maximizing then
        var (best, b') := MaxLoop(b, depth, maxDepth, moves, alpha, beta, NegInf);
        (best.n, b')
      else
        var (best, b') := MinLoop(b, depth, maxDepth, moves, alpha, beta, PosInf);
        (best.n, b')
  }

  /** The maximizing loop over the remaining columns `cols`, with the running alpha and best value. */
  function MaxLoop(b: Board, depth: int, maxDepth: int, cols: seq<int>,
                   alpha: ExtInt, beta: ExtInt, best: ExtInt): (res: (ExtInt, Board))
    requires WellFormed(b) && 0 <= depth < maxDepth && |cols| > 0
    requires forall i :: 0 <= i < |cols| ==> 0 <= cols[i] < COLS
    requires Less(alpha, beta) && AtMost(best, alpha)
    decreases maxDepth - depth, 0, |cols|
    ensures res.1 == b
    ensures res.0.Fin? && AtMost(best, res.0)
    ensures FailSoft(res.0.n, alpha, beta, MaxOver(b, depth, maxDepth, cols))
  {
    var (b1, landing) := SimulateMove(b, cols[0], AI);
    var (v, b2) := RunMinimax(b1, depth + 1, maxDepth, false, landing, alpha, beta);
    UndoSimulateRestores(b, cols[0], AI);
    var b3 := UndoMove(b2, landing.row, landing.col);
    var best' := Raise(best, Fin(v));
    var alpha' := Raise(alpha, best');
    if AtMost(beta, alpha') || |cols| == 1 then
      MaxStopStep(alpha, beta, best, v, ChildValue(b, depth, maxDepth, true, cols[0]), MaxOver(b, depth, maxDepth, cols));
      (best', b3)
    else
      var res := MaxLoop(b3, depth, maxDepth, cols[1..], alpha', beta, best');
      MaxContinueStep(alpha, beta, best, v, ChildValue(b, depth, maxDepth, true, cols[0]), res.0, MaxOver(b, depth, maxDepth, cols[1..]));
      res
  }

  /** The minimizing loop over the remaining columns `cols`, with the running beta and best value. */
  function MinLoop(b: Board, depth: int, maxDepth: int, cols: seq<int>,
                   alpha: ExtInt, beta: ExtInt, best: ExtInt): (res: (ExtInt, Board))
    requires WellFormed(b) && 0 <= depth < maxDepth && |cols| > 0
    requires forall i :: 0 <= i < |cols| ==> 0 <= cols[i] < COLS
    requires Less(alpha, beta) && AtMost(beta, best)
    decreases maxDepth - depth, 0, |cols|
    ensures res.1 == b
    ensures res.0.Fin? && AtMost(res.0, best)
    ensures FailSoft(res.0.n, alpha, beta, MinOver(b, depth, maxDepth, cols))
  {
    var (b1, landing) := SimulateMove(b, cols[0], HUMAN);
    var (v, b2) := RunMinimax(b1, depth + 1, maxDepth, true, landing, alpha, beta);
    UndoSimulateRestores(b, cols[0], HUMAN);
    var b3 := UndoMove(b2, landing.row, landing.col);
    var best' := Lower(best, Fin(v));
    var beta' := Lower(beta, best');
    if AtMost(beta', alpha) || |cols| == 1 then
      MinStopStep(alpha, beta, best, v, ChildValue(b, depth, maxDepth, false, cols[0]), MinOver(b, depth, maxDepth, cols));
      (best', b3)
    else
      var res := MinLoop(b3, depth, maxDepth, cols[1..], alpha, beta', best');
      MinContinueStep(alpha, beta, best, v, ChildValue(b, depth, maxDepth, false, cols[0]), res.0, MinOver(b, depth, maxDepth, cols[1..]));
      res
  }

  /** A maximizing loop that stops after the child valued `v` (true value `t`): at a cutoff the node's value is at least `t`,
      after the last column it is `t`. */
  lemma MaxStopStep(alpha: ExtInt, beta: ExtInt, best: ExtInt, v: int, t: int, exact: int)
    requires Less(alpha, beta) && AtMost(best, alpha) && FailSoft(v, alpha, beta, t)
    requires AtMost(beta, Raise(alpha, Raise(best, Fin(v)))) ==> t <= exact
    requires !AtMost(beta, Raise(alpha, Raise(best, Fin(v)))) ==> t == exact
    ensures Raise(best, Fin(v)) == Fin(Raise(best, Fin(v)).n)
    ensures FailSoft(Raise(best, Fin(v)).n, alpha, beta, exact)
  {
  }

  /** A maximizing loop that goes on after the child valued `v` (true value `t`) with the raised alpha and best. */
  lemma MaxContinueStep(alpha: ExtInt, beta: ExtInt, best: ExtInt, v: int, t: int, r: ExtInt, restExact: int)
    requires Less(alpha, beta) && AtMost(best, alpha) && FailSoft(v, alpha, beta, t)
    requires !AtMost(beta, Raise(alpha, Raise(best, Fin(v))))
    requires r.Fin? && AtMost(Raise(best, Fin(v)), r)
    requires FailSoft(r.n, Raise(alpha, Raise(best, Fin(v))), beta, restExact)
    ensures AtMost(best, r)
    ensures FailSoft(r.n, alpha, beta, Max(t, restExact))
  {
  }

  /** A minimizing loop that stops after the child valued `v` (true value `t`). */
  lemma MinStopStep(alpha: ExtInt, beta: ExtInt, best: ExtInt, v: int, t: int, exact: int)
    requires Less(alpha, beta) && AtMost(beta, best) && FailSoft(v, alpha, beta, t)
    requires AtMost(Lower(beta, Lower(best, Fin(v))), alpha) ==> exact <= t
    requires !AtMost(Lower(beta, Lower(best, Fin(v))), alpha) ==> t == exact
    ensures Lower(best, Fin(v)) == Fin(Lower(best, Fin(v)).n)
    ensures FailSoft(Lower(best, Fin(v)).n, alpha, beta, exact)
  {
  }

  /** A minimizing loop that goes on after the child valued `v` (true value `t`) with the lowered beta and best. */
  lemma MinContinueStep(alpha: ExtInt, beta: ExtInt, best: ExtInt, v: int, t: int, r: ExtInt, restExact: int)
    requires Less(alpha, beta) && AtMost(beta, best) && FailSoft(v, alpha, beta, t)
    requires !AtMost(Lower(beta, Lower(best, Fin(v))), alpha)
    requires r.Fin? && AtMost(r, Lower(best, Fin(v)))
    requires FailSoft(r.n, alpha, Lower(beta, Lower(best, Fin(v))), restExact)
    ensures AtMost(r, best)
    ensures FailSoft(r.n, alpha, beta, Min(t, restExact))
  {
  }

  /** With the full window (-inf, +inf) the pruned search returns exactly the plain minimax value. */
  lemma FullWindowIsExact(b: Board, depth: int, maxDepth: int, maximizing: bool, last: Pos)
    requires WellFormed(b) && 0 <= depth <= maxDepth
    ensures RunMinimax(b, depth, maxDepth, maximizing, last, NegInf, PosInf).0 == Minimax(b, depth, maxDepth, maximizing, last)
  {
  }

  /** What one root iteration learns from a score found with the window (best, +inf): a score above `best`
      is the column's exact value, any other score bounds the column's value from above. */
  lemma RootStep(score: int, exact: int, best: ExtInt)
    requires !best.PosInf? && FailSoft(score, best, PosInf, exact)
    ensures Less(best, Fin(score)) ==> exact == score
    ensures !Less(best, Fin(score)) ==> best.Fin? && exact <= score <= best.n
  {
  }

  /** `r` is the column the root loop settles on when `cols` remain and `bestCol` is the best column so far:
      none exactly when nothing was or remains to be tried; otherwise a tried column whose value no
      remaining or kept column exceeds, strictly above every lower remaining column and above a kept column it replaces. */
  ghost predicate RootChoice(b: Board, maxDepth: nat, cols: seq<int>, bestCol: Option<int>, r: Option<int>)
    requires WellFormed(b)
    requires forall c :: c in cols ==> 0 <= c < COLS
    requires bestCol.Some? ==> 0 <= bestCol.value < COLS
  {
    && (r.None? <==> bestCol.None? && |cols| == 0)
    && (r.Some? ==> (r == bestCol || r.value in cols) && 0 <= r.value < COLS)
    && (r.Some? ==> forall c :: c in cols ==> RootValue(b, maxDepth, c) <= RootValue(b, maxDepth, r.value))
    && (r.Some? ==> forall c :: c in cols && c < r.value ==> RootValue(b, maxDepth, c) < RootValue(b, maxDepth, r.value))
    && (r.Some? && bestCol.Some? ==> RootValue(b, maxDepth, bestCol.value) <= RootValue(b, maxDepth, r.value))
    && (r.Some? && bestCol.Some? && r != bestCol ==> RootValue(b, maxDepth, bestCol.value) < RootValue(b, maxDepth, r.value))
  }

  /** One root iteration keeps `RootChoice`: the column tried first is kept exactly when its score beats the best so far. */
  lemma RootChoiceStep(b: Board, maxDepth: nat, cols: seq<int>, best: ExtInt, bestCol: Option<int>, score: int, r: Option<int>)
    requires WellFormed(b) && |cols| > 0
    requires forall i :: 0 <= i < |cols| ==> 0 <= cols[i] < COLS
    requires Ascending(cols)
    requires !best.PosInf? && (best.NegInf? <==> bestCol.None?)
    requires bestCol.Some? ==> 0 <= bestCol.value < COLS && best == Fin(RootValue(b, maxDepth, bestCol.value))
    requires bestCol.Some? ==> forall c :: c in cols ==> bestCol.value < c
    requires FailSoft(score, best, PosInf, RootValue(b, maxDepth, cols[0]))
    requires RootChoice(b, maxDepth, cols[1..], if Less(best, Fin(score)) then Some(cols[0]) else bestCol, r)
    ensures RootChoice(b, maxDepth, cols, bestCol, r)
  {
    RootStep(score, RootValue(b, maxDepth, cols[0]), best);
    HeadOrTail(cols);
    AscendingTail(cols);
    assert cols[0] in cols;
  }

  /** The root loop over the remaining legal columns `cols`. `best` and `bestCol` hold the best score and column
      so far (NegInf and None before the first column); alpha follows `best`, beta stays at +inf. */
  function RootLoop(b: Board, maxDepth: nat, cols: seq<int>, alpha: ExtInt, best: ExtInt, bestCol: Option<int>)
    : (res: (Option<int>, Board))
    requires WellFormed(b)
    requires forall i :: 0 <= i < |cols| ==> 0 <= cols[i] < COLS
    requires Ascending(cols)
    requires alpha == best && !best.PosInf?
    requires best.NegInf? <==> bestCol.None?
    requires bestCol.Some? ==> 0 <= bestCol.value < COLS && best == Fin(RootValue(b, maxDepth, bestCol.value))
    requires bestCol.Some? ==> forall c :: c in cols ==> bestCol.value < c
    decreases |cols|
    ensures res.1 == b
    ensures RootChoice(b, maxDepth, cols, bestCol, res.0)
  {
    if |cols| == 0 then (bestCol, b)
    else
      var (b1, landing) := SimulateMove(b, cols[0], AI);
      var (score, b2) := RunMinimax(b1, 0, maxDepth, false, landing, alpha, PosInf);
      UndoSimulateRestores(b, cols[0], AI);
      var b3 := UndoMove(b2, landing.row, landing.col);
      var improved := Less(best, Fin(score));
      var best' := if improved then Fin(score) else best;
      var bestCol' := if improved then Some(cols[0]) else bestCol;
      var alpha' := if Less(alpha, best') then best' else alpha;
      AscendingTail(cols);
      var res := RootLoop(b3, maxDepth, cols[1..], alpha', best', bestCol');
      RootChoiceStep(b, maxDepth, cols, best, bestCol, score, res.0);
      res
  }

  /** The AI's move: the lowest-index legal column whose minimax value is maximal, or None when no column is legal. */
  function GetAiMove(b: Board, maxDepth: nat): (move: Option<int>)
    requires WellFormed(b)
    ensures move.None? <==> |LegalActions(b)| == 0
    ensures move.Some? ==> IsBestMove(b, maxDepth, move.value)
  {
    var moves := LegalActions(b);
    var res := RootLoop(b, maxDepth, moves, NegInf, NegInf, None);
    assert RootChoice(b, maxDepth, moves, None, res.0);
    res.0
  }

  /** The agent as constructed: the root choice with the search limited to seven plies. */
  function AiMove(b: Board): (move: Option<int>)
    requires WellFormed(b)
    ensures move.None? <==> |LegalActions(b)| == 0
    ensures move.Some? ==> IsBestMove(b, MAX_SEARCH_DEPTH, move.value)
  {
    GetAiMove(b, MAX_SEARCH_DEPTH)
  }
}

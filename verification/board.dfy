/** The rules engine: the grid, legal columns, the gravity drop and its undo. */
module BoardRules {
  import opened Config
  import opened Wrappers

  /** A grid of cells, indexed `b[row][col]`; row 0 is the top row. */
  type Board = seq<seq<int>>

  /** A placement as the search passes it around: a row and a column, either possibly absent. */
  datatype Pos = Pos(row: Option<int>, col: Option<int>)

  predicate WellFormed(b: Board) {
    |b| == ROWS && forall r :: 0 <= r < |b| ==> |b[r]| == COLS
  }

  predicate InBounds(r: int, c: int) {
    0 <= r < ROWS && 0 <= c < COLS
  }

  /** No floating pieces: an occupied cell is on the bottom row or rests on an occupied cell. */
  predicate Gravity(b: Board)
    requires WellFormed(b)
  {
    forall r, c :: 0 <= r < ROWS && 0 <= c < COLS ==> Supported(b, r, c)
  }

  predicate Supported(b: Board, r: int, c: int)
    requires WellFormed(b) && InBounds(r, c)
  {
    b[r][c] != EMPTY ==> r == ROWS - 1 || b[r + 1][c] != EMPTY
  }

  /** The board a new game starts with. */
  function EmptyBoard(): (b: Board)
    ensures WellFormed(b)
    ensures forall r, c :: InBounds(r, c) ==> b[r][c] == EMPTY
  {
    seq(ROWS, _ => seq(COLS, _ => EMPTY))
  }

  /** The board with cell (r, c) overwritten by v. */
  function Place(b: Board, r: int, c: int, v: int): (b': Board)
    requires WellFormed(b) && InBounds(r, c)
    ensures WellFormed(b')
    ensures b'[r][c] == v
    ensures forall i, j :: InBounds(i, j) && (i != r || j != c) ==> b'[i][j] == b[i][j]
  {
    b[r := b[r][c := v]]
  }

  /** Strictly increasing, hence without duplicates. */
  predicate Ascending(cols: seq<int>) {
    forall i, j :: 0 <= i < j < |cols| ==> cols[i] < cols[j]
  }

  /** The rest of an ascending list is ascending, and every element of it lies above the head. */
  lemma AscendingTail(cols: seq<int>)
    requires |cols| > 0 && Ascending(cols)
    ensures Ascending(cols[1..])
    ensures forall c :: c in cols[1..] ==> c in cols && cols[0] < c
  {
  }

  /** Every element of a non-empty list is its head or lies in its rest. */
  lemma HeadOrTail(cols: seq<int>)
    requires |cols| > 0
    ensures forall c :: c in cols ==> c == cols[0] || c in cols[1..]
  {
    assert cols == [cols[0]] + cols[1..];
  }

  /** Columns c, c+1, ..., COLS-1 whose top cell is empty, ascending. */
  function LegalFrom(b: Board, c: int): (cols: seq<int>)
    requires WellFormed(b) && 0 <= c <= COLS
    decreases COLS - c
    ensures forall i :: 0 <= i < |cols| ==> c <= cols[i] < COLS && b[0][cols[i]] == EMPTY
    ensures forall k :: c <= k < COLS && b[0][k] == EMPTY ==> k in cols
    ensures Ascending(cols)
  {
    if c == COLS then []
    else if b[0][c] == EMPTY then [c] + LegalFrom(b, c + 1)
    else LegalFrom(b, c + 1)
  }

  /** The columns a piece may be dropped into: exactly those whose top cell is empty. */
  function LegalActions(b: Board): (cols: seq<int>)
    requires WellFormed(b)
    ensures forall k :: k in cols <==> 0 <= k < COLS && b[0][k] == EMPTY
    ensures forall i :: 0 <= i < |cols| ==> 0 <= cols[i] < COLS
    ensures Ascending(cols)
  {
    LegalFrom(b, 0)
  }

  /** Scans column `col` from row r upwards to row 0 and yields the first empty row met. */
  function ScanUp(b: Board, col: int, r: int): (found: Option<int>)
    requires WellFormed(b) && 0 <= col < COLS && -1 <= r < ROWS
    decreases r + 1
    ensures found.Some? ==> 0 <= found.value <= r && b[found.value][col] == EMPTY
    ensures found.Some? ==> forall k :: found.value < k <= r ==> b[k][col] != EMPTY
    ensures found.None? ==> forall k :: 0 <= k <= r ==> b[k][col] != EMPTY
  {
    if r < 0 then None
    else if b[r][col] == EMPTY then Some(r)
    else ScanUp(b, col, r - 1)
  }

  /** The largest row index whose cell in column `col` is empty, if any. */
  function LowestEmptyRow(b: Board, col: int): (found: Option<int>)
    requires WellFormed(b) && 0 <= col < COLS
    ensures found.Some? ==> 0 <= found.value < ROWS && b[found.value][col] == EMPTY
    ensures found.Some? ==> forall k :: found.value < k < ROWS ==> b[k][col] != EMPTY
    ensures found.None? <==> forall k :: 0 <= k < ROWS ==> b[k][col] != EMPTY
  {
    ScanUp(b, col, ROWS - 1)
  }

  /** Drops `player` into column `col` without a legality check, returning the new board
      and the landing cell, or the board unchanged and `Pos(None, None)` when the column has no empty cell. */
  function SimulateMove(b: Board, col: int, player: int): (res: (Board, Pos))
    requires WellFormed(b) && 0 <= col < COLS
    ensures WellFormed(res.0)
    ensures res.1.row.Some? <==> exists k :: 0 <= k < ROWS && b[k][col] == EMPTY
    ensures res.1.row.None? ==> res.0 == b && res.1.col.None?
    ensures res.1.row.Some? ==>
      var r := res.1.row.value;
      && res.1.col == Some(col)
      && 0 <= r < ROWS
      && b[r][col] == EMPTY
      && (forall k :: r < k < ROWS ==> b[k][col] != EMPTY)
      && res.0[r][col] == player
      && (forall i, j :: InBounds(i, j) && (i != r || j != col) ==> res.0[i][j] == b[i][j])
  {
    match LowestEmptyRow(b, col)
    case None => (b, Pos(None, None))
    case Some(r) => (Place(b, r, col, player), Pos(Some(r), Some(col)))
  }

  /** Clears the cell of a placement; a placement without a row leaves the board as it is. */
  function UndoMove(b: Board, row: Option<int>, col: Option<int>): (b': Board)
    requires WellFormed(b)
    requires row.Some? ==> col.Some? && InBounds(row.value, col.value)
    ensures WellFormed(b')
    ensures row.None? ==> b' == b
    ensures row.Some? ==> b'[row.value][col.value] == EMPTY
    ensures row.Some? ==> forall i, j :: InBounds(i, j) && (i != row.value || j != col.value) ==> b'[i][j] == b[i][j]
  {
    if row.Some? then Place(b, row.value, col.value, EMPTY) else b
  }

  /** Drops `player` into column `col` if it is legal. An illegal column leaves the board unchanged
      and yields `None`; a legal one yields the `(row, col)` the piece settled in. */
  function MakeMove(b: Board, col: int, player: int): (res: (Board, Option<(int, int)>))
    requires WellFormed(b)
    ensures WellFormed(res.0)
    ensures res.1.None? <==> !(0 <= col < COLS && b[0][col] == EMPTY)
    ensures res.1.None? ==> res.0 == b
    ensures res.1.Some? ==>
      var r := res.1.value.0;
      && res.1.value.1 == col
      && 0 <= r < ROWS
      && b[r][col] == EMPTY
      && (forall k :: r < k < ROWS ==> b[k][col] != EMPTY)
      && res.0[r][col] == player
      && (forall i, j :: InBounds(i, j) && (i != r || j != col) ==> res.0[i][j] == b[i][j])
  {
    if col !in LegalActions(b) then (b, None)
    else
      var (b', landing) := SimulateMove(b, col, player);
      match landing.row
      case Some(r) => (b', Some((r, col)))
      case None => (b, None)
  }

  /** Undo fidelity: removing the piece a simulated move placed restores the board exactly. */
  lemma UndoSimulateRestores(b: Board, col: int, player: int)
    requires WellFormed(b) && 0 <= col < COLS
    ensures var (b', landing) := SimulateMove(b, col, player);
            UndoMove(b', landing.row, landing.col) == b
  {
    var (b', landing) := SimulateMove(b, col, player);
    if landing.row.Some? {
      var u := UndoMove(b', landing.row, landing.col);
      forall i | 0 <= i < ROWS
        ensures u[i] == b[i]
      {
        assert |u[i]| == |b[i]|;
        forall j | 0 <= j < COLS
          ensures u[i][j] == b[i][j]
        {
        }
      }
    }
  }

  /** A legal drop of a real piece keeps the board free of floating pieces. */
  lemma MakeMovePreservesGravity(b: Board, col: int, player: int)
    requires WellFormed(b) && Gravity(b) && player != EMPTY
    ensures Gravity(MakeMove(b, col, player).0)
  {
    var (b', placed) := MakeMove(b, col, player);
    if placed.Some? {
      var r := placed.value.0;
      forall i, j | InBounds(i, j)
        ensures Supported(b', i, j)
      {
        assert Supported(b, i, j);
        if i + 1 < ROWS {
          assert Supported(b, i + 1, j);
        }
      }
    }
  }

  /** Plays a sequence of `(column, player)` requests through `MakeMove`, as the game loop does. */
  function Replay(b: Board, moves: seq<(int, int)>): (b': Board)
    requires WellFormed(b)
    ensures WellFormed(b')
    decreases |moves|
  {
    if |moves| == 0 then b
    else Replay(MakeMove(b, moves[0].0, moves[0].1).0, moves[1..])
  }

  /** Every position reachable from the empty board by drops of real pieces satisfies the gravity invariant. */
  lemma {:induction false} ReplayPreservesGravity(b: Board, moves: seq<(int, int)>)
    requires WellFormed(b) && Gravity(b)
    requires forall i :: 0 <= i < |moves| ==> moves[i].1 != EMPTY
    ensures Gravity(Replay(b, moves))
    decreases |moves|
  {
    if |moves| > 0 {
      MakeMovePreservesGravity(b, moves[0].0, moves[0].1);
      ReplayPreservesGravity(MakeMove(b, moves[0].0, moves[0].1).0, moves[1..]);
    }
  }

  lemma ReachableBoardsHaveGravity(moves: seq<(int, int)>)
    requires forall i :: 0 <= i < |moves| ==> moves[i].1 != EMPTY
    ensures Gravity(Replay(EmptyBoard(), moves))
  {
    ReplayPreservesGravity(EmptyBoard(), moves);
  }
}

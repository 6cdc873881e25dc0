/** Four-in-a-row detection anchored at the last placed piece. */
module WinCheck {
  import opened Config
  import opened Wrappers
  import opened BoardRules

  /** The four axes scanned, as (row step, column step): vertical, horizontal and the two diagonals. */
  const DIRECTIONS: seq<(int, int)> := [(1, 0), (0, 1), (1, 1), (1, -1)]

  /** The cell i steps from (row, col) along (dr, dc) is on the board and holds `player`. */
  predicate MatchesAt(b: Board, row: int, col: int, dr: int, dc: int, player: int, i: int)
    requires WellFormed(b)
  {
    var r := row + dr * i;
    var c := col + dc * i;
    InBounds(r, c) && b[r][c] == player
  }

  /** Number of consecutive matching cells at steps i, i+1, ..., 3 along (dr, dc),
      stopping at the first off-board or non-matching cell. */
  function CountRun(b: Board, row: int, col: int, dr: int, dc: int, player: int, i: int): (n: int)
    requires WellFormed(b) && 1 <= i <= 4
    decreases 4 - i
    ensures 0 <= n <= 4 - i
    ensures forall j :: i <= j < i + n ==> MatchesAt(b, row, col, dr, dc, player, j)
    ensures i + n < 4 ==> !MatchesAt(b, row, col, dr, dc, player, i + n)
  {
    if i == 4 then 0
    else
      var r := row + dr * i;
      var c := col + dc * i;
      if InBounds(r, c) then
        if b[r][c] == player then 1 + CountRun(b, row, col, dr, dc, player, i + 1) else 0
      else 0
  }

  /** The anchor itself, plus the run in the positive direction, plus the run in the negative direction.
      It reaches four exactly when the axis has a filled window of four through the anchor. */
  function LineCount(b: Board, row: int, col: int, dr: int, dc: int, player: int): (n: int)
    requires WellFormed(b)
    ensures 1 <= n <= 7
    ensures n >= 4 <==> exists s :: -3 <= s <= 0 && WindowFilled(b, row, col, dr, dc, s, player)
  {
    RunsReachThree(b, row, col, dr, dc, player);
    1 + CountRun(b, row, col, dr, dc, player, 1) + CountRun(b, row, col, -dr, -dc, player, 1)
  }

  /** Scans DIRECTIONS[k..] and reports whether some axis counts four or more, which happens exactly
      when one of those axes has a filled window of four through the anchor. */
  function ScanDirections(b: Board, row: int, col: int, player: int, k: int): (found: bool)
    requires WellFormed(b) && 0 <= k <= |DIRECTIONS|
    decreases |DIRECTIONS| - k
    ensures found <==> exists d, s :: k <= d < |DIRECTIONS| && -3 <= s <= 0 &&
                                      WindowFilled(b, row, col, DIRECTIONS[d].0, DIRECTIONS[d].1, s, player)
  {
    if k == |DIRECTIONS| then false
    else
      WindowsFromSplit(b, row, col, player, k);
      if LineCount(b, row, col, DIRECTIONS[k].0, DIRECTIONS[k].1, player) >= 4 then true
      else ScanDirections(b, row, col, player, k + 1)
  }

  /** Whether `player` has four in a row through the last placed piece: false when either coordinate is missing,
      otherwise exactly when some axis through the anchor holds a window of four whose three non-anchor cells
      belong to `player`. */
  function CheckWin(b: Board, lastRow: Option<int>, lastCol: Option<int>, player: int): (won: bool)
    requires WellFormed(b)
    ensures won <==> lastRow.Some? && lastCol.Some? && FourThrough(b, lastRow.value, lastCol.value, player)
  {
    if lastRow.None? || lastCol.None? then false
    else ScanDirections(b, lastRow.value, lastCol.value, player, 0)
  }

  // ----- Reference definition: a window of four positions on an axis through the anchor -----

  /** Positions s, s+1, s+2, s+3 along (dr, dc) from the anchor, other than the anchor itself,
      all lie on the board and hold `player`. */
  ghost predicate WindowFilled(b: Board, row: int, col: int, dr: int, dc: int, s: int, player: int)
    requires WellFormed(b)
  {
    forall j :: s <= j <= s + 3 && j != 0 ==> MatchesAt(b, row, col, dr, dc, player, j)
  }

  /** Some axis has a window of four consecutive positions containing the anchor whose other three cells hold `player`. */
  ghost predicate FourThrough(b: Board, row: int, col: int, player: int)
    requires WellFormed(b)
  {
    exists k, s :: 0 <= k < |DIRECTIONS| && -3 <= s <= 0 && WindowFilled(b, row, col, DIRECTIONS[k].0, DIRECTIONS[k].1, s, player)
  }

  /** Stepping backwards along an axis is stepping forwards along the reversed axis. */
  lemma ReverseStep(b: Board, row: int, col: int, dr: int, dc: int, player: int, j: int)
    requires WellFormed(b)
    ensures MatchesAt(b, row, col, -dr, -dc, player, j) == MatchesAt(b, row, col, dr, dc, player, -j)
  {
    assert (-dr) * j == dr * (-j);
    assert (-dc) * j == dc * (-j);
  }

  /** A run of matching cells at steps i..m is counted in full. */
  lemma {:induction false} CountRunCovers(b: Board, row: int, col: int, dr: int, dc: int, player: int, i: int, m: int)
    requires WellFormed(b) && 1 <= i <= 4 && i - 1 <= m <= 3
    requires forall j :: i <= j <= m ==> MatchesAt(b, row, col, dr, dc, player, j)
    decreases 4 - i
    ensures CountRun(b, row, col, dr, dc, player, i) >= m - i + 1
  {
    if i <= m {
      assert MatchesAt(b, row, col, dr, dc, player, i);
      CountRunCovers(b, row, col, dr, dc, player, i + 1, m);
    }
  }

  /** Runs adding up to three or more yield a filled window: start it where the negative run ends. */
  lemma WindowFromRuns(b: Board, row: int, col: int, dr: int, dc: int, player: int)
    requires WellFormed(b)
    requires CountRun(b, row, col, dr, dc, player, 1) + CountRun(b, row, col, -dr, -dc, player, 1) >= 3
    ensures WindowFilled(b, row, col, dr, dc, -CountRun(b, row, col, -dr, -dc, player, 1), player)
  {
    var n := CountRun(b, row, col, -dr, -dc, player, 1);
    forall j | -n <= j <= -n + 3 && j != 0
      ensures MatchesAt(b, row, col, dr, dc, player, j)
    {
      if j < 0 {
        ReverseStep(b, row, col, dr, dc, player, -j);
      }
    }
  }

  /** A filled window starting at s forces runs of at least s+3 forwards and -s backwards, three in all. */
  lemma RunsFromWindow(b: Board, row: int, col: int, dr: int, dc: int, s: int, player: int)
    requires WellFormed(b) && -3 <= s <= 0 && WindowFilled(b, row, col, dr, dc, s, player)
    ensures CountRun(b, row, col, dr, dc, player, 1) + CountRun(b, row, col, -dr, -dc, player, 1) >= 3
  {
    CountRunCovers(b, row, col, dr, dc, player, 1, s + 3);
    var ndr, ndc := -dr, -dc;
    forall j | 1 <= j <= -s
      ensures MatchesAt(b, row, col, ndr, ndc, player, j)
    {
      ReverseStep(b, row, col, dr, dc, player, j);
    }
    CountRunCovers(b, row, col, ndr, ndc, player, 1, -s);
  }

  /** The two runs along one axis add up to three exactly when it has a filled window through the anchor. */
  lemma RunsReachThree(b: Board, row: int, col: int, dr: int, dc: int, player: int)
    requires WellFormed(b)
    ensures CountRun(b, row, col, dr, dc, player, 1) + CountRun(b, row, col, -dr, -dc, player, 1) >= 3 <==>
            exists s :: -3 <= s <= 0 && WindowFilled(b, row, col, dr, dc, s, player)
  {
    if CountRun(b, row, col, dr, dc, player, 1) + CountRun(b, row, col, -dr, -dc, player, 1) >= 3 {
      WindowFromRuns(b, row, col, dr, dc, player);
    }
    if s :| -3 <= s <= 0 && WindowFilled(b, row, col, dr, dc, s, player) {
      RunsFromWindow(b, row, col, dr, dc, s, player);
    }
  }

  /** A window on one of the axes k.. lies on axis k or on one of the axes k+1.. . */
  lemma WindowsFromSplit(b: Board, row: int, col: int, player: int, k: int)
    requires WellFormed(b) && 0 <= k < |DIRECTIONS|
    ensures (exists d, s :: k <= d < |DIRECTIONS| && -3 <= s <= 0 &&
                            WindowFilled(b, row, col, DIRECTIONS[d].0, DIRECTIONS[d].1, s, player))
        <==> (exists s :: -3 <= s <= 0 && WindowFilled(b, row, col, DIRECTIONS[k].0, DIRECTIONS[k].1, s, player))
             || (exists d, s :: k + 1 <= d < |DIRECTIONS| && -3 <= s <= 0 &&
                                WindowFilled(b, row, col, DIRECTIONS[d].0, DIRECTIONS[d].1, s, player))
  {
    if d, s :| k <= d < |DIRECTIONS| && -3 <= s <= 0 && WindowFilled(b, row, col, DIRECTIONS[d].0, DIRECTIONS[d].1, s, player) {
      if d != k {
        assert k + 1 <= d < |DIRECTIONS|;
      }
    }
    if s :| -3 <= s <= 0 && WindowFilled(b, row, col, DIRECTIONS[k].0, DIRECTIONS[k].1, s, player) {
      assert k <= k < |DIRECTIONS|;
    }
  }

  /** No scanned position coincides with the anchor, so its content never matters. */
  lemma MatchesAtIgnoresAnchor(b: Board, row: int, col: int, x: int, k: int, player: int, j: int)
    requires WellFormed(b) && InBounds(row, col) && 0 <= k < |DIRECTIONS| && j != 0
    ensures MatchesAt(Place(b, row, col, x), row, col, DIRECTIONS[k].0, DIRECTIONS[k].1, player, j)
         == MatchesAt(b, row, col, DIRECTIONS[k].0, DIRECTIONS[k].1, player, j)
  {
  }

  /** The anchor cell itself is never inspected: overwriting it does not change the verdict. */
  lemma CheckWinIgnoresAnchor(b: Board, row: int, col: int, x: int, player: int)
    requires WellFormed(b) && InBounds(row, col)
    ensures CheckWin(Place(b, row, col, x), Some(row), Some(col), player) == CheckWin(b, Some(row), Some(col), player)
  {
    var b' := Place(b, row, col, x);
    forall k, s | 0 <= k < |DIRECTIONS| && -3 <= s <= 0
      ensures WindowFilled(b', row, col, DIRECTIONS[k].0, DIRECTIONS[k].1, s, player)
           == WindowFilled(b, row, col, DIRECTIONS[k].0, DIRECTIONS[k].1, s, player)
    {
      forall j | s <= j <= s + 3 && j != 0 {
        MatchesAtIgnoresAnchor(b, row, col, x, k, player, j);
      }
    }
  }
}

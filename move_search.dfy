/** The automated player's move search: an exhaustive negamax over hypothetical boards
    with ratings -1 (loss), 0 (draw) and 1 (win) for the player to act. */
module MoveSearch {
  import opened Grid
  import opened Players
  import opened WinDetector

  /** The initial best score of a scan, below every rating (JavaScript's Number.MIN_SAFE_INTEGER). */
  const MinSafeInteger: int := -9007199254740991

  /** A rating together with the move that achieves it (no move when the board is full). */
  datatype AiMove = AiMove(rating: int, move: Option<Cell>)

  /** The precondition of a search: a board of the right shape and, when a last move is
      given, a cell on it. */
  predicate SearchInput(b: Board, move: Option<Cell>) {
    WellFormed(b) && (move.Some? ==> InRange(move.value))
  }

  /** A position of the row-major scan: all rows before `i`, then row `i` up to column `j`. */
  predicate ScanPosition(i: int, j: int) {
    0 <= i <= BoardSize && 0 <= j <= BoardSize && (i == BoardSize ==> j == 0)
  }

  /** The search from the point of view of `player`, who is to act on `b`; `move` is the
      move that produced `b`, if any. A move that already completed a line is a loss for
      the player now to act. Otherwise every empty cell is tried and the best negated
      child rating is kept; a full board is a draw. */
  function Search(b: Board, player1: Player, player2: Player, player: Player, move: Option<Cell>): (r: AiMove)
    requires SearchInput(b, move)
    decreases EmptyCount(b), BoardSize + 1, 0
    ensures -1 <= r.rating <= 1
  {
    if move.Some? && TurnWon(b, move.value.row, move.value.column) then
      AiMove(-1, move)
    else
      var (score, best) := ScanPrefix(b, player1, player2, player, BoardSize, 0);
      if best.None? then AiMove(0, None) else AiMove(score, best)
  }

  /** The negated rating of the position reached when `player` marks the empty cell `c`. */
  function ChildScore(b: Board, player1: Player, player2: Player, player: Player, c: Cell): (s: int)
    requires WellFormed(b) && InRange(c) && IsEmptyAt(b, c)
    decreases EmptyCount(b), 0, 0
    ensures -1 <= s <= 1
  {
    PlaceFillsOne(b, c, player.id);
    -Search(Place(b, c, player.id), player1, player2, Opponent(player1, player2, player), Some(c)).rating
  }

  /** The best score and move after scanning the cells before (i, j) in row-major order:
      a candidate replaces the best so far only when its score is strictly greater. */
  function ScanPrefix(b: Board, player1: Player, player2: Player, player: Player, i: int, j: int): (r: (int, Option<Cell>))
    requires WellFormed(b) && ScanPosition(i, j)
    decreases EmptyCount(b), i, j
    ensures r.1.None? ==> r.0 == MinSafeInteger
    ensures r.1.Some? ==> -1 <= r.0 <= 1 && InRange(r.1.value) && Before(r.1.value, i, j) && IsEmptyAt(b, r.1.value)
  {
    if j == 0 then
      if i == 0 then (MinSafeInteger, None) else ScanPrefix(b, player1, player2, player, i - 1, BoardSize)
    else
      var prev := ScanPrefix(b, player1, player2, player, i, j - 1);
      var c := Cell(i, j - 1);
      if !IsEmptyAt(b, c) then
        prev
      else
        var score := ChildScore(b, player1, player2, player, c);
        if score > prev.0 then (score, Some(c)) else prev
  }

  /** `r` is what a scan of the cells before (i, j) must select: no move iff none of those
      cells is empty; otherwise an empty cell among them whose score is the greatest, and
      the first one in row-major order with that score. */
  ghost predicate SelectsFirstBest(b: Board, player1: Player, player2: Player, player: Player, i: int, j: int, r: (int, Option<Cell>))
    requires WellFormed(b)
  {
    (r.1.None? <==> forall c :: InRange(c) && Before(c, i, j) ==> !IsEmptyAt(b, c))
    && (r.1.Some? ==>
          InRange(r.1.value) && IsEmptyAt(b, r.1.value)
          && r.0 == ChildScore(b, player1, player2, player, r.1.value)
          && (forall c :: InRange(c) && Before(c, i, j) && IsEmptyAt(b, c) ==>
                ChildScore(b, player1, player2, player, c) <= r.0)
          && (forall c :: InRange(c) && Before(c, r.1.value.row, r.1.value.column) && IsEmptyAt(b, c) ==>
                ChildScore(b, player1, player2, player, c) < r.0))
  }

  /** The scan selects the first cell with the greatest score. */
  lemma {:induction false} ScanPrefixSelects(b: Board, player1: Player, player2: Player, player: Player, i: int, j: int)
    requires WellFormed(b) && ScanPosition(i, j)
    decreases i, j
    ensures SelectsFirstBest(b, player1, player2, player, i, j, ScanPrefix(b, player1, player2, player, i, j))
  {
    if j == 0 {
      if i > 0 {
        ScanPrefixSelects(b, player1, player2, player, i - 1, BoardSize);
        RowBoundary(b, player1, player2, player, i);
      }
    } else {
      ScanPrefixSelects(b, player1, player2, player, i, j - 1);
      ScanStep(b, player1, player2, player, i, j);
    }
  }

  /** Moving from the end of row i-1 to the start of row i scans nothing new. */
  lemma RowBoundary(b: Board, player1: Player, player2: Player, player: Player, i: int)
    requires WellFormed(b) && 0 < i <= BoardSize
    requires SelectsFirstBest(b, player1, player2, player, i - 1, BoardSize, ScanPrefix(b, player1, player2, player, i - 1, BoardSize))
    ensures SelectsFirstBest(b, player1, player2, player, i, 0, ScanPrefix(b, player1, player2, player, i, 0))
  {
    assert forall c :: InRange(c) ==> (Before(c, i, 0) <==> Before(c, i - 1, BoardSize));
  }

  /** Scanning one more cell of row i keeps the selection property. */
  lemma ScanStep(b: Board, player1: Player, player2: Player, player: Player, i: int, j: int)
    requires WellFormed(b) && 0 <= i < BoardSize && 0 < j <= BoardSize
    requires SelectsFirstBest(b, player1, player2, player, i, j - 1, ScanPrefix(b, player1, player2, player, i, j - 1))
    ensures SelectsFirstBest(b, player1, player2, player, i, j, ScanPrefix(b, player1, player2, player, i, j))
  {
    var prev := ScanPrefix(b, player1, player2, player, i, j - 1);
    if IsEmptyAt(b, Cell(i, j - 1)) {
      SelectStep(b, player1, player2, player, i, j, prev);
    } else {
      SkipStep(b, player1, player2, player, i, j, prev);
    }
  }

  /** Skipping a taken cell keeps the selection property. */
  lemma SkipStep(b: Board, player1: Player, player2: Player, player: Player, i: int, j: int, prev: (int, Option<Cell>))
    requires WellFormed(b) && 0 <= i < BoardSize && 0 < j <= BoardSize
    requires !IsEmptyAt(b, Cell(i, j - 1))
    requires SelectsFirstBest(b, player1, player2, player, i, j - 1, prev)
    ensures SelectsFirstBest(b, player1, player2, player, i, j, prev)
  {
    assert forall c :: InRange(c) && Before(c, i, j) && IsEmptyAt(b, c) ==> Before(c, i, j - 1);
  }

  /** Scanning an empty cell keeps the selection property: its score replaces the best
      so far only when strictly greater. */
  lemma SelectStep(b: Board, player1: Player, player2: Player, player: Player, i: int, j: int, prev: (int, Option<Cell>))
    requires WellFormed(b) && 0 <= i < BoardSize && 0 < j <= BoardSize
    requires IsEmptyAt(b, Cell(i, j - 1))
    requires prev.1.None? ==> prev.0 == MinSafeInteger
    requires prev.1.Some? ==> Before(prev.1.value, i, j - 1)
    requires SelectsFirstBest(b, player1, player2, player, i, j - 1, prev)
    ensures var score := ChildScore(b, player1, player2, player, Cell(i, j - 1));
      SelectsFirstBest(b, player1, player2, player, i, j, if score > prev.0 then (score, Some(Cell(i, j - 1))) else prev)
  {
  }

  /** The shape of a search result: a line completed by the incoming move is rated -1 with
      that move; otherwise there is no move exactly when the board is full (rated 0), and
      a move is an empty cell with the greatest negated child rating, the first such cell
      in row-major order. */
  lemma SearchResult(b: Board, player1: Player, player2: Player, player: Player, move: Option<Cell>)
    requires SearchInput(b, move)
    ensures var r := Search(b, player1, player2, player, move);
      (move.Some? && TurnWon(b, move.value.row, move.value.column) ==> r == AiMove(-1, move))
      && (!(move.Some? && TurnWon(b, move.value.row, move.value.column)) ==>
            (r.move.None? <==> EmptyCount(b) == 0)
            && (r.move.None? ==> r.rating == 0)
            && (r.move.Some? ==>
                  InRange(r.move.value) && IsEmptyAt(b, r.move.value)
                  && r.rating == ChildScore(b, player1, player2, player, r.move.value)
                  && (forall c :: InRange(c) && IsEmptyAt(b, c) ==>
                        ChildScore(b, player1, player2, player, c) <= r.rating)
                  && (forall c :: InRange(c) && Before(c, r.move.value.row, r.move.value.column) && IsEmptyAt(b, c) ==>
                        ChildScore(b, player1, player2, player, c) < r.rating)))
  {
    ScanPrefixSelects(b, player1, player2, player, BoardSize, 0);
    EmptyCountZero(b);
  }

  /** A search started without a last move on a board with an empty cell proposes an
      empty cell of that board. */
  lemma SearchFindsEmptyCell(b: Board, player1: Player, player2: Player, player: Player)
    requires WellFormed(b) && EmptyCount(b) > 0
    ensures var r := Search(b, player1, player2, player, None);
      r.move.Some? && InRange(r.move.value) && IsEmptyAt(b, r.move.value)
  {
    SearchResult(b, player1, player2, player, None);
  }

  /** Scanning the empty cell (i, j), whose move scores `score`, in the terms the nested
      loops use. */
  lemma ScanNextEmpty(b: Board, player1: Player, player2: Player, player: Player, i: int, j: int, score: int)
    requires WellFormed(b) && 0 <= i < BoardSize && 0 <= j < BoardSize && b[i][j] == Empty
    requires score == ChildScore(b, player1, player2, player, Cell(i, j))
    ensures var prev := ScanPrefix(b, player1, player2, player, i, j);
      ScanPrefix(b, player1, player2, player, i, j + 1) ==
        if score > prev.0 then (score, Some(Cell(i, j))) else prev
  {
  }

  /** Skipping the taken cell (i, j), in the terms the nested loops use. */
  lemma ScanNextTaken(b: Board, player1: Player, player2: Player, player: Player, i: int, j: int)
    requires WellFormed(b) && 0 <= i < BoardSize && 0 <= j < BoardSize && b[i][j] != Empty
    ensures ScanPrefix(b, player1, player2, player, i, j + 1) == ScanPrefix(b, player1, player2, player, i, j)
  {
  }

  /** Passing from the end of row i to the start of row i + 1 scans nothing new. */
  lemma ScanNextRow(b: Board, player1: Player, player2: Player, player: Player, i: int)
    requires WellFormed(b) && 0 <= i < BoardSize
    ensures ScanPrefix(b, player1, player2, player, i + 1, 0) == ScanPrefix(b, player1, player2, player, i, BoardSize)
  {
  }

  /** When the incoming move did not win, the search's result is read off the full scan. */
  lemma SearchAfterScan(b: Board, player1: Player, player2: Player, player: Player, move: Option<Cell>)
    requires SearchInput(b, move) && !(move.Some? && TurnWon(b, move.value.row, move.value.column))
    ensures var scan := ScanPrefix(b, player1, player2, player, BoardSize, 0);
      Search(b, player1, player2, player, move) == if scan.1.None? then AiMove(0, None) else AiMove(scan.0, scan.1)
  {
  }

  /** The search as the engine runs it: nested loops over the cells in row-major order,
      keeping the first cell whose rating is strictly greatest. */
  method GetOptimalAiMove(board: Board, player1: Player, player2: Player, player: Player, move: Option<Cell>)
    returns (r: AiMove)
    requires SearchInput(board, move)
    decreases EmptyCount(board), 1
    ensures r == Search(board, player1, player2, player, move)
  {
    if move.Some? && TurnWon(board, move.value.row, move.value.column) {
      return AiMove(-1, move);
    }

    var bestMove: Option<Cell> := None;
    var bestScore := MinSafeInteger;
    for i := 0 to BoardSize
      invariant (bestScore, bestMove) == ScanPrefix(board, player1, player2, player, i, 0)
    {
      for j := 0 to BoardSize
        invariant (bestScore, bestMove) == ScanPrefix(board, player1, player2, player, i, j)
      {
        if board[i][j] != Empty {
          ScanNextTaken(board, player1, player2, player, i, j);
          continue;
        }
        var newMove := Cell(i, j);
        var newMoveScore := RateMove(board, player1, player2, player, newMove);
        ScanNextEmpty(board, player1, player2, player, i, j, newMoveScore);
        if newMoveScore > bestScore {
          bestScore := newMoveScore;
          bestMove := Some(newMove);
        }
      }
      ScanNextRow(board, player1, player2, player, i);
    }
    SearchAfterScan(board, player1, player2, player, move);

    if bestMove.None? {
      return AiMove(0, None);
    }
    return AiMove(bestScore, bestMove);
  }

  /** The negated rating of one candidate move: `player`'s mark is written into a copy of
      the board, and the opponent's search on that copy is negated. */
  method RateMove(board: Board, player1: Player, player2: Player, player: Player, newMove: Cell)
    returns (newMoveScore: int)
    requires WellFormed(board) && InRange(newMove) && IsEmptyAt(board, newMove)
    decreases EmptyCount(board), 0
    ensures newMoveScore == ChildScore(board, player1, player2, player, newMove)
  {
    var newMoveBoard := board[newMove.row := board[newMove.row][newMove.column := player.id]];
    assert newMoveBoard == Place(board, newMove, player.id);
    PlaceFillsOne(board, newMove, player.id);
    var child := GetOptimalAiMove(newMoveBoard, player1, player2, Opponent(player1, player2, player), Some(newMove));
    newMoveScore := -child.rating;
  }
}

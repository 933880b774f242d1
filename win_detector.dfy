/** Win detection: whether the move just played at (row, column) completed a line.
    Only the lines through the played cell are examined. */
module WinDetector {
  import opened Grid

  /** Every cell of row `row` carries the value of the played cell. */
  predicate RowWon(b: Board, row: int, column: int)
    requires WellFormed(b) && InRange(Cell(row, column))
  {
    forall i :: 0 <= i < BoardSize ==> b[row][i] == b[row][column]
  }

  /** Every cell of column `column` carries the value of the played cell. */
  predicate ColumnWon(b: Board, row: int, column: int)
    requires WellFormed(b) && InRange(Cell(row, column))
  {
    forall i :: 0 <= i < BoardSize ==> b[i][column] == b[row][column]
  }

  /** Every cell (i, i) carries the value of the top-left corner. */
  predicate MainDiagonalWon(b: Board)
    requires WellFormed(b)
  {
    forall i :: 0 <= i < BoardSize ==> b[i][i] == b[0][0]
  }

  /** Every cell (i, BoardSize-1-i) carries the value of the top-right corner. */
  predicate AntiDiagonalWon(b: Board)
    requires WellFormed(b)
  {
    forall i :: 0 <= i < BoardSize ==> b[i][BoardSize - 1 - i] == b[0][BoardSize - 1]
  }

  /** The win test run after a move at (row, column): its row, its column, and each
      diagonal that passes through it. */
  predicate TurnWon(b: Board, row: int, column: int)
    requires WellFormed(b) && InRange(Cell(row, column))
  {
    RowWon(b, row, column) || ColumnWon(b, row, column)
    || (row == column && MainDiagonalWon(b))
    || (row == BoardSize - 1 - column && AntiDiagonalWon(b))
  }

  function RowLine(row: int): seq<Cell> {
    seq(BoardSize, i => Cell(row, i))
  }

  function ColumnLine(column: int): seq<Cell> {
    seq(BoardSize, i => Cell(i, column))
  }

  function MainDiagonal(): seq<Cell> {
    seq(BoardSize, i => Cell(i, i))
  }

  function AntiDiagonal(): seq<Cell> {
    seq(BoardSize, i => Cell(i, BoardSize - 1 - i))
  }

  /** All lines of the board: the rows, then the columns, then the two diagonals. */
  function Lines(): (ls: seq<seq<Cell>>)
    ensures |ls| == 2 * BoardSize + 2
    ensures forall k :: 0 <= k < |ls| ==> |ls[k]| == BoardSize
    ensures forall k, m :: 0 <= k < |ls| && 0 <= m < |ls[k]| ==> InRange(ls[k][m])
  {
    seq(BoardSize, i => RowLine(i)) + seq(BoardSize, i => ColumnLine(i)) + [MainDiagonal(), AntiDiagonal()]
  }

  predicate CellsInRange(line: seq<Cell>) {
    forall m :: 0 <= m < |line| ==> InRange(line[m])
  }

  /** A line is complete when all its cells carry the same non-empty mark. */
  predicate Complete(b: Board, line: seq<Cell>)
    requires WellFormed(b) && CellsInRange(line)
  {
    |line| > 0 && At(b, line[0]) != Empty
    && forall m :: 0 <= m < |line| ==> At(b, line[m]) == At(b, line[0])
  }

  /** Some line anywhere on the board is complete (the whole-board reference for a win). */
  predicate HasLine(b: Board)
    requires WellFormed(b)
  {
    exists k :: 0 <= k < |Lines()| && Complete(b, Lines()[k])
  }

  /** The line recorded for a winning move: the first of row, column, main diagonal and
      anti-diagonal that the win test accepts, or no cell at all when it accepts none. */
  function WinningLine(b: Board, row: int, column: int): (line: seq<Cell>)
    requires WellFormed(b) && InRange(Cell(row, column))
    ensures line != [] <==> TurnWon(b, row, column)
    ensures line != [] ==> |line| == BoardSize && line in Lines() && Cell(row, column) in line
    ensures line != [] && b[row][column] != Empty ==> Complete(b, line)
    ensures RowWon(b, row, column) ==> line == RowLine(row)
    ensures !RowWon(b, row, column) && ColumnWon(b, row, column) ==> line == ColumnLine(column)
    ensures !RowWon(b, row, column) && !ColumnWon(b, row, column) && row == column && MainDiagonalWon(b)
      ==> line == MainDiagonal()
    ensures !RowWon(b, row, column) && !ColumnWon(b, row, column) && !(row == column && MainDiagonalWon(b))
            && row == BoardSize - 1 - column && AntiDiagonalWon(b)
      ==> line == AntiDiagonal()
  {
    var ls := Lines();
    if RowWon(b, row, column) then
      assert RowLine(row)[column] == Cell(row, column) && ls[row] == RowLine(row);
      RowLine(row)
    else if ColumnWon(b, row, column) then
      assert ColumnLine(column)[row] == Cell(row, column) && ls[BoardSize + column] == ColumnLine(column);
      ColumnLine(column)
    else if row == column && MainDiagonalWon(b) then
      assert MainDiagonal()[row] == Cell(row, column) && ls[2 * BoardSize] == MainDiagonal();
      MainDiagonal()
    else if row == BoardSize - 1 - column && AntiDiagonalWon(b) then
      assert AntiDiagonal()[row] == Cell(row, column) && ls[2 * BoardSize + 1] == AntiDiagonal();
      AntiDiagonal()
    else
      []
  }

  /** The local test is exact: after a move, it reports a win iff some complete line
      passes through the played cell. */
  lemma LocalWinDetection(b: Board, row: int, column: int)
    requires WellFormed(b) && InRange(Cell(row, column)) && b[row][column] != Empty
    ensures TurnWon(b, row, column) <==>
      exists k :: 0 <= k < |Lines()| && Cell(row, column) in Lines()[k] && Complete(b, Lines()[k])
  {
    var ls := Lines();
    if TurnWon(b, row, column) {
      var line := WinningLine(b, row, column);
      var k :| 0 <= k < |ls| && ls[k] == line;
      assert Cell(row, column) in ls[k] && Complete(b, ls[k]);
    }
    if k :| 0 <= k < |ls| && Cell(row, column) in ls[k] && Complete(b, ls[k]) {
      CompleteLineThroughCell(b, row, column, k);
    }
  }

  /** A complete line through (row, column) makes the local test report a win. */
  lemma CompleteLineThroughCell(b: Board, row: int, column: int, k: int)
    requires WellFormed(b) && InRange(Cell(row, column))
    requires 0 <= k < |Lines()| && Cell(row, column) in Lines()[k] && Complete(b, Lines()[k])
    ensures TurnWon(b, row, column)
  {
    var ls := Lines();
    var m :| 0 <= m < |ls[k]| && ls[k][m] == Cell(row, column);
    if k < BoardSize {
      assert ls[k] == RowLine(k);
      assert RowWon(b, row, column) by {
        assert forall i :: 0 <= i < BoardSize ==> b[row][i] == At(b, ls[k][i]);
      }
    } else if k < 2 * BoardSize {
      assert ls[k] == ColumnLine(k - BoardSize);
      assert ColumnWon(b, row, column) by {
        assert forall i :: 0 <= i < BoardSize ==> b[i][column] == At(b, ls[k][i]);
      }
    } else if k == 2 * BoardSize {
      assert ls[k] == MainDiagonal();
      assert MainDiagonalWon(b) by {
        assert forall i :: 0 <= i < BoardSize ==> b[i][i] == At(b, ls[k][i]);
      }
    } else {
      assert ls[k] == AntiDiagonal();
      assert AntiDiagonalWon(b) by {
        assert forall i :: 0 <= i < BoardSize ==> b[i][BoardSize - 1 - i] == At(b, ls[k][i]);
      }
    }
  }

  /** Every complete line is detected when probed at any of its cells. */
  lemma CompleteLineDetected(b: Board, k: int, c: Cell)
    requires WellFormed(b) && 0 <= k < |Lines()| && Complete(b, Lines()[k]) && c in Lines()[k]
    ensures TurnWon(b, c.row, c.column)
  {
    var m :| 0 <= m < |Lines()[k]| && Lines()[k][m] == c;
    assert b[c.row][c.column] == At(b, Lines()[k][m]);
    LocalWinDetection(b, c.row, c.column);
  }

  /** Writing one cell only changes the completeness of lines through that cell. */
  lemma PlaceKeepsOtherLines(b: Board, c: Cell, v: int, line: seq<Cell>)
    requires WellFormed(b) && InRange(c) && CellsInRange(line) && c !in line
    ensures Complete(Place(b, c, v), line) == Complete(b, line)
  {
    var b' := Place(b, c, v);
    assert forall m :: 0 <= m < |line| ==> At(b', line[m]) == At(b, line[m]);
  }

  /** Why checking only the lines through the last move suffices: on a board with no
      complete line, a move at (row, column) produces a complete line somewhere exactly
      when the local test reports a win. */
  lemma LocalCheckSuffices(b: Board, c: Cell, v: int)
    requires WellFormed(b) && InRange(c) && v != Empty && !HasLine(b)
    ensures TurnWon(Place(b, c, v), c.row, c.column) <==> HasLine(Place(b, c, v))
  {
    var b' := Place(b, c, v);
    var ls := Lines();
    LocalWinDetection(b', c.row, c.column);
    if HasLine(b') {
      var k :| 0 <= k < |ls| && Complete(b', ls[k]);
      if c !in ls[k] {
        PlaceKeepsOtherLines(b, c, v, ls[k]);
        assert false;
      }
    }
  }
}

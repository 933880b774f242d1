/** The game engine: the live board, the turn counter, the running flag, whose turn it is
    and the recorded winning line, updated in place by each accepted move. */
module Engine {
  import opened Grid
  import opened Players
  import opened WinDetector
  import opened MoveSearch

  class Logic {
    const player1: Player
    const player2: Player
    /** The live board, BoardSize by BoardSize. */
    const board: array2<int>
    var isRunning: bool
    var currentPlayer: Player
    /** The cells of the completed line, once a move has won; empty otherwise. */
    var winningCells: seq<Cell>
    var turnCounter: int

    /** The live board as a board value. */
    ghost function Cells(): (b: Board)
      reads board
      requires board.Length0 == BoardSize && board.Length1 == BoardSize
      ensures WellFormed(b)
      ensures forall i, j :: 0 <= i < BoardSize && 0 <= j < BoardSize ==> b[i][j] == board[i, j]
    {
      seq(BoardSize, i requires 0 <= i < BoardSize reads board =>
        seq(BoardSize, j requires 0 <= j < BoardSize reads board => board[i, j]))
    }

    /** The engine's invariant: a BoardSize by BoardSize board in a consistent game state. */
    ghost predicate Valid()
      reads this, board
    {
      board.Length0 == BoardSize && board.Length1 == BoardSize
      && Consistent(Cells(), player1, player2, currentPlayer, isRunning, winningCells, turnCounter)
    }

    /** A move at (row, column) is accepted: the game runs, and the cell exists and is empty. */
    ghost predicate Accepts(row: int, column: int)
      reads this, board
      requires Valid()
    {
      isRunning && 0 <= row < BoardSize && 0 <= column < BoardSize && board[row, column] == Empty
    }

    /** A fresh game: running, every cell empty, no turn played, no line recorded,
        player1 to move. */
    constructor (player1: Player, player2: Player)
      ensures Valid() && fresh(board)
      ensures this.player1 == player1 && this.player2 == player2
      ensures isRunning && turnCounter == 0 && currentPlayer == player1 && winningCells == []
      ensures forall i, j :: 0 <= i < BoardSize && 0 <= j < BoardSize ==> board[i, j] == Empty
    {
      this.player1 := player1;
      this.player2 := player2;
      isRunning := true;
      board := new int[BoardSize, BoardSize]((i, j) => Empty);
      currentPlayer := player1;
      winningCells := [];
      turnCounter := 0;
      new;
      EmptyBoardHasNoLine(Cells());
      AllEmptyCount(Cells());
    }

    /** Plays the current player's mark at (row, column). The move is ignored when the game
        is over, the column lies off the board or the cell is taken; a row off the board is
        an error of the caller while the game runs. An accepted move writes exactly that
        cell, counts one turn, records a completed line, stops the game on a win or a full
        board, and hands the turn to the opponent. */
    method PlayTurn(row: int, column: int)
      requires Valid()
      requires isRunning ==> 0 <= row < BoardSize
      modifies this, board
      ensures Valid()
      ensures !old(Accepts(row, column)) ==> unchanged(this) && unchanged(board)
      ensures old(Accepts(row, column)) ==>
        Cells() == Place(old(Cells()), Cell(row, column), old(currentPlayer).id)
        && turnCounter == old(turnCounter) + 1
        && currentPlayer == Opponent(player1, player2, old(currentPlayer))
        && winningCells == WinningLine(Cells(), row, column)
        && (isRunning <==> !TurnWon(Cells(), row, column) && turnCounter < CellCount)
    {
      if !isRunning || !(0 <= column < BoardSize) || board[row, column] != Empty {
        return;
      }
      ApplyMove(row, column);
    }

    /** The effect of an accepted move. */
    method ApplyMove(row: int, column: int)
      requires Valid() && Accepts(row, column)
      modifies this, board
      ensures Valid()
      ensures Cells() == Place(old(Cells()), Cell(row, column), old(currentPlayer).id)
      ensures turnCounter == old(turnCounter) + 1
      ensures currentPlayer == Opponent(player1, player2, old(currentPlayer))
      ensures winningCells == WinningLine(Cells(), row, column)
      ensures isRunning <==> !TurnWon(Cells(), row, column) && turnCounter < CellCount
    {
      ghost var before := Cells();
      ghost var mover := currentPlayer;
      ghost var after := Place(before, Cell(row, column), mover.id);
      board[row, column] := currentPlayer.id;
      turnCounter := turnCounter + 1;
      SameCells(Cells(), after);
      AcceptedMoveConsistent(before, player1, player2, mover, turnCounter - 1, Cell(row, column));

      var won := HasTurnWon(row, column);
      assert Cells() == after && winningCells == WinningLine(after, row, column);
      if won || turnCounter == CellCount {
        isRunning := false;
      }

      currentPlayer := Opponent(player1, player2, currentPlayer);
    }

    /** The game was won: a line was recorded, which happens exactly when the board holds a
        complete line. */
    function IsWon(): (won: bool)
      reads this, board
      requires Valid()
      ensures won <==> HasLine(Cells())
      ensures won ==> !isRunning
    {
      winningCells != []
    }

    /** One turn of the automated player, played at once: while the game runs and the
        current player is automated, it plays the move the search proposes on a copy of the
        live board, which is always an empty cell; otherwise nothing changes. */
    method PlayAiTurn()
      requires Valid()
      modifies this, board
      ensures Valid()
      ensures !old(isRunning && currentPlayer.aiControlled) ==> unchanged(this) && unchanged(board)
      ensures old(isRunning && currentPlayer.aiControlled) ==>
        var m := Search(old(Cells()), player1, player2, old(currentPlayer), None).move;
        m.Some? && InRange(m.value) && IsEmptyAt(old(Cells()), m.value)
        && Cells() == Place(old(Cells()), m.value, old(currentPlayer).id)
        && turnCounter == old(turnCounter) + 1
        && currentPlayer == Opponent(player1, player2, old(currentPlayer))
        && winningCells == WinningLine(Cells(), m.value.row, m.value.column)
        && (isRunning <==> !TurnWon(Cells(), m.value.row, m.value.column) && turnCounter < CellCount)
    {
      if !isRunning || !currentPlayer.aiControlled {
        return;
      }
      var snapshot := CloneBoard(board);
      SameCells(snapshot, Cells());
      SearchFindsEmptyCell(snapshot, player1, player2, currentPlayer);
      var optimalMove := GetOptimalAiMove(snapshot, player1, player2, currentPlayer, None);
      PlayTurn(optimalMove.move.value.row, optimalMove.move.value.column);
    }

    /** A copy of a board, row by row: the copy has the board's shape and cells, and the
        board itself is left as it was. */
    static method CloneBoard(b: array2<int>) returns (result: Board)
      ensures |result| == b.Length0
      ensures forall i :: 0 <= i < |result| ==> |result[i]| == b.Length1
      ensures forall i, j :: 0 <= i < b.Length0 && 0 <= j < b.Length1 ==> result[i][j] == b[i, j]
    {
      result := [];
      var i := 0;
      while i < b.Length0
        invariant 0 <= i <= b.Length0 && |result| == i
        invariant forall k :: 0 <= k < i ==> |result[k]| == b.Length1
        invariant forall k, j :: 0 <= k < i && 0 <= j < b.Length1 ==> result[k][j] == b[k, j]
      {
        var row := [];
        var j := 0;
        while j < b.Length1
          invariant 0 <= j <= b.Length1 && |row| == j
          invariant forall m :: 0 <= m < j ==> row[m] == b[i, m]
        {
          row := row + [b[i, j]];
          j := j + 1;
        }
        result := result + [row];
        i := i + 1;
      }
    }

    /** The win test on the live board after a move at (row, column); a win records the
        cells of the first complete line among row, column, main and anti-diagonal. */
    method HasTurnWon(row: int, column: int) returns (won: bool)
      requires board.Length0 == BoardSize && board.Length1 == BoardSize
      requires 0 <= row < BoardSize && 0 <= column < BoardSize
      modifies this`winningCells
      ensures won == TurnWon(Cells(), row, column)
      ensures winningCells == old(winningCells) + WinningLine(Cells(), row, column)
    {
      var rowWon := RowUniform(row, column);
      if rowWon {
        RecordRow(row);
        return true;
      }

      var columnWon := ColumnUniform(row, column);
      if columnWon {
        RecordColumn(column);
        return true;
      }

      if row == column {
        var diagonalWon := MainDiagonalUniform();
        if diagonalWon {
          RecordMainDiagonal();
          return true;
        }
      }

      if row == BoardSize - 1 - column {
        var diagonalWon := AntiDiagonalUniform();
        if diagonalWon {
          RecordAntiDiagonal();
          return true;
        }
      }

      return false;
    }

    /** Appends the cells of row `row`, left to right, to the winning cells. */
    method RecordRow(row: int)
      modifies this`winningCells
      ensures winningCells == old(winningCells) + RowLine(row)
    {
      for i := 0 to BoardSize
        invariant winningCells == old(winningCells) + RowLine(row)[..i]
      {
        winningCells := winningCells + [Cell(row, i)];
      }
    }

    /** Appends the cells of column `column`, top to bottom, to the winning cells. */
    method RecordColumn(column: int)
      modifies this`winningCells
      ensures winningCells == old(winningCells) + ColumnLine(column)
    {
      for i := 0 to BoardSize
        invariant winningCells == old(winningCells) + ColumnLine(column)[..i]
      {
        winningCells := winningCells + [Cell(i, column)];
      }
    }

    /** Appends the cells of the main diagonal, top to bottom, to the winning cells. */
    method RecordMainDiagonal()
      modifies this`winningCells
      ensures winningCells == old(winningCells) + MainDiagonal()
    {
      for i := 0 to BoardSize
        invariant winningCells == old(winningCells) + MainDiagonal()[..i]
      {
        winningCells := winningCells + [Cell(i, i)];
      }
    }

    /** Appends the cells of the anti-diagonal, top to bottom, to the winning cells. */
    method RecordAntiDiagonal()
      modifies this`winningCells
      ensures winningCells == old(winningCells) + AntiDiagonal()
    {
      for i := 0 to BoardSize
        invariant winningCells == old(winningCells) + AntiDiagonal()[..i]
      {
        winningCells := winningCells + [Cell(i, BoardSize - 1 - i)];
      }
    }

    /** Whether every cell of row `row` equals the cell at (row, column). */
    method RowUniform(row: int, column: int) returns (uniform: bool)
      requires board.Length0 == BoardSize && board.Length1 == BoardSize
      requires 0 <= row < BoardSize && 0 <= column < BoardSize
      ensures uniform == RowWon(Cells(), row, column)
    {
      var i := 0;
      while i < BoardSize
        invariant 0 <= i <= BoardSize
        invariant forall k :: 0 <= k < i ==> board[row, k] == board[row, column]
      {
        if board[row, i] != board[row, column] {
          return false;
        }
        i := i + 1;
      }
      return true;
    }

    /** Whether every cell of column `column` equals the cell at (row, column). */
    method ColumnUniform(row: int, column: int) returns (uniform: bool)
      requires board.Length0 == BoardSize && board.Length1 == BoardSize
      requires 0 <= row < BoardSize && 0 <= column < BoardSize
      ensures uniform == ColumnWon(Cells(), row, column)
    {
      var i := 0;
      while i < BoardSize
        invariant 0 <= i <= BoardSize
        invariant forall k :: 0 <= k < i ==> board[k, column] == board[row, column]
      {
        if board[i, column] != board[row, column] {
          return false;
        }
        i := i + 1;
      }
      return true;
    }

    /** Whether every cell (i, i) equals the top-left corner. */
    method MainDiagonalUniform() returns (uniform: bool)
      requires board.Length0 == BoardSize && board.Length1 == BoardSize
      ensures uniform == MainDiagonalWon(Cells())
    {
      var i := 0;
      while i < BoardSize
        invariant 0 <= i <= BoardSize
        invariant forall k :: 0 <= k < i ==> board[k, k] == board[0, 0]
      {
        if board[i, i] != board[0, 0] {
          return false;
        }
        i := i + 1;
      }
      return true;
    }

    /** Whether every cell (i, BoardSize-1-i) equals the top-right corner; the corner itself
        is not compared, and the scan stops at the first difference. */
    method AntiDiagonalUniform() returns (uniform: bool)
      requires board.Length0 == BoardSize && board.Length1 == BoardSize
      ensures uniform == AntiDiagonalWon(Cells())
    {
      var diagUpWin := true;
      var i := 1;
      while i < BoardSize
        invariant 1 <= i <= BoardSize
        invariant diagUpWin <==> forall k :: 0 <= k < i ==> Cells()[k][BoardSize - 1 - k] == Cells()[0][BoardSize - 1]
      {
        if board[i, BoardSize - 1 - i] != board[0, BoardSize - 1] {
          diagUpWin := false;
          break;
        }
        i := i + 1;
      }
      return diagUpWin;
    }
  }

  /** A consistent game state. Every cell is empty or carries a player's mark; the current
      player is one of the two; the turn counter is the number of marked cells; the game
      runs exactly while no line is recorded and the board is not full; a line is recorded
      exactly when the board has a complete line, and then it is one of the complete lines. */
  ghost predicate Consistent(b: Board, player1: Player, player2: Player, current: Player,
                             running: bool, winning: seq<Cell>, turns: int)
  {
    WellFormed(b)
    && (forall i, j :: 0 <= i < BoardSize && 0 <= j < BoardSize ==>
          b[i][j] == Empty || b[i][j] == player1.id || b[i][j] == player2.id)
    && (current == player1 || current == player2)
    && turns + EmptyCount(b) == CellCount
    && (running <==> winning == [] && turns < CellCount)
    && (winning != [] <==> HasLine(b))
    && (winning != [] ==> winning in Lines() && Complete(b, winning))
  }

  /** An accepted move keeps the game consistent: the mover's mark on an empty cell of a
      running game, one more turn, the line the move completed (if any) recorded, the game
      stopped on a win or a full board, and the opponent to move. */
  lemma AcceptedMoveConsistent(b: Board, player1: Player, player2: Player, current: Player, turns: int, c: Cell)
    requires Consistent(b, player1, player2, current, true, [], turns)
    requires InRange(c) && IsEmptyAt(b, c)
    ensures var b' := Place(b, c, current.id);
      Consistent(b', player1, player2, Opponent(player1, player2, current),
                 !TurnWon(b', c.row, c.column) && turns + 1 < CellCount,
                 WinningLine(b', c.row, c.column), turns + 1)
  {
    var b' := Place(b, c, current.id);
    PlaceFillsOne(b, c, current.id);
    LocalCheckSuffices(b, c, current.id);
  }

  /** An all-empty board has no complete line. */
  lemma EmptyBoardHasNoLine(b: Board)
    requires WellFormed(b) && forall i, j :: 0 <= i < BoardSize && 0 <= j < BoardSize ==> b[i][j] == Empty
    ensures !HasLine(b)
  {
    forall k | 0 <= k < |Lines()|
      ensures !Complete(b, Lines()[k])
    {
      assert At(b, Lines()[k][0]) == Empty;
    }
  }
}

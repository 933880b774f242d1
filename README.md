# Tic-tac-toe game engine, modelled in Dafny

This project models `Logic`, the game engine behind a browser tic-tac-toe game. It is a
3×3 board of cells that are empty (0) or carry player 1's mark (1) or player 2's mark (2).
The engine also holds:

- a turn counter;
- a running flag;
- the player whose turn it is;
- the list of cells of the winning line.

A move is accepted only while the game runs and only onto an empty cell. An accepted move:

- writes the current player's mark into the cell;
- counts the turn;
- checks the row, the column and the diagonals through that cell for a win, and records
  the first complete line;
- stops the game on a win or a full board;
- hands the turn to the opponent.

An automated player chooses its move by an exhaustive negamax search over copies of the
board, rating positions -1 (loss), 0 (draw) or 1 (win). It breaks ties in favour of the
first cell in row-major order.

Modules, one per file:

- `Grid` (grid.dfy): board size, cell values, cell coordinates, boards as values, counting
  of empty cells.
- `Players` (players.dfy): the player record and the opponent lookup.
- `WinDetector` (win_detector.dfy):
  - the win test on the lines through the last move;
  - the line it records;
  - a whole-board reference, "some line of the board is complete" (`HasLine`);
  - the proof that the local test agrees with that reference.
- `MoveSearch` (move_search.dfy):
  - the search as a specification function (`Search`, `ScanPrefix`, `ChildScore`);
  - the lemmas that characterise its result;
  - the nested-loop method (`GetOptimalAiMove`) proved equal to the function.
- `Engine` (engine.dfy): class `Logic`, whose live board is an `array2<int>` updated in
  place. Its invariant `Valid` holds after every operation. `Valid` says:
  - the turn counter is the number of marked cells;
  - the game runs exactly while no line is recorded and the board is not full;
  - a line is recorded exactly when the board holds a complete line, and the recorded
    line is one of the board's complete lines (one move can complete two lines at once).

  Which line is recorded is stated by PlayTurn: at the winning move it is the first line
  the win test accepts, checking the row, the column, the main diagonal and the
  anti-diagonal in that order. A finished game never changes afterwards, because PlayTurn
  and PlayAiTurn leave a game that is not running unchanged.

## Model

| member | source | states |
|---|---|---|
| Grid.Place | TicTacToe.js:79-80 | Writing a mark into a copy of a board gives a board of the same shape with that value in the chosen cell and every other cell unchanged |
| Grid.PlaceFillsOne | TicTacToe.js:42-43 | Marking an empty cell lowers the number of empty cells by exactly one (the search's termination measure, and why the turn counter tracks the marked cells) |
| Grid.EmptyCountZero | TicTacToe.js:45 | A board never has more than BOARD_SIZE² empty cells, and it has none exactly when no cell is empty |
| Grid.AllEmptyCount | TicTacToe.js:30 | The freshly built board has BOARD_SIZE² empty cells |
| Players.Opponent | TicTacToe.js:108-111 | The opponent is always one of the two players, and for either player of a game between distinct players it is the other one |
| Players.OpponentInvolution | TicTacToe.js:108-111 | Taking the opponent twice gives back the original player |
| WinDetector.TurnWon | TicTacToe.js:113-158 | The win test after a move at (row, column): the row is uniform, or the column is, or the cell is on the main diagonal and that diagonal is uniform, or it is on the anti-diagonal and that diagonal is uniform (its exactness is LocalWinDetection) |
| WinDetector.WinningLine | TicTacToe.js:113-155 | The recorded line is non-empty exactly when the win test accepts. It is then one of the board's lines, BOARD_SIZE cells long, and passes through the played cell; when that cell is marked it is a complete line. Of the lines the test accepts, it is the first in the order row, column, main diagonal, anti-diagonal |
| WinDetector.LocalWinDetection | TicTacToe.js:113-158 | After a move onto a marked cell, the win test reports a win exactly when some complete line passes through the played cell |
| WinDetector.CompleteLineThroughCell | TicTacToe.js:117-155 | A complete row, column, main diagonal or anti-diagonal through the played cell makes the corresponding branch of the win test succeed |
| WinDetector.CompleteLineDetected | TicTacToe.js:113-158 | A complete line is detected whichever of its cells the test is run on |
| WinDetector.LocalCheckSuffices | TicTacToe.js:42-47 | On a board without a complete line, a move creates a complete line anywhere on the board exactly when the local test at the played cell reports a win |
| MoveSearch.Search | TicTacToe.js:68-92 | The search's rating is always within -1..1 |
| MoveSearch.ChildScore | TicTacToe.js:78-82 | The negated rating of the opponent's search after a candidate move is within -1..1 |
| MoveSearch.ScanPrefix | TicTacToe.js:73-88 | A partial scan keeps the initial minimum score until it has found a move. A move it has found is an empty, in-range cell scanned so far, with a score in -1..1 |
| MoveSearch.ScanPrefixSelects | TicTacToe.js:75-88 | After scanning the cells before (i, j), there is no move iff none of those cells is empty. Otherwise the move has the greatest score among them, and every earlier empty cell scores strictly less |
| MoveSearch.SearchResult | TicTacToe.js:69-91 | An incoming move that completed a line is rated -1 with that move. Otherwise: there is no move (rated 0) exactly when the board is full, and any move returned is an empty cell with the greatest negated child rating, the first such cell in row-major order |
| MoveSearch.SearchFindsEmptyCell | TicTacToe.js:63-64 | A top-level search on a board with an empty cell proposes an empty cell of that board |
| MoveSearch.GetOptimalAiMove | TicTacToe.js:68-92 | The nested loops over the cells compute exactly the search function's result |
| MoveSearch.RateMove | TicTacToe.js:78-82 | Marking a candidate cell in a copy and negating the opponent's search yields the candidate's child score |
| Engine.Logic.constructor | TicTacToe.js:27-37 | A new game runs and has an all-empty BOARD_SIZE² board, no turn played, no line recorded and player1 to move. It satisfies the engine invariant |
| Engine.Logic.Accepts | TicTacToe.js:40 | A move is accepted exactly when the game runs, the column lies on the board and the cell is empty (the row is on the board by PlayTurn's precondition) |
| Engine.Logic.PlayTurn | TicTacToe.js:39-53 | A move on a finished game, off the board's columns or onto a taken cell changes nothing. An accepted move writes the mover's mark into exactly that cell, counts one turn, records the line the win test finds, runs on only if there is no win and the board is not full, and hands the turn to the opponent. The invariant is kept |
| Engine.Logic.ApplyMove | TicTacToe.js:42-49 | The state after an accepted move, as in PlayTurn, with the invariant kept |
| Engine.Logic.IsWon | TicTacToe.js:55-57 | The game is won exactly when the board holds a complete line, and a won game is not running |
| Engine.Logic.PlayAiTurn | TicTacToe.js:59-66 | When the game runs and the current player is automated, the search's move exists, is an empty cell and is played as an accepted move. Otherwise nothing changes |
| Engine.Logic.CloneBoard | TicTacToe.js:94-106 | The copy has the board's shape and the same value in every cell |
| Engine.Logic.HasTurnWon | TicTacToe.js:113-158 | The result is the win test on the live board, and the recorded cells grow by exactly the first accepted line (nothing when there is no win) |
| Engine.Logic.RecordRow | TicTacToe.js:119 | Appends the row's cells left to right |
| Engine.Logic.RecordColumn | TicTacToe.js:126 | Appends the column's cells top to bottom |
| Engine.Logic.RecordMainDiagonal | TicTacToe.js:134 | Appends the main diagonal's cells top to bottom |
| Engine.Logic.RecordAntiDiagonal | TicTacToe.js:152 | Appends the anti-diagonal's cells top to bottom |
| Engine.Logic.RowUniform | TicTacToe.js:117 | True exactly when every cell of the row equals the played cell |
| Engine.Logic.ColumnUniform | TicTacToe.js:124 | True exactly when every cell of the column equals the played cell |
| Engine.Logic.MainDiagonalUniform | TicTacToe.js:131-132 | True exactly when every cell (i, i) equals the top-left corner |
| Engine.Logic.AntiDiagonalUniform | TicTacToe.js:141-149 | True exactly when every cell (i, N-1-i) equals the top-right corner, although the loop starts at i = 1 and stops at the first difference |
| Engine.AcceptedMoveConsistent | TicTacToe.js:40-49 | From a running consistent state, an accepted move yields a consistent state: the turn counter still counts the marked cells, a line is recorded exactly when the board holds a complete line and it is then the first line the win test accepts at the played cell (checking row, column, main diagonal, anti-diagonal), and the running flag and current player are updated |
| Engine.EmptyBoardHasNoLine | TicTacToe.js:30 | The initial all-empty board has no complete line, so an empty winning-cell list is consistent with it |

## Left out

- The user interface (`ViewControl`, `startGame`, `nextGame`, `resetGame`, TicTacToe.js:168-313) and the players' `score` and `name` fields (TicTacToe.js:161-166) are not modelled: they are rendering and form handling.
- Engine.Logic.PlayAiTurn: the 700 ms `setTimeout` delay is not modelled. The automated turn is a synchronous method that the caller invokes, and PlayTurn does not chain to it. Event-loop timing and interleaving are not modelled.
- The `turnCompleteEvent` callback (TicTacToe.js:35, 51) is a call into UI code and is not modelled.
- Engine.Logic.PlayTurn: a row outside the board while the game runs makes the source throw, because it reads `board[row][column]` from a missing row. The model requires `0 <= row < BOARD_SIZE` in that case. A column outside the board reads an undefined cell, and the move is ignored; this is modelled.
- Engine.Logic.PlayAiTurn: it copies the live board with CloneBoard before searching, where the source hands the live board to the search and copies it per candidate. Every search board is a value that the search never updates, so the per-candidate copy is a sequence update (Grid.Place).
- Players are compared by value rather than by object identity. Two player objects with equal fields would behave the same in the engine anyway.
- A player's mark is limited to 1 or 2, the only ids the game creates.
- Game-theoretic optimality of the search (that it never loses, or always blocks two in a row) is not stated. Proving it would need reasoning over the whole game tree.

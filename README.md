# Tic-Tac-Toe engine with depth-limited minimax

A model of the game engine of a console Tic-Tac-Toe program in which a human
('X') plays a computer ('O') on a 3×3 board. The computer chooses its move by
a three-ply minimax search. The search explores by placing a mark on the one
shared board, recursing and clearing the cell again. Leaves are scored by a
positional weight table:

```
3 2 3
2 4 2
3 2 3
```

The project has four modules, one per component of the engine:

- `BoardModel` (`board.dfy`) holds the cell values and the board.
  - The board is a row-major sequence of nine cells: row `r`, column `c` is at index `3 * r + c`.
  - It defines the queries: a valid move (`IsValidMove`), three in a row (`IsWinner`), a full board (`Full`) and the end-of-game decision (`GameOver`).
  - It defines the games the driver can play (`Replay`, `LegalGame`).
- `Evaluator` (`evaluator.dfy`) holds the weight table and the static score `Evaluate`.
- `SearchEngine` (`search.dfy`) defines the minimax search as a function of the board (`Minimax`), with the lemmas about it.
- `Game` (`engine.dfy`) is the program's class `TicTacToe`.
  - Its board is a 9-cell `array`, updated in place.
  - It has the methods the program runs: `IsBoardFull`, `EvaluateBoard`, `IsGameOver`, `PlayerMove`, `Minimax` and `ComputerMove`.
  - Each method is proved against the functions above.
  - `Minimax` is proved to leave the board exactly as it found it.

Modelling choices:

- The characters `'X'`, `'O'` and `' '` become the datatype `Cell` (`Player`, `Computer`, `Empty`).
  - The side to move is `Side`: a `Cell` other than `Empty`.
- The search returns arrays of two shapes: length 1 (a score) or length 3 (score, row, column). These become the datatype `SearchResult`, with the cases `ScoreOnly` and `ScoreAndMove`.
  - The initial `{-1, -1, -1}` becomes `NoMove`.
- The starting bounds `Integer.MIN_VALUE` / `Integer.MAX_VALUE` become an explicit "nothing scored yet" case, `None`. Every score beats it.
  - `ScoreBound` shows that scores stay within `24 + 5 * depth` of zero.
  - So for any depth the program can reach, `None` acts exactly like the 32-bit bounds.
- `IsWinner` follows the program's loop: `WinsFrom` tests row `i` and column `i` for `i` from 0 to 2, then the diagonals.
- The body of the search's double loop (lines 80-90) is the method `TryCell`, which the loop calls once per cell. Its steps and their order are those of the program.
- The search is proved to terminate because each recursive call fills one more cell. So, as in the program, no precondition is put on `depth`.
  - A negative depth never reaches `depth == 0`. The search then runs until the board is full or someone has a line.

The win scores `-10 + depth` and `10 - depth` use the depth still remaining.
So with more depth left, a computer line scores *less* and a human line scores *more*.
The search thus favours slower computer wins and faster human wins.
`TerminalScoresByDepth` states this.

## Model

| member | source | states |
|---|---|---|
| `BoardModel.WinnerIffThreeInARow` | src/TicTacToe.java:135-142 | The check of three rows, three columns and two diagonals holds exactly when some straight line of three grid cells (any start cell, any of the eight directions) is entirely `p`. |
| `BoardModel.WinnerIsEightLines` | src/TicTacToe.java:135-142 | The check (a loop over `i` testing row `i` and column `i`, then the two diagonals) holds exactly when one of the eight lines of the grid is entirely `p`. |
| `BoardModel.WinnerHasLine` | src/TicTacToe.java:135-142 | Each of the eight lines is a straight line of three cells. |
| `BoardModel.LineIsEnumerated` | src/TicTacToe.java:135-142 | Every straight line of three cells is one of the eight lines. |
| `BoardModel.MoveMakesNoOtherWinner` | src/TicTacToe.java:135-142 | Placing one side's mark never gives the other side a line it did not already have. |
| `BoardModel.ValidMoveExistsIffNotFull` | src/TicTacToe.java:113-115 | Some row and column pass the move-validity check exactly when the board is not full. In particular, the human's input loop can be satisfied whenever the game is in progress. |
| `BoardModel.NeverTwoWinners` | src/TicTacToe.java:26-33 | In a game played as the driver plays it, both sides never have three in a row at once. The driver's rules: the human first, alternate turns, every move onto an empty cell of a board whose game is not over. |
| `Evaluator.Weight` | src/TicTacToe.java:16-20 | Every entry of the weight table is between 2 and 4. |
| `Evaluator.PrefixIsWeightDifference` | src/TicTacToe.java:98-110 | After any number of cells of the row-major scan, the running score is the computer's weight so far minus the human's weight so far. |
| `Evaluator.EvaluateIsWeightDifference` | src/TicTacToe.java:98-110 | The static score is the total weight of computer cells minus the total weight of human cells. |
| `Evaluator.SidesShareTable` | src/TicTacToe.java:16-20 | The weights held by the two sides are non-negative and never add up to more than the table's total. |
| `Evaluator.EvaluateBound` | src/TicTacToe.java:98-110 | The static score of any board lies between -24 and 24, the total weight of the table. |
| `SearchEngine.SearchFinds` | src/TicTacToe.java:78-94 | The row-major loop over cells, started from any consistent best-so-far, ends with one of two results. Either no cell was empty and the result is `NoMove`. Or the result is the first empty cell whose adjusted score is best among all empty cells. |
| `SearchEngine.TerminalScores` | src/TicTacToe.java:74-76 | The checks come in a fixed order. A human line gives `ScoreOnly(-10 + depth)`. Otherwise a computer line gives `ScoreOnly(10 - depth)`. Otherwise a full board or `depth == 0` gives `ScoreOnly(Evaluate(b))`. A move is returned exactly when none of these holds. |
| `SearchEngine.MoveIsEmptyCell` | src/TicTacToe.java:70-90 | On a board with no line, not full and with depth left, the result is a move with row and column in 0..2, onto a cell that was empty. |
| `SearchEngine.MoveIsFirstBest` | src/TicTacToe.java:78-89 | The returned score is the adjusted score of the returned cell: the reply's score, plus the cell's weight for the computer or minus it for the human. It is the maximum (computer) or minimum (human) over all empty cells. Every earlier empty cell is strictly worse, so ties go to the first cell in row-major order. |
| `SearchEngine.ScoreBound` | src/TicTacToe.java:70-85 | With depth `d >= 0`, every score is within `24 + 5 * d` of zero. So no candidate can tie the 32-bit starting bounds. |
| `SearchEngine.TerminalScoresByDepth` | src/TicTacToe.java:74-75 | With more depth remaining, a human line scores higher and a computer line scores lower. |
| `SearchEngine.MoveIffInProgress` | src/TicTacToe.java:118-131 | With depth left, the search returns a move exactly when the end-of-game check says the game goes on. |
| `SearchEngine.ComputerMoveIsValid` | src/TicTacToe.java:63-66 | While the game goes on, the three-ply search for the computer returns a move that passes the move-validity check. |
| `Game.TicTacToe.constructor` | src/TicTacToe.java:10-14 | The game starts from a board of nine empty cells. |
| `Game.TicTacToe.IsBoardFull` | src/TicTacToe.java:145-152 | The early-exit scan returns true exactly when no cell is empty. |
| `Game.TicTacToe.EvaluateBoard` | src/TicTacToe.java:98-110 | The nested loop returns `Evaluate` of the board. That is the computer's weight minus the human's weight. |
| `Game.TicTacToe.IsGameOver` | src/TicTacToe.java:118-131 | Returns true exactly when the end-of-game decision is a human win, a computer win or a tie. |
| `Game.TicTacToe.PlayerMove` | src/TicTacToe.java:49-59 | An entry is accepted exactly when it passes the move-validity check. An accepted entry puts `Player` on that cell and changes nothing else. A refused entry leaves the board unchanged. |
| `Game.TicTacToe.TryCell` | src/TicTacToe.java:80-90 | One pass of the loop body for row `i`, column `j`. An occupied cell changes nothing. For an empty cell, the adjusted score is `Candidate`: the reply's score from the board with `side`'s mark there, plus or minus the cell's weight. It replaces the best so far exactly when `Improves` holds: nothing scored yet, or strictly better for `side`. The board is restored. |
| `Game.TicTacToe.Minimax` | src/TicTacToe.java:69-95 | The in-place search returns exactly `SearchEngine.Minimax` of the board it was called on. Afterwards every cell is back to its value before the call. |
| `Game.TicTacToe.ComputerMove` | src/TicTacToe.java:63-66 | On a board whose game goes on, exactly one cell changes. It was empty, it becomes `Computer`, and it is the row and column of `Minimax(Computer, 3)`. |

## Left out

- The game loop in `main`, its `Scanner`, and the printing in `printBoard` and in the messages of `isGameOver`. These are console input and output.
  - `GameOver` keeps the order of the end-of-game decision and which message it picks.
  - `LegalGame` keeps the order in which the loop lets the sides move.
- The retry loop of `playerMove`, its prompts and its handling of `NumberFormatException`. These are input parsing.
  - `PlayerMove` models one round of validation on already-parsed integers.
- ComputerMove: the requires excludes a finished board. There the program's search returns a score only, and reading its row at line 65 would throw `ArrayIndexOutOfBoundsException`. The driver never calls it then (lines 27-30).
- Java `int` width. Scores, depths and the starting bounds are unbounded integers.
  - The bounds become the "nothing scored yet" case. That case differs from `Integer.MIN_VALUE` / `Integer.MAX_VALUE` only for a score equal to a bound.
  - `ScoreBound` rules that out for every depth from 0 to about 400,000,000.
  - A negative depth is also accepted. Its win scores are not bounded, and for it the model does not capture overflow.
- The board as `char[][]` (three separate row arrays). It is modelled as one 9-cell array in row-major order. The program never aliases or replaces its rows, so nothing depends on the difference.
- Concrete positions (an opening move to the centre, a block on a diagonal) are not proved as separate facts. Checking them means evaluating the search on fixed boards, not proving general properties.

// The board model of the game: cells, the 3x3 grid held row-major in a
// sequence of nine cells, and the queries the engine and the driver ask of it
// (a valid move, three in a row, a full board, the end-of-game decision).

module BoardModel {

  /** What a cell holds: nothing yet, the human's mark 'X' or the computer's 'O'. */
  datatype Cell = Empty | Player | Computer

  /** A side that can move: a cell value other than Empty. */
  type Side = c: Cell | c != Empty witness Computer

  /** A cell position of the 3x3 grid in row-major order. */
  type CellIndex = k: int | 0 <= k < 9

  /** The grid, row-major: row r, column c sits at index 3 * r + c. */
  type Board = b: seq<Cell> | |b| == 9
    witness [Empty, Empty, Empty, Empty, Empty, Empty, Empty, Empty, Empty]

  /** The board the game starts from. */
  const EmptyBoard: Board := [Empty, Empty, Empty, Empty, Empty, Empty, Empty, Empty, Empty]

  /** The side that moves after `side`. */
  function Other(side: Side): (o: Side)
    ensures o != side
  {
    if side == Computer then Player else Computer
  }

  predicate InGrid(row: int, col: int) {
    0 <= row < 3 && 0 <= col < 3
  }

  function Index(row: int, col: int): CellIndex
    requires InGrid(row, col)
  {
    3 * row + col
  }

  /** Row and column are recovered from a cell index by division and remainder by 3. */
  lemma IndexRoundTrip(row: int, col: int)
    requires InGrid(row, col)
    ensures Index(row, col) / 3 == row && Index(row, col) % 3 == col
  {
  }

  /** A move the driver accepts from the human: on the grid and onto an empty cell. */
  predicate IsValidMove(b: Board, row: int, col: int) {
    InGrid(row, col) && b[Index(row, col)] == Empty
  }

  /** No empty cell is left. */
  predicate Full(b: Board) {
    forall k: CellIndex :: b[k] != Empty
  }

  /** Row i or column i belongs entirely to p. */
  predicate RowOrColumn(b: Board, p: Cell, i: int)
    requires 0 <= i < 3
  {
    (b[Index(i, 0)] == p && b[Index(i, 1)] == p && b[Index(i, 2)] == p) ||
    (b[Index(0, i)] == p && b[Index(1, i)] == p && b[Index(2, i)] == p)
  }

  /** Rows and columns i..2, then the two diagonals, in the order the game checks them. */
  predicate WinsFrom(b: Board, p: Cell, i: nat)
    requires i <= 3
    decreases 3 - i
  {
    if i < 3 then RowOrColumn(b, p, i) || WinsFrom(b, p, i + 1)
    else
      (b[Index(0, 0)] == p && b[Index(1, 1)] == p && b[Index(2, 2)] == p) ||
      (b[Index(0, 2)] == p && b[Index(1, 1)] == p && b[Index(2, 0)] == p)
  }

  /** p has three in a row. */
  predicate IsWinner(b: Board, p: Cell) {
    WinsFrom(b, p, 0)
  }

  /** The check spelled out: the eight lines of the grid. */
  predicate EightLines(b: Board, p: Cell) {
    (b[0] == p && b[1] == p && b[2] == p) || (b[0] == p && b[3] == p && b[6] == p) ||
    (b[3] == p && b[4] == p && b[5] == p) || (b[1] == p && b[4] == p && b[7] == p) ||
    (b[6] == p && b[7] == p && b[8] == p) || (b[2] == p && b[5] == p && b[8] == p) ||
    (b[0] == p && b[4] == p && b[8] == p) || (b[2] == p && b[4] == p && b[6] == p)
  }

  lemma WinnerIsEightLines(b: Board, p: Cell)
    ensures IsWinner(b, p) <==> EightLines(b, p)
  {
    assert WinsFrom(b, p, 0) == (RowOrColumn(b, p, 0) || WinsFrom(b, p, 1));
    assert WinsFrom(b, p, 1) == (RowOrColumn(b, p, 1) || WinsFrom(b, p, 2));
    assert WinsFrom(b, p, 2) == (RowOrColumn(b, p, 2) || WinsFrom(b, p, 3));
  }

  /** The message the driver shows after a move, or that the game goes on. */
  datatype Outcome = PlayerWins | ComputerWins | Tie | InProgress

  /** The end-of-game decision: a human win first, then a computer win, then a full board. */
  function GameOver(b: Board): Outcome {
    if IsWinner(b, Player) then PlayerWins
    else if IsWinner(b, Computer) then ComputerWins
    else if Full(b) then Tie
    else InProgress
  }

  // An independent description of "three in a row": three cells on a straight
  // line of the grid, walked from a start cell in a fixed direction.

  predicate StraightLine(row: int, col: int, dr: int, dc: int) {
    InGrid(row, col) && InGrid(row + 2 * dr, col + 2 * dc) &&
    -1 <= dr <= 1 && -1 <= dc <= 1 && (dr != 0 || dc != 0)
  }

  predicate Owns(b: Board, p: Cell, row: int, col: int, dr: int, dc: int)
    requires StraightLine(row, col, dr, dc)
  {
    b[3 * row + col] == p && b[3 * (row + dr) + col + dc] == p &&
    b[3 * (row + 2 * dr) + col + 2 * dc] == p
  }

  ghost predicate ThreeInARow(b: Board, p: Cell) {
    exists row, col, dr, dc :: StraightLine(row, col, dr, dc) && Owns(b, p, row, col, dr, dc)
  }

  /** The eight enumerated lines are exactly the straight lines of three cells. */
  lemma WinnerIffThreeInARow(b: Board, p: Cell)
    ensures IsWinner(b, p) <==> ThreeInARow(b, p)
  {
    WinnerIsEightLines(b, p);
    if IsWinner(b, p) {
      WinnerHasLine(b, p);
    }
    if ThreeInARow(b, p) {
      var row, col, dr, dc :| StraightLine(row, col, dr, dc) && Owns(b, p, row, col, dr, dc);
      LineIsEnumerated(b, p, row, col, dr, dc);
    }
  }

  lemma WinnerHasLine(b: Board, p: Cell)
    requires EightLines(b, p)
    ensures ThreeInARow(b, p)
  {
    if (b[0] == p && b[1] == p && b[2] == p) || (b[3] == p && b[4] == p && b[5] == p) ||
       (b[6] == p && b[7] == p && b[8] == p) {
      RowHasLine(b, p);
    } else if (b[0] == p && b[3] == p && b[6] == p) || (b[1] == p && b[4] == p && b[7] == p) ||
              (b[2] == p && b[5] == p && b[8] == p) {
      ColumnHasLine(b, p);
    } else if b[0] == p && b[4] == p && b[8] == p {
      LineWitness(b, p, 0, 0, 1, 1);
    } else {
      LineWitness(b, p, 0, 2, 1, -1);
    }
  }

  lemma RowHasLine(b: Board, p: Cell)
    requires (b[0] == p && b[1] == p && b[2] == p) || (b[3] == p && b[4] == p && b[5] == p) ||
             (b[6] == p && b[7] == p && b[8] == p)
    ensures ThreeInARow(b, p)
  {
    if b[0] == p && b[1] == p && b[2] == p {
      LineWitness(b, p, 0, 0, 0, 1);
    } else if b[3] == p && b[4] == p && b[5] == p {
      LineWitness(b, p, 1, 0, 0, 1);
    } else {
      LineWitness(b, p, 2, 0, 0, 1);
    }
  }

  lemma ColumnHasLine(b: Board, p: Cell)
    requires (b[0] == p && b[3] == p && b[6] == p) || (b[1] == p && b[4] == p && b[7] == p) ||
             (b[2] == p && b[5] == p && b[8] == p)
    ensures ThreeInARow(b, p)
  {
    if b[0] == p && b[3] == p && b[6] == p {
      LineWitness(b, p, 0, 0, 1, 0);
    } else if b[1] == p && b[4] == p && b[7] == p {
      LineWitness(b, p, 0, 1, 1, 0);
    } else {
      LineWitness(b, p, 0, 2, 1, 0);
    }
  }

  lemma LineWitness(b: Board, p: Cell, row: int, col: int, dr: int, dc: int)
    requires StraightLine(row, col, dr, dc) && Owns(b, p, row, col, dr, dc)
    ensures ThreeInARow(b, p)
  {
  }

  lemma LineIsEnumerated(b: Board, p: Cell, row: int, col: int, dr: int, dc: int)
    requires StraightLine(row, col, dr, dc) && Owns(b, p, row, col, dr, dc)
    ensures EightLines(b, p)
  {
    if dr == 0 {
      assert row == 0 || row == 1 || row == 2;
      assert (col == 0 && dc == 1) || (col == 2 && dc == -1);
    } else if dc == 0 {
      assert col == 0 || col == 1 || col == 2;
      assert (row == 0 && dr == 1) || (row == 2 && dr == -1);
    } else {
      assert (row == 0 && dr == 1) || (row == 2 && dr == -1);
      assert (col == 0 && dc == 1) || (col == 2 && dc == -1);
    }
  }

  /** A mark of p never completes a line of another side q. */
  lemma MoveMakesNoOtherWinner(b: Board, k: CellIndex, p: Cell, q: Cell)
    requires p != q && !IsWinner(b, q)
    ensures !IsWinner(b[k := p], q)
  {
    var b' := b[k := p];
    WinnerIsEightLines(b, q);
    WinnerIsEightLines(b', q);
    assert forall j: CellIndex :: b'[j] == q ==> b[j] == q;
  }

  /** The human always has a valid move to enter exactly when the board is not full. */
  lemma ValidMoveExistsIffNotFull(b: Board)
    ensures (exists row, col :: IsValidMove(b, row, col)) <==> !Full(b)
  {
    if !Full(b) {
      var k: CellIndex :| b[k] == Empty;
      assert IsValidMove(b, k / 3, k % 3);
    }
  }

  // Termination measure of the search: the number of empty cells.

  function EmptyCount(s: seq<Cell>): nat {
    if s == [] then 0 else (if s[0] == Empty then 1 else 0) + EmptyCount(s[1..])
  }

  lemma {:induction false} EmptyCountFill(s: seq<Cell>, k: nat, c: Cell)
    requires k < |s| && s[k] == Empty && c != Empty
    ensures EmptyCount(s[k := c]) + 1 == EmptyCount(s)
  {
    if k == 0 {
      assert s[k := c][1..] == s[1..];
    } else {
      EmptyCountFill(s[1..], k - 1, c);
      assert s[k := c][1..] == s[1..][k - 1 := c];
    }
  }

  // The games the driver can play: the human moves first, the sides
  // alternate, and every move is made onto an empty cell of a board whose
  // game is not yet over.

  function Mover(n: nat): Side {
    if n % 2 == 0 then Player else Computer
  }

  function Replay(moves: seq<CellIndex>): Board {
    if moves == [] then EmptyBoard
    else Replay(moves[..|moves| - 1])[moves[|moves| - 1] := Mover(|moves| - 1)]
  }

  ghost predicate LegalGame(moves: seq<CellIndex>) {
    forall n :: 0 <= n < |moves| ==>
      Replay(moves[..n])[moves[n]] == Empty && GameOver(Replay(moves[..n])) == InProgress
  }

  /** On every board a legal game reaches, at most one side has three in a row. */
  lemma NeverTwoWinners(moves: seq<CellIndex>)
    requires LegalGame(moves)
    ensures !(IsWinner(Replay(moves), Player) && IsWinner(Replay(moves), Computer))
  {
    if moves != [] {
      var n := |moves| - 1;
      var before := Replay(moves[..n]);
      assert GameOver(before) == InProgress;
      assert Replay(moves) == before[moves[n] := Mover(n)];
      MoveMakesNoOtherWinner(before, moves[n], Mover(n), Other(Mover(n)));
    }
  }
}

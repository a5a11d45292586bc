// The game engine as the program runs it: one board, updated in place. The
// search explores by placing a mark, recursing and clearing the cell again,
// so that the board it leaves behind is the board it was given.

module Game {
  import opened BoardModel
  import opened Evaluator
  import SearchEngine

  type SearchResult = SearchEngine.SearchResult

  class TicTacToe {
    /** The 3x3 board, row-major: row r, column c is board[3 * r + c]. */
    const board: array<Cell>

    predicate Valid() {
      board.Length == 9
    }

    constructor ()
      ensures Valid() && fresh(board) && board[..] == EmptyBoard
    {
      board := new Cell[9](_ => Empty);
    }

    /** Scans the rows for an empty cell and stops at the first one. */
    method IsBoardFull() returns (full: bool)
      requires Valid()
      ensures full <==> Full(board[..])
    {
      for i := 0 to 3
        invariant forall k :: 0 <= k < 3 * i ==> board[k] != Empty
      {
        for j := 0 to 3
          invariant forall k :: 0 <= k < 3 * i + j ==> board[k] != Empty
        {
          if board[Index(i, j)] == Empty {
            return false;
          }
        }
      }
      return true;
    }

    /** Adds the weight of every computer cell and subtracts that of every human cell. */
    method EvaluateBoard() returns (score: int)
      requires Valid()
      ensures score == Evaluate(board[..])
      ensures score == WeightOf(board[..], Computer, 9) - WeightOf(board[..], Player, 9)
    {
      score := 0;
      for i := 0 to 3
        invariant score == EvaluatePrefix(board[..], 3 * i)
      {
        for j := 0 to 3
          invariant score == EvaluatePrefix(board[..], 3 * i + j)
        {
          if board[Index(i, j)] == Computer {
            score := score + Weight(i, j);
          } else if board[Index(i, j)] == Player {
            score := score - Weight(i, j);
          }
        }
      }
      EvaluateIsWeightDifference(board[..]);
    }

    /** The end-of-game check the driver runs after each move. */
    method IsGameOver() returns (over: bool)
      requires Valid()
      ensures over <==> GameOver(board[..]) != InProgress
    {
      if IsWinner(board[..], Player) {
        return true;
      }
      if IsWinner(board[..], Computer) {
        return true;
      }
      var full := IsBoardFull();
      if full {
        return true;
      }
      return false;
    }

    /** One round of the human's turn on an entered row and column: an invalid
        entry is refused and leaves the board alone, a valid one places 'X'. */
    method PlayerMove(row: int, col: int) returns (accepted: bool)
      requires Valid()
      modifies board
      ensures accepted == IsValidMove(old(board[..]), row, col)
      ensures board[..] == if accepted then old(board[..])[Index(row, col) := Player] else old(board[..])
    {
      accepted := IsValidMove(board[..], row, col);
      if accepted {
        board[Index(row, col)] := Player;
      }
    }

    /** The depth-limited search, by make and unmake on the board. */
    method Minimax(side: Side, depth: int) returns (r: SearchResult)
      requires Valid()
      modifies board
      ensures board[..] == old(board[..])
      ensures r == SearchEngine.Minimax(old(board[..]), side, depth)
      decreases EmptyCount(board[..]), 1
    {
      ghost var b: Board := board[..];
      var bestScore: SearchEngine.Option<int> := SearchEngine.None;
      var bestMove := SearchEngine.NoMove;

      if IsWinner(board[..], Player) {
        return SearchEngine.ScoreOnly(-10 + depth);
      }
      if IsWinner(board[..], Computer) {
        return SearchEngine.ScoreOnly(10 - depth);
      }
      var full := IsBoardFull();
      if full || depth == 0 {
        var score := EvaluateBoard();
        return SearchEngine.ScoreOnly(score);
      }

      for i := 0 to 3
        invariant board[..] == b
        invariant SearchEngine.Search(b, side, depth, 3 * i, bestScore, bestMove) == SearchEngine.Minimax(b, side, depth)
      {
        for j := 0 to 3
          invariant board[..] == b
          invariant SearchEngine.Search(b, side, depth, 3 * i + j, bestScore, bestMove) == SearchEngine.Minimax(b, side, depth)
        {
          IndexRoundTrip(i, j);
          SearchEngine.SearchStep(b, side, depth, Index(i, j), bestScore, bestMove);
          bestScore, bestMove := TryCell(side, depth, i, j, bestScore, bestMove);
        }
      }
      return bestMove;
    }

    /** The body of the search's loop for row i, column j: if the cell is empty, place
        side's mark, score the reply, clear the cell, add the positional bonus and keep
        the result if it is strictly better than the best so far. */
    method TryCell(side: Side, depth: int, i: int, j: int,
                   bestScore: SearchEngine.Option<int>, bestMove: SearchResult)
      returns (bestScore': SearchEngine.Option<int>, bestMove': SearchResult)
      requires Valid() && InGrid(i, j)
      modifies board
      ensures board[..] == old(board[..])
      ensures var b: Board := old(board[..]);
        var k := Index(i, j);
        if b[k] != Empty then bestScore' == bestScore && bestMove' == bestMove
        else
          var adjusted := SearchEngine.Candidate(b, side, depth, k);
          if SearchEngine.Improves(side, adjusted, bestScore)
          then bestScore' == SearchEngine.Some(adjusted) && bestMove' == SearchEngine.ScoreAndMove(adjusted, i, j)
          else bestScore' == bestScore && bestMove' == bestMove
      decreases EmptyCount(board[..]), 0
    {
      ghost var b: Board := board[..];
      var k := Index(i, j);
      bestScore', bestMove' := bestScore, bestMove;
      if board[k] == Empty {
        board[k] := side;
        assert board[..] == b[k := side];
        EmptyCountFill(b, k, side);
        var reply := Minimax(Other(side), depth - 1);
        board[k] := Empty;
        assert board[..] == b;

        var adjustedScore := reply.score + (if side == Computer then Weight(i, j) else -Weight(i, j));
        if bestScore.None? || (side == Computer && adjustedScore > bestScore.value) ||
           (side == Player && adjustedScore < bestScore.value) {
          bestScore' := SearchEngine.Some(adjustedScore);
          bestMove' := SearchEngine.ScoreAndMove(adjustedScore, i, j);
        }
      }
    }

    /** The computer's turn: search three plies ahead and place 'O' on the chosen cell. */
    method ComputerMove()
      requires Valid()
      requires GameOver(board[..]) == InProgress
      modifies board
      ensures var m := SearchEngine.Minimax(old(board[..]), Computer, 3);
        m.ScoreAndMove? && IsValidMove(old(board[..]), m.row, m.col) &&
        board[..] == old(board[..])[Index(m.row, m.col) := Computer]
    {
      ghost var b: Board := board[..];
      var bestMove := Minimax(Computer, 3);
      SearchEngine.MoveIsEmptyCell(b, Computer, 3);
      board[Index(bestMove.row, bestMove.col)] := Computer;
    }
  }
}

// The search engine as a function of the board: a depth-limited minimax
// that tries every empty cell in row-major order, adds the cell's positional
// weight once per ply and keeps the first strictly better candidate.

module SearchEngine {
  import opened BoardModel
  import opened Evaluator

  datatype Option<T> = None | Some(value: T)

  /** A bare score from a terminal position, or a score with the move that earns it. */
  datatype SearchResult = ScoreOnly(score: int) | ScoreAndMove(score: int, row: int, col: int)

  /** The result the search starts from before any cell has been scored. */
  const NoMove: SearchResult := ScoreAndMove(-1, -1, -1)

  /** The positional bonus of cell k for the side that moves there. */
  function Bonus(side: Side, k: CellIndex): (w: int)
    ensures side == Computer ==> 2 <= w <= 4
    ensures side == Player ==> -4 <= w <= -2
  {
    if side == Computer then Weights[k] else -Weights[k]
  }

  /** x is strictly better than y for side: larger for the computer, smaller for the human. */
  predicate Beats(side: Side, x: int, y: int) {
    (side == Computer && x > y) || (side == Player && x < y)
  }

  /** A candidate replaces the best so far; nothing scored yet (None) stands for the
      starting bound, which every score beats. */
  predicate Improves(side: Side, adjusted: int, best: Option<int>) {
    best.None? || Beats(side, adjusted, best.value)
  }

  /** The search's value for a board, the side to move and the remaining depth. */
  function Minimax(b: Board, side: Side, depth: int): SearchResult
    decreases EmptyCount(b), 11
  {
    if IsWinner(b, Player) then ScoreOnly(-10 + depth)
    else if IsWinner(b, Computer) then ScoreOnly(10 - depth)
    else if Full(b) || depth == 0 then ScoreOnly(Evaluate(b))
    else Search(b, side, depth, 0, None, NoMove)
  }

  /** The adjusted score of moving side onto the empty cell k: the reply's score plus the bonus. */
  function Candidate(b: Board, side: Side, depth: int, k: CellIndex): int
    requires b[k] == Empty
    decreases EmptyCount(b), 0
  {
    EmptyCountFill(b, k, side);
    Minimax(b[k := side], Other(side), depth - 1).score + Bonus(side, k)
  }

  /** The loop over cells k..8, carrying the best score and the best result so far. */
  function Search(b: Board, side: Side, depth: int, k: nat, bestScore: Option<int>, bestMove: SearchResult): SearchResult
    requires k <= 9
    decreases EmptyCount(b), 10 - k
  {
    if k == 9 then bestMove
    else if b[k] != Empty then Search(b, side, depth, k + 1, bestScore, bestMove)
    else
      var adjusted := Candidate(b, side, depth, k);
      if Improves(side, adjusted, bestScore) then
        Search(b, side, depth, k + 1, Some(adjusted), ScoreAndMove(adjusted, k / 3, k % 3))
      else
        Search(b, side, depth, k + 1, bestScore, bestMove)
  }

  /** One iteration of the loop over cells. */
  lemma SearchStep(b: Board, side: Side, depth: int, k: CellIndex, bestScore: Option<int>, bestMove: SearchResult)
    ensures b[k] != Empty ==>
      Search(b, side, depth, k, bestScore, bestMove) == Search(b, side, depth, k + 1, bestScore, bestMove)
    ensures b[k] == Empty ==>
      var adjusted := Candidate(b, side, depth, k);
      Search(b, side, depth, k, bestScore, bestMove) ==
        if Improves(side, adjusted, bestScore)
        then Search(b, side, depth, k + 1, Some(adjusted), ScoreAndMove(adjusted, k / 3, k % 3))
        else Search(b, side, depth, k + 1, bestScore, bestMove)
  {
  }

  /** Nothing decides the game and the depth is not used up: the search tries cells. */
  predicate Searches(b: Board, depth: int) {
    !IsWinner(b, Player) && !IsWinner(b, Computer) && !Full(b) && depth != 0
  }

  /** The candidate score of every empty cell, 0 for the others. */
  ghost function CandidateScores(b: Board, side: Side, depth: int): (cs: seq<int>)
    ensures |cs| == 9
    ensures forall k: CellIndex :: b[k] == Empty ==> cs[k] == Candidate(b, side, depth, k)
  {
    seq(9, k => if 0 <= k < 9 && b[k] == Empty then Candidate(b, side, depth, k) else 0)
  }

  /** r names an empty cell below n whose score in cs is best among the empty cells
      below n, and strictly better than every empty cell before it. */
  ghost predicate FirstBest(b: Board, side: Side, cs: seq<int>, n: nat, r: SearchResult)
    requires |cs| == 9
  {
    r.ScoreAndMove? && InGrid(r.row, r.col) && Index(r.row, r.col) < n &&
    b[Index(r.row, r.col)] == Empty && r.score == cs[Index(r.row, r.col)] &&
    (forall k: CellIndex :: k < n && b[k] == Empty ==> !Beats(side, cs[k], r.score)) &&
    (forall k: CellIndex :: k < Index(r.row, r.col) && b[k] == Empty ==> Beats(side, r.score, cs[k]))
  }

  /** What the loop carries after the cells below n. */
  ghost predicate SearchState(b: Board, side: Side, cs: seq<int>, n: nat, bestScore: Option<int>, bestMove: SearchResult)
    requires |cs| == 9
  {
    if bestScore.None? then
      bestMove == NoMove && forall k: CellIndex :: k < n ==> b[k] != Empty
    else
      bestMove.score == bestScore.value && FirstBest(b, side, cs, n, bestMove)
  }

  lemma SkipKeepsState(b: Board, side: Side, cs: seq<int>, n: nat, bestScore: Option<int>, bestMove: SearchResult)
    requires |cs| == 9 && n < 9 && b[n] != Empty && SearchState(b, side, cs, n, bestScore, bestMove)
    ensures SearchState(b, side, cs, n + 1, bestScore, bestMove)
  {
  }

  lemma ImproveKeepsState(b: Board, side: Side, cs: seq<int>, n: nat, bestScore: Option<int>, bestMove: SearchResult)
    requires |cs| == 9 && n < 9 && b[n] == Empty && SearchState(b, side, cs, n, bestScore, bestMove)
    requires Improves(side, cs[n], bestScore)
    ensures SearchState(b, side, cs, n + 1, Some(cs[n]), ScoreAndMove(cs[n], n / 3, n % 3))
  {
    var m := ScoreAndMove(cs[n], n / 3, n % 3);
    assert Index(m.row, m.col) == n;
  }

  lemma KeepKeepsState(b: Board, side: Side, cs: seq<int>, n: nat, bestScore: Option<int>, bestMove: SearchResult)
    requires |cs| == 9 && n < 9 && b[n] == Empty && SearchState(b, side, cs, n, bestScore, bestMove)
    requires !Improves(side, cs[n], bestScore)
    ensures SearchState(b, side, cs, n + 1, bestScore, bestMove)
  {
  }

  lemma {:induction false} SearchFinds(b: Board, side: Side, depth: int, cs: seq<int>, n: nat,
                                       bestScore: Option<int>, bestMove: SearchResult)
    requires |cs| == 9 && forall k: CellIndex :: b[k] == Empty ==> cs[k] == Candidate(b, side, depth, k)
    requires n <= 9 && SearchState(b, side, cs, n, bestScore, bestMove)
    ensures var r := Search(b, side, depth, n, bestScore, bestMove);
      (r == NoMove && forall k: CellIndex :: b[k] != Empty) || FirstBest(b, side, cs, 9, r)
    decreases 9 - n
  {
    if n < 9 {
      SearchStep(b, side, depth, n, bestScore, bestMove);
      if b[n] != Empty {
        SkipKeepsState(b, side, cs, n, bestScore, bestMove);
        SearchFinds(b, side, depth, cs, n + 1, bestScore, bestMove);
      } else if Improves(side, cs[n], bestScore) {
        ImproveKeepsState(b, side, cs, n, bestScore, bestMove);
        SearchFinds(b, side, depth, cs, n + 1, Some(cs[n]), ScoreAndMove(cs[n], n / 3, n % 3));
      } else {
        KeepKeepsState(b, side, cs, n, bestScore, bestMove);
        SearchFinds(b, side, depth, cs, n + 1, bestScore, bestMove);
      }
    }
  }

  /** The search returns a move exactly when it runs, and otherwise the terminal score,
      checked in the order: human line, computer line, full board or no depth left. */
  lemma TerminalScores(b: Board, side: Side, depth: int)
    ensures Minimax(b, side, depth).ScoreAndMove? <==> Searches(b, depth)
    ensures IsWinner(b, Player) ==> Minimax(b, side, depth) == ScoreOnly(-10 + depth)
    ensures !IsWinner(b, Player) && IsWinner(b, Computer) ==> Minimax(b, side, depth) == ScoreOnly(10 - depth)
    ensures !IsWinner(b, Player) && !IsWinner(b, Computer) && (Full(b) || depth == 0) ==>
      Minimax(b, side, depth) == ScoreOnly(Evaluate(b))
  {
    if Searches(b, depth) {
      MoveIsEmptyCell(b, side, depth);
    }
  }

  /** When the search runs, its move is on the grid and onto a cell that was empty,
      and its score is the adjusted score of that cell. */
  lemma MoveIsEmptyCell(b: Board, side: Side, depth: int)
    requires Searches(b, depth)
    ensures var r := Minimax(b, side, depth);
      r.ScoreAndMove? && InGrid(r.row, r.col) && b[Index(r.row, r.col)] == Empty &&
      r.score == Candidate(b, side, depth, Index(r.row, r.col))
  {
    SearchFinds(b, side, depth, CandidateScores(b, side, depth), 0, None, NoMove);
  }

  /** When the search runs, its move maximises (computer) or minimises (human) the
      candidate score over all empty cells, and ties go to the first such cell in
      row-major order. */
  lemma MoveIsFirstBest(b: Board, side: Side, depth: int)
    requires Searches(b, depth)
    ensures var r := Minimax(b, side, depth);
      r.ScoreAndMove? && InGrid(r.row, r.col) && b[Index(r.row, r.col)] == Empty &&
      r.score == Candidate(b, side, depth, Index(r.row, r.col)) &&
      (forall k: CellIndex :: b[k] == Empty ==>
        if side == Computer then Candidate(b, side, depth, k) <= r.score
        else r.score <= Candidate(b, side, depth, k)) &&
      (forall k: CellIndex :: k < Index(r.row, r.col) && b[k] == Empty ==>
        if side == Computer then Candidate(b, side, depth, k) < r.score
        else r.score < Candidate(b, side, depth, k))
  {
    SearchFinds(b, side, depth, CandidateScores(b, side, depth), 0, None, NoMove);
  }

  /** With depth d >= 0 left, every score lies within 24 + 5 * d of zero, far inside the
      32-bit range of the starting bounds. */
  lemma {:induction false} ScoreBound(b: Board, side: Side, depth: int)
    requires depth >= 0
    ensures -(24 + 5 * depth) <= Minimax(b, side, depth).score <= 24 + 5 * depth
    decreases EmptyCount(b)
  {
    if Searches(b, depth) {
      MoveIsEmptyCell(b, side, depth);
      var r := Minimax(b, side, depth);
      var m := Index(r.row, r.col);
      EmptyCountFill(b, m, side);
      ScoreBound(b[m := side], Other(side), depth - 1);
    } else if !IsWinner(b, Player) && !IsWinner(b, Computer) {
      EvaluateBound(b);
    }
  }

  /** The terminal scores depend on the remaining depth as written: with more depth left
      a computer line scores less and a human line scores more. */
  lemma TerminalScoresByDepth(b: Board, side: Side, d1: int, d2: int)
    requires d1 < d2
    ensures IsWinner(b, Player) ==> Minimax(b, side, d1).score < Minimax(b, side, d2).score
    ensures !IsWinner(b, Player) && IsWinner(b, Computer) ==>
      Minimax(b, side, d1).score > Minimax(b, side, d2).score
  {
  }

  /** With depth left, the search proposes a move exactly when the end-of-game check
      says the game goes on. */
  lemma MoveIffInProgress(b: Board, side: Side, depth: int)
    requires depth != 0
    ensures Minimax(b, side, depth).ScoreAndMove? <==> GameOver(b) == InProgress
  {
    TerminalScores(b, side, depth);
  }

  /** On a board where the game goes on, the computer's three-ply search picks a move
      the human could legally have entered: on the grid and onto an empty cell. */
  lemma ComputerMoveIsValid(b: Board)
    requires GameOver(b) == InProgress
    ensures var m := Minimax(b, Computer, 3);
      m.ScoreAndMove? && IsValidMove(b, m.row, m.col)
  {
    MoveIsEmptyCell(b, Computer, 3);
  }
}

// The static evaluator: a fixed positional weight per cell (corners 3, edges
// 2, centre 4) and the score of a board from the computer's point of view.

module Evaluator {
  import opened BoardModel

  /** The weight table, row-major. */
  const Weights: seq<int> := [3, 2, 3, 2, 4, 2, 3, 2, 3]

  function Weight(row: int, col: int): (w: int)
    requires InGrid(row, col)
    ensures 2 <= w <= 4
  {
    Weights[Index(row, col)]
  }

  /** What one cell adds to the score: its weight for the computer, minus it for the human. */
  function Contribution(c: Cell, w: int): int {
    if c == Computer then w else if c == Player then -w else 0
  }

  /** The score accumulated over the first n cells in row-major order. */
  function EvaluatePrefix(b: Board, n: nat): int
    requires n <= 9
  {
    if n == 0 then 0 else EvaluatePrefix(b, n - 1) + Contribution(b[n - 1], Weights[n - 1])
  }

  /** The static score of a board. */
  function Evaluate(b: Board): int {
    EvaluatePrefix(b, 9)
  }

  /** The total weight of the cells among the first n that hold p. */
  function WeightOf(b: Board, p: Cell, n: nat): int
    requires n <= 9
  {
    if n == 0 then 0 else WeightOf(b, p, n - 1) + (if b[n - 1] == p then Weights[n - 1] else 0)
  }

  /** The total weight of the first n cells. */
  function TableWeight(n: nat): int
    requires n <= 9
  {
    if n == 0 then 0 else TableWeight(n - 1) + Weights[n - 1]
  }

  lemma {:induction false} PrefixIsWeightDifference(b: Board, n: nat)
    requires n <= 9
    ensures EvaluatePrefix(b, n) == WeightOf(b, Computer, n) - WeightOf(b, Player, n)
  {
    if n > 0 {
      PrefixIsWeightDifference(b, n - 1);
    }
  }

  /** The score is the weight held by the computer minus the weight held by the human. */
  lemma EvaluateIsWeightDifference(b: Board)
    ensures Evaluate(b) == WeightOf(b, Computer, 9) - WeightOf(b, Player, 9)
  {
    PrefixIsWeightDifference(b, 9);
  }

  lemma {:induction false} SidesShareTable(b: Board, n: nat)
    requires n <= 9
    ensures 0 <= WeightOf(b, Computer, n) && 0 <= WeightOf(b, Player, n)
    ensures WeightOf(b, Computer, n) + WeightOf(b, Player, n) <= TableWeight(n)
  {
    if n > 0 {
      SidesShareTable(b, n - 1);
    }
  }

  /** No board scores more than the whole table, 24, in either direction. */
  lemma EvaluateBound(b: Board)
    ensures -24 <= Evaluate(b) <= 24
  {
    EvaluateIsWeightDifference(b);
    SidesShareTable(b, 9);
    assert TableWeight(9) == 24;
  }
}

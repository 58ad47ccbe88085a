/**
 * Per-colour move weights (SearchAlgorithm.MOVE_COST_LOOKUP,
 * calculateMoveCostBall, calculateMoveCost and identifyMovedMarble).
 */
module Costs {
  import opened Board

  /** The weight of moving a marble one cell, as calculateMoveCost's switch gives it. */
  function Weight(ball: char): int
  {
    if ball == 'B' then 1
    else if ball == 'G' then 3
    else if ball == 'R' then 10
    else 0
  }

  /**
   * MOVE_COST_LOOKUP: a 128-entry table indexed by character code, all 0
   * except B (code 66), G (71) and R (82).
   */
  function MoveCostLookup(code: int): (w: int)
    requires 0 <= code < 128
    ensures w == Weight(code as char)
  {
    if code == 66 then 1 else if code == 71 then 3 else if code == 82 then 10 else 0
  }

  /** calculateMoveCostBall: the lookup table, which only has entries for characters below 128. */
  function MoveCostBall(ball: char): (w: int)
    requires ball as int < 128
    ensures w == Weight(ball)
    ensures 0 <= w <= 10
    ensures w != 0 <==> ball == 'B' || ball == 'G' || ball == 'R'
  {
    MoveCostLookup(ball as int)
  }

  /** The first cell at index k or later where the two boards differ; Size when there is none. */
  function FirstDiff(from: seq<char>, to: seq<char>, k: int): (r: int)
    requires |from| == Size && |to| == Size && 0 <= k <= Size
    ensures k <= r <= Size
    ensures forall i :: k <= i < r ==> from[i] == to[i]
    ensures r < Size ==> from[r] != to[r]
    decreases Size - k
  {
    if k == Size then Size else if from[k] != to[k] then k else FirstDiff(from, to, k + 1)
  }

  /**
   * The marble identifyMovedMarble reports: at the first differing cell in
   * row-major order, the old cell when it is not empty, else the new one;
   * `_` when the boards are equal.
   */
  function MovedMarble(from: seq<char>, to: seq<char>): char
    requires |from| == Size && |to| == Size
  {
    var k := FirstDiff(from, to, 0);
    if k == Size then Empty else if from[k] != Empty then from[k] else to[k]
  }

  method IdentifyMovedMarble(from: seq<char>, to: seq<char>) returns (ball: char)
    requires |from| == Size && |to| == Size
    ensures ball == MovedMarble(from, to)
  {
    for i := 0 to Rows
      invariant forall k :: 0 <= k < 3 * i ==> from[k] == to[k]
    {
      for j := 0 to Cols
        invariant forall k :: 0 <= k < 3 * i + j ==> from[k] == to[k]
      {
        var k := 3 * i + j;
        if from[k] != to[k] {
          assert FirstDiff(from, to, 0) == k by {
            FirstDiffIs(from, to, 0, k);
          }
          return if from[k] != Empty then from[k] else to[k];
        }
      }
    }
    FirstDiffIs(from, to, 0, Size);
    return Empty;
  }

  lemma {:induction false} FirstDiffIs(from: seq<char>, to: seq<char>, k: int, j: int)
    requires |from| == Size && |to| == Size && 0 <= k <= j <= Size
    requires forall i :: k <= i < j ==> from[i] == to[i]
    requires j < Size ==> from[j] != to[j]
    ensures FirstDiff(from, to, k) == j
    decreases j - k
  {
    if k < j {
      FirstDiffIs(from, to, k + 1, j);
    }
  }

  /** After a legal move the moved marble is the ball that moved, whichever cell comes first. */
  lemma MovedMarbleOfMove(b: seq<char>, m: Move)
    requires LegalMove(b, m)
    ensures MovedMarble(b, Apply(b, m)) == m.ball
  {
    ApplyLegal(b, m);
    var a := Apply(b, m);
    var first := if m.src < m.dst then m.src else m.dst;
    FirstDiffIs(b, a, 0, first);
  }

  /** calculateMoveCost: the weight of the marble identifyMovedMarble finds. */
  method CalculateMoveCost(from: seq<char>, to: seq<char>) returns (w: int)
    requires |from| == Size && |to| == Size
    ensures w == Weight(MovedMarble(from, to))
    ensures forall m :: LegalMove(from, m) && to == Apply(from, m) ==> w == Weight(m.ball)
  {
    var ball := IdentifyMovedMarble(from, to);
    w := Weight(ball);
    forall m | LegalMove(from, m) && to == Apply(from, m) ensures w == Weight(m.ball) {
      MovedMarbleOfMove(from, m);
    }
  }
}

/**
 * A concrete two-marble puzzle on which DFBnBSearch's initial bound h(init)
 * is already below the cheapest solution: the start has red at (0, 0) and
 * blue at (0, 1), the goal has them the other way round.  h(init) is 11, every
 * first move gives a child of f at least 12, and swapping the marbles costs
 * 12 (blue steps right, red steps right, blue wraps round to (0, 0)).
 *
 * The boards are described by their cells (HoldsPair) rather than as
 * literals, and Pair builds one of each.
 */
module Instances {
  import opened Wrappers
  import opened Board
  import opened Costs
  import opened Paths
  import opened Heuristics
  import opened Results
  import opened Nodes
  import opened Dfbnb

  /** b holds colour ci at cell i, cj at cell j and nothing else. */
  predicate HoldsPair(b: seq<char>, i: int, j: int, ci: char, cj: char)
  {
    |b| == Size && 0 <= i < Size && 0 <= j < Size && i != j && b[i] == ci && b[j] == cj
    && forall k :: 0 <= k < Size && k != i && k != j ==> b[k] == Empty
  }

  /** The board with colour ci at cell i, cj at cell j and every other cell empty. */
  function Pair(i: int, j: int, ci: char, cj: char): (b: seq<char>)
    requires 0 <= i < Size && 0 <= j < Size && i != j
    ensures HoldsPair(b, i, j, ci, cj)
  {
    seq(Size, k => if k == i then ci else if k == j then cj else Empty)
  }

  /** The start: red at (0, 0), blue at (0, 1). */
  predicate IsSwapStart(b: seq<char>) { HoldsPair(b, 0, 1, 'R', 'B') }

  /** The goal: blue at (0, 0), red at (0, 1). */
  predicate IsSwapGoal(goal: seq<char>) { HoldsPair(goal, 0, 1, 'B', 'R') }

  /** The goal lists blue at (0, 0) only and red at (0, 1) only. */
  lemma {:induction false} GoalPositions(goal: seq<char>, n: int)
    requires IsSwapGoal(goal) && 2 <= n <= Size
    ensures Positions(goal, 'B', n) == [(0, 0)]
    ensures Positions(goal, 'R', n) == [(0, 1)]
  {
    if n == 2 {
      assert Positions(goal, 'B', 0) == [] && Positions(goal, 'R', 0) == [];
      assert Positions(goal, 'B', 1) == [(0, 0)] && Positions(goal, 'R', 1) == [];
    } else {
      GoalPositions(goal, n - 1);
      assert goal[n - 1] == Empty;
    }
  }

  /** The nearest goal cell of a colour listed once is that cell. */
  lemma MinDistSingle(p: (int, int), q: (int, int))
    requires OnGrid(p) && OnGrid(q)
    ensures MinDist(p, [q]) == Dist(p, q)
  {
    GridDistance(p.0, p.1, q.0, q.1);
    assert [q][..0] == [];
  }

  /** A blue marble's term on the goal is its distance to (0, 0). */
  lemma BlueTerm(goal: seq<char>, b: seq<char>, k: int)
    requires IsSwapGoal(goal) && ValidGrid(b) && 0 <= k < Size && b[k] == 'B'
    ensures CellTerm(goal, b, k) == Dist(Pos(k), (0, 0))
  {
    GoalPositions(goal, Size);
    var d := Dist(Pos(k), (0, 0));
    MinDistSingle(Pos(k), (0, 0));
    assert MoveCostBall(b[k]) == 1;
    TimesIsProduct(d, 1);
  }

  /** A red marble's term on the goal is ten times its distance to (0, 1). */
  lemma RedTerm(goal: seq<char>, b: seq<char>, k: int)
    requires IsSwapGoal(goal) && ValidGrid(b) && 0 <= k < Size && b[k] == 'R'
    ensures CellTerm(goal, b, k) == 10 * Dist(Pos(k), (0, 1))
  {
    GoalPositions(goal, Size);
    var d := Dist(Pos(k), (0, 1));
    MinDistSingle(Pos(k), (0, 1));
    assert MoveCostBall(b[k]) == 10;
    TimesIsProduct(d, 10);
  }

  /** On a board whose only marbles sit at i and j, the sum over the first n cells is their terms below n. */
  lemma {:induction false} PairSum(goal: seq<char>, b: seq<char>, i: int, j: int, n: int)
    requires |goal| == Size && ValidGrid(b) && 0 <= i < Size && 0 <= j < Size && i != j && 0 <= n <= Size
    requires forall k :: 0 <= k < Size && k != i && k != j ==> b[k] == Empty
    ensures HSum(goal, b, n) ==
      (if i < n then CellTerm(goal, b, i) else 0) + (if j < n then CellTerm(goal, b, j) else 0)
  {
    if n > 0 {
      PairSum(goal, b, i, j, n - 1);
      assert HSum(goal, b, n) == HSum(goal, b, n - 1) + CellTerm(goal, b, n - 1);
      if n - 1 != i && n - 1 != j {
        assert b[n - 1] == Empty;
      }
    }
  }

  /** The heuristic of a board holding blue at i, red at j and nothing else. */
  lemma PairHeuristic(goal: seq<char>, b: seq<char>, i: int, j: int)
    requires IsSwapGoal(goal) && ValidGrid(b) && HoldsPair(b, i, j, 'B', 'R')
    ensures Heuristic(goal, b) == Dist(Pos(i), (0, 0)) + 10 * Dist(Pos(j), (0, 1))
  {
    PairSum(goal, b, i, j, Size);
    BlueTerm(goal, b, i);
    RedTerm(goal, b, j);
  }

  /** Two different cells are at distance 1 or 2. */
  lemma CellsApart(k: int, c: int)
    requires 0 <= k < Size && 0 <= c < Size && k != c
    ensures OnGrid(Pos(k)) && OnGrid(Pos(c)) && 1 <= Dist(Pos(k), Pos(c)) <= 2
  {
    GridDistance(Row(k), Col(k), Row(c), Col(c));
  }

  /** The start and the goal are valid grids, and every colour of the start is on the goal. */
  lemma SwapValid(init: seq<char>, goal: seq<char>)
    requires IsSwapStart(init) && IsSwapGoal(goal)
    ensures ValidGrid(init) && ValidGrid(goal) && Covered(goal, init)
  {
    assert forall k :: 0 <= k < Size ==> init[k] == 'R' || init[k] == 'B' || init[k] == Empty;
    assert forall k :: 0 <= k < Size ==> goal[k] == 'R' || goal[k] == 'B' || goal[k] == Empty;
    assert goal[0] in goal && goal[1] in goal;
  }

  /** The start's heuristic: blue one step from (0, 0), red one step from (0, 1). */
  lemma StartHeuristic(init: seq<char>, goal: seq<char>)
    requires IsSwapStart(init) && IsSwapGoal(goal)
    ensures ValidGrid(init) && Heuristic(goal, init) == 11
  {
    SwapValid(init, goal);
    PairHeuristic(goal, init, 1, 0);
    CellsApart(1, 0);
    assert Pos(0) == (0, 0) && Pos(1) == (0, 1);
  }

  /** Every first move from the start, red's or blue's, gives a child of f above 11. */
  lemma FirstMovesPruned(init: seq<char>, goal: seq<char>, m: Move)
    requires IsSwapStart(init) && IsSwapGoal(goal) && LegalMove(init, m)
    ensures ValidGrid(init) && 11 < Child(goal, MakeNode(goal, init, None, 0, ""), m).F()
  {
    SwapValid(init, goal);
    if m.src == 0 {
      RedMovesFirst(init, goal, m);
    } else {
      BlueMovesFirst(init, goal, m);
    }
  }

  /** Red moving first leaves blue one step from (0, 0) and red at least one step from (0, 1). */
  lemma RedMovesFirst(init: seq<char>, goal: seq<char>, m: Move)
    requires IsSwapStart(init) && IsSwapGoal(goal) && LegalMove(init, m) && m.src == 0
    ensures 11 < Child(goal, MakeNode(goal, init, None, 0, ""), m).F()
  {
    SwapValid(init, goal);
    ApplyLegal(init, m);
    ApplyKeepsValid(init, m);
    var a := Apply(init, m);
    assert Pos(0) == (0, 0) && Pos(1) == (0, 1);
    assert m.ball == 'R' && m.dst != 1;
    assert HoldsPair(a, 1, m.dst, 'B', 'R');
    PairHeuristic(goal, a, 1, m.dst);
    CellsApart(1, 0);
    CellsApart(m.dst, 1);
  }

  /** Blue moving first leaves red ten times one step from (0, 1). */
  lemma BlueMovesFirst(init: seq<char>, goal: seq<char>, m: Move)
    requires IsSwapStart(init) && IsSwapGoal(goal) && LegalMove(init, m) && m.src != 0
    ensures 11 < Child(goal, MakeNode(goal, init, None, 0, ""), m).F()
  {
    SwapValid(init, goal);
    ApplyLegal(init, m);
    ApplyKeepsValid(init, m);
    var a := Apply(init, m);
    assert Pos(0) == (0, 0) && Pos(1) == (0, 1);
    assert m.src == 1 && m.ball == 'B' && m.dst != 0;
    assert HoldsPair(a, m.dst, 0, 'B', 'R');
    PairHeuristic(goal, a, m.dst, 0);
    CellsApart(m.dst, 0);
    CellsApart(0, 1);
  }

  /** Blue right, red right, blue right again round the torus. */
  function Swap(): seq<Move>
  {
    [Move(1, 2, 'B'), Move(0, 1, 'R'), Move(2, 0, 'B')]
  }

  /** The swap costs 1 + 10 + 1. */
  lemma SwapCost()
    ensures PathCost(Swap()) == 12
  {
    var ms := Swap();
    assert ms == [ms[0]] + [ms[1]] + [ms[2]];
    PathCostSnoc([], ms[0]);
    PathCostSnoc([ms[0]], ms[1]);
    PathCostSnoc([ms[0]] + [ms[1]], ms[2]);
  }

  /** Three moves, each legal where the one before leads, replay to where the third leads. */
  lemma ThreeMoves(b: seq<char>, ms: seq<Move>)
    requires |ms| == 3 && LegalMove(b, ms[0]) && LegalMove(Apply(b, ms[0]), ms[1])
    requires LegalMove(Apply(Apply(b, ms[0]), ms[1]), ms[2])
    ensures Legal(b, ms) && Replay(b, ms) == Apply(Apply(Apply(b, ms[0]), ms[1]), ms[2])
  {
    var b1 := Apply(b, ms[0]);
    var b2 := Apply(b1, ms[1]);
    var b3 := Apply(b2, ms[2]);
    var t1, t2 := ms[1..], ms[2..];
    assert t1[0] == ms[1] && t1[1..] == t2 && t2[0] == ms[2] && t2[1..] == [];
    assert Legal(b3, []) && Replay(b3, []) == b3;
    assert Legal(b2, t2) && Replay(b2, t2) == b3;
    assert Legal(b1, t1) && Replay(b1, t1) == b3;
  }

  /** The swap leads from the start to the goal at cost 12. */
  lemma SwapSolves(init: seq<char>, goal: seq<char>)
    requires IsSwapStart(init) && IsSwapGoal(goal)
    ensures Legal(init, Swap()) && Replay(init, Swap()) == goal && PathCost(Swap()) == 12
  {
    var ms := Swap();
    assert Neighbor(1, 3) == 2 && Neighbor(0, 3) == 1 && Neighbor(2, 3) == 0;
    var b1 := Apply(init, ms[0]);
    var b2 := Apply(b1, ms[1]);
    var b3 := Apply(b2, ms[2]);
    assert LegalMove(init, ms[0]) && LegalMove(b1, ms[1]) && LegalMove(b2, ms[2]);
    ThreeMoves(init, ms);
    forall k | 0 <= k < Size ensures b3[k] == goal[k] {
    }
    assert b3 == goal;
    SwapCost();
  }

  /**
   * On this puzzle the bound h(init) = 11 prunes every first move, although
   * a solution of cost 12 exists: DFBnBSearch.search reports "No Path".
   */
  lemma BoundBelowCheapest(init: seq<char>, goal: seq<char>)
    requires IsSwapStart(init) && IsSwapGoal(goal)
    ensures ValidGrid(init) && ValidGrid(goal) && Covered(goal, init)
    ensures Heuristic(goal, init) == 11
    ensures AllPruned(init, goal, Heuristic(goal, init))
    ensures Legal(init, Swap()) && Replay(init, Swap()) == goal && PathCost(Swap()) == 12
  {
    SwapValid(init, goal);
    StartHeuristic(init, goal);
    forall m | LegalMove(init, m) ensures 11 < Child(goal, MakeNode(goal, init, None, 0, ""), m).F() {
      FirstMovesPruned(init, goal, m);
    }
    SwapSolves(init, goal);
  }

  /**
   * Both searches on this puzzle: as written, "No Path" with the one start
   * node; as intended, a real solution, since the goal is reachable and the
   * corrected search reports "No Path" only for an unreachable goal.  Either
   * may run out of fuel.
   */
  method SwapSearches(init: seq<char>, goal: seq<char>, fuel: nat) returns (asWritten: Option<SearchResult>, corrected: Option<SearchResult>)
    requires IsSwapStart(init) && IsSwapGoal(goal)
    ensures fuel >= 2 ==> asWritten == Some(SearchResult(NoPath, 1, Finite(MaxCost)))
    ensures corrected.Some? ==> corrected.value.solution != NoPath && Solves(init, goal, corrected.value)
  {
    BoundBelowCheapest(init, goal);
    asWritten := Dfbnb.Search(init, goal, fuel);
    corrected := Dfbnb.SearchCorrected(init, goal, fuel);
  }

  /** The puzzle exists: Pair builds its start and its goal. */
  lemma SwapBoards()
    ensures IsSwapStart(Pair(0, 1, 'R', 'B')) && IsSwapGoal(Pair(0, 1, 'B', 'R'))
  {
  }
}

/**
 * The weighted nearest-same-label heuristic of SearchAlgorithm: toroidal
 * Manhattan distance, the goal-position table, and the sum over marbles of
 * weight times distance to the nearest goal cell holding the same label.
 */
module Heuristics {
  import opened Board
  import opened Costs
  import opened Paths

  /** Integer.MAX_VALUE, the initial minimum distance. */
  const IntMax: int := 2147483647

  function Abs(x: int): int { if x < 0 then -x else x }

  function Min(a: int, b: int): int { if a <= b then a else b }

  /** calculateCircularManhattanDistance: per axis the shorter way round, summed. */
  function CircularManhattan(x1: int, y1: int, x2: int, y2: int, rows: int, cols: int): int
  {
    Min(Abs(x1 - x2), rows - Abs(x1 - x2)) + Min(Abs(y1 - y2), cols - Abs(y1 - y2))
  }

  /** Distance between two cells of the 3x3 board. */
  function Dist(p: (int, int), q: (int, int)): int
  {
    CircularManhattan(p.0, p.1, q.0, q.1, Rows, Cols)
  }

  predicate OnGrid(p: (int, int)) { 0 <= p.0 < 3 && 0 <= p.1 < 3 }

  /**
   * On a 3x3 torus each axis contributes 1 when the coordinates differ and 0
   * otherwise, so the distance is symmetric, at most 2, and 0 exactly when
   * the cells coincide.
   */
  lemma GridDistance(x1: int, y1: int, x2: int, y2: int)
    requires 0 <= x1 < 3 && 0 <= y1 < 3 && 0 <= x2 < 3 && 0 <= y2 < 3
    ensures Min(Abs(x1 - x2), 3 - Abs(x1 - x2)) == (if x1 == x2 then 0 else 1)
    ensures Min(Abs(y1 - y2), 3 - Abs(y1 - y2)) == (if y1 == y2 then 0 else 1)
    ensures CircularManhattan(x1, y1, x2, y2, 3, 3) == CircularManhattan(x2, y2, x1, y1, 3, 3)
    ensures CircularManhattan(x1, y1, x2, y2, 3, 3) == 0 <==> x1 == x2 && y1 == y2
    ensures 0 <= CircularManhattan(x1, y1, x2, y2, 3, 3) <= 2
  {
  }

  /** Triangle inequality for the board distance. */
  lemma DistTriangle(p: (int, int), q: (int, int), r: (int, int))
    requires OnGrid(p) && OnGrid(q) && OnGrid(r)
    ensures Dist(p, r) <= Dist(p, q) + Dist(q, r)
  {
    GridDistance(p.0, p.1, q.0, q.1);
    GridDistance(q.0, q.1, r.0, r.1);
    GridDistance(p.0, p.1, r.0, r.1);
  }

  function Pos(k: int): (int, int) { (Row(k), Col(k)) }

  lemma PosOfCell(a: int, c: int)
    requires 0 <= a < 3 && 0 <= c < 3
    ensures Pos(3 * a + c) == (a, c)
  {
  }

  /** One toroidal step along an axis of length 3 stays on the axis and moves iff the step is non-zero. */
  lemma WrapStep(r: int, delta: int)
    requires 0 <= r < 3 && -1 <= delta <= 1
    ensures 0 <= (r + delta + 3) % 3 < 3
    ensures (r + delta + 3) % 3 == r <==> delta == 0
  {
    if r == 0 {
      assert (r + delta + 3) % 3 == delta + (if delta < 0 then 3 else 0);
    } else if r == 1 {
      assert (r + delta + 3) % 3 == 1 + delta;
    } else {
      assert (r + delta + 3) % 3 == (if delta > 0 then 0 else 2 + delta);
    }
  }

  /** A cell and its toroidal neighbour are at distance 1. */
  lemma NeighborDistance(k: int, d: int)
    requires 0 <= k < Size && 0 <= d < 4
    ensures OnGrid(Pos(k)) && OnGrid(Pos(Neighbor(k, d)))
    ensures Dist(Pos(k), Pos(Neighbor(k, d))) == 1
  {
    var di := if d == 0 then -1 else if d == 1 then 1 else 0;
    var dj := if d == 2 then -1 else if d == 3 then 1 else 0;
    var r, q := Row(k), Col(k);
    assert 0 <= r < 3 && 0 <= q < 3;
    WrapStep(r, di);
    WrapStep(q, dj);
    var a, c := (r + di + 3) % 3, (q + dj + 3) % 3;
    PosOfCell(a, c);
    assert Neighbor(k, d) == 3 * a + c;
    assert Pos(k) == (r, q) && Pos(Neighbor(k, d)) == (a, c);
    GridDistance(r, q, a, c);
    if d < 2 {
      assert a != r && c == q;
    } else {
      assert a == r && c != q;
    }
  }

  // ---------------------------------------------------------------------
  // Goal positions.

  /** The positions of the cells below n holding c, in row-major order. */
  function Positions(goal: seq<char>, c: char, n: int): (ps: seq<(int, int)>)
    requires 0 <= n <= |goal| == Size
    ensures forall t :: 0 <= t < |ps| ==> OnGrid(ps[t])
  {
    if n == 0 then []
    else Positions(goal, c, n - 1) + (if goal[n - 1] == c then [Pos(n - 1)] else [])
  }

  /** Every cell holding c contributes its position. */
  lemma {:induction false} PositionsContain(goal: seq<char>, c: char, n: int, k: int)
    requires 0 <= k < n <= |goal| == Size && goal[k] == c
    ensures Pos(k) in Positions(goal, c, n)
  {
    if k < n - 1 {
      PositionsContain(goal, c, n - 1, k);
    }
  }

  /** The table precomputeGoalPositions builds from the cells below n. */
  function GoalPositionsUpTo(goal: seq<char>, n: int): map<char, seq<(int, int)>>
    requires 0 <= n <= |goal| == Size
  {
    if n == 0 then map[]
    else
      var gp := GoalPositionsUpTo(goal, n - 1);
      var ball := goal[n - 1];
      if IsMarble(ball) then gp[ball := (if ball in gp then gp[ball] else []) + [Pos(n - 1)]] else gp
  }

  /** The table holds exactly the marble labels occurring below n, each with its positions. */
  lemma {:induction false} GoalPositionsUpToFacts(goal: seq<char>, n: int)
    requires 0 <= n <= |goal| == Size
    ensures forall c :: c in GoalPositionsUpTo(goal, n) <==> IsMarble(c) && Positions(goal, c, n) != []
    ensures forall c :: c in GoalPositionsUpTo(goal, n) ==> GoalPositionsUpTo(goal, n)[c] == Positions(goal, c, n)
  {
    if n > 0 {
      GoalPositionsUpToFacts(goal, n - 1);
    }
  }

  /** precomputeGoalPositions: each marble label of the goal mapped to its cells in row-major order. */
  function GoalPositions(goal: seq<char>): map<char, seq<(int, int)>>
    requires |goal| == Size
  {
    GoalPositionsUpTo(goal, Size)
  }

  /** getOrDefault(ball, emptyList). */
  function Lookup(gp: map<char, seq<(int, int)>>, c: char): seq<(int, int)>
  {
    if c in gp then gp[c] else []
  }

  /** The goal cells a marble of colour c may be matched with: all cells of the goal holding c. */
  lemma LookupGoalPositions(goal: seq<char>, c: char)
    requires |goal| == Size && IsMarble(c)
    ensures Lookup(GoalPositions(goal), c) == Positions(goal, c, Size)
  {
    GoalPositionsUpToFacts(goal, Size);
  }

  method PrecomputeGoalPositions(goal: seq<char>) returns (gp: map<char, seq<(int, int)>>)
    requires |goal| == Size
    ensures gp == GoalPositions(goal)
  {
    gp := map[];
    for i := 0 to Rows
      invariant gp == GoalPositionsUpTo(goal, 3 * i)
    {
      for j := 0 to Cols
        invariant gp == GoalPositionsUpTo(goal, 3 * i + j)
      {
        var ball := goal[3 * i + j];
        PosOfCell(i, j);
        ghost var next := GoalPositionsUpTo(goal, 3 * i + j + 1);
        assert next == if IsMarble(ball) then gp[ball := (if ball in gp then gp[ball] else []) + [(i, j)]] else gp;
        if ball != Empty && ball != Obstacle {
          gp := gp[ball := (if ball in gp then gp[ball] else []) + [(i, j)]];
        }
      }
    }
  }

  // ---------------------------------------------------------------------
  // The heuristic.

  /** The running minimum over the list, starting from Integer.MAX_VALUE. */
  function MinDist(p: (int, int), ps: seq<(int, int)>): (r: int)
    ensures forall t :: 0 <= t < |ps| ==> r <= Dist(p, ps[t])
    ensures r <= IntMax
  {
    if ps == [] then IntMax else Min(MinDist(p, ps[..|ps| - 1]), Dist(p, ps[|ps| - 1]))
  }

  /** A non-empty list attains its minimum. */
  lemma {:induction false} MinDistAttained(p: (int, int), ps: seq<(int, int)>)
    requires ps != [] && forall t :: 0 <= t < |ps| ==> Dist(p, ps[t]) <= IntMax
    ensures exists t :: 0 <= t < |ps| && MinDist(p, ps) == Dist(p, ps[t])
  {
    var init := ps[..|ps| - 1];
    if init != [] && MinDist(p, init) <= Dist(p, ps[|ps| - 1]) {
      MinDistAttained(p, init);
      var t :| 0 <= t < |init| && MinDist(p, init) == Dist(p, init[t]);
      assert ps[t] == init[t];
    }
  }

  /**
   * d * w for a weight w >= 0, written as repeated addition so that sums of
   * contributions stay linear for the solver.
   */
  function Times(d: int, w: int): int
    requires w >= 0
  {
    if w == 0 then 0 else Times(d, w - 1) + d
  }

  lemma {:induction false} TimesIsProduct(d: int, w: int)
    requires w >= 0
    ensures Times(d, w) == d * w
  {
    if w > 0 {
      TimesIsProduct(d, w - 1);
    }
  }

  /**
   * A marble's contribution: its weight times its distance to the nearest
   * goal cell of its colour (the cells the goal-position table lists for it,
   * by LookupGoalPositions).
   */
  function CellTerm(goal: seq<char>, b: seq<char>, k: int): int
    requires |goal| == Size && ValidGrid(b) && 0 <= k < Size
  {
    if IsMarble(b[k]) then Times(MinDist(Pos(k), Positions(goal, b[k], Size)), MoveCostBall(b[k])) else 0
  }

  /** The sum of the contributions of the cells below n, in row-major order. */
  function HSum(goal: seq<char>, b: seq<char>, n: int): int
    requires |goal| == Size && ValidGrid(b) && 0 <= n <= Size
  {
    if n == 0 then 0 else HSum(goal, b, n - 1) + CellTerm(goal, b, n - 1)
  }

  /**
   * heuristic: the sum of the marbles' contributions.  The method returns 0
   * on the goal board without summing; the sum is 0 there as well
   * (HeuristicZeroAtGoal).
   */
  function Heuristic(goal: seq<char>, b: seq<char>): int
    requires |goal| == Size && ValidGrid(b)
  {
    HSum(goal, b, Size)
  }

  /** Every marble on the board has its colour somewhere on the goal. */
  predicate Covered(goal: seq<char>, b: seq<char>)
    requires |b| == Size
  {
    forall k :: 0 <= k < Size && IsMarble(b[k]) ==> b[k] in goal
  }

  lemma {:induction false} PositionsNonEmpty(goal: seq<char>, c: char)
    requires |goal| == Size && c in goal
    ensures Positions(goal, c, Size) != []
  {
    var k :| 0 <= k < Size && goal[k] == c;
    PositionsContain(goal, c, Size, k);
  }

  /** With its colour on the goal, a marble's distance term is between 0 and 2. */
  lemma CellTermBounds(goal: seq<char>, b: seq<char>, k: int)
    requires |goal| == Size && ValidGrid(b) && 0 <= k < Size && Covered(goal, b)
    ensures 0 <= CellTerm(goal, b, k) <= 2 * MoveCostBall(b[k])
  {
    if IsMarble(b[k]) {
      var ps := Positions(goal, b[k], Size);
      PositionsNonEmpty(goal, b[k]);
      forall t | 0 <= t < |ps| ensures 0 <= Dist(Pos(k), ps[t]) <= 2 {
        GridDistance(Row(k), Col(k), ps[t].0, ps[t].1);
      }
      MinDistAttained(Pos(k), ps);
      TimesIsProduct(MinDist(Pos(k), ps), MoveCostBall(b[k]));
      MulBounds(MoveCostBall(b[k]), MinDist(Pos(k), ps), 2);
    }
  }

  lemma MulBounds(w: int, x: int, y: int)
    requires 0 <= w && 0 <= x <= y
    ensures 0 <= x * w <= y * w
  {
  }

  /** One more unit of distance costs one more weight. */
  lemma WeightedStep(x: int, y: int, w: int)
    requires 0 <= x <= 1 + y && 0 <= w
    ensures Times(x, w) <= w + Times(y, w)
  {
    TimesIsProduct(x, w);
    TimesIsProduct(y, w);
    MulBounds(w, x, 1 + y);
  }

  lemma {:induction false} HSumBounds(goal: seq<char>, b: seq<char>, n: int)
    requires |goal| == Size && ValidGrid(b) && 0 <= n <= Size && Covered(goal, b)
    ensures 0 <= HSum(goal, b, n) <= 20 * n
  {
    if n > 0 {
      HSumBounds(goal, b, n - 1);
      CellTermBounds(goal, b, n - 1);
    }
  }

  /**
   * When every marble's colour occurs on the goal the heuristic lies between
   * 0 and 180, far inside the Java int range.
   */
  lemma HeuristicBounds(goal: seq<char>, b: seq<char>)
    requires |goal| == Size && ValidGrid(b) && Covered(goal, b)
    ensures 0 <= Heuristic(goal, b) <= 180
  {
    HSumBounds(goal, b, Size);
  }

  /** The minimum over a list of board cells holding p itself is 0. */
  lemma MinDistZero(p: (int, int), ps: seq<(int, int)>)
    requires OnGrid(p) && p in ps && forall t :: 0 <= t < |ps| ==> OnGrid(ps[t])
    ensures MinDist(p, ps) == 0
  {
    forall t | 0 <= t < |ps| ensures 0 <= Dist(p, ps[t]) {
      GridDistance(p.0, p.1, ps[t].0, ps[t].1);
    }
    MinDistAttained(p, ps);
    GridDistance(p.0, p.1, p.0, p.1);
  }

  /** A marble of the goal is at distance 0 from the goal cell it occupies. */
  lemma CellTermOnGoal(goal: seq<char>, k: int)
    requires ValidGrid(goal) && 0 <= k < Size
    ensures CellTerm(goal, goal, k) == 0
  {
    if IsMarble(goal[k]) {
      PositionsContain(goal, goal[k], Size, k);
      MinDistZero(Pos(k), Positions(goal, goal[k], Size));
      TimesIsProduct(0, MoveCostBall(goal[k]));
    }
  }

  /** On the goal every marble sits on a goal cell of its own colour, so the formula is 0 too. */
  lemma {:induction false} HSumOnGoal(goal: seq<char>, n: int)
    requires ValidGrid(goal) && 0 <= n <= Size
    ensures HSum(goal, goal, n) == 0
  {
    if n > 0 {
      HSumOnGoal(goal, n - 1);
      CellTermOnGoal(goal, n - 1);
    }
  }

  /** The shortcut for the goal agrees with the sum: either way the goal scores 0. */
  lemma HeuristicZeroAtGoal(goal: seq<char>)
    requires ValidGrid(goal)
    ensures Heuristic(goal, goal) == 0
  {
    HSumOnGoal(goal, Size);
  }

  /** A legal move keeps every marble's colour on the goal. */
  lemma CoveredAfterMove(goal: seq<char>, b: seq<char>, m: Move)
    requires LegalMove(b, m) && Covered(goal, b)
    ensures Covered(goal, Apply(b, m))
  {
    ApplyLegal(b, m);
  }

  /** A cell's contribution depends only on what the cell holds. */
  lemma CellTermOfSame(goal: seq<char>, b: seq<char>, a: seq<char>, k: int)
    requires |goal| == Size && ValidGrid(b) && ValidGrid(a) && 0 <= k < Size && b[k] == a[k]
    ensures CellTerm(goal, b, k) == CellTerm(goal, a, k)
  {
  }

  /**
   * Two boards whose contributions differ only at src, 0 on a, and dst, 0
   * on b: the sums differ by those two contributions.
   */
  lemma {:induction false} HSumTwoCells(goal: seq<char>, b: seq<char>, a: seq<char>, src: int, dst: int, n: int)
    requires |goal| == Size && ValidGrid(b) && ValidGrid(a) && 0 <= n <= Size && 0 <= src < Size && 0 <= dst < Size
    requires CellTerm(goal, a, src) == 0 && CellTerm(goal, b, dst) == 0
    requires forall k :: 0 <= k < Size && k != src && k != dst ==> CellTerm(goal, b, k) == CellTerm(goal, a, k)
    ensures HSum(goal, b, n) + (if dst < n then CellTerm(goal, a, dst) else 0)
         == HSum(goal, a, n) + (if src < n then CellTerm(goal, b, src) else 0)
  {
    if n > 0 {
      HSumTwoCells(goal, b, a, src, dst, n - 1);
    }
  }

  /** Moving one step away changes the nearest distance by at most one. */
  lemma MinDistStep(p: (int, int), q: (int, int), ps: seq<(int, int)>)
    requires OnGrid(p) && OnGrid(q) && Dist(p, q) == 1
    requires ps != [] && forall t :: 0 <= t < |ps| ==> OnGrid(ps[t])
    ensures 0 <= MinDist(p, ps) <= 1 + MinDist(q, ps)
  {
    forall t | 0 <= t < |ps| ensures 0 <= Dist(p, ps[t]) <= 2 && 0 <= Dist(q, ps[t]) <= 2 {
      GridDistance(p.0, p.1, ps[t].0, ps[t].1);
      GridDistance(q.0, q.1, ps[t].0, ps[t].1);
    }
    MinDistAttained(q, ps);
    MinDistAttained(p, ps);
    var t :| 0 <= t < |ps| && MinDist(q, ps) == Dist(q, ps[t]);
    DistTriangle(p, q, ps[t]);
  }

  /** The moved marble's contribution falls by at most its weight. */
  lemma MovedTermStep(goal: seq<char>, b: seq<char>, m: Move)
    requires ValidGrid(goal) && ValidGrid(b) && LegalMove(b, m) && Covered(goal, b) && ValidGrid(Apply(b, m))
    ensures CellTerm(goal, b, m.src) <= Weight(m.ball) + CellTerm(goal, Apply(b, m), m.dst)
  {
    var a := Apply(b, m);
    assert a[m.dst] == m.ball by { ApplyLegal(b, m); }
    var ps := Positions(goal, m.ball, Size);
    PositionsNonEmpty(goal, m.ball);
    NeighborDistance(m.src, DirOf(m.src, m.dst));
    MinDistStep(Pos(m.src), Pos(m.dst), ps);
    WeightedStep(MinDist(Pos(m.src), ps), MinDist(Pos(m.dst), ps), MoveCostBall(m.ball));
  }

  /**
   * Consistency: the heuristic drops by at most the mover's weight over a
   * move, provided every marble's colour occurs on the goal.
   */
  lemma HeuristicConsistent(goal: seq<char>, b: seq<char>, m: Move)
    requires ValidGrid(goal) && ValidGrid(b) && LegalMove(b, m) && Covered(goal, b)
    ensures ValidGrid(Apply(b, m)) && Covered(goal, Apply(b, m))
    ensures Heuristic(goal, b) <= Weight(m.ball) + Heuristic(goal, Apply(b, m))
  {
    var a := Apply(b, m);
    ApplyLegal(b, m);
    ApplyKeepsValid(b, m);
    CoveredAfterMove(goal, b, m);
    forall k | 0 <= k < Size && k != m.src && k != m.dst ensures CellTerm(goal, b, k) == CellTerm(goal, a, k) {
      CellTermOfSame(goal, b, a, k);
    }
    HSumTwoCells(goal, b, a, m.src, m.dst, Size);
    HSumBounds(goal, b, Size);
    MovedTermStep(goal, b, m);
  }

  /** Admissibility: no legal move sequence reaching the goal costs less than the heuristic. */
  lemma {:induction false} HeuristicAdmissible(goal: seq<char>, b: seq<char>, ms: seq<Move>)
    requires ValidGrid(goal) && ValidGrid(b) && Covered(goal, b)
    requires Legal(b, ms) && Replay(b, ms) == goal
    ensures Heuristic(goal, b) <= PathCost(ms)
    decreases |ms|
  {
    if ms == [] {
      HeuristicZeroAtGoal(goal);
    } else {
      HeuristicConsistent(goal, b, ms[0]);
      HeuristicAdmissible(goal, Apply(b, ms[0]), ms[1..]);
      PathCostFront(ms[0], ms[1..]);
      assert [ms[0]] + ms[1..] == ms;
    }
  }

  /** The inner loop of heuristic: the running minimum of the distances to the listed goal cells. */
  method MinDistance(p: (int, int), ps: seq<(int, int)>) returns (minDistance: int)
    ensures minDistance == MinDist(p, ps)
  {
    minDistance := IntMax;
    for t := 0 to |ps|
      invariant minDistance == MinDist(p, ps[..t])
    {
      assert ps[..t + 1][..t] == ps[..t];
      var distance := CircularManhattan(p.0, p.1, ps[t].0, ps[t].1, Rows, Cols);
      minDistance := Min(minDistance, distance);
    }
    assert ps[..|ps|] == ps;
  }

  /** heuristic, with its loops: the goal shortcut, then the per-marble minimum distance times weight. */
  method ComputeHeuristic(goal: seq<char>, b: seq<char>) returns (total: int)
    requires ValidGrid(goal) && ValidGrid(b) && Covered(goal, b)
    ensures total == Heuristic(goal, b)
    ensures 0 <= total <= 180
  {
    HeuristicBounds(goal, b);
    if b == goal {
      HeuristicZeroAtGoal(goal);
      return 0;
    }
    var goalPositions := PrecomputeGoalPositions(goal);
    total := 0;
    for i := 0 to Rows
      invariant total == HSum(goal, b, 3 * i)
    {
      for j := 0 to Cols
        invariant total == HSum(goal, b, 3 * i + j)
      {
        var ball := b[3 * i + j];
        PosOfCell(i, j);
        if ball != Empty && ball != Obstacle {
          LookupGoalPositions(goal, ball);
          var minDistance := MinDistance((i, j), Lookup(goalPositions, ball));
          var cost := MoveCostBall(ball);
          TimesIsProduct(minDistance, cost);
          total := total + minDistance * cost;
        }
      }
    }
  }
}

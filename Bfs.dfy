/**
 * Breadth-first search (BFSSearch.search): a FIFO open list, the set of
 * boards in it, and the set of boards already expanded.  The Java keys
 * both sets by boardToString, the row-major cell string, so keys are
 * equal exactly when boards are; here the sets hold the boards themselves.
 */
module Bfs {
  import opened Wrappers
  import opened Board
  import opened Paths
  import opened Heuristics
  import opened Results
  import opened Nodes
  import opened Reach

  /** The number of moves on a node's path. */
  function Depth(n: Node): nat
  {
    |PathMoves(n)|
  }

  /** No board occurs twice. */
  predicate Distinct(xs: seq<seq<char>>)
  {
    forall i, j :: 0 <= i < j < |xs| ==> xs[i] != xs[j]
  }

  // ---------------------------------------------------------------------
  // Enqueueing the successors.

  /**
   * The inner loop over the successors of the expanded node: a successor is
   * appended, and its board added to the open set, iff its board is
   * neither closed nor already open.  Returns what was appended and the
   * new open set.
   */
  function Admit(ss: seq<Node>, closed: set<seq<char>>, open: set<seq<char>>): (seq<Node>, set<seq<char>>)
  {
    if ss == [] then ([], open)
    else
      var r := Admit(ss[..|ss| - 1], closed, open);
      var s := ss[|ss| - 1];
      if s.board !in closed && s.board !in r.1 then (r.0 + [s], r.1 + {s.board}) else r
  }

  /** The open set grows by exactly the appended boards. */
  lemma {:induction false} AdmitOpen(ss: seq<Node>, closed: set<seq<char>>, open: set<seq<char>>)
    ensures Admit(ss, closed, open).1 == open + Boards(Admit(ss, closed, open).0)
    decreases |ss|
  {
    if ss != [] {
      var init, s := ss[..|ss| - 1], ss[|ss| - 1];
      AdmitOpen(init, closed, open);
      var r := Admit(init, closed, open);
      if s.board !in closed && s.board !in r.1 {
        BoardsAppend(r.0, [s]);
        assert Boards([s]) == {s.board} by { assert [s][0] == s; }
      }
    }
  }

  /**
   * The appended nodes are successors whose boards were neither closed nor
   * open, and their boards are pairwise distinct.
   */
  lemma {:induction false} AdmitEntries(ss: seq<Node>, closed: set<seq<char>>, open: set<seq<char>>)
    ensures forall i :: 0 <= i < |Admit(ss, closed, open).0| ==>
      Admit(ss, closed, open).0[i] in ss
      && Admit(ss, closed, open).0[i].board !in closed && Admit(ss, closed, open).0[i].board !in open
    ensures DistinctBoards(Admit(ss, closed, open).0)
    decreases |ss|
  {
    if ss != [] {
      var init, s := ss[..|ss| - 1], ss[|ss| - 1];
      AdmitEntries(init, closed, open);
      AdmitOpen(init, closed, open);
      var r := Admit(init, closed, open);
      assert forall x :: x in init ==> x in ss;
      if s.board !in closed && s.board !in r.1 {
        var l := r.0 + [s];
        assert forall i :: 0 <= i < |r.0| ==> l[i] == r.0[i] && r.0[i].board in Boards(r.0);
        assert l[|r.0|] == s;
      }
    }
  }

  /** Afterwards every successor's board is closed or open. */
  lemma {:induction false} AdmitCovers(ss: seq<Node>, closed: set<seq<char>>, open: set<seq<char>>)
    ensures forall i :: 0 <= i < |ss| ==> ss[i].board in closed || ss[i].board in Admit(ss, closed, open).1
    decreases |ss|
  {
    if ss != [] {
      var init := ss[..|ss| - 1];
      AdmitCovers(init, closed, open);
      assert forall i :: 0 <= i < |init| ==> init[i] == ss[i];
    }
  }

  /** What the loop achieves, all together. */
  lemma AdmitFacts(ss: seq<Node>, closed: set<seq<char>>, open: set<seq<char>>)
    ensures Admit(ss, closed, open).1 == open + Boards(Admit(ss, closed, open).0)
    ensures forall i :: 0 <= i < |Admit(ss, closed, open).0| ==>
      Admit(ss, closed, open).0[i] in ss
      && Admit(ss, closed, open).0[i].board !in closed && Admit(ss, closed, open).0[i].board !in open
    ensures DistinctBoards(Admit(ss, closed, open).0)
    ensures forall i :: 0 <= i < |ss| ==> ss[i].board in closed || ss[i].board in Admit(ss, closed, open).1
  {
    AdmitOpen(ss, closed, open);
    AdmitEntries(ss, closed, open);
    AdmitCovers(ss, closed, open);
  }

  /** The loop over the successors with its open-list and open-set updates. */
  method EnqueueSuccessors(successors: seq<Node>, closed: set<seq<char>>, openList: seq<Node>, openListSet: set<seq<char>>)
    returns (newList: seq<Node>, newSet: set<seq<char>>)
    ensures newList == openList + Admit(successors, closed, openListSet).0
    ensures newSet == Admit(successors, closed, openListSet).1
  {
    newList, newSet := openList, openListSet;
    ghost var added: seq<Node> := [];
    for i := 0 to |successors|
      invariant (added, newSet) == Admit(successors[..i], closed, openListSet)
      invariant newList == openList + added
    {
      var successor := successors[i];
      var successorKey := successor.board;
      assert successors[..i + 1][..i] == successors[..i];
      if successorKey !in closed && successorKey !in newSet {
        newList := newList + [successor];
        newSet := newSet + {successorKey};
        added := added + [successor];
      }
    }
    assert successors[..|successors|] == successors;
  }

  // ---------------------------------------------------------------------
  // The loop invariant.

  /** No legal sequence reaches n's board in fewer moves than n's path has. */
  ghost predicate NoShorter(init: seq<char>, n: Node)
  {
    forall ms :: Legal(init, ms) && Replay(init, ms) == n.board ==> Depth(n) <= |ms|
  }

  /** FIFO order: depths never decrease along the queue and span at most one level. */
  ghost predicate LevelOrder(q: seq<Node>)
  {
    forall i, j :: 0 <= i < j < |q| ==> Depth(q[i]) <= Depth(q[j]) <= Depth(q[i]) + 1
  }

  /** Every move out of a closed board leads to a closed or an open board. */
  ghost predicate ClosedUnder(closed: set<seq<char>>, open: set<seq<char>>)
  {
    forall x, m :: x in closed && LegalMove(x, m) ==> Apply(x, m) in closed || Apply(x, m) in open
  }

  ghost predicate QueueTraced(init: seq<char>, goal: seq<char>, q: seq<Node>)
  {
    forall i :: 0 <= i < |q| ==> Traced(init, goal, q[i]) && NoShorter(init, q[i])
  }

  /**
   * Between iterations: queued nodes are traced and shortest for their
   * boards; the open set is exactly the queued boards, which are distinct
   * and not closed; the closed boards are the expanded ones, each once,
   * and the goal is not among them; the initial board is closed or open,
   * every move out of a closed board stays within closed and open, and
   * the queue is in level order.
   */
  ghost predicate Inv(init: seq<char>, goal: seq<char>, q: seq<Node>, open: set<seq<char>>,
                      closed: set<seq<char>>, expanded: seq<seq<char>>)
  {
    QueueTraced(init, goal, q)
    && open == Boards(q) && DistinctBoards(q) && open !! closed
    && closed <= Universe(init) && goal !in closed
    && closed == (set i | 0 <= i < |expanded| :: expanded[i]) && Distinct(expanded)
    && (init in closed || init in open)
    && ClosedUnder(closed, open) && LevelOrder(q)
  }

  // ---------------------------------------------------------------------
  // Why the invariant gives the results.

  /** A board reached in fewer moves than every queued node's depth is not open. */
  lemma NotQueued(init: seq<char>, goal: seq<char>, q: seq<Node>, ms: seq<Move>)
    requires QueueTraced(init, goal, q) && Legal(init, ms)
    requires forall i :: 0 <= i < |q| ==> |ms| < Depth(q[i])
    ensures Replay(init, ms) !in Boards(q)
  {
    forall i | 0 <= i < |q| ensures q[i].board != Replay(init, ms) {
      assert NoShorter(init, q[i]);
    }
  }

  /**
   * With every queued node at least d moves deep, every board some legal
   * sequence of fewer than d moves reaches is already closed.
   */
  lemma {:induction false} ShortPathsClosed(init: seq<char>, goal: seq<char>, q: seq<Node>, open: set<seq<char>>,
                                            closed: set<seq<char>>, d: int, ms: seq<Move>)
    requires QueueTraced(init, goal, q) && open == Boards(q)
    requires (init in closed || init in open) && ClosedUnder(closed, open)
    requires forall i :: 0 <= i < |q| ==> d <= Depth(q[i])
    requires Legal(init, ms) && |ms| < d
    ensures Replay(init, ms) in closed
    decreases |ms|
  {
    if ms != [] {
      LegalPrefix(init, ms);
      ShortPathsClosed(init, goal, q, open, closed, d, ms[..|ms| - 1]);
    }
    NotQueued(init, goal, q, ms);
  }

  /** When the queue runs dry, every reachable board has been closed. */
  lemma AllReachableClosed(init: seq<char>, goal: seq<char>, closed: set<seq<char>>, ms: seq<Move>)
    requires init in closed && ClosedUnder(closed, {}) && Legal(init, ms)
    ensures Replay(init, ms) in closed
  {
    ShortPathsClosed(init, goal, [], {}, closed, |ms| + 1, ms);
  }

  /** Every board reachable within the head's depth is closed or open. */
  lemma WithinHeadDepth(init: seq<char>, goal: seq<char>, q: seq<Node>, open: set<seq<char>>,
                        closed: set<seq<char>>, ms: seq<Move>)
    requires q != [] && QueueTraced(init, goal, q) && open == Boards(q)
    requires (init in closed || init in open) && ClosedUnder(closed, open) && LevelOrder(q)
    requires Legal(init, ms)
    ensures |ms| <= Depth(q[0]) ==> Replay(init, ms) in closed || Replay(init, ms) in open
  {
    if ms != [] && |ms| <= Depth(q[0]) {
      assert forall i :: 0 <= i < |q| ==> Depth(q[0]) <= Depth(q[i]);
      LegalPrefix(init, ms);
      ShortPathsClosed(init, goal, q, open, closed, Depth(q[0]), ms[..|ms| - 1]);
    }
  }

  // ---------------------------------------------------------------------
  // One iteration keeps the invariant.

  /** The state after expanding the head of the queue, as the loop body produces it. */
  function After(goal: seq<char>, q: seq<Node>, open: set<seq<char>>, closed: set<seq<char>>): (seq<Node>, set<seq<char>>)
    requires q != [] && |goal| == Size && ValidGrid(q[0].board)
  {
    var a := Admit(Successors(goal, q[0]), closed + {q[0].board}, open - {q[0].board});
    (q[1..] + a.0, a.1)
  }

  /** A node one level below the head, on a board neither closed nor open, is shortest for its board. */
  lemma ChildNoShorter(init: seq<char>, goal: seq<char>, q: seq<Node>, open: set<seq<char>>,
                       closed: set<seq<char>>, s: Node)
    requires q != [] && QueueTraced(init, goal, q) && open == Boards(q)
    requires (init in closed || init in open) && ClosedUnder(closed, open) && LevelOrder(q)
    requires s.board !in closed && s.board !in open && Depth(s) == Depth(q[0]) + 1
    ensures NoShorter(init, s)
  {
    forall ms | Legal(init, ms) && Replay(init, ms) == s.board ensures Depth(s) <= |ms| {
      WithinHeadDepth(init, goal, q, open, closed, ms);
    }
  }

  /** The admitted successors of the head are traced, one level deeper, and shortest for their boards. */
  lemma AdmittedTraced(init: seq<char>, goal: seq<char>, q: seq<Node>, open: set<seq<char>>, closed: set<seq<char>>)
    requires q != [] && QueueTraced(init, goal, q) && open == Boards(q)
    requires (init in closed || init in open) && ClosedUnder(closed, open) && LevelOrder(q)
    ensures ValidGrid(q[0].board) && |goal| == Size
    ensures var a := Admit(Successors(goal, q[0]), closed + {q[0].board}, open - {q[0].board}).0;
      QueueTraced(init, goal, a) && forall i :: 0 <= i < |a| ==> Depth(a[i]) == Depth(q[0]) + 1
  {
    var n := q[0];
    assert Traced(init, goal, n);
    var ss := Successors(goal, n);
    var cl, op := closed + {n.board}, open - {n.board};
    var a := Admit(ss, cl, op).0;
    AdmitFacts(ss, cl, op);
    SuccessorsAreChildren(goal, n);
    forall i | 0 <= i < |a| ensures Traced(init, goal, a[i]) && NoShorter(init, a[i]) && Depth(a[i]) == Depth(n) + 1 {
      var j :| 0 <= j < |ss| && ss[j] == a[i];
      ChildTraced(init, goal, n, AllMoves(n.board)[j]);
      ChildNoShorter(init, goal, q, open, closed, a[i]);
    }
  }

  /** Removing the head from a queue of distinct boards removes exactly its board from the open set. */
  lemma PollBoards(q: seq<Node>)
    requires q != [] && DistinctBoards(q)
    ensures Boards(q[1..]) == Boards(q) - {q[0].board}
    ensures DistinctBoards(q[1..])
  {
    assert forall i :: 0 <= i < |q| - 1 ==> q[1..][i] == q[i + 1];
    forall x | x in Boards(q) - {q[0].board} ensures x in Boards(q[1..]) {
      var i :| 0 <= i < |q| && q[i].board == x;
      assert q[1..][i - 1] == q[i];
    }
  }


  lemma QueueTracedAppend(init: seq<char>, goal: seq<char>, p: seq<Node>, a: seq<Node>)
    requires QueueTraced(init, goal, p) && QueueTraced(init, goal, a)
    ensures QueueTraced(init, goal, p + a)
  {
    var pa := p + a;
    forall i | 0 <= i < |pa| ensures Traced(init, goal, pa[i]) && NoShorter(init, pa[i]) {
      if i < |p| { assert pa[i] == p[i]; } else { assert pa[i] == a[i - |p|]; }
    }
  }

  lemma DistinctAppend(p: seq<Node>, a: seq<Node>)
    requires DistinctBoards(p) && DistinctBoards(a) && Boards(p) !! Boards(a)
    ensures DistinctBoards(p + a)
  {
    var pa := p + a;
    forall i, j | 0 <= i < j < |pa| ensures pa[i].board != pa[j].board {
      if j < |p| {
        assert pa[i] == p[i] && pa[j] == p[j];
      } else if i < |p| {
        assert pa[i] == p[i] && pa[j] == a[j - |p|];
        assert p[i].board in Boards(p) && a[j - |p|].board in Boards(a);
      } else {
        assert pa[i] == a[i - |p|] && pa[j] == a[j - |p|];
      }
    }
  }

  /** Appending nodes one level below a level-ordered queue's head keeps level order. */
  lemma LevelAppend(q: seq<Node>, a: seq<Node>)
    requires q != [] && LevelOrder(q) && forall i :: 0 <= i < |a| ==> Depth(a[i]) == Depth(q[0]) + 1
    ensures LevelOrder(q[1..] + a)
  {
    var p, d := q[1..], Depth(q[0]);
    var pa := p + a;
    forall i, j | 0 <= i < j < |pa| ensures Depth(pa[i]) <= Depth(pa[j]) <= Depth(pa[i]) + 1 {
      if j < |p| {
        assert pa[i] == q[i + 1] && pa[j] == q[j + 1];
      } else if i < |p| {
        assert pa[i] == q[i + 1] && pa[j] == a[j - |p|];
        assert d <= Depth(q[i + 1]) <= d + 1;
      } else {
        assert pa[i] == a[i - |p|] && pa[j] == a[j - |p|];
      }
    }
  }

  /** Expanding the head keeps the queue's half of the invariant. */
  lemma QueueAfter(init: seq<char>, goal: seq<char>, q: seq<Node>, open: set<seq<char>>,
                   closed: set<seq<char>>, expanded: seq<seq<char>>)
    requires Inv(init, goal, q, open, closed, expanded) && q != []
    ensures ValidGrid(q[0].board) && |goal| == Size
    ensures var (q', open') := After(goal, q, open, closed);
      QueueTraced(init, goal, q') && open' == Boards(q') && DistinctBoards(q')
      && open' !! closed + {q[0].board} && LevelOrder(q')
  {
    AdmittedTraced(init, goal, q, open, closed);
    var n := q[0];
    var ss := Successors(goal, n);
    var cl, op := closed + {n.board}, open - {n.board};
    var a := Admit(ss, cl, op).0;
    AdmitFacts(ss, cl, op);
    PollBoards(q);
    BoardsAppend(q[1..], a);
    assert QueueTraced(init, goal, q[1..]) by {
      forall i | 0 <= i < |q| - 1 ensures Traced(init, goal, q[1..][i]) && NoShorter(init, q[1..][i]) {
        assert q[1..][i] == q[i + 1];
      }
    }
    QueueTracedAppend(init, goal, q[1..], a);
    assert Boards(q[1..]) !! Boards(a) by {
      forall i | 0 <= i < |a| ensures a[i].board !in Boards(q[1..]) { }
    }
    DistinctAppend(q[1..], a);
    LevelAppend(q, a);
    assert n.board in open;
  }

  /** Every move out of the expanded board leads to a closed or an open board afterwards. */
  lemma ClosedAfter(goal: seq<char>, n: Node, closed: set<seq<char>>, open: set<seq<char>>)
    requires |goal| == Size && ValidGrid(n.board) && ClosedUnder(closed, open) && n.board in open
    ensures ClosedUnder(closed + {n.board}, Admit(Successors(goal, n), closed + {n.board}, open - {n.board}).1)
  {
    var ss := Successors(goal, n);
    var cl, op := closed + {n.board}, open - {n.board};
    var open' := Admit(ss, cl, op).1;
    AdmitFacts(ss, cl, op);
    SuccessorsShape(goal, n);
    forall x, m | x in cl && LegalMove(x, m) ensures Apply(x, m) in cl || Apply(x, m) in open' {
      if x == n.board {
        var j :| 0 <= j < |AllMoves(x)| && AllMoves(x)[j] == m;
        assert ss[j].board == Apply(x, m);
      }
    }
  }

  /** Recording a board not yet expanded keeps the record free of repeats. */
  lemma ExpandedAfter(closed: set<seq<char>>, expanded: seq<seq<char>>, x: seq<char>)
    requires closed == (set i | 0 <= i < |expanded| :: expanded[i]) && Distinct(expanded) && x !in closed
    ensures closed + {x} == (set i | 0 <= i < |expanded + [x]| :: (expanded + [x])[i]) && Distinct(expanded + [x])
  {
    var e' := expanded + [x];
    assert forall i :: 0 <= i < |expanded| ==> e'[i] == expanded[i];
    assert e'[|expanded|] == x;
  }

  /** Expanding the head keeps the closed set's half of the invariant. */
  lemma SetsAfter(init: seq<char>, goal: seq<char>, n: Node, open: set<seq<char>>,
                  closed: set<seq<char>>, expanded: seq<seq<char>>)
    requires ValidGrid(init) && Traced(init, goal, n) && n.board in open && n.board != goal
    requires closed <= Universe(init) && goal !in closed && (init in closed || init in open)
    requires closed == (set i | 0 <= i < |expanded| :: expanded[i]) && Distinct(expanded) && n.board !in closed
    requires ClosedUnder(closed, open)
    ensures var open' := Admit(Successors(goal, n), closed + {n.board}, open - {n.board}).1;
      var closed', e' := closed + {n.board}, expanded + [n.board];
      closed' <= Universe(init) && goal !in closed'
      && closed' == (set i | 0 <= i < |e'| :: e'[i]) && Distinct(e')
      && (init in closed' || init in open') && ClosedUnder(closed', open')
  {
    AdmitOpen(Successors(goal, n), closed + {n.board}, open - {n.board});
    ReachableInUniverse(init, PathMoves(n));
    ExpandedAfter(closed, expanded, n.board);
    ClosedAfter(goal, n, closed, open);
  }

  /** Expanding the head keeps the invariant. */
  lemma ExpandKeeps(init: seq<char>, goal: seq<char>, q: seq<Node>, open: set<seq<char>>,
                    closed: set<seq<char>>, expanded: seq<seq<char>>)
    requires ValidGrid(init) && Inv(init, goal, q, open, closed, expanded) && q != [] && q[0].board != goal
    ensures ValidGrid(q[0].board) && |goal| == Size && Covered(goal, q[0].board)
    ensures var (q', open') := After(goal, q, open, closed);
      Inv(init, goal, q', open', closed + {q[0].board}, expanded + [q[0].board])
  {
    QueueAfter(init, goal, q, open, closed, expanded);
    assert Traced(init, goal, q[0]) && q[0].board in open;
    SetsAfter(init, goal, q[0], open, closed, expanded);
  }

  /** Expanding the head closes a board of the universe that was not closed. */
  lemma ExpandShrinks(init: seq<char>, goal: seq<char>, q: seq<Node>, open: set<seq<char>>,
                      closed: set<seq<char>>, expanded: seq<seq<char>>)
    requires ValidGrid(init) && Inv(init, goal, q, open, closed, expanded) && q != []
    ensures q[0].board !in closed
    ensures |Universe(init) - (closed + {q[0].board})| < |Universe(init) - closed|
  {
    var n := q[0];
    assert Traced(init, goal, n);
    assert n.board in open;
    ReachableInUniverse(init, PathMoves(n));
    assert Universe(init) - (closed + {n.board}) < Universe(init) - closed by {
      assert n.board in Universe(init) - closed;
    }
  }

  /**
   * The head is on the goal: its path solves the puzzle with the fewest
   * moves, and it is expanded for the first time.
   */
  lemma GoalFound(init: seq<char>, goal: seq<char>, q: seq<Node>, open: set<seq<char>>,
                  closed: set<seq<char>>, expanded: seq<seq<char>>, count: int)
    requires ValidGrid(init) && Inv(init, goal, q, open, closed, expanded) && q != [] && q[0].board == goal
    ensures var r := SearchResult(ReconstructPath(q[0]), count, Finite(CalculatePathCost(q[0])));
      Solves(init, goal, r) && r.solution != BfsNoPath
      && forall ms :: Legal(init, ms) && Replay(init, ms) == goal ==> |Decode(r.solution).value| <= |ms|
    ensures Distinct(expanded + [goal])
  {
    var n := q[0];
    assert Traced(init, goal, n) && NoShorter(init, n);
    TracedSolves(init, goal, n, count);
    NoPathIsNotASolution(init, goal, count, Finite(CalculatePathCost(n)));
    var e' := expanded + [goal];
    forall i | 0 <= i < |expanded| ensures e'[i] != goal {
      assert e'[i] == expanded[i] && expanded[i] in closed;
    }
  }

  /** When the goal is polled, every board fewer moves away than the goal's node is closed. */
  lemma GoalShallowClosed(init: seq<char>, goal: seq<char>, q: seq<Node>, open: set<seq<char>>,
                          closed: set<seq<char>>, expanded: seq<seq<char>>, ms: seq<Move>)
    requires ValidGrid(init) && Inv(init, goal, q, open, closed, expanded) && q != []
    requires Legal(init, ms) && |ms| < Depth(q[0])
    ensures Replay(init, ms) in closed
  {
    ShortPathsClosed(init, goal, q, open, closed, Depth(q[0]), ms);
  }

  /** Every recorded board is reachable from init. */
  ghost predicate AllReachable(init: seq<char>, xs: seq<seq<char>>)
  {
    forall i :: 0 <= i < |xs| ==> Reachable(init, xs[i])
  }

  /** Recording the board of a traced node keeps every recorded board reachable. */
  lemma ReachableSnoc(init: seq<char>, goal: seq<char>, xs: seq<seq<char>>, n: Node)
    requires AllReachable(init, xs) && Traced(init, goal, n)
    ensures AllReachable(init, xs + [n.board])
  {
    assert Legal(init, PathMoves(n)) && Replay(init, PathMoves(n)) == n.board;
    assert forall i :: 0 <= i < |xs| ==> (xs + [n.board])[i] == xs[i];
  }

  /** When the goal is polled, the boards fewer moves away than its node are among those expanded. */
  lemma GoalAfterShallow(init: seq<char>, goal: seq<char>, q: seq<Node>, open: set<seq<char>>,
                         closed: set<seq<char>>, expanded: seq<seq<char>>)
    requires ValidGrid(init) && Inv(init, goal, q, open, closed, expanded) && q != []
    ensures forall ms :: Legal(init, ms) && |ms| < |PathMoves(q[0])| ==> Replay(init, ms) in expanded + [q[0].board]
  {
    forall ms | Legal(init, ms) && |ms| < |PathMoves(q[0])| ensures Replay(init, ms) in expanded + [q[0].board] {
      GoalShallowClosed(init, goal, q, open, closed, expanded, ms);
      var i :| 0 <= i < |expanded| && expanded[i] == Replay(init, ms);
      assert (expanded + [q[0].board])[i] == expanded[i];
    }
  }

  /** When the queue runs dry, every reachable board has been expanded and none is the goal. */
  lemma DryAllExpanded(init: seq<char>, goal: seq<char>, closed: set<seq<char>>, expanded: seq<seq<char>>)
    requires init in closed && ClosedUnder(closed, {}) && goal !in closed
    requires closed == (set i | 0 <= i < |expanded| :: expanded[i])
    ensures forall ms :: Legal(init, ms) ==> Replay(init, ms) in expanded && Replay(init, ms) != goal
  {
    forall ms | Legal(init, ms) ensures Replay(init, ms) in expanded && Replay(init, ms) != goal {
      AllReachableClosed(init, goal, closed, ms);
    }
  }

  /** The queue holding only the start node, nothing closed: the invariant holds. */
  lemma StartInv(init: seq<char>, goal: seq<char>, n: Node)
    requires ValidGrid(init) && |goal| == Size && Covered(goal, init) && n == MakeNode(goal, init, None, 0, "")
    ensures Inv(init, goal, [n], {init}, {}, [])
  {
    StartTraced(init, goal);
    assert Boards([n]) == {init} by { assert [n][0] == n; }
  }

  // ---------------------------------------------------------------------
  // The search.

  /**
   * BFSSearch.search.  A solution is reported with the expanded node's path
   * and g; it solves the puzzle with the fewest moves of any legal
   * sequence.  "no path" with infinite cost is reported only when no legal
   * sequence reaches the goal.  The count is one more than the number of
   * polls, expanded records the polled boards: each is reachable and polled
   * once.  A solution is the last board polled, after every board fewer
   * moves away; "no path" comes after every reachable board was polled, so
   * its count is one more than the number of reachable boards.
   */
  method Search(init: seq<char>, goal: seq<char>) returns (r: SearchResult, ghost expanded: seq<seq<char>>)
    requires ValidGrid(init) && ValidGrid(goal) && Covered(goal, init)
    ensures r.cost.Finite? ==> (Solves(init, goal, r) && r.solution != BfsNoPath
      && forall ms :: Legal(init, ms) && Replay(init, ms) == goal ==> |Decode(r.solution).value| <= |ms|)
    ensures r.cost.Infinity? ==> r.solution == BfsNoPath && forall ms :: Legal(init, ms) ==> Replay(init, ms) != goal
    ensures r.nodesCreated == 1 + |expanded| && Distinct(expanded)
    ensures AllReachable(init, expanded)
    ensures r.cost.Finite? ==> expanded != [] && expanded[|expanded| - 1] == goal
    ensures r.cost.Finite? ==>
      forall ms :: Legal(init, ms) && |ms| < |Decode(r.solution).value| ==> Replay(init, ms) in expanded
    ensures r.cost.Infinity? ==> forall ms :: Legal(init, ms) ==> Replay(init, ms) in expanded
  {
    var nodesCreated := 1;
    var closedList: set<seq<char>> := {};
    var initialNode := NewNode(goal, init, None, 0, "");
    var openList := [initialNode];
    var openListSet := {init};
    expanded := [];
    StartInv(init, goal, initialNode);
    while openList != []
      invariant Inv(init, goal, openList, openListSet, closedList, expanded)
      invariant nodesCreated == 1 + |expanded|
      invariant AllReachable(init, expanded)
      decreases |Universe(init) - closedList|
    {
      ghost var q, open, closed := openList, openListSet, closedList;
      var currentNode := openList[0];
      openList := openList[1..];
      var boardKey := currentNode.board;
      openListSet := openListSet - {boardKey};
      nodesCreated := nodesCreated + 1;
      ExpandShrinks(init, goal, q, open, closed, expanded);
      // the skip of an already-closed board never fires
      assert boardKey !in closedList;
      closedList := closedList + {boardKey};
      assert Traced(init, goal, currentNode);
      ReachableSnoc(init, goal, expanded, currentNode);
      if currentNode.board == goal {
        GoalFound(init, goal, q, open, closed, expanded, nodesCreated);
        GoalAfterShallow(init, goal, q, open, closed, expanded);
        expanded := expanded + [boardKey];
        return SearchResult(ReconstructPath(currentNode), nodesCreated, Finite(CalculatePathCost(currentNode))), expanded;
      }
      ExpandKeeps(init, goal, q, open, closed, expanded);
      var successors := GenerateSuccessors(goal, currentNode);
      openList, openListSet := EnqueueSuccessors(successors, closedList, openList, openListSet);
      expanded := expanded + [boardKey];
    }
    DryAllExpanded(init, goal, closedList, expanded);
    r := SearchResult(BfsNoPath, nodesCreated, Infinity);
  }
}

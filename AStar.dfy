/**
 * AStarSearch.search: a best-first search on f = g + h over a priority
 * queue, with a table of the best node recorded for each board and lazy
 * deletion of the nodes that table has superseded.
 *
 * The queue is a sequence from which the least-f node is removed; the
 * table is a map keyed by board value.  The main result is optimality: a
 * solution it reports costs no more than any legal move sequence to the
 * goal, and "No Path" is reported only when there is none.
 */
module AStar {
  import opened Wrappers
  import opened Board
  import opened Paths
  import opened Costs
  import opened Heuristics
  import opened Results
  import opened Nodes
  import opened Reach

  /** PriorityQueue.poll's choice: a node of least f (here the first one). */
  method PollMin(open: seq<Node>) returns (i: int)
    requires open != []
    ensures 0 <= i < |open|
    ensures forall j :: 0 <= j < |open| ==> open[i].F() <= open[j].F()
  {
    i := 0;
    for j := 1 to |open|
      invariant 0 <= i < |open|
      invariant forall k :: 0 <= k < j ==> open[i].F() <= open[k].F()
    {
      if open[j].F() < open[i].F() {
        i := j;
      }
    }
  }

  /** The queue without its i-th entry. */
  function RemoveAt(open: seq<Node>, i: int): (r: seq<Node>)
    requires 0 <= i < |open|
    ensures |r| == |open| - 1
  {
    open[..i] + open[i + 1..]
  }

  /** Every entry but the removed one is still queued. */
  lemma RemoveAtKeeps(open: seq<Node>, i: int, x: Node)
    requires 0 <= i < |open| && x in open && x != open[i]
    ensures x in RemoveAt(open, i)
  {
    var j :| 0 <= j < |open| && open[j] == x;
    if j < i {
      assert RemoveAt(open, i)[j] == x;
    } else {
      assert RemoveAt(open, i)[j - 1] == x;
    }
  }

  lemma RemoveAtIndex(open: seq<Node>, i: int, j: int)
    requires 0 <= i < |open| && 0 <= j < |open| - 1
    ensures RemoveAt(open, i)[j] == if j < i then open[j] else open[j + 1]
  {
  }

  // ---------------------------------------------------------------------
  // Admitting successors.

  /** A successor is admitted when its board is unseen or its recorded node has a strictly larger f. */
  predicate Improves(best: map<seq<char>, Node>, s: Node)
  {
    s.board !in best || best[s.board].F() > s.F()
  }

  /**
   * The successor loop over ss in order: the successors admitted (pushed)
   * and the table after recording each of them.
   */
  function Relax(ss: seq<Node>, best: map<seq<char>, Node>): (seq<Node>, map<seq<char>, Node>)
    decreases |ss|
  {
    if ss == [] then ([], best)
    else
      var r := Relax(ss[..|ss| - 1], best);
      var s := ss[|ss| - 1];
      if Improves(r.1, s) then (r.0 + [s], r.1[s.board := s]) else r
  }

  /** The recorded best f of a board never increases, and no board leaves the table. */
  lemma {:induction false} RelaxMonotone(ss: seq<Node>, best: map<seq<char>, Node>)
    ensures best.Keys <= Relax(ss, best).1.Keys
    ensures forall k :: k in best ==> Relax(ss, best).1[k].F() <= best[k].F()
    decreases |ss|
  {
    if ss != [] {
      RelaxMonotone(ss[..|ss| - 1], best);
    }
  }

  /**
   * Every admitted node is a successor, and each table entry is either the
   * old one or an admitted node recorded under its own board.
   */
  lemma {:induction false} RelaxSource(ss: seq<Node>, best: map<seq<char>, Node>)
    ensures forall i :: 0 <= i < |Relax(ss, best).0| ==> Relax(ss, best).0[i] in ss
    ensures forall k :: k in Relax(ss, best).1 ==>
      (k in best && Relax(ss, best).1[k] == best[k])
      || (Relax(ss, best).1[k] in Relax(ss, best).0 && Relax(ss, best).1[k].board == k)
    decreases |ss|
  {
    if ss != [] {
      var init := ss[..|ss| - 1];
      RelaxSource(init, best);
      var r := Relax(init, best);
      forall i | 0 <= i < |r.0| ensures r.0[i] in ss {
        assert r.0[i] in init;
      }
    }
  }

  /** After the loop every successor's board is recorded with an f no larger than the successor's. */
  lemma {:induction false} RelaxCovers(ss: seq<Node>, best: map<seq<char>, Node>)
    ensures forall s :: s in ss ==> (s.board in Relax(ss, best).1 && Relax(ss, best).1[s.board].F() <= s.F())
    decreases |ss|
  {
    if ss != [] {
      var init, last := ss[..|ss| - 1], ss[|ss| - 1];
      RelaxCovers(init, best);
      var r := Relax(init, best);
      forall s | s in ss ensures s.board in Relax(ss, best).1 && Relax(ss, best).1[s.board].F() <= s.F() {
        if s != last {
          assert s in init;
        }
      }
    }
  }

  /**
   * The for loop over the successors: each one is admitted (recorded in the
   * table and pushed on the queue) iff Improves holds for it at that point.
   */
  method RelaxSuccessors(successors: seq<Node>, openList: seq<Node>, bestNodes: map<seq<char>, Node>)
    returns (open': seq<Node>, best': map<seq<char>, Node>)
    ensures open' == openList + Relax(successors, bestNodes).0
    ensures best' == Relax(successors, bestNodes).1
  {
    open', best' := openList, bestNodes;
    for i := 0 to |successors|
      invariant open' == openList + Relax(successors[..i], bestNodes).0
      invariant best' == Relax(successors[..i], bestNodes).1
    {
      var successor := successors[i];
      assert successors[..i + 1][..i] == successors[..i];
      if successor.board in best' && best'[successor.board].F() <= successor.F() {
        continue;
      }
      best' := best'[successor.board := successor];
      open' := open' + [successor];
    }
    assert successors[..|successors|] == successors;
  }

  // ---------------------------------------------------------------------
  // The loop invariant.

  /**
   * An expanded node has every neighbouring board recorded with a g no
   * larger than reaching it through that node.
   */
  ghost predicate Settled(best: map<seq<char>, Node>, e: Node)
  {
    forall m :: LegalMove(e.board, m) ==>
      Apply(e.board, m) in best && best[Apply(e.board, m)].g <= e.g + Weight(m.ball)
  }

  /**
   * The state between iterations.  Every queued node and every table entry
   * is traced from init; each entry is filed under its own board and is
   * either still queued or expanded; every queued board is in the table;
   * the expanded nodes are settled and none is on the goal board.
   */
  /** Every queued node is traced and its board is in the table. */
  ghost predicate QueueTraced(init: seq<char>, goal: seq<char>, q: seq<Node>, best: map<seq<char>, Node>)
  {
    forall i :: 0 <= i < |q| ==> Traced(init, goal, q[i]) && q[i].board in best
  }

  lemma QueueTracedAppend(init: seq<char>, goal: seq<char>, q1: seq<Node>, q2: seq<Node>, best: map<seq<char>, Node>)
    requires QueueTraced(init, goal, q1, best) && QueueTraced(init, goal, q2, best)
    ensures QueueTraced(init, goal, q1 + q2, best)
  {
    forall i | 0 <= i < |q1 + q2| ensures Traced(init, goal, (q1 + q2)[i]) && (q1 + q2)[i].board in best {
      if i < |q1| { assert (q1 + q2)[i] == q1[i]; } else { assert (q1 + q2)[i] == q2[i - |q1|]; }
    }
  }

  lemma QueueTracedRemove(init: seq<char>, goal: seq<char>, q: seq<Node>, i: int, best: map<seq<char>, Node>, best': map<seq<char>, Node>)
    requires QueueTraced(init, goal, q, best) && 0 <= i < |q| && best.Keys <= best'.Keys
    ensures QueueTraced(init, goal, RemoveAt(q, i), best')
  {
    forall j | 0 <= j < |q| - 1 ensures Traced(init, goal, RemoveAt(q, i)[j]) && RemoveAt(q, i)[j].board in best' {
      RemoveAtIndex(q, i, j);
    }
  }

  ghost predicate Inv(init: seq<char>, goal: seq<char>, open: seq<Node>, best: map<seq<char>, Node>, expanded: set<Node>)
  {
    ValidGrid(init) && ValidGrid(goal) && init in best && best[init].g <= 0
    && QueueTraced(init, goal, open, best)
    && (forall b :: b in best ==> best[b].board == b && Traced(init, goal, best[b]) && (best[b] in open || best[b] in expanded))
    && (forall e :: e in expanded ==> e.board != goal && Settled(best, e))
  }

  lemma StartInv(init: seq<char>, goal: seq<char>, start: Node)
    requires ValidGrid(init) && ValidGrid(goal) && Covered(goal, init)
    requires start == MakeNode(goal, init, None, 0, "")
    ensures Inv(init, goal, [start], map[init := start], {})
  {
    StartTraced(init, goal);
  }

  /** Two traced nodes on the same board have the same h, so comparing f compares g. */
  lemma SameBoardF(init: seq<char>, goal: seq<char>, x: Node, y: Node)
    requires Traced(init, goal, x) && Traced(init, goal, y) && x.board == y.board
    ensures x.F() <= y.F() <==> x.g <= y.g
  {
  }

  /** Lower recorded g values keep an expanded node settled. */
  lemma SettledMonotone(init: seq<char>, goal: seq<char>, best: map<seq<char>, Node>, best': map<seq<char>, Node>, e: Node)
    requires Settled(best, e) && best.Keys <= best'.Keys
    requires forall k :: k in best ==> best'[k].F() <= best[k].F()
    requires forall k :: k in best ==> Traced(init, goal, best[k]) && best[k].board == k
    requires forall k :: k in best' ==> Traced(init, goal, best'[k]) && best'[k].board == k
    ensures Settled(best', e)
  {
    forall m | LegalMove(e.board, m)
      ensures Apply(e.board, m) in best' && best'[Apply(e.board, m)].g <= e.g + Weight(m.ball)
    {
      var k := Apply(e.board, m);
      SameBoardF(init, goal, best'[k], best[k]);
    }
  }

  /** The successors of a traced node, for the loop: traced, and one per legal move. */
  lemma ExpandedSettled(init: seq<char>, goal: seq<char>, n: Node, succs: seq<Node>, best': map<seq<char>, Node>)
    requires Traced(init, goal, n) && succs == SortByF(Successors(goal, n))
    requires forall s :: s in succs ==> s.board in best' && best'[s.board].F() <= s.F()
    requires forall k :: k in best' ==> Traced(init, goal, best'[k]) && best'[k].board == k
    ensures Settled(best', n)
  {
    var cs := Successors(goal, n);
    SuccessorsAreChildren(goal, n);
    SuccessorsTraced(init, goal, n);
    AllMovesExactly(n.board);
    SortByFFacts(cs);
    forall m | LegalMove(n.board, m)
      ensures Apply(n.board, m) in best' && best'[Apply(n.board, m)].g <= n.g + Weight(m.ball)
    {
      var j :| 0 <= j < |AllMoves(n.board)| && AllMoves(n.board)[j] == m;
      var c := cs[j];
      assert c == Child(goal, n, m);
      assert c in multiset(cs);
      assert c in succs;
      SameBoardF(init, goal, best'[c.board], c);
    }
  }

  /** Skipping a superseded node keeps the invariant. */
  lemma SkipKeeps(init: seq<char>, goal: seq<char>, open: seq<Node>, best: map<seq<char>, Node>, expanded: set<Node>, i: int)
    requires Inv(init, goal, open, best, expanded) && 0 <= i < |open|
    requires open[i].F() > best[open[i].board].F()
    ensures Inv(init, goal, RemoveAt(open, i), best, expanded)
  {
    var open' := RemoveAt(open, i);
    QueueTracedRemove(init, goal, open, i, best, best);
    forall b | b in best && best[b] in open ensures best[b] in open' {
      RemoveAtKeeps(open, i, best[b]);
    }
  }

  /** The queue after a node's successors are relaxed: the rest of the queue, then the admitted nodes. */
  lemma ExpandKeepsQueue(init: seq<char>, goal: seq<char>, open: seq<Node>, best: map<seq<char>, Node>,
                         expanded: set<Node>, i: int, succs: seq<Node>)
    requires Inv(init, goal, open, best, expanded) && 0 <= i < |open|
    requires succs == SortByF(Successors(goal, open[i]))
    ensures QueueTraced(init, goal, RemoveAt(open, i) + Relax(succs, best).0, Relax(succs, best).1)
  {
    var n, r := open[i], Relax(succs, best);
    RelaxMonotone(succs, best);
    QueueTracedRemove(init, goal, open, i, best, r.1);
    AdmittedTraced(init, goal, n, succs, best);
    QueueTracedAppend(init, goal, RemoveAt(open, i), r.0, r.1);
  }

  /** The admitted successors of a traced node are traced and recorded. */
  lemma AdmittedTraced(init: seq<char>, goal: seq<char>, n: Node, succs: seq<Node>, best: map<seq<char>, Node>)
    requires Traced(init, goal, n) && succs == SortByF(Successors(goal, n))
    ensures QueueTraced(init, goal, Relax(succs, best).0, Relax(succs, best).1)
  {
    var r := Relax(succs, best);
    SuccessorsTraced(init, goal, n);
    RelaxSource(succs, best);
    RelaxCovers(succs, best);
    forall k | 0 <= k < |r.0| ensures Traced(init, goal, r.0[k]) && r.0[k].board in r.1 {
      assert r.0[k] in succs;
    }
  }

  /** The table after the relaxation: every entry traced, filed under its board, queued or expanded. */
  lemma ExpandKeepsTable(init: seq<char>, goal: seq<char>, open: seq<Node>, best: map<seq<char>, Node>,
                         expanded: set<Node>, i: int, succs: seq<Node>)
    requires Inv(init, goal, open, best, expanded) && 0 <= i < |open|
    requires succs == SortByF(Successors(goal, open[i]))
    ensures var r := Relax(succs, best); var open' := RemoveAt(open, i) + r.0;
      forall b :: b in r.1 ==> (r.1[b].board == b && Traced(init, goal, r.1[b])
        && (r.1[b] in open' || r.1[b] in expanded + {open[i]}))
  {
    var n, r := open[i], Relax(succs, best);
    SuccessorsTraced(init, goal, n);
    RelaxSource(succs, best);
    var rest := RemoveAt(open, i);
    var open' := rest + r.0;
    forall b | b in r.1 ensures r.1[b].board == b && Traced(init, goal, r.1[b])
      && (r.1[b] in open' || r.1[b] in expanded + {n})
    {
      if b in best && r.1[b] == best[b] {
        if best[b] in open && best[b] != n {
          RemoveAtKeeps(open, i, best[b]);
        }
      } else {
        assert r.1[b] in succs;
      }
    }
  }

  /** Expanding a current best node that is not the goal keeps the invariant. */
  lemma ExpandKeeps(init: seq<char>, goal: seq<char>, open: seq<Node>, best: map<seq<char>, Node>,
                    expanded: set<Node>, i: int, succs: seq<Node>)
    requires Inv(init, goal, open, best, expanded) && 0 <= i < |open| && open[i].board != goal
    requires succs == SortByF(Successors(goal, open[i]))
    ensures Inv(init, goal, RemoveAt(open, i) + Relax(succs, best).0, Relax(succs, best).1, expanded + {open[i]})
  {
    var n, r := open[i], Relax(succs, best);
    RelaxMonotone(succs, best);
    ExpandKeepsQueue(init, goal, open, best, expanded, i, succs);
    ExpandKeepsTable(init, goal, open, best, expanded, i, succs);
    SameBoardF(init, goal, r.1[init], best[init]);
    ExpandKeepsSettled(init, goal, open, best, expanded, i, succs);
  }

  /** The expanded nodes, the new one included, stay settled under the relaxed table. */
  lemma ExpandKeepsSettled(init: seq<char>, goal: seq<char>, open: seq<Node>, best: map<seq<char>, Node>,
                           expanded: set<Node>, i: int, succs: seq<Node>)
    requires Inv(init, goal, open, best, expanded) && 0 <= i < |open| && open[i].board != goal
    requires succs == SortByF(Successors(goal, open[i]))
    ensures forall e :: e in expanded + {open[i]} ==> e.board != goal && Settled(Relax(succs, best).1, e)
  {
    var n, r := open[i], Relax(succs, best);
    RelaxMonotone(succs, best);
    RelaxCovers(succs, best);
    ExpandKeepsTable(init, goal, open, best, expanded, i, succs);
    forall e | e in expanded + {n} ensures e.board != goal && Settled(r.1, e) {
      if e == n {
        ExpandedSettled(init, goal, n, succs, r.1);
      } else {
        SettledMonotone(init, goal, best, r.1, e);
      }
    }
  }

  // ---------------------------------------------------------------------
  // Optimality.

  /**
   * Walking along a legal sequence to the goal from a board recorded no
   * worse than the sequence's prefix: some board further on is recorded
   * no worse than its prefix and its best node is still queued.
   */
  lemma {:induction false} Walk(init: seq<char>, goal: seq<char>, open: seq<Node>, best: map<seq<char>, Node>,
                                expanded: set<Node>, ms: seq<Move>, j: int) returns (i: int)
    requires Inv(init, goal, open, best, expanded) && Legal(init, ms) && Replay(init, ms) == goal
    requires 0 <= j <= |ms| && Legal(init, ms[..j])
    requires Replay(init, ms[..j]) in best && best[Replay(init, ms[..j])].g <= PathCost(ms[..j])
    ensures j <= i <= |ms| && Legal(init, ms[..i])
    ensures Replay(init, ms[..i]) in best && best[Replay(init, ms[..i])].g <= PathCost(ms[..i])
    ensures best[Replay(init, ms[..i])] in open
    decreases |ms| - j
  {
    var b := Replay(init, ms[..j]);
    if best[b] in open {
      i := j;
    } else {
      assert best[b] in expanded && best[b].board == b;
      assert ms[..|ms|] == ms;
      assert j < |ms|;
      PrefixStep(init, ms, j);
      PathCostPrefixStep(ms, j);
      assert Settled(best, best[b]);
      i := Walk(init, goal, open, best, expanded, ms, j + 1);
    }
  }

  /** For every legal sequence to the goal, some queued node has f at most the sequence's cost. */
  lemma QueuedWitness(init: seq<char>, goal: seq<char>, open: seq<Node>, best: map<seq<char>, Node>,
                      expanded: set<Node>, ms: seq<Move>) returns (w: Node)
    requires Inv(init, goal, open, best, expanded) && Legal(init, ms) && Replay(init, ms) == goal
    ensures w in open && w.F() <= PathCost(ms)
  {
    assert ms[..0] == [];
    var i := Walk(init, goal, open, best, expanded, ms, 0);
    var b := Replay(init, ms[..i]);
    w := best[b];
    assert Traced(init, goal, w) && w.board == b;
    WitnessBound(init, goal, w, ms, i);
  }

  /** A node on a prefix's board, no costlier than the prefix, has f at most the whole sequence's cost. */
  lemma WitnessBound(init: seq<char>, goal: seq<char>, w: Node, ms: seq<Move>, i: int)
    requires ValidGrid(goal) && Traced(init, goal, w) && Legal(init, ms) && Replay(init, ms) == goal
    requires 0 <= i <= |ms| && Legal(init, ms[..i]) && w.board == Replay(init, ms[..i]) && w.g <= PathCost(ms[..i])
    ensures w.F() <= PathCost(ms)
  {
    LegalSplit(init, ms, i);
    PathCostSplit(ms, i);
    HeuristicAdmissible(goal, w.board, ms[i..]);
  }

  /** A goal node of least f costs no more than any legal sequence to the goal. */
  lemma GoalOptimal(init: seq<char>, goal: seq<char>, open: seq<Node>, best: map<seq<char>, Node>,
                    expanded: set<Node>, i: int)
    requires Inv(init, goal, open, best, expanded) && 0 <= i < |open| && open[i].board == goal
    requires forall j :: 0 <= j < |open| ==> open[i].F() <= open[j].F()
    ensures Solves(init, goal, SearchResult(ReconstructPath(open[i]), |best|, Finite(CalculatePathCost(open[i]))))
    ensures forall ms :: Legal(init, ms) && Replay(init, ms) == goal ==> open[i].g <= PathCost(ms)
  {
    var p := open[i];
    TracedSolves(init, goal, p, |best|);
    HeuristicZeroAtGoal(goal);
    forall ms | Legal(init, ms) && Replay(init, ms) == goal ensures p.g <= PathCost(ms) {
      var w := QueuedWitness(init, goal, open, best, expanded, ms);
    }
  }

  /** With an empty queue no legal sequence reaches the goal. */
  lemma EmptyNoPath(init: seq<char>, goal: seq<char>, best: map<seq<char>, Node>, expanded: set<Node>)
    requires Inv(init, goal, [], best, expanded)
    ensures forall ms :: Legal(init, ms) ==> Replay(init, ms) != goal
  {
    forall ms | Legal(init, ms) ensures Replay(init, ms) != goal {
      if Replay(init, ms) == goal {
        var w := QueuedWitness(init, goal, [], best, expanded, ms);
        assert false;
      }
    }
  }

  /** Every board in the table is reachable from init. */
  lemma TableReachable(init: seq<char>, goal: seq<char>, open: seq<Node>, best: map<seq<char>, Node>, expanded: set<Node>)
    requires Inv(init, goal, open, best, expanded)
    ensures forall b :: b in best ==> Reachable(init, b)
  {
    forall b | b in best ensures Reachable(init, b) {
      var n := best[b];
      assert Traced(init, goal, n) && n.board == b;
      assert Legal(init, PathMoves(n)) && Replay(init, PathMoves(n)) == b;
    }
  }

  /** With an empty queue, every board a legal sequence reaches is in the table. */
  lemma {:induction false} EmptyHasAll(init: seq<char>, best: map<seq<char>, Node>, ms: seq<Move>, j: int)
    requires init in best && forall b :: b in best ==> best[b].board == b && Settled(best, best[b])
    requires Legal(init, ms) && 0 <= j <= |ms|
    ensures Legal(init, ms[..j]) && Replay(init, ms[..j]) in best
  {
    if j == 0 {
      assert ms[..0] == [];
    } else {
      EmptyHasAll(init, best, ms, j - 1);
      PrefixStep(init, ms, j - 1);
      var b := Replay(init, ms[..j - 1]);
      assert Settled(best, best[b]);
    }
  }

  /** With an empty queue, the table holds exactly the reachable boards. */
  lemma EmptyTable(init: seq<char>, goal: seq<char>, best: map<seq<char>, Node>, expanded: set<Node>)
    requires Inv(init, goal, [], best, expanded)
    ensures forall b :: b in best <==> Reachable(init, b)
  {
    TableReachable(init, goal, [], best, expanded);
    assert forall b :: b in best ==> best[b].board == b && Settled(best, best[b]);
    forall b | Reachable(init, b) ensures b in best {
      var ms :| Legal(init, ms) && Replay(init, ms) == b;
      EmptyHasAll(init, best, ms, |ms|);
      assert ms[..|ms|] == ms;
    }
  }

  // ---------------------------------------------------------------------
  // The search.

  /**
   * AStarSearch.search, for at most fuel iterations (None when the fuel
   * runs out).  A reported solution is a real one of least cost, and
   * "No Path" with Integer.MAX_VALUE means no legal sequence reaches the
   * goal; the count is the number of boards in the table, each of which
   * is reachable, and after "No Path" the table holds every reachable board.
   */
  method Search(init: seq<char>, goal: seq<char>, fuel: nat) returns (r: Option<SearchResult>, ghost table: set<seq<char>>)
    requires ValidGrid(init) && ValidGrid(goal) && Covered(goal, init)
    ensures r.Some? && r.value.solution != NoPath ==> (Solves(init, goal, r.value)
      && forall ms :: Legal(init, ms) && Replay(init, ms) == goal ==> r.value.cost.value <= PathCost(ms))
    ensures r.Some? && r.value.solution == NoPath ==>
      r.value.cost == Finite(MaxCost) && forall ms :: Legal(init, ms) ==> Replay(init, ms) != goal
    ensures r.Some? ==> r.value.nodesCreated == |table| && init in table
    ensures forall b :: b in table ==> Reachable(init, b)
    ensures r.Some? && r.value.solution == NoPath ==> forall b :: b in table <==> Reachable(init, b)
  {
    var startNode := NewNode(goal, init, None, 0, "");
    var openList := [startNode];
    var bestNodes := map[init := startNode];
    ghost var expanded: set<Node> := {};
    StartInv(init, goal, startNode);
    var remaining := fuel;
    while openList != []
      invariant Inv(init, goal, openList, bestNodes, expanded)
      decreases remaining
    {
      if remaining == 0 {
        TableReachable(init, goal, openList, bestNodes, expanded);
        return None, bestNodes.Keys;
      }
      remaining := remaining - 1;
      ghost var open := openList;
      var i := PollMin(openList);
      var currentNode := openList[i];
      openList := RemoveAt(openList, i);
      if currentNode.board == goal {
        GoalOptimal(init, goal, open, bestNodes, expanded, i);
        TableReachable(init, goal, open, bestNodes, expanded);
        r := Some(SearchResult(ReconstructPath(currentNode), |bestNodes|, Finite(CalculatePathCost(currentNode))));
        assert r.value.solution != NoPath by { NoPathIsNotASolution(init, goal, |bestNodes|, r.value.cost); }
        return r, bestNodes.Keys;
      }
      if currentNode.F() > bestNodes[currentNode.board].F() {
        SkipKeeps(init, goal, open, bestNodes, expanded, i);
        continue;
      }
      var successors := GetSuccessorsStates(goal, currentNode);
      ExpandKeeps(init, goal, open, bestNodes, expanded, i, successors);
      openList, bestNodes := RelaxSuccessors(successors, openList, bestNodes);
      expanded := expanded + {currentNode};
    }
    EmptyNoPath(init, goal, bestNodes, expanded);
    EmptyTable(init, goal, bestNodes, expanded);
    return Some(SearchResult(NoPath, |bestNodes|, Finite(MaxCost))), bestNodes.Keys;
  }
}

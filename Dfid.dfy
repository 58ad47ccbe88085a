/**
 * Depth-first iterative deepening (DFIDSearch): depth limits 1, 2, 3, ...,
 * each a recursive depth-limited search that keeps the boards of the
 * current branch in a set and never steps onto one of them.
 *
 * limitedDFS generates the successors of a wrapper node with an empty
 * path, so each successor's path is its own move label alone, and the
 * overridden reconstructPath rebuilds the full path by walking the parent
 * links and joining with `-`.
 */
module Dfid {
  import opened Wrappers
  import opened Board
  import opened Costs
  import opened Paths
  import opened Heuristics
  import opened Results
  import opened Nodes
  import opened Reach

  // ---------------------------------------------------------------------
  // The overridden reconstructPath.

  /** String.join("-", parts). */
  function JoinDash(parts: seq<string>): string
  {
    if |parts| == 0 then ""
    else if |parts| == 1 then parts[0]
    else JoinDash(parts[..|parts| - 1]) + "-" + parts[|parts| - 1]
  }

  /** The paths of n and its ancestors, root side first, leaving out the parentless root. */
  function ChainPaths(n: Option<Node>): seq<string>
  {
    if n.None? || n.value.parent.None? then [] else ChainPaths(n.value.parent) + [n.value.path]
  }

  /** reconstructPath: push each path while walking up to the root, then join with `-`. */
  method DfidReconstructPath(goalNode: Option<Node>) returns (s: string)
    ensures s == JoinDash(ChainPaths(goalNode))
  {
    var pathStack: seq<string> := [];
    var current := goalNode;
    while current.Some? && current.value.parent.Some?
      invariant ChainPaths(current) + pathStack == ChainPaths(goalNode)
      decreases current
    {
      pathStack := [current.value.path] + pathStack;
      current := current.value.parent;
    }
    assert ChainPaths(current) == [];
    assert pathStack == ChainPaths(goalNode);
    s := JoinDash(pathStack);
  }

  // ---------------------------------------------------------------------
  // The branch of the recursion.

  /**
   * p is the node limitedDFS receives as parent after following ms from
   * init: none at the root; otherwise the child, for the last move, of the
   * wrapper node built on the previous board with that board's own parent,
   * its path cost and an empty path.
   */
  ghost predicate Branch(init: seq<char>, goal: seq<char>, p: Option<Node>, ms: seq<Move>)
    decreases |ms|
  {
    |goal| == Size && ValidGrid(init) && Legal(init, ms)
    && if ms == [] then p.None?
      else
        var pre, m := ms[..|ms| - 1], ms[|ms| - 1];
        Legal(init, pre) && ValidGrid(Replay(init, pre)) && LegalMove(Replay(init, pre), m)
        && p.Some? && p.value.parent.Some?
        && var w := p.value.parent.value;
        w == MakeNode(goal, Replay(init, pre), w.parent, PathCost(pre), "")
        && Branch(init, goal, w.parent, pre)
        && p.value == Child(goal, w, m)
  }

  lemma JoinDashEmptyThen(parts: seq<string>, l: string)
    requires parts != []
    ensures JoinDash(parts + ["", l]) == JoinDash(parts) + "--" + l
  {
    var a := parts + [""];
    assert (parts + ["", l])[..|a|] == a && (parts + ["", l])[|a|] == l;
    assert a[..|parts|] == parts && a[|parts|] == "";
  }

  /** The last link of a non-empty branch: a child labelled by the last move, under an empty-path wrapper. */
  lemma BranchLast(init: seq<char>, goal: seq<char>, p: Option<Node>, ms: seq<Move>)
    requires Branch(init, goal, p, ms) && ms != []
    ensures p.Some? && p.value.parent.Some? && InRange(ms[|ms| - 1])
    ensures p.value.path == Label(ms[|ms| - 1]) && p.value.parent.value.path == ""
    ensures Branch(init, goal, p.value.parent.value.parent, ms[..|ms| - 1])
  {
  }

  lemma ChainLink(n: Node)
    ensures ChainPaths(Some(n)) == if n.parent.None? then [] else ChainPaths(n.parent) + [n.path]
  {
  }

  /**
   * The path fields along a chain: each link is a child labelled by its
   * move under a wrapper with an empty path.
   */
  ghost predicate Labelled(p: Option<Node>, ms: seq<Move>)
    decreases |ms|
  {
    if ms == [] then p.None?
    else
      p.Some? && p.value.parent.Some? && InRange(ms[|ms| - 1])
      && p.value.path == Label(ms[|ms| - 1]) && p.value.parent.value.path == ""
      && Labelled(p.value.parent.value.parent, ms[..|ms| - 1])
  }

  lemma {:induction false} BranchLabelled(init: seq<char>, goal: seq<char>, p: Option<Node>, ms: seq<Move>)
    requires Branch(init, goal, p, ms)
    ensures Labelled(p, ms)
    decreases |ms|
  {
    if ms != [] {
      BranchLast(init, goal, p, ms);
      BranchLabelled(init, goal, p.value.parent.value.parent, ms[..|ms| - 1]);
    }
  }

  /** The joined chain of a labelled chain is the path string of its moves. */
  lemma {:induction false} LabelledPath(p: Option<Node>, ms: seq<Move>)
    requires Labelled(p, ms)
    ensures AllInRange(ms) && JoinDash(ChainPaths(p)) == Encode(ms)
    decreases |ms|
  {
    if ms != [] {
      var pre, l := ms[..|ms| - 1], Label(ms[|ms| - 1]);
      var w := p.value.parent.value;
      LabelledPath(w.parent, pre);
      assert AllInRange(ms) by {
        forall k | 0 <= k < |ms| ensures InRange(ms[k]) {
          if k < |pre| { assert ms[k] == pre[k]; }
        }
      }
      var chain := ChainPaths(w.parent);
      ChainLink(p.value);
      if pre == [] {
        assert ChainPaths(p) == [l];
      } else {
        ChainLink(w);
        assert chain != [] by { ChainLink(w.parent.value); }
        assert ChainPaths(p) == chain + [""] + [l] == chain + ["", l];
        JoinDashEmptyThen(chain, l);
      }
    }
  }

  /** The joined chain of a branch node is the path string of the moves that reach it. */
  lemma BranchPath(init: seq<char>, goal: seq<char>, p: Option<Node>, ms: seq<Move>)
    requires Branch(init, goal, p, ms)
    ensures AllInRange(ms) && JoinDash(ChainPaths(p)) == Encode(ms)
  {
    BranchLabelled(init, goal, p, ms);
    LabelledPath(p, ms);
  }

  /** One more step along a branch. */
  lemma BranchStep(init: seq<char>, goal: seq<char>, p: Option<Node>, ms: seq<Move>, w: Node, m: Move)
    requires Branch(init, goal, p, ms) && Legal(init, ms) && ValidGrid(Replay(init, ms))
    requires w == MakeNode(goal, Replay(init, ms), p, PathCost(ms), "") && LegalMove(w.board, m)
    ensures Legal(init, ms + [m]) && Replay(init, ms + [m]) == Apply(Replay(init, ms), m)
    ensures Branch(init, goal, Some(Child(goal, w, m)), ms + [m])
  {
    LegalSnoc(init, ms, m);
    var ms' := ms + [m];
    assert ms'[..|ms'| - 1] == ms && ms'[|ms'| - 1] == m;
  }

  // ---------------------------------------------------------------------
  // The node count.

  /**
   * What limitedDFS reports as the node count for the board ms reaches:
   * the count is passed down by value and grows by the number of
   * successors at each board along the branch, so it is their total.
   */
  function CountAlong(b: seq<char>, ms: seq<Move>): int
    requires Legal(b, ms)
    decreases |ms|
  {
    if ms == [] then 0
    else
      LegalPrefix(b, ms);
      CountAlong(b, ms[..|ms| - 1]) + |AllMoves(Replay(b, ms[..|ms| - 1]))|
  }

  lemma CountAlongSnoc(b: seq<char>, ms: seq<Move>, m: Move)
    requires Legal(b, ms) && LegalMove(Replay(b, ms), m) && Legal(b, ms + [m])
    ensures CountAlong(b, ms + [m]) == CountAlong(b, ms) + |AllMoves(Replay(b, ms))|
  {
    assert (ms + [m])[..|ms|] == ms;
  }

  // ---------------------------------------------------------------------
  // limitedDFS.

  /** No simple path of fewer than limit moves from b that avoids P reaches the goal. */
  ghost predicate NoGoalWithin(goal: seq<char>, b: seq<char>, limit: int, P: set<seq<char>>)
  {
    forall ms :: Legal(b, ms) && |ms| < limit && SimpleFrom(b, ms, P) ==> Replay(b, ms) != goal
  }

  /** A simple path from b that starts with a move to the j-th successor continues from that successor. */
  lemma FirstStep(goal: seq<char>, w: Node, succs: seq<Node>, path: set<seq<char>>, ms: seq<Move>) returns (j: int)
    requires |goal| == Size && ValidGrid(w.board) && succs == Successors(goal, w)
    requires Legal(w.board, ms) && ms != [] && SimpleFrom(w.board, ms, path)
    ensures 0 <= j < |succs| && succs[j].board == Apply(w.board, ms[0])
    ensures succs[j].board !in path + {w.board} && SimpleFrom(succs[j].board, ms[1..], path + {w.board})
    ensures Legal(succs[j].board, ms[1..]) && Replay(succs[j].board, ms[1..]) == Replay(w.board, ms)
  {
    var b, m := w.board, ms[0];
    SuccessorsAreChildren(goal, w);
    AllMovesExactly(b);
    j :| 0 <= j < |AllMoves(b)| && AllMoves(b)[j] == m;
  }

  /** Every one of the first k successors that is off the branch P has no short simple path to the goal. */
  ghost predicate Cleared(goal: seq<char>, succs: seq<Node>, k: int, limit: int, P: set<seq<char>>)
    requires 0 <= k <= |succs|
  {
    forall j :: 0 <= j < k && succs[j].board !in P ==> NoGoalWithin(goal, succs[j].board, limit, P)
  }

  lemma ClearedStep(goal: seq<char>, succs: seq<Node>, k: int, limit: int, P: set<seq<char>>)
    requires 0 <= k < |succs| && Cleared(goal, succs, k, limit, P)
    requires succs[k].board !in P ==> NoGoalWithin(goal, succs[k].board, limit, P)
    ensures Cleared(goal, succs, k + 1, limit, P)
  {
  }

  /** After every successor not on the branch came back empty, no short simple path from the board reaches the goal. */
  lemma ExhaustedNoGoal(goal: seq<char>, w: Node, succs: seq<Node>, limit: int, path: set<seq<char>>)
    requires |goal| == Size && ValidGrid(w.board) && succs == Successors(goal, w) && w.board != goal
    requires Cleared(goal, succs, |succs|, limit - 1, path + {w.board})
    ensures NoGoalWithin(goal, w.board, limit, path)
  {
    var b := w.board;
    forall ms | Legal(b, ms) && |ms| < limit && SimpleFrom(b, ms, path) ensures Replay(b, ms) != goal {
      if ms != [] {
        var j := FirstStep(goal, w, succs, path, ms);
        assert NoGoalWithin(goal, succs[j].board, limit - 1, path + {w.board});
      }
    }
  }

  /**
   * found is a simple path of fewer than limit moves from state to the
   * goal, and res reports the path string, the count and the cost of the
   * moves pre + found from init.
   */
  ghost predicate Found(init: seq<char>, goal: seq<char>, state: seq<char>, limit: int, pre: seq<Move>,
                        found: seq<Move>, res: SearchResult)
  {
    Legal(state, found) && Replay(state, found) == goal && |found| < limit
    && Legal(init, pre + found) && AllInRange(pre + found)
    && res == SearchResult(Encode(pre + found), CountAlong(init, pre + found), Finite(PathCost(pre + found)))
  }

  /** What the recursive call for the i-th successor needs: its board is one move further along the branch. */
  lemma ChildCall(init: seq<char>, goal: seq<char>, state: seq<char>, parent: Option<Node>, pre: seq<Move>,
                  wrapper: Node, successors: seq<Node>, i: int, count: int)
    requires ValidGrid(goal) && ValidGrid(state) && Covered(goal, state)
    requires Branch(init, goal, parent, pre) && Replay(init, pre) == state
    requires wrapper == MakeNode(goal, state, parent, PathCost(pre), "") && successors == Successors(goal, wrapper)
    requires 0 <= i < |successors| && count == CountAlong(init, pre) + |successors|
    ensures var s, m := successors[i], AllMoves(state)[i];
      LegalMove(state, m) && s.board == Apply(state, m) && s.g == PathCost(pre + [m])
      && ValidGrid(s.board) && Covered(goal, s.board)
      && Branch(init, goal, Some(s), pre + [m]) && Replay(init, pre + [m]) == s.board
      && count == CountAlong(init, pre + [m])
  {
    SuccessorsAreChildren(goal, wrapper);
    var m := AllMoves(state)[i];
    BranchStep(init, goal, parent, pre, wrapper, m);
    PathCostSnoc(pre, m);
    CountAlongSnoc(init, pre, m);
    ApplyKeepsValid(state, m);
    CoveredAfterMove(goal, state, m);
  }

  /** A path found from the successor, with its move in front, is a path found from the board. */
  lemma FoundVia(init: seq<char>, goal: seq<char>, state: seq<char>, limit: int, pre: seq<Move>, m: Move,
                 f: seq<Move>, res: SearchResult)
    requires LegalMove(state, m) && Found(init, goal, Apply(state, m), limit - 1, pre + [m], f, res)
    ensures Found(init, goal, state, limit, pre, [m] + f, res)
  {
    var found := [m] + f;
    assert found[0] == m && found[1..] == f;
    assert (pre + [m]) + f == pre + found;
  }

  /** At the goal, the joined chain reports the path of the moves that reach it. */
  lemma FoundHere(init: seq<char>, goal: seq<char>, parent: Option<Node>, pre: seq<Move>, solution: string, count: int)
    requires Branch(init, goal, parent, pre) && Replay(init, pre) == goal
    requires solution == JoinDash(ChainPaths(parent)) && count == CountAlong(init, pre)
    ensures Found(init, goal, goal, 1, pre, [], SearchResult(solution, count, Finite(PathCost(pre))))
  {
    BranchPath(init, goal, parent, pre);
    assert pre + [] == pre;
  }

  lemma SetRestore(path: set<seq<char>>, b: seq<char>)
    requires b !in path
    ensures path + {b} - {b} == path
  {
  }

  /**
   * limitedDFS for the board `state` reached by `pre` from init, with the
   * branch's boards in `path` (the set is returned rather than shared).
   * A result reports a simple path of fewer than depthLimit moves to the
   * goal; no result means there is none, and the branch set is as it was.
   */
  method LimitedDfs(ghost init: seq<char>, goal: seq<char>, state: seq<char>, parent: Option<Node>, depthLimit: int,
                    path: set<seq<char>>, pathCost: int, nodeCreated: int, ghost pre: seq<Move>)
    returns (result: Option<SearchResult>, path': set<seq<char>>, ghost found: seq<Move>)
    requires ValidGrid(goal) && ValidGrid(state) && Covered(goal, state) && depthLimit >= 0
    requires Branch(init, goal, parent, pre) && Replay(init, pre) == state
    requires pathCost == PathCost(pre) && nodeCreated == CountAlong(init, pre) && state !in path
    ensures result.None? ==> path' == path && NoGoalWithin(goal, state, depthLimit, path)
    ensures result.Some? ==> Found(init, goal, state, depthLimit, pre, found, result.value)
    decreases depthLimit
  {
    found := [];
    if depthLimit == 0 {
      return None, path, found;
    }
    if state == goal {
      var solution := DfidReconstructPath(parent);
      FoundHere(init, goal, parent, pre, solution, nodeCreated);
      return Some(SearchResult(solution, nodeCreated, Finite(pathCost))), path, found;
    }
    var pathSet := path + {state};
    var wrapper := NewNode(goal, state, parent, pathCost, "");
    var successors := GenerateSuccessors(goal, wrapper);
    var count := nodeCreated + |successors|;
    for i := 0 to |successors|
      invariant pathSet == path + {state}
      invariant Cleared(goal, successors, i, depthLimit - 1, pathSet)
    {
      var successor := successors[i];
      if successor.board !in pathSet {
        ghost var m := AllMoves(state)[i];
        ChildCall(init, goal, state, parent, pre, wrapper, successors, i, count);
        var r, p2, f := LimitedDfs(init, goal, successor.board, Some(successor), depthLimit - 1,
                                   pathSet, successor.g, count, pre + [m]);
        if r.Some? {
          found := [m] + f;
          FoundVia(init, goal, state, depthLimit, pre, m, f, r.value);
          return r, p2, found;
        }
        pathSet := p2;
      }
      ClearedStep(goal, successors, i, depthLimit - 1, pathSet);
    }
    ExhaustedNoGoal(goal, wrapper, successors, depthLimit, path);
    pathSet := pathSet - {state};
    SetRestore(path, state);
    return None, pathSet, found;
  }

  // ---------------------------------------------------------------------
  // The deepening loop.

  /**
   * DFIDSearch.search, trying the depth limits 1 to maxLimit (the Java
   * loop is unbounded).  A result solves the puzzle with the fewest moves
   * of any legal sequence; no result means no legal sequence of fewer
   * than maxLimit moves reaches the goal.
   */
  method Search(init: seq<char>, goal: seq<char>, maxLimit: int) returns (r: Option<SearchResult>)
    requires ValidGrid(init) && ValidGrid(goal) && Covered(goal, init)
    ensures r.Some? ==> (Solves(init, goal, r.value)
      && forall ms :: Legal(init, ms) && Replay(init, ms) == goal ==> |Decode(r.value.solution).value| <= |ms|)
    ensures r.Some? ==> r.value.nodesCreated == CountAlong(init, Decode(r.value.solution).value)
    ensures r.None? ==> forall ms :: Legal(init, ms) && Replay(init, ms) == goal ==> |ms| >= maxLimit
  {
    var depthLimit := 1;
    while depthLimit <= maxLimit
      invariant 1 <= depthLimit && (depthLimit <= maxLimit + 1 || depthLimit == 1)
      invariant forall ms :: Legal(init, ms) && Replay(init, ms) == goal ==> |ms| >= depthLimit - 1
    {
      var path: set<seq<char>> := {};
      var nodesCreated := 0;
      var result, _, found := LimitedDfs(init, goal, init, None, depthLimit, path, 0, nodesCreated, []);
      if result.Some? {
        assert [] + found == found;
        DecodeEncode(found);
        return result;
      }
      forall ms | Legal(init, ms) && Replay(init, ms) == goal ensures |ms| >= depthLimit {
        var s := MakeSimple(init, ms);
      }
      depthLimit := depthLimit + 1;
    }
    forall ms | Legal(init, ms) && Replay(init, ms) == goal ensures |ms| >= maxLimit {
      assert |ms| >= depthLimit - 1;
    }
    return None;
  }
}

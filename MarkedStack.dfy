/**
 * The stack-and-table discipline IDAStarSearch and DFBnBSearch share: a
 * stack L of nodes and a table H from boards to the stack's node on that
 * board.  A node is marked out and pushed back the first time it is
 * popped and leaves both when it is popped marked; a successor that beats
 * the table's entry for its board replaces that entry on the stack and in
 * the table.  Also the bookkeeping the completeness argument uses: the
 * expanded nodes and the closure of their boards under legal moves.
 */
module MarkedStack {
  import opened Wrappers
  import opened Board
  import opened Paths
  import opened Heuristics
  import opened Nodes
  import opened Reach

  // ---------------------------------------------------------------------
  // Removing an entry from the stack.

  /** L.remove(existingNode), as intended: the stack without the entry on board b. */
  function RemoveBoard(L: seq<Node>, b: seq<char>): (r: seq<Node>)
    ensures |r| <= |L|
    decreases |L|
  {
    if L == [] then [] else (if L[0].board == b then [] else [L[0]]) + RemoveBoard(L[1..], b)
  }

  lemma DistinctTail(L: seq<Node>)
    requires L != [] && DistinctBoards(L)
    ensures DistinctBoards(L[1..]) && L[0].board !in Boards(L[1..])
  {
    var tail := L[1..];
    forall i, j | 0 <= i < j < |tail| ensures tail[i].board != tail[j].board {
      assert tail[i] == L[i + 1] && tail[j] == L[j + 1];
    }
    forall i | 0 <= i < |tail| ensures tail[i].board != L[0].board {
      assert tail[i] == L[i + 1];
    }
  }

  /** The entries left are entries of L, and every entry on another board is left. */
  lemma {:induction false} RemoveBoardMembers(L: seq<Node>, b: seq<char>)
    ensures forall x :: x in RemoveBoard(L, b) <==> x in L && x.board != b
    decreases |L|
  {
    if L != [] {
      RemoveBoardMembers(L[1..], b);
      assert L == [L[0]] + L[1..];
    }
  }

  lemma DistinctCons(x: Node, s: seq<Node>)
    requires DistinctBoards(s) && forall y :: y in s ==> y.board != x.board
    ensures DistinctBoards([x] + s)
  {
    var r := [x] + s;
    forall i, j | 0 <= i < j < |r| ensures r[i].board != r[j].board {
      assert r[j] == s[j - 1];
      if i > 0 {
        assert r[i] == s[i - 1];
      }
    }
  }

  /** Removing keeps the boards distinct. */
  lemma {:induction false} RemoveBoardDistinct(L: seq<Node>, b: seq<char>)
    requires DistinctBoards(L)
    ensures DistinctBoards(RemoveBoard(L, b))
    decreases |L|
  {
    if L != [] {
      var tail := L[1..];
      DistinctTail(L);
      RemoveBoardDistinct(tail, b);
      RemoveBoardMembers(tail, b);
      var rest := RemoveBoard(tail, b);
      if L[0].board != b {
        forall y | y in rest ensures y.board != L[0].board {
          BoardsMember(tail, y);
        }
        DistinctCons(L[0], rest);
      } else {
        assert RemoveBoard(L, b) == rest;
      }
    }
  }

  /** Removing the entry on b takes exactly board b off the stack's boards. */
  lemma RemoveBoardBoards(L: seq<Node>, b: seq<char>)
    ensures Boards(RemoveBoard(L, b)) == Boards(L) - {b}
  {
    var r := RemoveBoard(L, b);
    RemoveBoardMembers(L, b);
    forall c | c in Boards(L) - {b} ensures c in Boards(r) {
      var x := BoardsHas(L, c);
      BoardsMember(r, x);
    }
    forall c | c in Boards(r) ensures c in Boards(L) - {b} {
      var x := BoardsHas(r, c);
      BoardsMember(L, x);
    }
  }

  lemma RemoveBoardBottom(L: seq<Node>, b: seq<char>)
    requires L != [] && L[0].board != b
    ensures RemoveBoard(L, b) != [] && RemoveBoard(L, b)[0] == L[0]
  {
  }

  /** The table holds, for each board on the stack, exactly the stack's node, and no other board. */
  ghost predicate Indexed(L: seq<Node>, H: map<seq<char>, Node>)
  {
    DistinctBoards(L) && H.Keys == Boards(L) && forall x :: x in L ==> x.board in H && H[x.board] == x
  }

  lemma BoardsMember(L: seq<Node>, x: Node)
    requires x in L
    ensures x.board in Boards(L)
  {
  }

  lemma BoardsHas(L: seq<Node>, b: seq<char>) returns (x: Node)
    requires b in Boards(L)
    ensures x in L && x.board == b
  {
    var i :| 0 <= i < |L| && L[i].board == b;
    x := L[i];
  }
  /**
   * ArrayDeque.remove(existingNode) (IDAStarSearch), as written: the deque
   * offers its elements from the head, the top of the stack (here the last
   * element), to existingNode.equals.  SearchNode.equals answers true for
   * the node itself and otherwise casts the other SearchNode to BoardState,
   * which throws; None stands for that ClassCastException.
   */
  function DequeRemove(L: seq<Node>, e: Node): Option<seq<Node>>
  {
    if L == [] then Some([]) else if L[|L| - 1] == e then Some(L[..|L| - 1]) else None
  }

  /**
   * Stack.remove(existingNode) (DFBnBSearch), as written: Vector.indexOf
   * offers its elements from index 0, the bottom of the stack, to
   * existingNode.equals, with the same cast.
   */
  function VectorRemove(L: seq<Node>, e: Node): Option<seq<Node>>
  {
    if L == [] then Some([]) else if L[0] == e then Some(L[1..]) else None
  }

  /**
   * Removing an entry that is not on top throws in the deque, and one that
   * is not at the bottom throws in the vector, while the intended removal
   * takes exactly that entry's board off the stack.
   */
  lemma RemoveAsWritten(L: seq<Node>, i: int)
    requires DistinctBoards(L) && 0 <= i < |L|
    ensures i < |L| - 1 ==> DequeRemove(L, L[i]).None?
    ensures i > 0 ==> VectorRemove(L, L[i]).None?
    ensures Boards(RemoveBoard(L, L[i].board)) == Boards(L) - {L[i].board}
    ensures DistinctBoards(RemoveBoard(L, L[i].board))
    ensures forall x :: x in RemoveBoard(L, L[i].board) <==> x in L && x != L[i]
  {
    RemoveBoardBoards(L, L[i].board);
    RemoveBoardDistinct(L, L[i].board);
    RemoveBoardMembers(L, L[i].board);
    forall x | x in L && x.board == L[i].board ensures x == L[i] {
      var k :| 0 <= k < |L| && L[k] == x;
      assert k == i;
    }
  }

  // ---------------------------------------------------------------------
  // The invariant of the stack and the table.

  /** The boards of a set of nodes. */
  ghost function NodeBoards(E: set<Node>): set<seq<char>>
  {
    set n | n in E :: n.board
  }

  /**
   * The shape of the stack between pops, with E the nodes expanded so far
   * (marked out and pushed back): the table indexes the stack; a marked
   * stacked node has been expanded; the bottom of the stack is on init
   * with g = 0 and is marked out once it has been expanded; and when the
   * stack has run empty, init's node has been expanded.
   */
  ghost predicate StackShape(init: seq<char>, L: seq<Node>, H: map<seq<char>, Node>, E: set<Node>)
  {
    Indexed(L, H)
    && (forall x :: x in L && x.marked ==> x in E)
    && (L == [] ==> init in NodeBoards(E))
    && (L != [] ==> L[0].board == init && L[0].g <= 0 && (L[0].marked || (|L| == 1 && E == {})))
  }

  /** Every node of q is traced from init, and none is on the goal board unless the goal is init. */
  ghost predicate AllTraced(init: seq<char>, goal: seq<char>, q: seq<Node>)
  {
    forall x :: x in q ==> Traced(init, goal, x) && (x.board == goal ==> x.board == init)
  }

  /** The same for the expanded nodes. */
  ghost predicate ExpandedTraced(init: seq<char>, goal: seq<char>, E: set<Node>)
  {
    forall n :: n in E ==> Traced(init, goal, n) && (n.board == goal ==> n.board == init)
  }

  /** The state between pops. */
  ghost predicate StackOK(init: seq<char>, goal: seq<char>, L: seq<Node>, H: map<seq<char>, Node>, E: set<Node>)
  {
    StackShape(init, L, H, E) && AllTraced(init, goal, L) && ExpandedTraced(init, goal, E)
  }

  /** The stack and the table as the search sets them up. */
  lemma StartOK(init: seq<char>, goal: seq<char>, start: Node)
    requires ValidGrid(init) && ValidGrid(goal) && Covered(goal, init)
    requires start == MakeNode(goal, init, None, 0, "")
    ensures StackOK(init, goal, [start], map[init := start], {})
  {
    StartTraced(init, goal);
    assert Boards([start]) == {init} by {
      assert [start][0] == start;
    }
  }

  /** A stack made of traced nodes and one more traced node is traced. */
  lemma TracedFrom(init: seq<char>, goal: seq<char>, q: seq<Node>, q': seq<Node>, s: Node)
    requires AllTraced(init, goal, q) && Traced(init, goal, s) && (s.board == goal ==> s.board == init)
    requires forall x :: x in q' ==> x in q || x == s
    ensures AllTraced(init, goal, q')
  {
  }

  lemma DistinctInit(L: seq<Node>)
    requires L != [] && DistinctBoards(L)
    ensures DistinctBoards(L[..|L| - 1]) && L[|L| - 1].board !in Boards(L[..|L| - 1])
  {
    var rest := L[..|L| - 1];
    forall i, j | 0 <= i < j < |rest| ensures rest[i].board != rest[j].board {
      assert rest[i] == L[i] && rest[j] == L[j];
    }
    forall i | 0 <= i < |rest| ensures rest[i].board != L[|L| - 1].board {
      assert rest[i] == L[i];
    }
  }

  lemma InitMembers(L: seq<Node>)
    requires L != []
    ensures forall y :: y in L[..|L| - 1] ==> y in L
  {
    assert L == L[..|L| - 1] + [L[|L| - 1]];
  }

  /** Popping the top of an indexed stack and dropping its board from the table. */
  lemma IndexedPop(L: seq<Node>, H: map<seq<char>, Node>)
    requires Indexed(L, H) && L != []
    ensures Indexed(L[..|L| - 1], H - {L[|L| - 1].board})
    ensures Boards(L) == Boards(L[..|L| - 1]) + {L[|L| - 1].board}
    ensures forall x :: x in L[..|L| - 1] ==> x in L
  {
    var x, rest := L[|L| - 1], L[..|L| - 1];
    var H' := H - {x.board};
    assert L == rest + [x];
    assert Boards([x]) == {x.board} by {
      assert [x][0] == x;
    }
    BoardsAppend(rest, [x]);
    DistinctInit(L);
    InitMembers(L);
    assert H'.Keys == Boards(rest);
    forall y | y in rest ensures y.board in H' && H'[y.board] == y {
      assert H[y.board] == y;
    }
  }

  /** Replacing the top of an indexed stack by a node on the same board, in the stack and the table. */
  lemma IndexedReplaceTop(L: seq<Node>, H: map<seq<char>, Node>, x: Node)
    requires Indexed(L, H) && L != [] && x.board == L[|L| - 1].board
    ensures Indexed(L[..|L| - 1] + [x], H[x.board := x])
    ensures Boards(L[..|L| - 1] + [x]) == Boards(L)
  {
    var rest := L[..|L| - 1];
    IndexedPop(L, H);
    IndexedPush(rest, H - {x.board}, x);
    assert (H - {x.board})[x.board := x] == H[x.board := x];
  }

  /** Pushing a node on a board the table does not hold. */
  lemma IndexedPush(L: seq<Node>, H: map<seq<char>, Node>, s: Node)
    requires Indexed(L, H) && s.board !in H
    ensures Indexed(L + [s], H[s.board := s])
    ensures Boards(L + [s]) == Boards(L) + {s.board}
    ensures forall y :: y in L + [s] ==> y in L || y == s
  {
    var L' := L + [s];
    assert Boards([s]) == {s.board} by {
      assert [s][0] == s;
    }
    BoardsAppend(L, [s]);
    forall i, j | 0 <= i < j < |L'| ensures L'[i].board != L'[j].board {
      BoardsMember(L, L'[i]);
    }
  }

  lemma PopMarkedShape(init: seq<char>, L: seq<Node>, H: map<seq<char>, Node>, E: set<Node>)
    requires StackShape(init, L, H, E) && L != [] && L[|L| - 1].marked
    ensures StackShape(init, L[..|L| - 1], H - {L[|L| - 1].board}, E)
    ensures Boards(L) == Boards(L[..|L| - 1]) + {L[|L| - 1].board}
    ensures L[|L| - 1].board in NodeBoards(E)
    ensures forall x :: x in L[..|L| - 1] ==> x in L
  {
    IndexedPop(L, H);
    assert L[|L| - 1] in L;
    if |L| > 1 {
      assert L[..|L| - 1][0] == L[0];
    }
  }

  /** Popping a marked node and dropping it from the table; its board was expanded. */
  lemma PopMarkedOK(init: seq<char>, goal: seq<char>, L: seq<Node>, H: map<seq<char>, Node>, E: set<Node>)
    requires StackOK(init, goal, L, H, E) && L != [] && L[|L| - 1].marked
    ensures StackOK(init, goal, L[..|L| - 1], H - {L[|L| - 1].board}, E)
    ensures Boards(L) == Boards(L[..|L| - 1]) + {L[|L| - 1].board}
    ensures L[|L| - 1].board in NodeBoards(E)
  {
    PopMarkedShape(init, L, H, E);
    TracedFrom(init, goal, L, L[..|L| - 1], L[0]);
  }

  lemma MarkShape(init: seq<char>, L: seq<Node>, H: map<seq<char>, Node>, E: set<Node>)
    requires StackShape(init, L, H, E) && L != [] && !L[|L| - 1].marked
    ensures var x := L[|L| - 1].(marked := true);
      var L' := L[..|L| - 1] + [x];
      StackShape(init, L', H[x.board := x], E + {x})
      && Boards(L') == Boards(L) && L'[0].marked && L'[|L'| - 1] == x
      && forall y :: y in L' ==> y in L || y == x
  {
    var x, rest := L[|L| - 1].(marked := true), L[..|L| - 1];
    var L' := rest + [x];
    IndexedReplaceTop(L, H, x);
    IndexedPop(L, H);
    IndexedPush(rest, H - {x.board}, x);
    if |L| == 1 {
      assert L'[0] == x;
    } else {
      assert L'[0] == L[0] == rest[0];
    }
  }

  /** Popping an unmarked node, marking it out and pushing it back: it joins the expanded nodes. */
  lemma MarkOK(init: seq<char>, goal: seq<char>, L: seq<Node>, H: map<seq<char>, Node>, E: set<Node>)
    requires StackOK(init, goal, L, H, E) && L != [] && !L[|L| - 1].marked
    ensures var x := L[|L| - 1].(marked := true);
      var L' := L[..|L| - 1] + [x];
      StackOK(init, goal, L', H[x.board := x], E + {x})
      && Boards(L') == Boards(L) && Traced(init, goal, x) && L'[0].marked && L'[|L'| - 1] == x
      && forall y :: y in L' ==> y in L || y == x
  {
    var x := L[|L| - 1].(marked := true);
    MarkShape(init, L, H, E);
    assert L[|L| - 1] in L;
    TracedFrom(init, goal, L, L[..|L| - 1] + [x], x);
  }

  lemma PushShape(init: seq<char>, L: seq<Node>, H: map<seq<char>, Node>, E: set<Node>, s: Node)
    requires StackShape(init, L, H, E) && L != [] && L[0].marked && !s.marked && s.board !in H
    ensures StackShape(init, L + [s], H[s.board := s], E)
    ensures Boards(L + [s]) == Boards(L) + {s.board} && (L + [s])[0] == L[0] && (L + [s])[|L|] == s
    ensures forall y :: y in L + [s] ==> y in L || y == s
  {
    IndexedPush(L, H, s);
  }

  /** Pushing a fresh successor on a board with no entry. */
  lemma PushOK(init: seq<char>, goal: seq<char>, L: seq<Node>, H: map<seq<char>, Node>, E: set<Node>, s: Node)
    requires StackOK(init, goal, L, H, E) && L != [] && L[0].marked
    requires Traced(init, goal, s) && !s.marked && s.board != goal && s.board !in H
    ensures StackOK(init, goal, L + [s], H[s.board := s], E)
    ensures Boards(L + [s]) == Boards(L) + {s.board} && (L + [s])[0] == L[0] && (L + [s])[|L|] == s
  {
    PushShape(init, L, H, E, s);
    TracedFrom(init, goal, L, L + [s], s);
  }

  lemma RemoveShape(init: seq<char>, L: seq<Node>, H: map<seq<char>, Node>, E: set<Node>, b: seq<char>)
    requires StackShape(init, L, H, E) && L != [] && L[0].board != b
    ensures StackShape(init, RemoveBoard(L, b), H - {b}, E)
    ensures RemoveBoard(L, b) != [] && RemoveBoard(L, b)[0] == L[0]
    ensures Boards(RemoveBoard(L, b)) == Boards(L) - {b}
    ensures forall x :: x in RemoveBoard(L, b) <==> x in L && x.board != b
  {
    var r := RemoveBoard(L, b);
    RemoveBoardBoards(L, b);
    RemoveBoardDistinct(L, b);
    RemoveBoardMembers(L, b);
    RemoveBoardBottom(L, b);
    if !L[0].marked {
      assert |L| == 1;
      assert |r| == 1;
    }
  }

  /** Removing a dominated entry from the stack and the table, anywhere but at the bottom. */
  lemma RemoveOK(init: seq<char>, goal: seq<char>, L: seq<Node>, H: map<seq<char>, Node>, E: set<Node>, b: seq<char>)
    requires StackOK(init, goal, L, H, E) && L != [] && L[0].board != b
    ensures StackOK(init, goal, RemoveBoard(L, b), H - {b}, E)
    ensures RemoveBoard(L, b) != [] && RemoveBoard(L, b)[0] == L[0]
    ensures Boards(RemoveBoard(L, b)) == Boards(L) - {b}
    ensures forall x :: x in RemoveBoard(L, b) <==> x in L && x.board != b
  {
    RemoveShape(init, L, H, E, b);
    TracedFrom(init, goal, L, RemoveBoard(L, b), L[0]);
  }

  // ---------------------------------------------------------------------
  // The marked entries as the ancestors of the nodes above them.

  /** The boards a node's path passes through before its own. */
  ghost function Ancestry(init: seq<char>, x: Node): set<seq<char>>
  {
    if Legal(init, PathMoves(x)) then Before(init, PathMoves(x)) else {}
  }

  /** A node whose path from init never revisits a board. */
  ghost predicate SimpleNode(init: seq<char>, x: Node)
  {
    SimpleFrom(init, PathMoves(x), {})
  }

  /** The marked-out entries of the stack. */
  ghost function MarkedOf(L: seq<Node>): set<Node>
  {
    set x | x in L && x.marked
  }

  /** x sits above the marked nodes M: its ancestors' boards are theirs, and its g is at least each of theirs. */
  ghost predicate Above(init: seq<char>, M: set<Node>, x: Node)
  {
    Ancestry(init, x) <= NodeBoards(M) && forall y :: y in M ==> y.g <= x.g
  }

  /** Every entry of L sits above M and the marked entries below it. */
  ghost predicate ChainFrom(init: seq<char>, M: set<Node>, L: seq<Node>)
    decreases |L|
  {
    L == [] || (Above(init, M, L[0]) && ChainFrom(init, if L[0].marked then M + {L[0]} else M, L[1..]))
  }

  /**
   * The lineage of the stack: every entry sits above the marked entries
   * below it, and every stacked and every expanded node has a simple path.
   */
  ghost predicate Lineage(init: seq<char>, L: seq<Node>, E: set<Node>)
  {
    ChainFrom(init, {}, L) && (forall x :: x in L ==> SimpleNode(init, x)) && (forall n :: n in E ==> SimpleNode(init, n))
  }

  /**
   * A successor s fit to stack above the marked nodes M: it sits above
   * them, its h agrees with theirs on a shared board, and its path is
   * simple as long as its own board is not among its ancestors'.
   */
  ghost predicate Descends(init: seq<char>, M: set<Node>, s: Node)
  {
    Above(init, M, s) && (forall y :: y in M && y.board == s.board ==> y.h == s.h)
    && (s.board !in Ancestry(init, s) ==> SimpleNode(init, s))
  }

  lemma MarkedOfSnoc(L: seq<Node>, x: Node)
    ensures MarkedOf(L + [x]) == MarkedOf(L) + (if x.marked then {x} else {})
  {
  }

  lemma MarkedOfCons(L: seq<Node>)
    requires L != []
    ensures MarkedOf(L) == MarkedOf(L[1..]) + (if L[0].marked then {L[0]} else {})
  {
    assert L == [L[0]] + L[1..];
  }

  /** The chain grows by one entry exactly when it sits above M and the marked entries of L. */
  lemma {:induction false} ChainSnoc(init: seq<char>, M: set<Node>, L: seq<Node>, x: Node)
    ensures ChainFrom(init, M, L + [x]) <==> ChainFrom(init, M, L) && Above(init, M + MarkedOf(L), x)
    decreases |L|
  {
    if L == [] {
      assert [x][1..] == [];
      assert M + MarkedOf(L) == M;
    } else {
      var M' := if L[0].marked then M + {L[0]} else M;
      assert (L + [x])[0] == L[0] && (L + [x])[1..] == L[1..] + [x];
      ChainSnoc(init, M', L[1..], x);
      MarkedOfCons(L);
      assert M' + MarkedOf(L[1..]) == M + MarkedOf(L);
    }
  }

  /** Removing the entry on a board with no marked entry keeps the chain and the marked entries. */
  lemma {:induction false} ChainRemove(init: seq<char>, M: set<Node>, L: seq<Node>, b: seq<char>)
    requires ChainFrom(init, M, L) && forall y :: y in L && y.board == b ==> !y.marked
    ensures ChainFrom(init, M, RemoveBoard(L, b)) && MarkedOf(RemoveBoard(L, b)) == MarkedOf(L)
    decreases |L|
  {
    if L != [] {
      var M' := if L[0].marked then M + {L[0]} else M;
      assert forall y :: y in L[1..] ==> y in L;
      ChainRemove(init, M', L[1..], b);
      MarkedOfCons(L);
      var rest := RemoveBoard(L[1..], b);
      if L[0].board != b {
        var r := [L[0]] + rest;
        assert r[0] == L[0] && r[1..] == rest;
        MarkedOfCons(r);
      } else {
        assert L[0] in L && M' == M;
        assert RemoveBoard(L, b) == rest;
      }
    }
  }

  lemma LineageStart(init: seq<char>, start: Node)
    requires PathMoves(start) == []
    ensures Lineage(init, [start], {})
  {
    assert [start][1..] == [];
    assert Ancestry(init, start) == {};
  }

  /** Popping the top keeps the lineage. */
  lemma LineagePop(init: seq<char>, L: seq<Node>, E: set<Node>)
    requires Lineage(init, L, E) && L != []
    ensures Lineage(init, L[..|L| - 1], E)
  {
    var rest := L[..|L| - 1];
    assert L == rest + [L[|L| - 1]];
    ChainSnoc(init, {}, rest, L[|L| - 1]);
    assert forall y :: y in rest ==> y in L;
  }

  /**
   * Marking the top out keeps the lineage with it expanded; it is then the
   * topmost marked entry, on top of all the others in g, and its ancestors'
   * boards and its own are those of the marked entries.
   */
  lemma LineageMark(init: seq<char>, L: seq<Node>, E: set<Node>)
    requires Lineage(init, L, E) && L != [] && !L[|L| - 1].marked
    ensures var x := L[|L| - 1].(marked := true);
      var L' := L[..|L| - 1] + [x];
      Lineage(init, L', E + {x}) && MarkedOf(L') == MarkedOf(L[..|L| - 1]) + {x}
      && Ancestry(init, x) + {x.board} <= NodeBoards(MarkedOf(L'))
      && (forall y :: y in MarkedOf(L') ==> y.g <= x.g) && SimpleNode(init, x)
  {
    var top, rest := L[|L| - 1], L[..|L| - 1];
    var x := top.(marked := true);
    var L' := rest + [x];
    assert L == rest + [top];
    ChainSnoc(init, {}, rest, top);
    assert top in L;
    assert Ancestry(init, x) == Ancestry(init, top);
    ChainSnoc(init, {}, rest, x);
    MarkedOfSnoc(rest, x);
    assert {} + MarkedOf(rest) == MarkedOf(rest);
    assert NodeBoards(MarkedOf(L')) == NodeBoards(MarkedOf(rest)) + {x.board};
    forall y | y in L' ensures SimpleNode(init, y) {
      if y != x {
        assert y in rest && y in L;
      }
    }
  }

  /**
   * A node on board b is not entered marked when the table's node for b is
   * unmarked, since the table holds the stack's one node on each board.
   */
  lemma UnmarkedBoard(L: seq<Node>, H: map<seq<char>, Node>, b: seq<char>)
    requires Indexed(L, H) && (b in H ==> !H[b].marked)
    ensures forall y :: y in L && y.board == b ==> !y.marked
    ensures b !in NodeBoards(MarkedOf(L))
  {
    forall y | y in L && y.board == b ensures !y.marked {
      assert H[y.board] == y;
    }
  }

  /** A child extends its parent's ancestors by the parent's board, and does not lower g. */
  lemma ChildDescends(init: seq<char>, goal: seq<char>, M: set<Node>, n: Node, m: Move)
    requires Traced(init, goal, n) && SimpleNode(init, n) && LegalMove(n.board, m)
    requires Ancestry(init, n) + {n.board} <= NodeBoards(M) && forall y :: y in M ==> y.g <= n.g
    requires forall y :: y in M ==> Traced(init, goal, y)
    ensures Descends(init, M, Child(goal, n, m))
  {
    var c := Child(goal, n, m);
    var ms := PathMoves(n);
    ChildTraced(init, goal, n, m);
    BeforeSnoc(init, ms, m);
    assert Ancestry(init, c) == Ancestry(init, n) + {n.board};
    if c.board !in Ancestry(init, c) {
      SimpleSnoc(init, ms, m, {});
    }
  }

  /** So do all its sorted successors. */
  lemma SuccessorsDescend(init: seq<char>, goal: seq<char>, M: set<Node>, n: Node)
    requires Traced(init, goal, n) && SimpleNode(init, n)
    requires Ancestry(init, n) + {n.board} <= NodeBoards(M) && forall y :: y in M ==> y.g <= n.g
    requires forall y :: y in M ==> Traced(init, goal, y)
    ensures forall c :: c in SortByF(Successors(goal, n)) ==> Descends(init, M, c)
  {
    var cs := Successors(goal, n);
    SuccessorsAreChildren(goal, n);
    SortByFPermutes(cs);
    forall c | c in SortByF(cs) ensures Descends(init, M, c) {
      assert c in multiset(SortByF(cs));
      var i :| 0 <= i < |cs| && cs[i] == c;
      ChildDescends(init, goal, M, n, AllMoves(n.board)[i]);
    }
  }

  /**
   * The successors of the marked top of a stack in lineage all descend
   * from the stack's marked entries.
   */
  lemma ExpandDescends(init: seq<char>, goal: seq<char>, L: seq<Node>, E: set<Node>)
    requires Lineage(init, L, E) && L != [] && !L[|L| - 1].marked && AllTraced(init, goal, L)
    ensures var x := L[|L| - 1].(marked := true);
      var L' := L[..|L| - 1] + [x];
      forall c :: c in SortByF(Successors(goal, x)) ==> Descends(init, MarkedOf(L'), c)
  {
    var x := L[|L| - 1].(marked := true);
    var L' := L[..|L| - 1] + [x];
    LineageMark(init, L, E);
    assert L[|L| - 1] in L;
    forall y | y in MarkedOf(L') ensures Traced(init, goal, y) {
      if y != x {
        assert y in L[..|L| - 1];
        InitMembers(L);
      }
    }
    SuccessorsDescend(init, goal, MarkedOf(L'), x);
  }

  /**
   * A successor descending from the marked entries that the table admits
   * (its board's entry, if any, is unmarked) is on no marked entry's board,
   * so its path is simple.
   */
  lemma AdmittedSimple(init: seq<char>, L: seq<Node>, H: map<seq<char>, Node>, s: Node)
    requires Indexed(L, H) && Descends(init, MarkedOf(L), s) && (s.board in H ==> !H[s.board].marked)
    ensures SimpleNode(init, s) && forall y :: y in L && y.board == s.board ==> !y.marked
  {
    UnmarkedBoard(L, H, s.board);
  }

  /** A traced node's f is far below Integer.MAX_VALUE once its path is simple, and so is each child's. */
  lemma SimpleChildBelowMax(init: seq<char>, goal: seq<char>, n: Node, m: Move)
    requires Traced(init, goal, n) && SimpleNode(init, n) && LegalMove(n.board, m)
    ensures Child(goal, n, m).F() < IntMax
  {
    var ms := PathMoves(n);
    SimpleShort(init, ms);
    PathCostBound(ms);
    ChildTraced(init, goal, n, m);
    var c := Child(goal, n, m);
    HeuristicBounds(goal, c.board);
    assert c.g <= n.g + 10;
  }

  /** With every expanded node traced and simple, no child of one reaches Integer.MAX_VALUE. */
  lemma NoChildAtMax(init: seq<char>, goal: seq<char>, E: set<Node>)
    requires forall n :: n in E ==> Traced(init, goal, n) && SimpleNode(init, n)
    ensures !SomeChildAtLeast(goal, E, IntMax)
  {
    forall n, m | n in E && ValidGrid(n.board) && LegalMove(n.board, m) ensures Child(goal, n, m).F() < IntMax {
      SimpleChildBelowMax(init, goal, n, m);
    }
  }

  // ---------------------------------------------------------------------
  // Closure of the expanded boards.

  /**
   * Every legal move from an expanded node leads to a board that has been
   * expanded or is on the stack, or to a child whose f is at least bound.
   */
  ghost predicate Closed(goal: seq<char>, E: set<Node>, L: seq<Node>, bound: int)
  {
    |goal| == Size
    && forall n, m :: n in E && ValidGrid(n.board) && LegalMove(n.board, m) ==>
      Apply(n.board, m) in NodeBoards(E) || Apply(n.board, m) in Boards(L) || bound <= Child(goal, n, m).F()
  }

  /** Some legal move from an expanded node leads to a child whose f is at least bound. */
  ghost predicate SomeChildAtLeast(goal: seq<char>, E: set<Node>, bound: int)
  {
    |goal| == Size
    && exists n, m :: n in E && ValidGrid(n.board) && LegalMove(n.board, m) && bound <= Child(goal, n, m).F()
  }

  /** Every child of an expanded node whose f is above t has f at least bound. */
  ghost predicate AboveAtLeast(goal: seq<char>, E: set<Node>, t: int, bound: int)
  {
    |goal| == Size
    && forall n, m :: n in E && ValidGrid(n.board) && LegalMove(n.board, m) && t < Child(goal, n, m).F() ==>
      bound <= Child(goal, n, m).F()
  }

  /** bound is Integer.MAX_VALUE, or the f of some child of an expanded node, above t. */
  ghost predicate AttainedAbove(goal: seq<char>, E: set<Node>, t: int, bound: int)
  {
    bound == IntMax
    || (|goal| == Size
        && exists n, m ::
          n in E && ValidGrid(n.board) && LegalMove(n.board, m) && t < Child(goal, n, m).F() && Child(goal, n, m).F() == bound)
  }

  lemma ClosedStart(goal: seq<char>, L: seq<Node>, bound: int)
    requires |goal| == Size
    ensures Closed(goal, {}, L, bound)
  {
  }

  /** Closure survives a stack that keeps its boards or hands them to the expanded set, and a lower bound. */
  lemma ClosedWeaken(goal: seq<char>, E: set<Node>, L: seq<Node>, L': seq<Node>, bound: int, bound': int)
    requires Closed(goal, E, L, bound) && Boards(L) <= NodeBoards(E) + Boards(L') && bound' <= bound
    ensures Closed(goal, E, L', bound')
  {
  }

  /** The child for a legal move is among the sorted successors. */
  lemma ChildIsSuccessor(goal: seq<char>, n: Node, m: Move)
    requires |goal| == Size && ValidGrid(n.board) && LegalMove(n.board, m)
    ensures Child(goal, n, m) in SortByF(Successors(goal, n))
  {
    var cs := Successors(goal, n);
    SuccessorsAreChildren(goal, n);
    AllMovesExactly(n.board);
    SortByFPermutes(cs);
    var j :| 0 <= j < |AllMoves(n.board)| && AllMoves(n.board)[j] == m;
    assert cs[j] in multiset(cs);
  }

  /** Every sorted successor is the child for some legal move. */
  lemma SuccessorIsChild(goal: seq<char>, n: Node, c: Node)
    requires |goal| == Size && ValidGrid(n.board) && c in SortByF(Successors(goal, n))
    ensures exists m :: LegalMove(n.board, m) && c == Child(goal, n, m)
  {
    var cs := Successors(goal, n);
    SuccessorsAreChildren(goal, n);
    SortByFPermutes(cs);
    assert c in multiset(cs);
    var j :| 0 <= j < |cs| && cs[j] == c;
    var m := AllMoves(n.board)[j];
    assert LegalMove(n.board, m) && c == Child(goal, n, m);
  }

  /** A node whose every successor is covered joins the closed set. */
  lemma ClosedExpand(goal: seq<char>, E: set<Node>, L: seq<Node>, bound: int, n: Node)
    requires Closed(goal, E, L, bound) && ValidGrid(n.board)
    requires forall c :: c in SortByF(Successors(goal, n)) ==>
      c.board in NodeBoards(E + {n}) || c.board in Boards(L) || bound <= c.F()
    ensures Closed(goal, E + {n}, L, bound)
  {
    assert NodeBoards(E) <= NodeBoards(E + {n});
    forall m | LegalMove(n.board, m)
      ensures Apply(n.board, m) in NodeBoards(E + {n}) || Apply(n.board, m) in Boards(L) || bound <= Child(goal, n, m).F()
    {
      ChildIsSuccessor(goal, n, m);
    }
  }

  /** With an empty stack and no overflowing child, every board reachable from an expanded one has been expanded. */
  lemma {:induction false} ClosedReaches(goal: seq<char>, E: set<Node>, bound: int, b: seq<char>, ms: seq<Move>)
    requires Closed(goal, E, [], bound) && !SomeChildAtLeast(goal, E, bound)
    requires forall n :: n in E ==> ValidGrid(n.board)
    requires b in NodeBoards(E) && Legal(b, ms)
    ensures Replay(b, ms) in NodeBoards(E)
    decreases |ms|
  {
    if ms != [] {
      var n :| n in E && n.board == b;
      assert Boards([]) == {};
      ClosedReaches(goal, E, bound, Apply(b, ms[0]), ms[1..]);
    }
  }

  /**
   * When the stack runs empty, the goal is init, or some child's f reached
   * the bound, or no legal sequence reaches the goal.
   */
  lemma ClosedNoPath(init: seq<char>, goal: seq<char>, E: set<Node>, bound: int)
    requires Closed(goal, E, [], bound) && init in NodeBoards(E)
    requires forall n :: n in E ==> ValidGrid(n.board) && (n.board == goal ==> n.board == init)
    ensures init == goal || SomeChildAtLeast(goal, E, bound) || Unreachable(init, goal)
  {
    if init != goal && !SomeChildAtLeast(goal, E, bound) {
      forall ms | Legal(init, ms) ensures Replay(init, ms) != goal {
        ClosedReaches(goal, E, bound, init, ms);
      }
    }
  }
}

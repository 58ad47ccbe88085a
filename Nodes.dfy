/**
 * Search nodes and successor generation (SearchAlgorithm.SearchNode,
 * generateSuccessors, getSuccessorsStates, reconstructPath,
 * calculatePathCost), and the invariant every node the strategies create
 * satisfies: its path string decodes to legal moves from the initial
 * board that lead to its board and cost its g.
 */
module Nodes {
  import opened Wrappers
  import opened Board
  import opened Costs
  import opened Paths
  import opened Heuristics
  import opened Results

  /**
   * A search node: its board, the node it was generated from, g (path cost),
   * h (heuristic cost), the path string and the marked-out flag.
   */
  datatype Node = Node(board: seq<char>, parent: Option<Node>, g: int, h: int, path: string, marked: bool)
  {
    /** getTotalCost: f = g + h. */
    function F(): int { g + h }
  }

  /** The node the SearchNode constructor builds: h from the heuristic, not marked out. */
  function MakeNode(goal: seq<char>, board: seq<char>, parent: Option<Node>, g: int, path: string): Node
    requires |goal| == Size && ValidGrid(board)
  {
    Node(board, parent, g, Heuristic(goal, board), path, false)
  }

  /** The SearchNode constructor, computing h with the heuristic's loops. */
  method NewNode(goal: seq<char>, board: seq<char>, parent: Option<Node>, g: int, path: string) returns (n: Node)
    requires ValidGrid(goal) && ValidGrid(board) && Covered(goal, board)
    ensures n == MakeNode(goal, board, parent, g, path)
    ensures n.h == Heuristic(goal, board) && 0 <= n.h <= 180 && !n.marked
  {
    var h := ComputeHeuristic(goal, board);
    n := Node(board, parent, g, h, path, false);
  }

  /** The child generateSuccessors creates for a move from n. */
  function Child(goal: seq<char>, n: Node, m: Move): Node
    requires |goal| == Size && ValidGrid(n.board) && LegalMove(n.board, m)
  {
    ApplyKeepsValid(n.board, m);
    MakeNode(goal, Apply(n.board, m), Some(n), n.g + MoveCostBall(m.ball), ExtendPath(n.path, Label(m)))
  }

  /** A marble may step into the empty neighbour in direction e. */
  lemma NeighborMoveLegal(b: seq<char>, k: int, e: int)
    requires |b| == Size && 0 <= k < Size && 0 <= e < 4 && IsMarble(b[k]) && b[Neighbor(k, e)] == Empty
    ensures LegalMove(b, Move(k, Neighbor(k, e), b[k]))
  {
    assert DirOf(k, Neighbor(k, e)) < 4 by {
      if e == 0 {} else if e == 1 {} else if e == 2 {} else {}
    }
  }

  /** The children the direction loop builds for cell k in its first d directions. */
  function DirChildren(goal: seq<char>, n: Node, k: int, d: int): seq<Node>
    requires |goal| == Size && ValidGrid(n.board) && 0 <= k < Size && 0 <= d <= 4
  {
    if d == 0 then []
    else
      var b, nb := n.board, Neighbor(k, d - 1);
      DirChildren(goal, n, k, d - 1)
        + (if IsMarble(b[k]) && b[nb] == Empty
           then NeighborMoveLegal(b, k, d - 1); [Child(goal, n, Move(k, nb, b[k]))]
           else [])
  }

  /** One more direction: its child, when the neighbour that way is empty. */
  lemma DirChildrenStep(goal: seq<char>, n: Node, k: int, d: int, dst: int)
    requires |goal| == Size && ValidGrid(n.board) && 0 <= k < Size && 0 <= d < 4 && IsMarble(n.board[k])
    requires dst == Neighbor(k, d)
    ensures 0 <= dst < Size
    ensures n.board[dst] == Empty ==> LegalMove(n.board, Move(k, dst, n.board[k]))
    ensures DirChildren(goal, n, k, d + 1) == DirChildren(goal, n, k, d)
      + (if n.board[dst] == Empty then [Child(goal, n, Move(k, dst, n.board[k]))] else [])
  {
    if n.board[dst] == Empty {
      NeighborMoveLegal(n.board, k, d);
    }
  }

  /** The children the cell loop builds for the cells 0 .. k-1. */
  function ChildrenBefore(goal: seq<char>, n: Node, k: int): seq<Node>
    requires |goal| == Size && ValidGrid(n.board) && 0 <= k <= Size
  {
    if k == 0 then [] else ChildrenBefore(goal, n, k - 1) + DirChildren(goal, n, k - 1, 4)
  }

  /** One more cell: its children follow those of the cells before it. */
  lemma ChildrenStep(goal: seq<char>, n: Node, k: int)
    requires |goal| == Size && ValidGrid(n.board) && 0 <= k < Size
    ensures ChildrenBefore(goal, n, k + 1) == ChildrenBefore(goal, n, k) + DirChildren(goal, n, k, 4)
  {
  }

  /** The direction loop yields one child per move of DirMoves, in the same order. */
  lemma {:induction false} DirChildrenMatch(goal: seq<char>, n: Node, k: int, d: int)
    requires |goal| == Size && ValidGrid(n.board) && 0 <= k < Size && 0 <= d <= 4
    ensures |DirChildren(goal, n, k, d)| == |DirMoves(n.board, k, d)|
    ensures forall i :: 0 <= i < |DirMoves(n.board, k, d)| ==>
      LegalMove(n.board, DirMoves(n.board, k, d)[i])
      && DirChildren(goal, n, k, d)[i] == Child(goal, n, DirMoves(n.board, k, d)[i])
  {
    if d > 0 {
      DirChildrenMatch(goal, n, k, d - 1);
      var b, nb := n.board, Neighbor(k, d - 1);
      var p, pm := DirChildren(goal, n, k, d - 1), DirMoves(b, k, d - 1);
      if IsMarble(b[k]) && b[nb] == Empty {
        var m := Move(k, nb, b[k]);
        NeighborMoveLegal(b, k, d - 1);
        assert DirMoves(b, k, d) == pm + [m];
        assert DirChildren(goal, n, k, d) == p + [Child(goal, n, m)];
      } else {
        assert DirMoves(b, k, d) == pm;
        assert DirChildren(goal, n, k, d) == p;
      }
    }
  }

  /** The cell loop yields one child per move of MovesBefore, in the same order. */
  lemma {:induction false} ChildrenBeforeMatch(goal: seq<char>, n: Node, k: int)
    requires |goal| == Size && ValidGrid(n.board) && 0 <= k <= Size
    ensures |ChildrenBefore(goal, n, k)| == |MovesBefore(n.board, k)|
    ensures forall i :: 0 <= i < |MovesBefore(n.board, k)| ==>
      LegalMove(n.board, MovesBefore(n.board, k)[i])
      && ChildrenBefore(goal, n, k)[i] == Child(goal, n, MovesBefore(n.board, k)[i])
  {
    if k > 0 {
      ChildrenBeforeMatch(goal, n, k - 1);
      DirChildrenMatch(goal, n, k - 1, 4);
      var p, c := ChildrenBefore(goal, n, k - 1), DirChildren(goal, n, k - 1, 4);
      var pm, cm := MovesBefore(n.board, k - 1), DirMoves(n.board, k - 1, 4);
      assert MovesBefore(n.board, k) == pm + cm;
      assert ChildrenBefore(goal, n, k) == p + c;
      forall i | 0 <= i < |pm + cm|
        ensures LegalMove(n.board, (pm + cm)[i]) && (p + c)[i] == Child(goal, n, (pm + cm)[i])
      {
        if i < |pm| {
          assert (pm + cm)[i] == pm[i] && (p + c)[i] == p[i];
        } else {
          assert (pm + cm)[i] == cm[i - |pm|] && (p + c)[i] == c[i - |p|];
        }
      }
    }
  }

  /** A cell without a marble contributes no children. */
  lemma {:induction false} DirChildrenNone(goal: seq<char>, n: Node, k: int, d: int)
    requires |goal| == Size && ValidGrid(n.board) && 0 <= k < Size && 0 <= d <= 4 && !IsMarble(n.board[k])
    ensures DirChildren(goal, n, k, d) == []
  {
    if d > 0 {
      DirChildrenNone(goal, n, k, d - 1);
    }
  }

  /** generateSuccessors: one child per legal move, in generation order. */
  function Successors(goal: seq<char>, n: Node): (cs: seq<Node>)
    requires |goal| == Size && ValidGrid(n.board)
    ensures |cs| == |AllMoves(n.board)|
  {
    ChildrenBeforeMatch(goal, n, Size);
    ChildrenBefore(goal, n, Size)
  }

  /** The i-th successor is the child for the i-th legal move in generation order. */
  lemma SuccessorsAreChildren(goal: seq<char>, n: Node)
    requires |goal| == Size && ValidGrid(n.board)
    ensures |Successors(goal, n)| == |AllMoves(n.board)|
    ensures forall i :: 0 <= i < |Successors(goal, n)| ==>
      LegalMove(n.board, AllMoves(n.board)[i]) && Successors(goal, n)[i] == Child(goal, n, AllMoves(n.board)[i])
  {
    ChildrenBeforeMatch(goal, n, Size);
  }

  /**
   * Every successor moves one marble of n into an empty toroidal neighbour
   * and changes no other cell; its g grows by the marble's weight, its path
   * gains the move's label, its parent is n and it is not marked out.  Each
   * legal move gives exactly one successor, and a marble gives at most four.
   */
  lemma SuccessorsShape(goal: seq<char>, n: Node)
    requires |goal| == Size && ValidGrid(n.board)
    ensures forall i :: 0 <= i < |Successors(goal, n)| ==>
      var m, c := AllMoves(n.board)[i], Successors(goal, n)[i];
      LegalMove(n.board, m) && c.board == Apply(n.board, m)
      && c.board[m.src] == Empty && c.board[m.dst] == m.ball
      && (forall k :: 0 <= k < Size && k != m.src && k != m.dst ==> c.board[k] == n.board[k])
      && c.g == n.g + Weight(m.ball) && c.path == ExtendPath(n.path, Label(m))
      && c.parent == Some(n) && !c.marked
    ensures forall m :: LegalMove(n.board, m) <==> m in AllMoves(n.board)
    ensures |Successors(goal, n)| <= 4 * MarblesBefore(n.board, Size)
  {
    SuccessorsAreChildren(goal, n);
    AllMovesExactly(n.board);
    AllMovesBound(n.board, Size);
    forall i | 0 <= i < |Successors(goal, n)| ensures
      var m, c := AllMoves(n.board)[i], Successors(goal, n)[i];
      c.board[m.src] == Empty && c.board[m.dst] == m.ball
      && (forall k :: 0 <= k < Size && k != m.src && k != m.dst ==> c.board[k] == n.board[k])
    {
      ApplyLegal(n.board, AllMoves(n.board)[i]);
    }
  }

  /** The destination the loops compute, (i + di + rows) % rows and (j + dj + cols) % cols, is the neighbour. */
  lemma NeighborOfCell(i: int, j: int, d: int, dst: int)
    requires 0 <= i < 3 && 0 <= j < 3 && 0 <= d < 4
    requires dst == 3 * ((i + (if d == 0 then -1 else if d == 1 then 1 else 0) + Rows) % Rows)
                  + (j + (if d == 2 then -1 else if d == 3 then 1 else 0) + Cols) % Cols
    ensures dst == Neighbor(3 * i + j, d)
  {
    PosOfCell(i, j);
  }

  /** A node built from the moved board, the raised g and the extended path is that move's child. */
  lemma IsChild(goal: seq<char>, n: Node, m: Move, board: seq<char>, g: int, path: string)
    requires |goal| == Size && ValidGrid(n.board) && LegalMove(n.board, m)
    requires board == Apply(n.board, m) && g == n.g + MoveCostBall(m.ball) && path == ExtendPath(n.path, Label(m))
    ensures ValidGrid(board) && MakeNode(goal, board, Some(n), g, path) == Child(goal, n, m)
  {
    ApplyKeepsValid(n.board, m);
  }

  /**
   * The body of the direction loop for an empty neighbour: copy the board,
   * move the marble, and build the node with the raised cost and the
   * extended path.
   */
  method BuildSuccessor(goal: seq<char>, n: Node, k: int, dst: int) returns (successor: Node)
    requires ValidGrid(goal) && ValidGrid(n.board) && Covered(goal, n.board)
    requires 0 <= k < Size && LegalMove(n.board, Move(k, dst, n.board[k]))
    ensures successor == Child(goal, n, Move(k, dst, n.board[k]))
  {
    var b, ball := n.board, n.board[k];
    var m := Move(k, dst, ball);
    ApplyKeepsValid(b, m);
    CoveredAfterMove(goal, b, m);
    var newState := b[dst := ball][k := Empty];
    var moveCost := MoveCostBall(ball);
    var newPath := if n.path == "" then Label(m) else n.path + "--" + Label(m);
    successor := NewNode(goal, newState, Some(n), n.g + moveCost, newPath);
    IsChild(goal, n, m, newState, n.g + moveCost, newPath);
  }

  /**
   * The direction loop of generateSuccessors for the marble at (i, j): up,
   * down, left, right, each empty neighbour giving a child built on a copy
   * of the board.
   */
  method CellSuccessors(goal: seq<char>, n: Node, i: int, j: int) returns (cs: seq<Node>)
    requires ValidGrid(goal) && ValidGrid(n.board) && Covered(goal, n.board)
    requires 0 <= i < 3 && 0 <= j < 3 && IsMarble(n.board[3 * i + j])
    ensures cs == DirChildren(goal, n, 3 * i + j, 4)
  {
    var b, k := n.board, 3 * i + j;
    cs := [];
    for d := 0 to 4
      invariant cs == DirChildren(goal, n, k, d)
    {
      var di := if d == 0 then -1 else if d == 1 then 1 else 0;
      var dj := if d == 2 then -1 else if d == 3 then 1 else 0;
      var newRow := (i + di + Rows) % Rows;
      var newCol := (j + dj + Cols) % Cols;
      var dst := 3 * newRow + newCol;
      assert dst == Neighbor(k, d) by { NeighborOfCell(i, j, d, dst); }
      DirChildrenStep(goal, n, k, d, dst);
      if b[dst] == Empty {
        var successor := BuildSuccessor(goal, n, k, dst);
        cs := cs + [successor];
      }
    }
  }

  /**
   * generateSuccessors with its loops: every cell in row-major order,
   * skipping `_` and `X`; each marble's directions in turn.
   */
  method GenerateSuccessors(goal: seq<char>, n: Node) returns (succs: seq<Node>)
    requires ValidGrid(goal) && ValidGrid(n.board) && Covered(goal, n.board)
    ensures succs == Successors(goal, n)
  {
    var b := n.board;
    succs := [];
    for i := 0 to Rows
      invariant succs == ChildrenBefore(goal, n, 3 * i)
    {
      for j := 0 to Cols
        invariant succs == ChildrenBefore(goal, n, 3 * i + j)
      {
        var ball := b[3 * i + j];
        ChildrenStep(goal, n, 3 * i + j);
        if ball != Empty && ball != Obstacle {
          var cs := CellSuccessors(goal, n, i, j);
          succs := succs + cs;
        } else {
          DirChildrenNone(goal, n, 3 * i + j, 4);
        }
      }
    }
  }

  // ---------------------------------------------------------------------
  // Stable sorting by f (List.sort with Comparator.comparingInt(getTotalCost)).

  predicate SortedByF(xs: seq<Node>)
  {
    forall i, j :: 0 <= i < j < |xs| ==> xs[i].F() <= xs[j].F()
  }

  /** Inserts x after every element whose f is at most x's. */
  function Insert(x: Node, ys: seq<Node>): seq<Node>
  {
    if ys == [] then [x] else if x.F() < ys[0].F() then [x] + ys else [ys[0]] + Insert(x, ys[1..])
  }

  /** Stable sort by f: each element in turn is inserted after the earlier ones of equal f. */
  function SortByF(xs: seq<Node>): seq<Node>
  {
    if xs == [] then [] else Insert(xs[|xs| - 1], SortByF(xs[..|xs| - 1]))
  }

  /** The elements with f equal to v, in order. */
  function WithF(xs: seq<Node>, v: int): seq<Node>
  {
    if xs == [] then [] else (if xs[0].F() == v then [xs[0]] else []) + WithF(xs[1..], v)
  }

  lemma WithFFront(x: Node, ys: seq<Node>, v: int)
    ensures WithF([x] + ys, v) == (if x.F() == v then [x] else []) + WithF(ys, v)
  {
    assert ([x] + ys)[1..] == ys;
  }

  lemma {:induction false} WithFAppend(xs: seq<Node>, ys: seq<Node>, v: int)
    ensures WithF(xs + ys, v) == WithF(xs, v) + WithF(ys, v)
    decreases |xs|
  {
    if xs != [] {
      WithFAppend(xs[1..], ys, v);
      assert (xs + ys)[1..] == xs[1..] + ys;
    } else {
      assert xs + ys == ys;
    }
  }

  lemma {:induction false} WithFNone(ys: seq<Node>, v: int)
    requires forall i :: 0 <= i < |ys| ==> ys[i].F() != v
    ensures WithF(ys, v) == []
    decreases |ys|
  {
    if ys != [] {
      WithFNone(ys[1..], v);
    }
  }

  lemma {:induction false} InsertMultiset(x: Node, ys: seq<Node>)
    ensures multiset(Insert(x, ys)) == multiset(ys) + multiset{x}
    decreases |ys|
  {
    if ys != [] && x.F() >= ys[0].F() {
      InsertMultiset(x, ys[1..]);
      assert ys == [ys[0]] + ys[1..];
    }
  }

  /** A sorted list stays sorted with an element in front that is at most its head. */
  lemma SortedCons(y: Node, r: seq<Node>)
    requires SortedByF(r) && (r == [] || y.F() <= r[0].F())
    ensures SortedByF([y] + r)
  {
    forall i, j | 0 <= i < j < |[y] + r| ensures ([y] + r)[i].F() <= ([y] + r)[j].F() {
      if i == 0 {
        assert ([y] + r)[j] == r[j - 1];
        if j > 1 {
          assert r[0].F() <= r[j - 1].F();
        }
      } else {
        assert ([y] + r)[i] == r[i - 1] && ([y] + r)[j] == r[j - 1];
      }
    }
  }

  /** The tail of a sorted sequence is sorted. */
  lemma SortedTail(ys: seq<Node>)
    requires SortedByF(ys) && ys != []
    ensures SortedByF(ys[1..])
  {
    forall i, j | 0 <= i < j < |ys[1..]| ensures ys[1..][i].F() <= ys[1..][j].F() {
      assert ys[1..][i] == ys[i + 1] && ys[1..][j] == ys[j + 1];
    }
  }

  /** The head of an insertion is the inserted element or the old head. */
  lemma InsertHead(x: Node, ys: seq<Node>)
    ensures Insert(x, ys) != []
    ensures Insert(x, ys)[0] == if ys == [] || x.F() < ys[0].F() then x else ys[0]
  {
  }

  lemma {:induction false} InsertSorted(x: Node, ys: seq<Node>)
    requires SortedByF(ys)
    ensures SortedByF(Insert(x, ys))
    decreases |ys|
  {
    if ys == [] {
    } else if x.F() < ys[0].F() {
      SortedCons(x, ys);
    } else {
      var y, rest := ys[0], ys[1..];
      SortedTail(ys);
      InsertSorted(x, rest);
      InsertHead(x, rest);
      if rest != [] {
        assert ys[0].F() <= ys[1].F();
      }
      SortedCons(y, Insert(x, rest));
    }
  }

  lemma {:induction false} InsertWithF(x: Node, ys: seq<Node>, v: int)
    requires SortedByF(ys)
    ensures WithF(Insert(x, ys), v) == WithF(ys, v) + (if x.F() == v then [x] else [])
    decreases |ys|
  {
    if ys == [] {
    } else if x.F() < ys[0].F() {
      InsertFrontWithF(x, ys, v);
    } else {
      var y, rest := ys[0], ys[1..];
      assert ys == [y] + rest && Insert(x, ys) == [y] + Insert(x, rest);
      SortedTail(ys);
      InsertWithF(x, rest, v);
      WithFFront(y, Insert(x, rest), v);
      WithFFront(y, rest, v);
    }
  }

  /** Inserted before a sorted sequence whose head has larger f, x is the only one of f = v when its f is v. */
  lemma InsertFrontWithF(x: Node, ys: seq<Node>, v: int)
    requires SortedByF(ys) && ys != [] && x.F() < ys[0].F()
    ensures WithF([x] + ys, v) == WithF(ys, v) + (if x.F() == v then [x] else [])
  {
    WithFFront(x, ys, v);
    if x.F() == v {
      assert forall i :: 0 <= i < |ys| ==> ys[0].F() <= ys[i].F();
      WithFNone(ys, v);
    }
  }

  /** The sort orders by f. */
  lemma {:induction false} SortByFSorted(xs: seq<Node>)
    ensures SortedByF(SortByF(xs))
    decreases |xs|
  {
    if xs != [] {
      SortByFSorted(xs[..|xs| - 1]);
      InsertSorted(xs[|xs| - 1], SortByF(xs[..|xs| - 1]));
    }
  }

  /** The sort is a permutation. */
  lemma {:induction false} SortByFPermutes(xs: seq<Node>)
    ensures multiset(SortByF(xs)) == multiset(xs)
    decreases |xs|
  {
    if xs != [] {
      var init, x := xs[..|xs| - 1], xs[|xs| - 1];
      SortByFPermutes(init);
      InsertMultiset(x, SortByF(init));
      assert xs == init + [x];
    }
  }

  /** The sort keeps the elements of each f value in their original order. */
  lemma {:induction false} SortByFStable(xs: seq<Node>, v: int)
    ensures WithF(SortByF(xs), v) == WithF(xs, v)
    decreases |xs|
  {
    if xs != [] {
      var init, x := xs[..|xs| - 1], xs[|xs| - 1];
      SortByFStable(init, v);
      SortByFSorted(init);
      InsertWithF(x, SortByF(init), v);
      assert xs == init + [x];
      WithFAppend(init, [x], v);
      assert [x][1..] == [];
      assert WithF([x], v) == (if x.F() == v then [x] else []);
    }
  }

  /** Inserting an element no smaller than the last of a sorted sequence appends it. */
  lemma {:induction false} InsertAfterLast(x: Node, ys: seq<Node>)
    requires SortedByF(ys) && (ys == [] || ys[|ys| - 1].F() <= x.F())
    ensures Insert(x, ys) == ys + [x]
  {
    if ys != [] {
      assert ys[0].F() <= ys[|ys| - 1].F();
      InsertAfterLast(x, ys[1..]);
      assert [ys[0]] + (ys[1..] + [x]) == ys + [x];
    }
  }

  /** Sorting a sequence already sorted by f leaves it as it is. */
  lemma {:induction false} SortByFOfSorted(xs: seq<Node>)
    requires SortedByF(xs)
    ensures SortByF(xs) == xs
  {
    if xs != [] {
      var init := xs[..|xs| - 1];
      SortByFOfSorted(init);
      InsertAfterLast(xs[|xs| - 1], init);
      assert init + [xs[|xs| - 1]] == xs;
    }
  }

  /** The sort orders by f, is a permutation, and keeps equal-f elements in their original order. */
  lemma SortByFFacts(xs: seq<Node>)
    ensures SortedByF(SortByF(xs))
    ensures multiset(SortByF(xs)) == multiset(xs)
    ensures forall v :: WithF(SortByF(xs), v) == WithF(xs, v)
  {
    SortByFSorted(xs);
    SortByFPermutes(xs);
    forall v ensures WithF(SortByF(xs), v) == WithF(xs, v) {
      SortByFStable(xs, v);
    }
  }

  /**
   * getSuccessorsStates: the same children generateSuccessors builds, stably
   * sorted by f.  The Java stores them in the node's successors field; here
   * they are returned.
   */
  method GetSuccessorsStates(goal: seq<char>, n: Node) returns (succs: seq<Node>)
    requires ValidGrid(goal) && ValidGrid(n.board) && Covered(goal, n.board)
    ensures succs == SortByF(Successors(goal, n))
    ensures SortedByF(succs) && multiset(succs) == multiset(Successors(goal, n))
    ensures forall v :: WithF(succs, v) == WithF(Successors(goal, n), v)
  {
    var generated := GenerateSuccessors(goal, n);
    SortByFFacts(generated);
    succs := SortByF(generated);
  }

  // ---------------------------------------------------------------------
  // The boards of a sequence of nodes.

  /** The boards of the nodes in q. */
  function Boards(q: seq<Node>): set<seq<char>>
  {
    set i | 0 <= i < |q| :: q[i].board
  }

  predicate DistinctBoards(q: seq<Node>)
  {
    forall i, j :: 0 <= i < j < |q| ==> q[i].board != q[j].board
  }

  lemma BoardsAppend(p: seq<Node>, a: seq<Node>)
    ensures Boards(p + a) == Boards(p) + Boards(a)
  {
    var pa := p + a;
    forall x | x in Boards(p + a) ensures x in Boards(p) + Boards(a) {
      var i :| 0 <= i < |pa| && pa[i].board == x;
      if i >= |p| { assert pa[i] == a[i - |p|]; }
    }
    forall x | x in Boards(p) + Boards(a) ensures x in Boards(p + a) {
      if x in Boards(p) {
        var i :| 0 <= i < |p| && p[i].board == x;
        assert pa[i] == p[i];
      } else {
        var i :| 0 <= i < |a| && a[i].board == x;
        assert pa[|p| + i] == a[i];
      }
    }
  }

  // ---------------------------------------------------------------------
  // Nodes traced back to the initial board.

  /** The moves a node's path string denotes (none when it does not decode). */
  function PathMoves(n: Node): seq<Move>
  {
    if Decode(n.path).Some? then Decode(n.path).value else []
  }

  /**
   * n sits at the end of a legal move sequence from init: its path decodes
   * to those moves, its board is where they lead, g is their cost and h the
   * heuristic of its board.
   */
  ghost predicate Traced(init: seq<char>, goal: seq<char>, n: Node)
  {
    |goal| == Size && ValidGrid(n.board) && Covered(goal, n.board)
    && Decode(n.path).Some? && Legal(init, PathMoves(n))
    && Replay(init, PathMoves(n)) == n.board
    && n.g == PathCost(PathMoves(n)) && n.h == Heuristic(goal, n.board)
  }

  /** The start node (empty path, g = 0) is traced. */
  lemma StartTraced(init: seq<char>, goal: seq<char>)
    requires |goal| == Size && ValidGrid(init) && Covered(goal, init)
    ensures Traced(init, goal, MakeNode(goal, init, None, 0, ""))
    ensures PathMoves(MakeNode(goal, init, None, 0, "")) == []
  {
  }

  /** A child of a traced node is traced, one move further along. */
  lemma ChildTraced(init: seq<char>, goal: seq<char>, n: Node, m: Move)
    requires Traced(init, goal, n) && LegalMove(n.board, m)
    ensures Traced(init, goal, Child(goal, n, m))
    ensures PathMoves(Child(goal, n, m)) == PathMoves(n) + [m]
  {
    var ms := PathMoves(n);
    EncodeDecode(n.path);
    LegalInRange(init, ms);
    EncodeSnoc(ms, m);
    DecodeEncode(ms + [m]);
    LegalSnoc(init, ms, m);
    PathCostSnoc(ms, m);
    ApplyKeepsValid(n.board, m);
    CoveredAfterMove(goal, n.board, m);
  }

  /** Every successor of a traced node is traced. */
  lemma SuccessorsTraced(init: seq<char>, goal: seq<char>, n: Node)
    requires Traced(init, goal, n)
    ensures forall i :: 0 <= i < |Successors(goal, n)| ==> Traced(init, goal, Successors(goal, n)[i])
    ensures forall c :: c in SortByF(Successors(goal, n)) ==> Traced(init, goal, c) && c.parent == Some(n) && !c.marked
  {
    var cs := Successors(goal, n);
    SuccessorsAreChildren(goal, n);
    forall i | 0 <= i < |cs| ensures Traced(init, goal, cs[i]) && cs[i].parent == Some(n) && !cs[i].marked {
      ChildTraced(init, goal, n, AllMoves(n.board)[i]);
    }
    SortByFFacts(cs);
    forall c | c in SortByF(cs) ensures Traced(init, goal, c) && c.parent == Some(n) && !c.marked {
      assert c in multiset(cs);
    }
  }

  /** A traced node on the goal board reports a real solution, with its path and g. */
  lemma TracedSolves(init: seq<char>, goal: seq<char>, n: Node, count: int)
    requires Traced(init, goal, n) && n.board == goal
    ensures Solves(init, goal, SearchResult(ReconstructPath(n), count, Finite(CalculatePathCost(n))))
  {
  }

  /** A traced node's f never exceeds the cost of a solution through it (h is admissible). */
  lemma TracedAdmissible(init: seq<char>, goal: seq<char>, n: Node, rest: seq<Move>)
    requires ValidGrid(goal) && Traced(init, goal, n) && Legal(n.board, rest) && Replay(n.board, rest) == goal
    ensures n.F() <= n.g + PathCost(rest)
  {
    HeuristicAdmissible(goal, n.board, rest);
  }

  /** reconstructPath (all strategies but DFID): the node's own path string. */
  function ReconstructPath(n: Node): string
  {
    n.path
  }

  /** calculatePathCost: the node's g. */
  function CalculatePathCost(n: Node): int
  {
    n.g
  }
}

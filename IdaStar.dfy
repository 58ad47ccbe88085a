/**
 * IDAStarSearch.search: iterative deepening on f = g + h.  Each iteration
 * runs a depth-first search with an explicit stack L (a node is marked and
 * re-pushed when first popped, and leaves the table H when popped marked),
 * skips successors whose f exceeds the threshold t while recording the
 * least such f, and prunes by the table: a board whose entry is marked is
 * skipped, a worse unmarked entry is replaced, a better or equal one wins.
 *
 * Nodes are values: the markedOut flag the Java sets on the node object is
 * set here on both the stack entry and the table entry, which are the same
 * object in the Java (the table always holds the stack's node for each
 * board, Indexed below).  The stack's top is its last element.
 */
module IdaStar {
  import opened Wrappers
  import opened Board
  import opened Paths
  import opened Heuristics
  import opened Results
  import opened Nodes
  import opened Reach
  import opened MarkedStack

  // ---------------------------------------------------------------------
  // The successor loop of one expansion.

  /** The stack, the table, the least f above the threshold, the node count, and the goal node once found. */
  datatype Scan = Scan(stack: seq<Node>, table: map<seq<char>, Node>, minF: int, count: int, hit: Option<Node>)

  /** The shape part of the loop's state: the stack and the table in shape, the bottom marked out. */
  ghost predicate ScanShape(init: seq<char>, E2: set<Node>, r: Scan)
  {
    StackShape(init, r.stack, r.table, E2) && r.stack != [] && r.stack[0].marked
  }

  /** A successor is accounted for: its board was expanded or is stacked, or its f is at least minF. */
  ghost predicate Accounted(E2: set<Node>, r: Scan, c: Node)
  {
    c.board in NodeBoards(E2) || c.board in Boards(r.stack) || r.minF <= c.F()
  }

  lemma AccountedLater(E2: set<Node>, r: Scan, r': Scan, c: Node)
    requires Accounted(E2, r, c) && Boards(r.stack) <= Boards(r'.stack) && r'.minF <= r.minF
    ensures Accounted(E2, r', c)
  {
  }

  /** The entry for s's board dropped from the stack and the table, when there is one. */
  function Drop(r: Scan, s: Node): (r': Scan)
    ensures s.board !in r'.table && r'.minF == r.minF && r'.count == r.count
  {
    if s.board in r.table then r.(stack := RemoveBoard(r.stack, s.board), table := r.table - {s.board}) else r
  }

  /** s pushed onto the stack, entered in the table and counted. */
  function Push(r: Scan, s: Node): (r': Scan)
    ensures r'.stack == r.stack + [s] && s.board in r'.table && r'.table[s.board] == s && r'.count == r.count + 1
  {
    Scan(r.stack + [s], r.table[s.board := s], r.minF, r.count + 1, None)
  }

  /** s is within the threshold and beats whatever entry its board has, which is not marked out. */
  predicate Admits(t: int, r: Scan, s: Node)
  {
    s.F() <= t && (s.board in r.table ==> !r.table[s.board].marked && r.table[s.board].F() > s.F())
  }

  /**
   * What the successor loop keeps after the first i successors: the shape,
   * no goal yet, a count that only grows, the stacked boards of the start of
   * the loop still stacked, minF only lowered and still above t, the first i
   * successors accounted for, every stacked node either stacked already
   * at the start or a successor within the threshold not on the goal, and
   * the marked entries as they were, below a chain of simple paths.
   */
  ghost predicate Kept(init: seq<char>, goal: seq<char>, t: int, E2: set<Node>, ss: seq<Node>, i: int, r0: Scan, r: Scan)
  {
    0 <= i <= |ss| && ScanShape(init, E2, r) && r.hit.None? && r.count >= r0.count
    && Boards(r0.stack) <= Boards(r.stack) && r.minF <= r0.minF && t < r.minF
    && (forall c :: c in ss[..i] ==> Accounted(E2, r, c))
    && (forall x :: x in r.stack ==> x in r0.stack || (x in ss && x.F() <= t && x.board != goal))
    && ChainKept(init, r0, r)
  }

  /** The marked entries as at the start of the loop, below a chain of simple paths. */
  ghost predicate ChainKept(init: seq<char>, r0: Scan, r: Scan)
  {
    ChainFrom(init, {}, r.stack) && MarkedOf(r.stack) == MarkedOf(r0.stack)
    && forall x :: x in r.stack ==> SimpleNode(init, x)
  }

  lemma KeptStart(init: seq<char>, goal: seq<char>, t: int, E2: set<Node>, ss: seq<Node>, r0: Scan)
    requires ScanShape(init, E2, r0) && r0.hit.None? && t < r0.minF
    requires ChainFrom(init, {}, r0.stack) && forall x :: x in r0.stack ==> SimpleNode(init, x)
    ensures Kept(init, goal, t, E2, ss, 0, r0, r0)
  {
  }

  lemma KeptNext(E2: set<Node>, ss: seq<Node>, i: int, r: Scan, r': Scan)
    requires 0 <= i < |ss| && Accounted(E2, r', ss[i])
    requires forall c :: c in ss[..i] ==> Accounted(E2, r, c)
    requires Boards(r.stack) <= Boards(r'.stack) && r'.minF <= r.minF
    ensures forall c :: c in ss[..i + 1] ==> Accounted(E2, r', c)
  {
    assert forall c :: c in ss[..i + 1] ==> c in ss[..i] || c == ss[i];
    forall c | c in ss[..i] ensures Accounted(E2, r', c) {
      AccountedLater(E2, r, r', c);
    }
  }

  /** A successor above the threshold only lowers minF, which then accounts for it. */
  lemma KeptAbove(init: seq<char>, goal: seq<char>, t: int, E2: set<Node>, ss: seq<Node>, i: int, r0: Scan, r: Scan)
    requires Kept(init, goal, t, E2, ss, i, r0, r) && i < |ss| && ss[i].F() > t
    ensures Kept(init, goal, t, E2, ss, i + 1, r0, r.(minF := Min(r.minF, ss[i].F())))
  {
    KeptNext(E2, ss, i, r, r.(minF := Min(r.minF, ss[i].F())));
  }

  /** A successor whose board is stacked and not admitted changes nothing and is accounted for. */
  lemma KeptSkip(init: seq<char>, goal: seq<char>, t: int, E2: set<Node>, ss: seq<Node>, i: int, r0: Scan, r: Scan)
    requires Kept(init, goal, t, E2, ss, i, r0, r) && i < |ss| && ss[i].board in r.table
    ensures Kept(init, goal, t, E2, ss, i + 1, r0, r)
  {
    KeptNext(E2, ss, i, r, r);
  }

  /**
   * Dropping the entry of an admitted successor's board keeps the shape and
   * the bottom, takes just that board off the stack, and shows that the
   * successor is not on init's board (whose entry is the marked bottom).
   */
  lemma DropShape(init: seq<char>, E2: set<Node>, t: int, s: Node, r: Scan)
    requires ScanShape(init, E2, r) && Admits(t, r, s)
    ensures StackShape(init, Drop(r, s).stack, Drop(r, s).table, E2)
    ensures Drop(r, s).stack != [] && Drop(r, s).stack[0] == r.stack[0]
    ensures Boards(Drop(r, s).stack) == Boards(r.stack) - {s.board}
    ensures forall x :: x in Drop(r, s).stack ==> x in r.stack
    ensures s.board != init
  {
    var b := s.board;
    assert r.stack[0] in r.stack;
    if b in r.table {
      RemoveShape(init, r.stack, r.table, E2, b);
    } else {
      assert Drop(r, s) == r;
    }
  }

  /** Pushing an unmarked node on a free board keeps the shape, adds its board, and adds only it. */
  lemma PushScan(init: seq<char>, E2: set<Node>, s: Node, d: Scan)
    requires StackShape(init, d.stack, d.table, E2) && d.stack != [] && d.stack[0].marked
    requires !s.marked && s.board !in d.table
    ensures ScanShape(init, E2, Push(d, s)) && Push(d, s).stack[0] == d.stack[0]
    ensures Boards(Push(d, s).stack) == Boards(d.stack) + {s.board}
    ensures forall x :: x in Push(d, s).stack ==> x in d.stack || x == s
  {
    PushShape(init, d.stack, d.table, E2, s);
  }

  /** An admitted successor on the goal board is not on init's. */
  lemma AdmitsNotInit(init: seq<char>, goal: seq<char>, t: int, E2: set<Node>, ss: seq<Node>, i: int, r0: Scan, r: Scan)
    requires Kept(init, goal, t, E2, ss, i, r0, r) && i < |ss| && Admits(t, r, ss[i])
    ensures ss[i].board != init
  {
    DropShape(init, E2, t, ss[i], r);
  }

  /**
   * Dropping the entry of an admitted successor keeps the chain and the
   * marked entries, since an admitted successor's board has no marked entry.
   */
  lemma DropChain(init: seq<char>, t: int, s: Node, r: Scan)
    requires Indexed(r.stack, r.table) && ChainFrom(init, {}, r.stack) && Admits(t, r, s)
    requires Descends(init, MarkedOf(r.stack), s)
    ensures ChainFrom(init, {}, Drop(r, s).stack) && MarkedOf(Drop(r, s).stack) == MarkedOf(r.stack)
    ensures SimpleNode(init, s)
  {
    AdmittedSimple(init, r.stack, r.table, s);
    if s.board in r.table {
      ChainRemove(init, {}, r.stack, s.board);
    }
  }

  /** Pushing an admitted successor in place of its board's entry keeps the chain. */
  lemma PushChain(init: seq<char>, t: int, s: Node, r0: Scan, r: Scan)
    requires Indexed(r.stack, r.table) && ChainKept(init, r0, r) && Admits(t, r, s)
    requires !s.marked && Descends(init, MarkedOf(r0.stack), s)
    ensures ChainKept(init, r0, Push(Drop(r, s), s))
  {
    DropChain(init, t, s, r);
    var d := Drop(r, s);
    ChainSnoc(init, {}, d.stack, s);
    assert {} + MarkedOf(d.stack) == MarkedOf(r0.stack);
    MarkedOfSnoc(d.stack, s);
    forall x | x in d.stack + [s] ensures SimpleNode(init, x) {
      if x != s {
        RemoveBoardMembers(r.stack, s.board);
        assert x in r.stack;
      }
    }
  }

  /** An admitted successor not on the goal board replaces its board's entry and is pushed. */
  lemma KeptPush(init: seq<char>, goal: seq<char>, t: int, E2: set<Node>, ss: seq<Node>, i: int, r0: Scan, r: Scan)
    requires Kept(init, goal, t, E2, ss, i, r0, r) && i < |ss| && Admits(t, r, ss[i]) && ss[i].board != goal
    requires !ss[i].marked && Descends(init, MarkedOf(r0.stack), ss[i])
    ensures Kept(init, goal, t, E2, ss, i + 1, r0, Push(Drop(r, ss[i]), ss[i]))
  {
    var s := ss[i];
    DropShape(init, E2, t, s, r);
    PushChain(init, t, s, r0, r);
    var d := Drop(r, s);
    PushScan(init, E2, s, d);
    var p := Push(d, s);
    assert Boards(r.stack) <= Boards(p.stack);
    KeptNext(E2, ss, i, r, p);
    assert ss[i] in ss;
    forall x | x in p.stack ensures x in r0.stack || (x in ss && x.F() <= t && x.board != goal) {
      if x != s {
        assert x in r.stack;
      }
    }
    assert Boards(r0.stack) <= Boards(p.stack);
    assert ScanShape(init, E2, p);
  }

  /** The stacked nodes at the end of the successor loop are traced: stacked before, or traced successors off the goal. */
  lemma KeptTraced(init: seq<char>, goal: seq<char>, t: int, E2: set<Node>, ss: seq<Node>, r0: Scan, r: Scan)
    requires Kept(init, goal, t, E2, ss, |ss|, r0, r) && AllTraced(init, goal, r0.stack)
    requires forall s :: s in ss ==> Traced(init, goal, s)
    ensures AllTraced(init, goal, r.stack)
  {
  }

  /** At the end of the successor loop every successor is accounted for. */
  lemma KeptAccounts(init: seq<char>, goal: seq<char>, t: int, E2: set<Node>, ss: seq<Node>, r0: Scan, r: Scan)
    requires Kept(init, goal, t, E2, ss, |ss|, r0, r)
    ensures forall c :: c in ss ==> c.board in NodeBoards(E2) || c.board in Boards(r.stack) || r.minF <= c.F()
  {
    assert ss[..|ss|] == ss;
    forall c | c in ss ensures c.board in NodeBoards(E2) || c.board in Boards(r.stack) || r.minF <= c.F() {
      assert Accounted(E2, r, c);
    }
  }

  /**
   * An expansion without a goal keeps the closure: the boards of the stack
   * at the start of the loop are still stacked and minF only went down, and
   * every successor of n is accounted for, so the expanded boards with n are
   * closed up to the new minF.
   */
  lemma ExpandCloses(init: seq<char>, goal: seq<char>, t: int, E: set<Node>, n: Node, ss: seq<Node>, r0: Scan, r: Scan)
    requires Closed(goal, E, r0.stack, r0.minF) && ValidGrid(n.board) && ss == SortByF(Successors(goal, n))
    requires Kept(init, goal, t, E + {n}, ss, |ss|, r0, r)
    ensures Closed(goal, E + {n}, r.stack, r.minF)
  {
    ClosedWeaken(goal, E, r0.stack, r.stack, r0.minF, r.minF);
    KeptAccounts(init, goal, t, E + {n}, ss, r0, r);
    ClosedExpand(goal, E, r.stack, r.minF, n);
  }

  /** An expansion without a goal keeps the stack in shape and traced, and minF above t. */
  lemma ExpandKeeps(init: seq<char>, goal: seq<char>, t: int, E: set<Node>, n: Node, ss: seq<Node>, r0: Scan, r: Scan)
    requires StackOK(init, goal, r0.stack, r0.table, E + {n}) && r0.minF <= IntMax
    requires forall s :: s in ss ==> Traced(init, goal, s)
    requires Kept(init, goal, t, E + {n}, ss, |ss|, r0, r)
    ensures StackOK(init, goal, r.stack, r.table, E + {n}) && t < r.minF <= IntMax
  {
    KeptTraced(init, goal, t, E + {n}, ss, r0, r);
  }

  /**
   * After an expansion without a goal, minF is still the least f above t
   * among the children of the expanded nodes, now with n expanded, or
   * Integer.MAX_VALUE while there is none.
   */
  lemma ThresholdStep(t: int, goal: seq<char>, E: set<Node>, n: Node, ss: seq<Node>, r0: Scan)
    requires |goal| == Size && ValidGrid(n.board) && ss == SortByF(Successors(goal, n))
    requires Sweep(t, goal, ss, r0).1.hit.None?
    requires AboveAtLeast(goal, E, t, r0.minF) && AttainedAbove(goal, E, t, r0.minF)
    ensures AboveAtLeast(goal, E + {n}, t, Sweep(t, goal, ss, r0).1.minF)
    ensures AttainedAbove(goal, E + {n}, t, Sweep(t, goal, ss, r0).1.minF)
  {
    var w := Sweep(t, goal, ss, r0).1;
    SweepCovers(t, goal, ss, r0);
    SweepMonotone(t, goal, ss, r0);
    SweepMinF(t, goal, ss, r0);
    forall x, m | x in E + {n} && ValidGrid(x.board) && LegalMove(x.board, m) && t < Child(goal, x, m).F()
      ensures w.minF <= Child(goal, x, m).F()
    {
      if x == n {
        ChildIsSuccessor(goal, n, m);
      }
    }
    if w.minF != r0.minF {
      var s :| s in ss && t < s.F() && w.minF == s.F();
      SuccessorIsChild(goal, n, s);
      var m :| LegalMove(n.board, m) && s == Child(goal, n, m);
      assert n in E + {n};
    } else if w.minF != IntMax {
      var x, m :| x in E && ValidGrid(x.board) && LegalMove(x.board, m)
        && t < Child(goal, x, m).F() && Child(goal, x, m).F() == r0.minF;
      assert x in E + {n};
    }
  }

  /** After an expansion without a goal, the loop invariant holds again with n expanded. */
  lemma ExpandDone(init: seq<char>, goal: seq<char>, t: int, E: set<Node>, n: Node, ss: seq<Node>, r0: Scan, r: Scan)
    requires StackOK(init, goal, r0.stack, r0.table, E + {n}) && r0.minF <= IntMax
    requires Closed(goal, E, r0.stack, r0.minF) && ValidGrid(n.board) && ss == SortByF(Successors(goal, n))
    requires forall s :: s in ss ==> Traced(init, goal, s)
    requires Lineage(init, r0.stack, E + {n})
    requires Kept(init, goal, t, E + {n}, ss, |ss|, r0, r)
    ensures StackOK(init, goal, r.stack, r.table, E + {n}) && t < r.minF <= IntMax
    ensures Closed(goal, E + {n}, r.stack, r.minF)
    ensures Lineage(init, r.stack, E + {n})
  {
    ExpandKeeps(init, goal, t, E, n, ss, r0, r);
    ExpandCloses(init, goal, t, E, n, ss, r0, r);
  }

  /**
   * The for loop over the successors ss under threshold t, from the state
   * r, as a value: the successors pushed, in order, and the state after the
   * loop, which ends early at an admitted goal successor.
   */
  function Sweep(t: int, goal: seq<char>, ss: seq<Node>, r: Scan): (seq<Node>, Scan)
    decreases |ss|
  {
    if ss == [] then ([], r)
    else
      var s := ss[0];
      if s.F() > t then Sweep(t, goal, ss[1..], r.(minF := Min(r.minF, s.F())))
      else if !Admits(t, r, s) then Sweep(t, goal, ss[1..], r)
      else if s.board == goal then ([], Drop(r, s).(hit := Some(s)))
      else
        var w := Sweep(t, goal, ss[1..], Push(Drop(r, s), s));
        ([s] + w.0, w.1)
  }

  /** The count grows by one for each successor pushed. */
  lemma {:induction false} SweepCount(t: int, goal: seq<char>, ss: seq<Node>, r: Scan)
    ensures Sweep(t, goal, ss, r).1.count == r.count + |Sweep(t, goal, ss, r).0|
    decreases |ss|
  {
    if ss != [] {
      var s := ss[0];
      if s.F() > t {
        SweepCount(t, goal, ss[1..], r.(minF := Min(r.minF, s.F())));
      } else if !Admits(t, r, s) {
        SweepCount(t, goal, ss[1..], r);
      } else if s.board != goal {
        SweepCount(t, goal, ss[1..], Push(Drop(r, s), s));
      }
    }
  }

  /** One step of the loop keeps every marked entry of the table, since a marked entry is never admitted against. */
  lemma {:induction false} SweepMarked(t: int, goal: seq<char>, ss: seq<Node>, r: Scan)
    ensures forall b :: b in r.table && r.table[b].marked ==>
      b in Sweep(t, goal, ss, r).1.table && Sweep(t, goal, ss, r).1.table[b] == r.table[b]
    decreases |ss|
  {
    if ss != [] {
      var s := ss[0];
      if s.F() > t {
        SweepMarked(t, goal, ss[1..], r.(minF := Min(r.minF, s.F())));
      } else if !Admits(t, r, s) {
        SweepMarked(t, goal, ss[1..], r);
      } else if s.board != goal {
        SweepMarked(t, goal, ss[1..], Push(Drop(r, s), s));
      }
    }
  }

  /**
   * Every successor pushed is one of ss within the threshold and off the
   * goal, and its board had no entry at the start, or an unmarked entry of
   * larger f: a marked entry makes the successor be skipped, and a worse
   * one is replaced.
   */
  lemma {:induction false} SweepPushed(t: int, goal: seq<char>, ss: seq<Node>, r: Scan)
    ensures forall s :: s in Sweep(t, goal, ss, r).0 ==>
      s in ss && s.F() <= t && s.board != goal
      && (s.board in r.table ==> !r.table[s.board].marked && r.table[s.board].F() > s.F())
    decreases |ss|
  {
    if ss != [] {
      var s0 := ss[0];
      assert forall x :: x in ss[1..] ==> x in ss;
      if s0.F() > t {
        SweepPushed(t, goal, ss[1..], r.(minF := Min(r.minF, s0.F())));
      } else if !Admits(t, r, s0) {
        SweepPushed(t, goal, ss[1..], r);
      } else if s0.board != goal {
        SweepPushed(t, goal, ss[1..], Push(Drop(r, s0), s0));
      }
    }
  }

  /**
   * Entries only improve: every board with an entry at the start keeps one
   * of f no larger, unless it is the goal successor's, and minF only goes
   * down.
   */
  lemma {:induction false} SweepMonotone(t: int, goal: seq<char>, ss: seq<Node>, r: Scan)
    ensures Sweep(t, goal, ss, r).1.minF <= r.minF
    ensures forall b :: b in r.table && (Sweep(t, goal, ss, r).1.hit.None? || b != Sweep(t, goal, ss, r).1.hit.value.board) ==>
      b in Sweep(t, goal, ss, r).1.table && Sweep(t, goal, ss, r).1.table[b].F() <= r.table[b].F()
    decreases |ss|
  {
    if ss != [] {
      var s := ss[0];
      if s.F() > t {
        SweepMonotone(t, goal, ss[1..], r.(minF := Min(r.minF, s.F())));
      } else if !Admits(t, r, s) {
        SweepMonotone(t, goal, ss[1..], r);
      } else if s.board != goal {
        SweepMonotone(t, goal, ss[1..], Push(Drop(r, s), s));
      }
    }
  }

  /**
   * Without a goal, every successor above the threshold bounds minF from
   * above, and every one within it ends with its board recorded, marked
   * out or with an f no larger than its own.
   */
  lemma {:induction false} SweepCovers(t: int, goal: seq<char>, ss: seq<Node>, r: Scan)
    ensures var w := Sweep(t, goal, ss, r).1;
      w.hit.None? ==> forall s :: s in ss ==>
        (t < s.F() ==> w.minF <= s.F())
        && (s.F() <= t ==> s.board in w.table && (w.table[s.board].marked || w.table[s.board].F() <= s.F()))
    decreases |ss|
  {
    if ss != [] {
      var s0 := ss[0];
      var r' := if s0.F() > t then r.(minF := Min(r.minF, s0.F())) else if !Admits(t, r, s0) then r else Push(Drop(r, s0), s0);
      if s0.F() > t || !Admits(t, r, s0) || s0.board != goal {
        assert Sweep(t, goal, ss, r).1 == Sweep(t, goal, ss[1..], r').1;
        SweepCovers(t, goal, ss[1..], r');
        SweepMonotone(t, goal, ss[1..], r');
        SweepMarked(t, goal, ss[1..], r');
        assert forall x :: x in ss ==> x == s0 || x in ss[1..];
      }
    }
  }

  /** minF ends as it started or as the f of a successor above the threshold. */
  lemma {:induction false} SweepMinF(t: int, goal: seq<char>, ss: seq<Node>, r: Scan)
    ensures var w := Sweep(t, goal, ss, r).1;
      w.minF == r.minF || exists s :: s in ss && t < s.F() && w.minF == s.F()
    decreases |ss|
  {
    if ss != [] {
      var s := ss[0];
      assert forall x :: x in ss[1..] ==> x in ss;
      if s.F() > t {
        SweepMinF(t, goal, ss[1..], r.(minF := Min(r.minF, s.F())));
      } else if !Admits(t, r, s) {
        SweepMinF(t, goal, ss[1..], r);
      } else if s.board != goal {
        SweepMinF(t, goal, ss[1..], Push(Drop(r, s), s));
      }
    }
  }

  /**
   * A goal node comes back only as an admitted goal successor ss[k], with
   * its board dropped from the table, and nothing after it is pushed.
   */
  lemma {:induction false} SweepHit(t: int, goal: seq<char>, ss: seq<Node>, r: Scan)
    requires r.hit.None?
    ensures var w := Sweep(t, goal, ss, r);
      w.1.hit.Some? ==>
        w.1.hit.value.board == goal && w.1.hit.value.F() <= t && w.1.hit.value.board !in w.1.table
        && exists k :: 0 <= k < |ss| && ss[k] == w.1.hit.value && forall p :: p in w.0 ==> p in ss[..k]
    decreases |ss|
  {
    if ss != [] {
      var s0 := ss[0];
      var r' := if s0.F() > t then r.(minF := Min(r.minF, s0.F())) else if !Admits(t, r, s0) then r else Push(Drop(r, s0), s0);
      var w := Sweep(t, goal, ss, r);
      if s0.F() <= t && Admits(t, r, s0) && s0.board == goal {
        assert ss[0] == w.1.hit.value && w.0 == [];
      } else {
        var w' := Sweep(t, goal, ss[1..], r');
        SweepHit(t, goal, ss[1..], r');
        if w.1.hit.Some? {
          var k :| 0 <= k < |ss[1..]| && ss[1..][k] == w'.1.hit.value && forall p :: p in w'.0 ==> p in ss[1..][..k];
          assert ss[k + 1] == w.1.hit.value;
          assert forall p :: p in ss[1..][..k] ==> p in ss[..k + 1];
          assert forall p :: p in w.0 ==> p == s0 || p in w'.0;
        }
      }
    }
  }

  /**
   * The for loop over n.successors under threshold t: a successor above t
   * only lowers minF; one whose board has a marked entry, or an entry of f
   * no larger, is skipped; otherwise a worse entry is dropped from the
   * stack and the table, and the successor is returned when it is on the
   * goal board and is pushed and counted when it is not.  Without a goal,
   * the loop's state is kept for all the successors; a goal node returned
   * is one of them, within the threshold and not on init's board.
   */
  method ScanSuccessors(ghost init: seq<char>, goal: seq<char>, t: int, successors: seq<Node>, r0: Scan,
                        ghost E2: set<Node>) returns (r: Scan)
    requires ScanShape(init, E2, r0) && r0.hit.None? && t < r0.minF
    requires forall s :: s in successors ==> !s.marked && Descends(init, MarkedOf(r0.stack), s)
    requires ChainFrom(init, {}, r0.stack) && forall x :: x in r0.stack ==> SimpleNode(init, x)
    ensures r == Sweep(t, goal, successors, r0).1
    ensures r.count >= r0.count
    ensures r.hit.None? ==> Kept(init, goal, t, E2, successors, |successors|, r0, r)
    ensures r.hit.Some? ==>
      r.hit.value in successors && r.hit.value.board == goal && r.hit.value.board != init && r.hit.value.F() <= t
  {
    r := r0;
    KeptStart(init, goal, t, E2, successors, r0);
    for i := 0 to |successors|
      invariant Kept(init, goal, t, E2, successors, i, r0, r)
      invariant Sweep(t, goal, successors, r0).1 == Sweep(t, goal, successors[i..], r).1
    {
      var successor := successors[i];
      assert successors[i..][0] == successor && successors[i..][1..] == successors[i + 1..];
      var f := successor.F();
      if f > t {
        KeptAbove(init, goal, t, E2, successors, i, r0, r);
        r := r.(minF := Min(r.minF, f));
        continue;
      }
      if successor.board in r.table {
        var existingNode := r.table[successor.board];
        if existingNode.marked || existingNode.F() <= f {
          KeptSkip(init, goal, t, E2, successors, i, r0, r);
          continue;
        }
      }
      assert Admits(t, r, successor);
      if successor.board == goal {
        AdmitsNotInit(init, goal, t, E2, successors, i, r0, r);
        r := Drop(r, successor).(hit := Some(successor));
        return;
      }
      KeptPush(init, goal, t, E2, successors, i, r0, r);
      r := Push(Drop(r, successor), successor);
    }
  }

  // ---------------------------------------------------------------------
  // One iteration and the threshold loop.

  /** How one depth-first iteration ends: a goal node with the count so far, the next threshold, or no fuel left. */
  datatype Outcome = Hit(node: Node, count: int) | Exhausted(minF: int, count: int) | OutOfFuel

  /**
   * The body of the while loop on t: a depth-first search from a fresh start
   * node under threshold t, continuing the node count.  A goal node returned
   * is traced and not on init's board; when the stack runs empty the least f
   * above t comes back, and then either the goal is init, or some child of an
   * expanded node has f at least that value, or no legal sequence reaches the
   * goal.  The expanded nodes E are traced and their paths never revisit a
   * board (a successor whose board has a marked entry, an ancestor's, is
   * skipped), so no child of one reaches Integer.MAX_VALUE: a least f of
   * Integer.MAX_VALUE means the goal is init or unreachable.  fuel bounds
   * the pops.
   */
  method Iteration(init: seq<char>, goal: seq<char>, t: int, count0: int, fuel: nat) returns (o: Outcome, ghost E: set<Node>)
    requires ValidGrid(init) && ValidGrid(goal) && Covered(goal, init) && t < IntMax
    ensures o.Hit? ==> Traced(init, goal, o.node) && o.node.board == goal && o.node.board != init && o.count >= count0
    ensures o.Exhausted? ==> t < o.minF <= IntMax && o.count >= count0
    ensures forall n :: n in E ==> Traced(init, goal, n) && SimpleNode(init, n)
    ensures o.Exhausted? ==>
      init == goal || SomeChildAtLeast(goal, E, o.minF) || Unreachable(init, goal)
    ensures o.Exhausted? && o.minF == IntMax ==> init == goal || Unreachable(init, goal)
    ensures o.Exhausted? ==> AboveAtLeast(goal, E, t, o.minF) && AttainedAbove(goal, E, t, o.minF)
  {
    var minF := IntMax;
    var count := count0;
    var startNode := NewNode(goal, init, None, 0, "");
    var L := [startNode];
    var H := map[init := startNode];
    E := {};
    StartOK(init, goal, startNode);
    StartTraced(init, goal);
    LineageStart(init, startNode);
    ClosedStart(goal, L, minF);
    var remaining := fuel;
    while L != []
      invariant StackOK(init, goal, L, H, E) && t < minF <= IntMax && Closed(goal, E, L, minF) && count >= count0
      invariant Lineage(init, L, E)
      invariant AboveAtLeast(goal, E, t, minF) && AttainedAbove(goal, E, t, minF)
      decreases remaining
    {
      if remaining == 0 {
        return OutOfFuel, E;
      }
      remaining := remaining - 1;
      var n := L[|L| - 1];
      if n.marked {
        PopMarkedOK(init, goal, L, H, E);
        LineagePop(init, L, E);
        ClosedWeaken(goal, E, L, L[..|L| - 1], minF, minF);
        L := L[..|L| - 1];
        H := H - {n.board};
        continue;
      }
      MarkOK(init, goal, L, H, E);
      LineageMark(init, L, E);
      ExpandDescends(init, goal, L, E);
      ghost var unmarked := L;
      n := n.(marked := true);
      L := L[..|L| - 1] + [n];
      H := H[n.board := n];
      ClosedWeaken(goal, E, unmarked, L, minF, minF);
      var successors := GetSuccessorsStates(goal, n);
      SuccessorsTraced(init, goal, n);
      ghost var r0 := Scan(L, H, minF, count, None);
      var r := ScanSuccessors(init, goal, t, successors, Scan(L, H, minF, count, None), E + {n});
      if r.hit.Some? {
        return Hit(r.hit.value, r.count), E;
      }
      ExpandDone(init, goal, t, E, n, successors, r0, r);
      ThresholdStep(t, goal, E, n, successors, r0);
      L, H, minF, count := r.stack, r.table, r.minF, r.count;
      E := E + {n};
    }
    ClosedNoPath(init, goal, E, minF);
    NoChildAtMax(init, goal, E);
    return Exhausted(minF, count), E;
  }

  /**
   * IDAStarSearch.search as written: the threshold is first h(init) and
   * rises to the least f that exceeded it until no f did (minF stays
   * Integer.MAX_VALUE); the node count runs across iterations.  A solution
   * returned is a real one; "No Path" comes with 0 nodes and cost
   * Integer.MAX_VALUE, and then the goal is init or unreachable, since the
   * paths the iterations follow never revisit a board and so no f comes
   * near Integer.MAX_VALUE.  The start node itself is never tested against
   * the goal, so a solution returned never ends on init: the Java's
   * identity-keyed table lets a path leave init and come back to it, while
   * this table, keyed by board value, skips init's board throughout (its
   * entry is the marked-out start), so here a puzzle whose start is its
   * goal never reports a solution.  None: some iteration ran out of fuel.
   */
  method Search(init: seq<char>, goal: seq<char>, fuel: nat) returns (r: Option<SearchResult>)
    requires ValidGrid(init) && ValidGrid(goal) && Covered(goal, init)
    ensures r.Some? && r.value.solution != NoPath ==> Solves(init, goal, r.value) && r.value.nodesCreated >= 1
    ensures r.Some? && r.value.solution == NoPath ==>
      r.value == SearchResult(NoPath, 0, Finite(MaxCost)) && (init == goal || Unreachable(init, goal))
    ensures init == goal ==> r.None? || r.value.solution == NoPath
  {
    var nodeCreated := 1;
    var t := ComputeHeuristic(goal, init);
    while t != IntMax
      invariant t <= IntMax && nodeCreated >= 1
      invariant t == IntMax ==> init == goal || Unreachable(init, goal)
      decreases IntMax - t
    {
      var o;
      ghost var E;
      o, E := Iteration(init, goal, t, nodeCreated, fuel);
      match o {
        case OutOfFuel =>
          return None;
        case Hit(n, count) =>
          TracedSolves(init, goal, n, count);
          r := Some(SearchResult(ReconstructPath(n), count, Finite(n.g)));
          NoPathIsNotASolution(init, goal, count, Finite(n.g));
          return r;
        case Exhausted(minF, count) =>
          nodeCreated := count;
          t := minF;
      }
    }
    return Some(SearchResult(NoPath, 0, Finite(MaxCost)));
  }

  /**
   * The search with the start node tested against the goal first, as the
   * breadth-first and A* searches do: a start on the goal is solved by the
   * empty path at cost 0 with the one start node created, and "No Path" then
   * means the goal is unreachable.
   */
  method SearchCorrected(init: seq<char>, goal: seq<char>, fuel: nat) returns (r: Option<SearchResult>)
    requires ValidGrid(init) && ValidGrid(goal) && Covered(goal, init)
    ensures r.Some? && r.value.solution != NoPath ==> Solves(init, goal, r.value) && r.value.nodesCreated >= 1
    ensures r.Some? && r.value.solution == NoPath ==>
      r.value == SearchResult(NoPath, 0, Finite(MaxCost)) && Unreachable(init, goal)
    ensures init == goal ==> r == Some(SearchResult("", 1, Finite(0)))
  {
    if init == goal {
      var startNode := NewNode(goal, init, None, 0, "");
      StartTraced(init, goal);
      TracedSolves(init, goal, startNode, 1);
      NoPathIsNotASolution(init, goal, 1, Finite(0));
      return Some(SearchResult(ReconstructPath(startNode), 1, Finite(startNode.g)));
    }
    r := Search(init, goal, fuel);
  }
}

/**
 * DFBnBSearch.search: one depth-first search with an explicit stack L and
 * table H as in IDA*, under a bound t that starts at h(init) and drops to
 * the f of every goal node found.  The successors of an expansion are taken
 * in ascending f and the batch stops at the first one above t; a successor
 * whose board has an entry of f no larger is skipped, a worse entry (marked
 * out or not) is dropped from the stack and the table; a goal successor
 * lowers t, becomes the result and ends the batch; any other is pushed.
 *
 * The Java's test successor.isMarkedOut() at src/DFBnB.java:64 reads the
 * flag of a node just generated, which is never set, so the model has no
 * such branch.
 */
module Dfbnb {
  import opened Wrappers
  import opened Board
  import opened Paths
  import opened Heuristics
  import opened Results
  import opened Nodes
  import opened Reach
  import opened MarkedStack
  import opened Costs

  // ---------------------------------------------------------------------
  // The successor batch of one expansion.

  /** The stack, the table, the bound, the node count, and the goal node the batch ended on. */
  datatype Batch = Batch(stack: seq<Node>, table: map<seq<char>, Node>, t: int, count: int, hit: Option<Node>)

  /** The shape part of the state: the stack and the table in shape, the bottom marked out. */
  ghost predicate BatchShape(init: seq<char>, E2: set<Node>, r: Batch)
  {
    StackShape(init, r.stack, r.table, E2) && r.stack != [] && r.stack[0].marked
  }

  /** A successor is covered: its board was expanded or is stacked, or its f is at least the bound. */
  ghost predicate Covers(E2: set<Node>, r: Batch, c: Node)
  {
    c.board in NodeBoards(E2) || c.board in Boards(r.stack) || r.t <= c.F()
  }

  lemma CoversLater(E2: set<Node>, r: Batch, r': Batch, c: Node)
    requires Covers(E2, r, c) && Boards(r.stack) <= Boards(r'.stack) && r'.t <= r.t
    ensures Covers(E2, r', c)
  {
  }

  /** The entry for s's board dropped from the stack and the table, when there is one. */
  function Drop(r: Batch, s: Node): (r': Batch)
    ensures s.board !in r'.table && r'.t == r.t && r'.count == r.count
  {
    if s.board in r.table then r.(stack := RemoveBoard(r.stack, s.board), table := r.table - {s.board}) else r
  }

  /** s pushed onto the stack, entered in the table and counted. */
  function Push(r: Batch, s: Node): (r': Batch)
    ensures r'.stack == r.stack + [s] && s.board in r'.table && r'.table[s.board] == s && r'.count == r.count + 1
  {
    Batch(r.stack + [s], r.table[s.board := s], r.t, r.count + 1, None)
  }

  /** s is within the bound and its board has no entry, or only one of larger f. */
  predicate Beats(r: Batch, s: Node)
  {
    s.F() <= r.t && (s.board in r.table ==> r.table[s.board].F() > s.F())
  }

  /**
   * A successor as generated: not marked out, with g >= 0, and with the same
   * h as the start node when it is on init's board.
   */
  predicate Fresh(init: seq<char>, start: Node, s: Node)
  {
    !s.marked && s.g >= 0 && (s.board == init ==> s.h == start.h)
  }

  /**
   * What the batch keeps after the first i successors: the shape and the
   * bottom, no goal yet, the bound as it was, a count that only grows, the
   * boards stacked at the start still stacked, the first i successors
   * covered, every stacked node stacked at the start or a successor off the
   * goal, and nothing changed while every successor so far was above the
   * bound.
   */
  ghost predicate Kept(init: seq<char>, goal: seq<char>, E2: set<Node>, ss: seq<Node>, i: int, r0: Batch, r: Batch)
  {
    0 <= i <= |ss| && BatchShape(init, E2, r) && r.hit.None? && r.count >= r0.count && r.t == r0.t
    && r0.stack != [] && r.stack[0] == r0.stack[0] && Boards(r0.stack) <= Boards(r.stack)
    && (forall c :: c in ss[..i] ==> Covers(E2, r, c))
    && (forall x :: x in r.stack ==> x in r0.stack || (x in ss && x.board != goal))
    && ChainKept(init, r0, r)
  }

  /** The marked entries as at the start of the batch, below a chain of simple paths. */
  ghost predicate ChainKept(init: seq<char>, r0: Batch, r: Batch)
  {
    ChainFrom(init, {}, r.stack) && MarkedOf(r.stack) == MarkedOf(r0.stack)
    && forall x :: x in r.stack ==> SimpleNode(init, x)
  }

  lemma KeptStart(init: seq<char>, goal: seq<char>, E2: set<Node>, ss: seq<Node>, r0: Batch)
    requires BatchShape(init, E2, r0) && r0.hit.None?
    requires ChainFrom(init, {}, r0.stack) && forall x :: x in r0.stack ==> SimpleNode(init, x)
    ensures Kept(init, goal, E2, ss, 0, r0, r0)
  {
  }

  /**
   * A successor descending from the marked entries never beats a marked
   * entry: that entry is an ancestor's, on the same board with the same h
   * and a g no larger.
   */
  lemma BeatsUnmarked(init: seq<char>, r: Batch, s: Node)
    requires Indexed(r.stack, r.table) && Descends(init, MarkedOf(r.stack), s) && Beats(r, s)
    ensures s.board in r.table ==> !r.table[s.board].marked
  {
    if s.board in r.table {
      var y := BoardsHas(r.stack, s.board);
      assert r.table[s.board] == y;
    }
  }

  /** Dropping the entry a successor beats keeps the chain and the marked entries. */
  lemma DropChain(init: seq<char>, s: Node, r: Batch)
    requires Indexed(r.stack, r.table) && ChainFrom(init, {}, r.stack) && Beats(r, s)
    requires Descends(init, MarkedOf(r.stack), s)
    ensures ChainFrom(init, {}, Drop(r, s).stack) && MarkedOf(Drop(r, s).stack) == MarkedOf(r.stack)
    ensures SimpleNode(init, s)
    ensures forall x :: x in Drop(r, s).stack ==> x in r.stack
  {
    BeatsUnmarked(init, r, s);
    AdmittedSimple(init, r.stack, r.table, s);
    if s.board in r.table {
      ChainRemove(init, {}, r.stack, s.board);
      RemoveBoardMembers(r.stack, s.board);
    }
  }

  /** A batch that keeps the chain keeps the lineage. */
  lemma LineageAfter(init: seq<char>, E2: set<Node>, r0: Batch, r: Batch)
    requires Lineage(init, r0.stack, E2) && ChainKept(init, r0, r)
    ensures Lineage(init, r.stack, E2)
  {
  }

  /** Pushing a successor in place of the entry it beats keeps the chain. */
  lemma PushChain(init: seq<char>, s: Node, r0: Batch, r: Batch)
    requires Indexed(r.stack, r.table) && ChainKept(init, r0, r) && Beats(r, s)
    requires !s.marked && Descends(init, MarkedOf(r0.stack), s)
    ensures ChainKept(init, r0, Push(Drop(r, s), s))
  {
    DropChain(init, s, r);
    var d := Drop(r, s);
    ChainSnoc(init, {}, d.stack, s);
    assert {} + MarkedOf(d.stack) == MarkedOf(r0.stack);
    MarkedOfSnoc(d.stack, s);
    forall x | x in d.stack + [s] ensures SimpleNode(init, x) {
      if x != s {
        assert x in r.stack;
      }
    }
  }

  lemma KeptNext(E2: set<Node>, ss: seq<Node>, i: int, r: Batch, r': Batch)
    requires 0 <= i < |ss| && Covers(E2, r', ss[i])
    requires forall c :: c in ss[..i] ==> Covers(E2, r, c)
    requires Boards(r.stack) <= Boards(r'.stack) && r'.t <= r.t
    ensures forall c :: c in ss[..i + 1] ==> Covers(E2, r', c)
  {
    assert forall c :: c in ss[..i + 1] ==> c in ss[..i] || c == ss[i];
    forall c | c in ss[..i] ensures Covers(E2, r', c) {
      CoversLater(E2, r, r', c);
    }
  }

  /** A successor within the bound whose board has an entry of f no larger changes nothing and is covered. */
  lemma KeptSkip(init: seq<char>, goal: seq<char>, E2: set<Node>, ss: seq<Node>, i: int, r0: Batch, r: Batch)
    requires Kept(init, goal, E2, ss, i, r0, r) && i < |ss| && ss[i].F() <= r0.t && ss[i].board in r.table
    ensures Kept(init, goal, E2, ss, i + 1, r0, r)
  {
    KeptNext(E2, ss, i, r, r);
  }

  /** In a sorted batch, the first successor above the bound covers all the rest. */
  lemma KeptAbove(init: seq<char>, goal: seq<char>, E2: set<Node>, ss: seq<Node>, i: int, r0: Batch, r: Batch)
    requires Kept(init, goal, E2, ss, i, r0, r) && i < |ss| && SortedByF(ss) && ss[i].F() > r.t
    ensures forall c :: c in ss ==> Covers(E2, r, c)
  {
    forall c | c in ss ensures Covers(E2, r, c) {
      var j :| 0 <= j < |ss| && ss[j] == c;
      if j < i {
        assert c in ss[..i];
      } else {
        assert ss[i].F() <= ss[j].F();
      }
    }
  }

  /** At the end of the batch every successor is covered. */
  lemma KeptDone(init: seq<char>, goal: seq<char>, E2: set<Node>, ss: seq<Node>, r0: Batch, r: Batch)
    requires Kept(init, goal, E2, ss, |ss|, r0, r)
    ensures forall c :: c in ss ==> Covers(E2, r, c)
  {
    assert ss[..|ss|] == ss;
  }

  /**
   * Dropping the entry of a successor that beats it keeps the shape and the
   * bottom: the entry on init's board is the start node, with g <= 0 and the
   * same h as any successor on that board, which has g >= 0, so it is never
   * beaten.
   */
  lemma DropShape(init: seq<char>, E2: set<Node>, s: Node, r: Batch)
    requires BatchShape(init, E2, r) && Beats(r, s) && Fresh(init, r.stack[0], s)
    ensures StackShape(init, Drop(r, s).stack, Drop(r, s).table, E2)
    ensures Drop(r, s).stack != [] && Drop(r, s).stack[0] == r.stack[0]
    ensures Boards(Drop(r, s).stack) == Boards(r.stack) - {s.board}
    ensures forall x :: x in Drop(r, s).stack ==> x in r.stack
  {
    var b := s.board;
    assert r.stack[0] in r.stack;
    if b in r.table {
      assert r.table[r.stack[0].board] == r.stack[0];
      RemoveShape(init, r.stack, r.table, E2, b);
    } else {
      assert Drop(r, s) == r;
    }
  }

  /** Pushing an unmarked node on a free board keeps the shape, adds its board, and adds only it. */
  lemma PushBatch(init: seq<char>, E2: set<Node>, s: Node, d: Batch)
    requires StackShape(init, d.stack, d.table, E2) && d.stack != [] && d.stack[0].marked
    requires !s.marked && s.board !in d.table
    ensures BatchShape(init, E2, Push(d, s)) && Push(d, s).stack[0] == d.stack[0]
    ensures Boards(Push(d, s).stack) == Boards(d.stack) + {s.board}
    ensures forall x :: x in Push(d, s).stack ==> x in d.stack || x == s
  {
    PushShape(init, d.stack, d.table, E2, s);
  }

  /** A successor that beats its board's entry and is not on the goal replaces the entry and is pushed. */
  lemma KeptPush(init: seq<char>, goal: seq<char>, E2: set<Node>, ss: seq<Node>, i: int, r0: Batch, r: Batch)
    requires Kept(init, goal, E2, ss, i, r0, r) && i < |ss| && Beats(r, ss[i]) && ss[i].board != goal
    requires Fresh(init, r.stack[0], ss[i]) && Descends(init, MarkedOf(r0.stack), ss[i])
    ensures Kept(init, goal, E2, ss, i + 1, r0, Push(Drop(r, ss[i]), ss[i]))
  {
    var s := ss[i];
    DropShape(init, E2, s, r);
    PushChain(init, s, r0, r);
    var d := Drop(r, s);
    PushBatch(init, E2, s, d);
    var p := Push(d, s);
    assert Boards(r.stack) <= Boards(p.stack);
    KeptNext(E2, ss, i, r, p);
    assert ss[i] in ss;
    forall x | x in p.stack ensures x in r0.stack || (x in ss && x.board != goal) {
      if x != s {
        assert x in r.stack;
      }
    }
    assert Boards(r0.stack) <= Boards(p.stack);
    assert p.stack[0] == r0.stack[0];
    assert BatchShape(init, E2, p);
  }

  /** A goal successor that beats its board's entry ends the batch with its f as the bound. */
  lemma KeptHit(init: seq<char>, goal: seq<char>, E2: set<Node>, ss: seq<Node>, i: int, r0: Batch, r: Batch)
    requires Kept(init, goal, E2, ss, i, r0, r) && i < |ss| && Beats(r, ss[i]) && ss[i].board == goal
    requires Fresh(init, r.stack[0], ss[i]) && Descends(init, MarkedOf(r0.stack), ss[i])
    ensures var h := Drop(r, ss[i]).(t := ss[i].F(), hit := Some(ss[i]));
      BatchShape(init, E2, h) && h.stack[0] == r0.stack[0] && h.count >= r0.count && h.t <= r0.t
      && (forall x :: x in h.stack ==> x in r0.stack || (x in ss && x.board != goal))
      && ChainKept(init, r0, h)
  {
    DropShape(init, E2, ss[i], r);
    DropChain(init, ss[i], r);
    assert ss[i] in ss;
  }

  /**
   * The for loop over the successors ss from the state r, as a value: the
   * successors pushed, in order, and the state after the loop, which stops
   * at the first successor above the bound and at a goal successor that
   * beats its board's entry.
   */
  function Sweep(goal: seq<char>, ss: seq<Node>, r: Batch): (seq<Node>, Batch)
    decreases |ss|
  {
    if ss == [] then ([], r)
    else
      var s := ss[0];
      if s.F() > r.t then ([], r)
      else if !Beats(r, s) then Sweep(goal, ss[1..], r)
      else if s.board == goal then ([], Drop(r, s).(t := s.F(), hit := Some(s)))
      else
        var w := Sweep(goal, ss[1..], Push(Drop(r, s), s));
        ([s] + w.0, w.1)
  }

  /** The count grows by one for each successor pushed. */
  lemma {:induction false} SweepCount(goal: seq<char>, ss: seq<Node>, r: Batch)
    ensures Sweep(goal, ss, r).1.count == r.count + |Sweep(goal, ss, r).0|
    decreases |ss|
  {
    if ss != [] {
      var s := ss[0];
      if s.F() <= r.t && !Beats(r, s) {
        SweepCount(goal, ss[1..], r);
      } else if s.F() <= r.t && s.board != goal {
        SweepCount(goal, ss[1..], Push(Drop(r, s), s));
      }
    }
  }

  /**
   * Every successor pushed is one of ss within the starting bound and off
   * the goal, and its board had no entry at the start or one of larger f,
   * which it replaced; the bound changes only with a goal.
   */
  lemma {:induction false} SweepPushed(goal: seq<char>, ss: seq<Node>, r: Batch)
    ensures forall s :: s in Sweep(goal, ss, r).0 ==>
      s in ss && s.F() <= r.t && s.board != goal && (s.board in r.table ==> r.table[s.board].F() > s.F())
    ensures r.hit.None? && Sweep(goal, ss, r).1.hit.None? ==> Sweep(goal, ss, r).1.t == r.t
    decreases |ss|
  {
    if ss != [] {
      var s0 := ss[0];
      assert forall x :: x in ss[1..] ==> x in ss;
      if s0.F() <= r.t && !Beats(r, s0) {
        SweepPushed(goal, ss[1..], r);
      } else if s0.F() <= r.t && s0.board != goal {
        SweepPushed(goal, ss[1..], Push(Drop(r, s0), s0));
      }
    }
  }

  /**
   * Entries only improve: every board with an entry at the start keeps one
   * of f no larger, unless it is the goal successor's; the bound never
   * rises.
   */
  lemma {:induction false} SweepMonotone(goal: seq<char>, ss: seq<Node>, r: Batch)
    ensures Sweep(goal, ss, r).1.t <= r.t
    ensures forall b :: b in r.table && (Sweep(goal, ss, r).1.hit.None? || b != Sweep(goal, ss, r).1.hit.value.board) ==>
      b in Sweep(goal, ss, r).1.table && Sweep(goal, ss, r).1.table[b].F() <= r.table[b].F()
    decreases |ss|
  {
    if ss != [] {
      var s := ss[0];
      if s.F() <= r.t && !Beats(r, s) {
        SweepMonotone(goal, ss[1..], r);
      } else if s.F() <= r.t && s.board != goal {
        SweepMonotone(goal, ss[1..], Push(Drop(r, s), s));
      }
    }
  }

  /**
   * Without a goal, on a batch sorted by f, every successor within the
   * bound ends with its board recorded with an f no larger than its own.
   */
  lemma {:induction false} SweepCovers(goal: seq<char>, ss: seq<Node>, r: Batch)
    requires SortedByF(ss) && r.hit.None?
    ensures var w := Sweep(goal, ss, r).1;
      w.hit.None? ==> forall s :: s in ss && s.F() <= r.t ==> s.board in w.table && w.table[s.board].F() <= s.F()
    decreases |ss|
  {
    if ss != [] {
      var s0 := ss[0];
      var w := Sweep(goal, ss, r).1;
      assert forall x :: x in ss ==> x == s0 || x in ss[1..];
      if s0.F() > r.t {
        forall s | s in ss ensures r.t < s.F() {
          var j :| 0 <= j < |ss| && ss[j] == s;
        }
      } else if !Beats(r, s0) || s0.board != goal {
        var r' := if !Beats(r, s0) then r else Push(Drop(r, s0), s0);
        assert w == Sweep(goal, ss[1..], r').1 && r'.t == r.t && r'.hit.None?;
        assert SortedByF(ss[1..]);
        SweepCovers(goal, ss[1..], r');
        SweepMonotone(goal, ss[1..], r');
        assert s0.board in r'.table && r'.table[s0.board].F() <= s0.F();
      }
    }
  }

  /** The loop at successor i in state r ends where the whole loop from r0 ends. */
  ghost predicate SweepFrom(goal: seq<char>, ss: seq<Node>, i: int, r0: Batch, r: Batch)
    requires 0 <= i <= |ss|
  {
    Sweep(goal, ss, r0).1 == Sweep(goal, ss[i..], r).1
  }

  /** One step of the sweep, from the i-th successor on. */
  lemma SweepStep(goal: seq<char>, ss: seq<Node>, i: int, r: Batch)
    requires 0 <= i < |ss|
    ensures Sweep(goal, ss[i..], r).1 ==
      if ss[i].F() > r.t then r
      else if !Beats(r, ss[i]) then Sweep(goal, ss[i + 1..], r).1
      else if ss[i].board == goal then Drop(r, ss[i]).(t := ss[i].F(), hit := Some(ss[i]))
      else Sweep(goal, ss[i + 1..], Push(Drop(r, ss[i]), ss[i])).1
  {
    assert ss[i..][0] == ss[i] && ss[i..][1..] == ss[i + 1..];
  }

  /** When every successor is above the bound, the loop changes nothing. */
  lemma SweepAllAbove(goal: seq<char>, ss: seq<Node>, r: Batch)
    requires forall c :: c in ss ==> r.t < c.F()
    ensures Sweep(goal, ss, r).1 == r
  {
    if ss != [] {
      assert ss[0] in ss;
    }
  }

  /** A successor that does not beat its board's entry is passed over. */
  lemma SweepSkip(goal: seq<char>, ss: seq<Node>, i: int, r0: Batch, r: Batch)
    requires 0 <= i < |ss| && SweepFrom(goal, ss, i, r0, r) && ss[i].F() <= r.t && !Beats(r, ss[i])
    ensures SweepFrom(goal, ss, i + 1, r0, r)
  {
    SweepStep(goal, ss, i, r);
  }

  /** A successor that beats its board's entry and is not on the goal is pushed. */
  lemma SweepPush(goal: seq<char>, ss: seq<Node>, i: int, r0: Batch, r: Batch)
    requires 0 <= i < |ss| && SweepFrom(goal, ss, i, r0, r) && Beats(r, ss[i]) && ss[i].board != goal
    ensures SweepFrom(goal, ss, i + 1, r0, Push(Drop(r, ss[i]), ss[i]))
  {
    SweepStep(goal, ss, i, r);
  }

  /**
   * A goal node comes back only as a goal successor ss[k] that beat its
   * board's entry, with its f as the new bound and its board dropped from
   * the table, and nothing after it is pushed.
   */
  lemma {:induction false} SweepHit(goal: seq<char>, ss: seq<Node>, r: Batch)
    requires r.hit.None?
    ensures var w := Sweep(goal, ss, r);
      w.1.hit.Some? ==>
        w.1.hit.value.board == goal && w.1.t == w.1.hit.value.F() <= r.t && w.1.hit.value.board !in w.1.table
        && exists k :: 0 <= k < |ss| && ss[k] == w.1.hit.value && forall p :: p in w.0 ==> p in ss[..k]
    decreases |ss|
  {
    if ss != [] && ss[0].F() <= r.t {
      var s0 := ss[0];
      var w := Sweep(goal, ss, r);
      if Beats(r, s0) && s0.board == goal {
        assert ss[0] == w.1.hit.value && w.0 == [];
      } else {
        var r' := if !Beats(r, s0) then r else Push(Drop(r, s0), s0);
        var w' := Sweep(goal, ss[1..], r');
        SweepHit(goal, ss[1..], r');
        if w.1.hit.Some? {
          var k :| 0 <= k < |ss[1..]| && ss[1..][k] == w'.1.hit.value && forall p :: p in w'.0 ==> p in ss[1..][..k];
          assert ss[k + 1] == w.1.hit.value;
          assert forall p :: p in ss[1..][..k] ==> p in ss[..k + 1];
          assert forall p :: p in w.0 ==> p == s0 || p in w'.0;
        }
      }
    }
  }

  /** What the batch promises once it ends, in the state r it ends in. */
  ghost predicate Scanned(init: seq<char>, goal: seq<char>, E2: set<Node>, ss: seq<Node>, r0: Batch, r: Batch)
  {
    r == Sweep(goal, ss, r0).1
    && BatchShape(init, E2, r) && r0.stack != [] && r.stack[0] == r0.stack[0] && r.count >= r0.count && r.t <= r0.t
    && ChainKept(init, r0, r)
    && (forall x :: x in r.stack ==> x in r0.stack || (x in ss && x.board != goal))
    && (r.hit.None? ==>
      r.t == r0.t && Boards(r0.stack) <= Boards(r.stack) && forall c :: c in ss ==> Covers(E2, r, c))
    && (r.hit.Some? ==>
      r.hit.value in ss && r.hit.value.board == goal && r.t == r.hit.value.F() <= r0.t)
    && ((forall c :: c in ss ==> r0.t < c.F()) ==> r == r0)
  }

  /** The batch ending at the first successor above the bound. */
  lemma ScannedAbove(init: seq<char>, goal: seq<char>, E2: set<Node>, ss: seq<Node>, i: int, r0: Batch, r: Batch)
    requires Kept(init, goal, E2, ss, i, r0, r) && i < |ss| && SortedByF(ss) && ss[i].F() > r.t
    requires SweepFrom(goal, ss, i, r0, r)
    ensures Scanned(init, goal, E2, ss, r0, r)
  {
    if forall c :: c in ss ==> r0.t < c.F() {
      SweepAllAbove(goal, ss, r0);
    }
    SweepStep(goal, ss, i, r);
    KeptAbove(init, goal, E2, ss, i, r0, r);
  }

  /** The batch ending at a goal successor that beats its board's entry. */
  lemma ScannedHit(init: seq<char>, goal: seq<char>, E2: set<Node>, ss: seq<Node>, i: int, r0: Batch, r: Batch)
    requires Kept(init, goal, E2, ss, i, r0, r) && i < |ss| && Beats(r, ss[i]) && ss[i].board == goal
    requires Fresh(init, r.stack[0], ss[i]) && Descends(init, MarkedOf(r0.stack), ss[i])
    requires SweepFrom(goal, ss, i, r0, r)
    ensures Scanned(init, goal, E2, ss, r0, Drop(r, ss[i]).(t := ss[i].F(), hit := Some(ss[i])))
  {
    if forall c :: c in ss ==> r0.t < c.F() {
      SweepAllAbove(goal, ss, r0);
    }
    SweepStep(goal, ss, i, r);
    KeptHit(init, goal, E2, ss, i, r0, r);
    assert ss[i] in ss;
  }

  /** The batch ending after its last successor. */
  lemma ScannedDone(init: seq<char>, goal: seq<char>, E2: set<Node>, ss: seq<Node>, r0: Batch, r: Batch)
    requires Kept(init, goal, E2, ss, |ss|, r0, r)
    requires SweepFrom(goal, ss, |ss|, r0, r)
    ensures Scanned(init, goal, E2, ss, r0, r)
  {
    if forall c :: c in ss ==> r0.t < c.F() {
      SweepAllAbove(goal, ss, r0);
    }
    KeptDone(init, goal, E2, ss, r0, r);
    assert ss[|ss|..] == [];
  }

  /**
   * The for loop over the sorted successors: the batch stops at the first
   * successor above t; one whose board has an entry of f no larger is
   * skipped; otherwise the entry is dropped, and a goal successor lowers t
   * to its f and ends the batch, while any other is pushed and counted.
   * Without a goal every successor is covered; a goal node is one of the
   * successors, within the old bound; when every successor is above the
   * bound nothing changes.
   */
  method ScanSuccessors(ghost init: seq<char>, goal: seq<char>, successors: seq<Node>, r0: Batch,
                        ghost E2: set<Node>) returns (r: Batch)
    requires BatchShape(init, E2, r0) && r0.hit.None? && SortedByF(successors)
    requires forall s :: s in successors ==> Fresh(init, r0.stack[0], s) && Descends(init, MarkedOf(r0.stack), s)
    requires ChainFrom(init, {}, r0.stack) && forall x :: x in r0.stack ==> SimpleNode(init, x)
    ensures r == Sweep(goal, successors, r0).1
    ensures BatchShape(init, E2, r) && r.stack[0] == r0.stack[0] && r.count >= r0.count && r.t <= r0.t
    ensures ChainKept(init, r0, r)
    ensures forall x :: x in r.stack ==> x in r0.stack || (x in successors && x.board != goal)
    ensures r.hit.None? ==>
      r.t == r0.t && Boards(r0.stack) <= Boards(r.stack) && forall c :: c in successors ==> Covers(E2, r, c)
    ensures r.hit.Some? ==>
      r.hit.value in successors && r.hit.value.board == goal && r.t == r.hit.value.F() <= r0.t
    ensures (forall c :: c in successors ==> r0.t < c.F()) ==> r == r0
  {
    r := r0;
    KeptStart(init, goal, E2, successors, r0);
    for i := 0 to |successors|
      invariant Kept(init, goal, E2, successors, i, r0, r)
      invariant SweepFrom(goal, successors, i, r0, r)
    {
      var successor := successors[i];
      if successor.F() > r.t {
        ScannedAbove(init, goal, E2, successors, i, r0, r);
        return;
      }
      if successor.board in r.table {
        var existingNode := r.table[successor.board];
        if existingNode.F() <= successor.F() {
          KeptSkip(init, goal, E2, successors, i, r0, r);
          SweepSkip(goal, successors, i, r0, r);
          continue;
        }
      }
      assert Beats(r, successor);
      if successor.board == goal {
        ScannedHit(init, goal, E2, successors, i, r0, r);
        r := Drop(r, successor).(t := successor.F(), hit := Some(successor));
        return;
      }
      assert successor in successors;
      KeptPush(init, goal, E2, successors, i, r0, r);
      SweepPush(goal, successors, i, r0, r);
      r := Push(Drop(r, successor), successor);
    }
    ScannedDone(init, goal, E2, successors, r0, r);
  }

  // ---------------------------------------------------------------------
  // The search.

  /** Successors as generated are fresh with respect to a traced start node on init's board. */
  lemma FreshSuccessors(init: seq<char>, goal: seq<char>, n: Node, start: Node)
    requires Traced(init, goal, n) && Traced(init, goal, start) && start.board == init
    ensures forall c :: c in SortByF(Successors(goal, n)) ==> Traced(init, goal, c) && Fresh(init, start, c)
  {
    SuccessorsTraced(init, goal, n);
  }

  /** The stacked nodes after a batch are traced: stacked before, or traced successors off the goal. */
  lemma BatchTraced(init: seq<char>, goal: seq<char>, ss: seq<Node>, r0: Batch, r: Batch)
    requires AllTraced(init, goal, r0.stack) && forall s :: s in ss ==> Traced(init, goal, s)
    requires forall x :: x in r.stack ==> x in r0.stack || (x in ss && x.board != goal)
    ensures AllTraced(init, goal, r.stack)
  {
  }

  /** A batch without a goal keeps the expanded boards with n closed up to the bound. */
  lemma BatchCloses(goal: seq<char>, E: set<Node>, n: Node, ss: seq<Node>, r0: Batch, r: Batch)
    requires Closed(goal, E, r0.stack, r0.t) && ValidGrid(n.board) && ss == SortByF(Successors(goal, n))
    requires Boards(r0.stack) <= Boards(r.stack) && r.t == r0.t
    requires forall c :: c in ss ==> Covers(E + {n}, r, c)
    ensures Closed(goal, E + {n}, r.stack, r.t)
  {
    ClosedWeaken(goal, E, r0.stack, r.stack, r0.t, r.t);
    ClosedExpand(goal, E, r.stack, r.t, n);
  }

  /** Every legal first move from init gives a child whose f exceeds t0. */
  ghost predicate AllPruned(init: seq<char>, goal: seq<char>, t0: int)
  {
    |goal| == Size && ValidGrid(init)
    && forall m :: LegalMove(init, m) ==> t0 < Child(goal, MakeNode(goal, init, None, 0, ""), m).F()
  }

  /** Then every successor of a node on init's board with g = 0 exceeds t0. */
  lemma PrunedBatch(init: seq<char>, goal: seq<char>, t0: int, n: Node)
    requires AllPruned(init, goal, t0) && n.board == init && n.g == 0
    ensures forall c :: c in SortByF(Successors(goal, n)) ==> t0 < c.F()
  {
    var cs := Successors(goal, n);
    SuccessorsAreChildren(goal, n);
    SortByFPermutes(cs);
    var start := MakeNode(goal, init, None, 0, "");
    forall c | c in SortByF(cs) ensures t0 < c.F() {
      assert c in multiset(SortByF(cs));
      var i :| 0 <= i < |cs| && cs[i] == c;
      var m := AllMoves(n.board)[i];
      assert LegalMove(init, m) && c == Child(goal, n, m);
      ChildF(goal, n, start, m);
    }
  }

  /** A child's f depends on its parent's board and g only. */
  lemma ChildF(goal: seq<char>, n: Node, n': Node, m: Move)
    requires |goal| == Size && ValidGrid(n.board) && LegalMove(n.board, m) && n'.board == n.board && n'.g == n.g
    ensures Child(goal, n, m).F() == Child(goal, n', m).F()
  {
  }

  /**
   * The state between pops: the stack in shape and traced, a positive count,
   * the bound at most t0; without a result the bound is still t0 and the
   * expanded boards are closed up to it; a result is a real solution whose
   * cost is the bound.
   */
  ghost predicate Progress(init: seq<char>, goal: seq<char>, t0: int, L: seq<Node>, H: map<seq<char>, Node>, E: set<Node>,
                           t: int, count: int, result: Option<SearchResult>)
  {
    StackOK(init, goal, L, H, E) && Lineage(init, L, E) && count >= 1 && t <= t0
    && (result.None? ==> t == t0 && Closed(goal, E, L, t))
    && (result.Some? ==>
          Solves(init, goal, result.value) && result.value.solution != NoPath
          && result.value.cost == Finite(t) && result.value.nodesCreated >= 1)
  }

  /** Popping a marked node and dropping its board from the table keeps the state. */
  lemma PopProgress(init: seq<char>, goal: seq<char>, t0: int, L: seq<Node>, H: map<seq<char>, Node>, E: set<Node>,
                    t: int, count: int, result: Option<SearchResult>)
    requires Progress(init, goal, t0, L, H, E, t, count, result) && L != [] && L[|L| - 1].marked
    ensures Progress(init, goal, t0, L[..|L| - 1], H - {L[|L| - 1].board}, E, t, count, result)
  {
    PopMarkedOK(init, goal, L, H, E);
    LineagePop(init, L, E);
    if result.None? {
      ClosedWeaken(goal, E, L, L[..|L| - 1], t, t);
    }
  }

  /**
   * The state once the popped node x is marked out and pushed back, its
   * successors ss generated and sorted by f, as the batch r0 is about to run
   * over them: r0 in shape with x expanded, ss fresh and traced, the
   * expanded nodes traced, closure and result as in Progress, and when every
   * first move is above t0, x is the start node with all of ss above t0.
   */
  ghost predicate Ready(init: seq<char>, goal: seq<char>, t0: int, startNode: Node, E: set<Node>, x: Node,
                        ss: seq<Node>, r0: Batch, result: Option<SearchResult>)
  {
    BatchShape(init, E + {x}, r0) && r0.hit.None? && |goal| == Size && ValidGrid(x.board)
    && ss == SortByF(Successors(goal, x)) && SortedByF(ss) && SortByF(ss) == ss
    && (forall s :: s in ss ==> Fresh(init, r0.stack[0], s) && Traced(init, goal, s))
    && AllTraced(init, goal, r0.stack) && ExpandedTraced(init, goal, E + {x})
    && Lineage(init, r0.stack, E + {x}) && (forall s :: s in ss ==> Descends(init, MarkedOf(r0.stack), s))
    && r0.count >= 1 && r0.t <= t0
    && (result.None? ==> r0.t == t0 && Closed(goal, E, r0.stack, r0.t))
    && (result.Some? ==>
          Solves(init, goal, result.value) && result.value.solution != NoPath
          && result.value.cost == Finite(r0.t) && result.value.nodesCreated >= 1)
    && (AllPruned(init, goal, t0) ==>
          result.None? && r0.count == 1 && r0.stack == [startNode.(marked := true)]
          && forall c :: c in ss ==> t0 < c.F())
  }

  /** Marking the popped node and generating its successors gets the batch ready. */
  lemma ExpandReady(init: seq<char>, goal: seq<char>, t0: int, startNode: Node,
                    L: seq<Node>, H: map<seq<char>, Node>, E: set<Node>, t: int, count: int, result: Option<SearchResult>, x: Node)
    requires ValidGrid(init) && ValidGrid(goal) && Covered(goal, init) && startNode == MakeNode(goal, init, None, 0, "")
    requires Progress(init, goal, t0, L, H, E, t, count, result) && L != [] && !L[|L| - 1].marked
    requires AllPruned(init, goal, t0) ==> result.None? && count == 1 && L == [startNode]
    requires x == L[|L| - 1].(marked := true)
    ensures Traced(init, goal, x)
    ensures Ready(init, goal, t0, startNode, E, x, SortByF(Successors(goal, x)), Batch(L[..|L| - 1] + [x], H[x.board := x], t, count, None), result)
  {
    MarkOK(init, goal, L, H, E);
    LineageMark(init, L, E);
    ExpandDescends(init, goal, L, E);
    var L' := L[..|L| - 1] + [x];
    var r0 := Batch(L', H[x.board := x], t, count, None);
    assert BatchShape(init, E + {x}, r0);
    if result.None? {
      ClosedWeaken(goal, E, L, L', t, t);
    }
    var ss := SortByF(Successors(goal, x));
    SortByFFacts(Successors(goal, x));
    SortByFOfSorted(ss);
    assert L'[0] in L';
    FreshSuccessors(init, goal, x, L'[0]);
    assert forall s :: s in ss ==> Fresh(init, r0.stack[0], s) && Traced(init, goal, s);
    if AllPruned(init, goal, t0) {
      assert L' == [startNode.(marked := true)];
      PrunedBatch(init, goal, t0, x);
    }
    assert AllTraced(init, goal, r0.stack) && ExpandedTraced(init, goal, E + {x});
    assert r0.count >= 1 && r0.t <= t0;
    assert result.None? ==> r0.t == t0 && Closed(goal, E, r0.stack, r0.t);
    assert result.Some? ==>
          Solves(init, goal, result.value) && result.value.solution != NoPath
          && result.value.cost == Finite(r0.t) && result.value.nodesCreated >= 1;
    assert r0.hit.None? && |goal| == Size && ValidGrid(x.board);
    assert ss == SortByF(Successors(goal, x)) && SortedByF(ss) && SortByF(ss) == ss;
    assert AllPruned(init, goal, t0) ==>
          result.None? && r0.count == 1 && r0.stack == [startNode.(marked := true)]
          && forall c :: c in ss ==> t0 < c.F();
    assert Ready(init, goal, t0, startNode, E, x, ss, r0, result);
  }

  /** The result after a batch: a goal node it ended on, or the result so far. */
  function Found(b: Batch, result: Option<SearchResult>): (r: Option<SearchResult>)
    ensures b.hit.Some? ==> r.Some? && r.value.solution == ReconstructPath(b.hit.value) && r.value.cost == Finite(b.hit.value.g)
    ensures b.hit.None? ==> r == result
  {
    if b.hit.Some? then Some(SearchResult(ReconstructPath(b.hit.value), b.count, Finite(b.hit.value.g))) else result
  }

  /** After the batch the state between pops holds again, with x expanded. */
  lemma ExpandDone(init: seq<char>, goal: seq<char>, t0: int, startNode: Node, E: set<Node>, x: Node,
                   ss: seq<Node>, r0: Batch, r: Batch, result: Option<SearchResult>)
    requires Ready(init, goal, t0, startNode, E, x, ss, r0, result)
    requires BatchShape(init, E + {x}, r) && r.count >= r0.count && r.t <= r0.t && ChainKept(init, r0, r)
    requires forall y :: y in r.stack ==> y in r0.stack || (y in ss && y.board != goal)
    requires r.hit.None? ==>
      r.t == r0.t && Boards(r0.stack) <= Boards(r.stack) && forall c :: c in ss ==> Covers(E + {x}, r, c)
    requires r.hit.Some? ==> r.hit.value in ss && r.hit.value.board == goal && r.t == r.hit.value.F() <= r0.t
    requires (forall c :: c in ss ==> r0.t < c.F()) ==> r == r0
    ensures Progress(init, goal, t0, r.stack, r.table, E + {x}, r.t, r.count, Found(r, result))
    ensures AllPruned(init, goal, t0) ==>
      Found(r, result).None? && r.count == 1 && r.stack == [startNode.(marked := true)]
  {
    BatchTraced(init, goal, ss, r0, r);
    LineageAfter(init, E + {x}, r0, r);
    assert StackOK(init, goal, r.stack, r.table, E + {x});
    if r.hit.Some? {
      var s := r.hit.value;
      assert Traced(init, goal, s);
      HitSolves(init, goal, s, r.count, r.t);
      assert Found(r, result) == Some(SearchResult(ReconstructPath(s), r.count, Finite(s.g)));
    } else {
      if result.None? {
        BatchCloses(goal, E, x, ss, r0, r);
      }
      assert Found(r, result) == result;
    }
    assert Progress(init, goal, t0, r.stack, r.table, E + {x}, r.t, r.count, Found(r, result));
    if AllPruned(init, goal, t0) {
      assert r == r0;
    }
  }

  /** A traced node on the goal board is a solution whose cost is its g and its f alike. */
  lemma HitSolves(init: seq<char>, goal: seq<char>, s: Node, count: int, t: int)
    requires Traced(init, goal, s) && s.board == goal && t == s.F() && count >= 1
    ensures var res := SearchResult(ReconstructPath(s), count, Finite(s.g));
      Solves(init, goal, res) && res.solution != NoPath && res.cost == Finite(t) && res.nodesCreated >= 1
  {
    TracedSolves(init, goal, s, count);
    HeuristicZeroAtGoal(goal);
    NoPathIsNotASolution(init, goal, count, Finite(s.g));
  }

  /**
   * Popping an unmarked node n: n is marked out and pushed back, its
   * successors are generated and sorted again by f, and the batch runs; a
   * goal node the batch ends on becomes the result, with the count so far
   * and its g as the cost (its f, since h is 0 on the goal).  The state is
   * kept with n among the expanded nodes.  The bound never rises, so a new
   * result costs no more than the one it replaces.  When every first move is
   * above t0 and n is the start node, nothing is pushed.
   */
  method Expand(ghost init: seq<char>, goal: seq<char>, ghost t0: int, ghost startNode: Node,
                L: seq<Node>, H: map<seq<char>, Node>, ghost E: set<Node>, t: int, nodesCreated: int, result: Option<SearchResult>)
    returns (L': seq<Node>, H': map<seq<char>, Node>, ghost E': set<Node>, t': int, nodesCreated': int, result': Option<SearchResult>)
    requires ValidGrid(init) && ValidGrid(goal) && Covered(goal, init) && startNode == MakeNode(goal, init, None, 0, "")
    requires Progress(init, goal, t0, L, H, E, t, nodesCreated, result) && L != [] && !L[|L| - 1].marked
    requires AllPruned(init, goal, t0) ==> result.None? && nodesCreated == 1 && L == [startNode]
    ensures Progress(init, goal, t0, L', H', E', t', nodesCreated', result')
    ensures AllPruned(init, goal, t0) ==> result'.None? && nodesCreated' == 1 && L' == [startNode.(marked := true)]
    ensures t' <= t
    ensures result.Some? ==> result'.Some? && result'.value.cost.value <= result.value.cost.value
  {
    var n := L[|L| - 1].(marked := true);
    ExpandReady(init, goal, t0, startNode, L, H, E, t, nodesCreated, result, n);
    L' := L[..|L| - 1] + [n];
    H' := H[n.board := n];
    var successors := GetSuccessorsStates(goal, n);
    successors := SortByF(successors);
    ghost var r0 := Batch(L', H', t, nodesCreated, None);
    var b := ScanSuccessors(init, goal, successors, Batch(L', H', t, nodesCreated, None), E + {n});
    ExpandDone(init, goal, t0, startNode, E, n, successors, r0, b, result);
    L', H', t', nodesCreated', result' := b.stack, b.table, b.t, b.count, result;
    if b.hit.Some? {
      var successor := b.hit.value;
      result' := Some(SearchResult(ReconstructPath(successor), nodesCreated', Finite(successor.g)));
    }
    E' := E + {n};
  }

  /**
   * The search loop under an initial bound t0: whatever result comes back is
   * a real solution of cost at most t0; "No Path" comes with cost
   * Integer.MAX_VALUE and then the goal is init, or some child of an
   * expanded node has f at least t0, or the goal is unreachable.  When every
   * first move is above t0, the start is expanded once, nothing is pushed,
   * and "No Path" is reported with the one start node.  None: out of fuel.
   */
  method Run(init: seq<char>, goal: seq<char>, t0: int, fuel: nat) returns (r: Option<SearchResult>, ghost E: set<Node>)
    requires ValidGrid(init) && ValidGrid(goal) && Covered(goal, init)
    ensures r.Some? && r.value.solution != NoPath ==>
      Solves(init, goal, r.value) && r.value.cost.Finite? && r.value.cost.value <= t0 && r.value.nodesCreated >= 1
    ensures forall n :: n in E ==> Traced(init, goal, n) && SimpleNode(init, n)
    ensures r.Some? && r.value.solution == NoPath ==>
      r.value.cost == Finite(MaxCost) && r.value.nodesCreated >= 1
      && (init == goal || SomeChildAtLeast(goal, E, t0) || Unreachable(init, goal))
    ensures r.Some? && r.value.solution == NoPath && t0 == IntMax ==> init == goal || Unreachable(init, goal)
    ensures AllPruned(init, goal, t0) && fuel >= 2 ==> r == Some(SearchResult(NoPath, 1, Finite(MaxCost)))
  {
    var nodesCreated := 1;
    var t := t0;
    var result: Option<SearchResult> := None;
    var startNode := NewNode(goal, init, None, 0, "");
    var L := [startNode];
    var H := map[init := startNode];
    E := {};
    StartOK(init, goal, startNode);
    StartTraced(init, goal);
    LineageStart(init, startNode);
    ClosedStart(goal, L, t);
    var remaining := fuel;
    while L != []
      invariant Progress(init, goal, t0, L, H, E, t, nodesCreated, result)
      invariant AllPruned(init, goal, t0) ==>
        (result.None? && nodesCreated == 1
         && (L == [] || (L == [startNode] && remaining == fuel) || (L == [startNode.(marked := true)] && remaining + 1 == fuel)))
      decreases remaining
    {
      if remaining == 0 {
        return None, E;
      }
      remaining := remaining - 1;
      var n := L[|L| - 1];
      if n.marked {
        PopProgress(init, goal, t0, L, H, E, t, nodesCreated, result);
        L := L[..|L| - 1];
        H := H - {n.board};
        continue;
      }
      L, H, E, t, nodesCreated, result := Expand(init, goal, t0, startNode, L, H, E, t, nodesCreated, result);
    }
    if result.None? {
      ClosedNoPath(init, goal, E, t);
      NoChildAtMax(init, goal, E);
      return Some(SearchResult(NoPath, nodesCreated, Finite(MaxCost))), E;
    }
    return result, E;
  }

  /**
   * Every marble on b has positive weight: only blue, green and red marbles,
   * besides empty cells and obstacles.
   */
  predicate Weighted(b: seq<char>)
  {
    forall k :: 0 <= k < |b| && IsMarble(b[k]) ==> Weight(b[k]) >= 1
  }

  /**
   * On a puzzle whose start is its goal, with weighted marbles only, the
   * bound h(init) is 0 and every first move costs at least 1, so all of them
   * are pruned.
   */
  lemma GoalStartPruned(goal: seq<char>)
    requires ValidGrid(goal) && Covered(goal, goal) && Weighted(goal)
    ensures AllPruned(goal, goal, Heuristic(goal, goal))
  {
    HeuristicZeroAtGoal(goal);
    var start := MakeNode(goal, goal, None, 0, "");
    forall m | LegalMove(goal, m) ensures Heuristic(goal, goal) < Child(goal, start, m).F() {
      ApplyKeepsValid(goal, m);
      CoveredAfterMove(goal, goal, m);
      HeuristicBounds(goal, Apply(goal, m));
      assert IsMarble(goal[m.src]);
    }
  }

  /**
   * DFBnBSearch.search as written: t0 = h(init).  A solution returned is a
   * real one and, since h is admissible and its cost is at most h(init), a
   * cheapest one; "No Path" comes with cost Integer.MAX_VALUE.  When every
   * solution costs more than h(init) the search reports none.  The start is
   * never tested against the goal: on a puzzle whose start is its goal, with
   * weighted marbles only, it reports "No Path" with one node; so it does
   * whenever every first move has f above h(init).  None: out of fuel.
   */
  method Search(init: seq<char>, goal: seq<char>, fuel: nat) returns (r: Option<SearchResult>)
    requires ValidGrid(init) && ValidGrid(goal) && Covered(goal, init)
    ensures r.Some? && r.value.solution != NoPath ==>
      Solves(init, goal, r.value) && r.value.nodesCreated >= 1
      && forall ms :: Legal(init, ms) && Replay(init, ms) == goal ==> r.value.cost.value <= PathCost(ms)
    ensures r.Some? && r.value.solution == NoPath ==> r.value.cost == Finite(MaxCost) && r.value.nodesCreated >= 1
    ensures (forall ms :: Legal(init, ms) && Replay(init, ms) == goal ==> Heuristic(goal, init) < PathCost(ms)) ==>
      r.None? || r.value.solution == NoPath
    ensures AllPruned(init, goal, Heuristic(goal, init)) && fuel >= 2 ==> r == Some(SearchResult(NoPath, 1, Finite(MaxCost)))
    ensures init == goal && Weighted(init) && fuel >= 2 ==> r == Some(SearchResult(NoPath, 1, Finite(MaxCost)))
  {
    var t := ComputeHeuristic(goal, init);
    if init == goal && Weighted(init) {
      GoalStartPruned(goal);
    }
    ghost var E;
    r, E := Run(init, goal, t, fuel);
    if r.Some? && r.value.solution != NoPath {
      forall ms | Legal(init, ms) && Replay(init, ms) == goal ensures r.value.cost.value <= PathCost(ms) {
        HeuristicAdmissible(goal, init, ms);
      }
    }
  }

  /**
   * The search as evidently intended: the start is tested against the goal
   * first, and the bound starts at Integer.MAX_VALUE, so that only f values
   * beyond it are pruned.  A solution returned is a real one; "No Path" now
   * means the goal is unreachable: the paths followed never revisit a board
   * (a successor never beats the marked entry of an ancestor, whose g is no
   * larger), so no f comes near Integer.MAX_VALUE.
   */
  method SearchCorrected(init: seq<char>, goal: seq<char>, fuel: nat) returns (r: Option<SearchResult>)
    requires ValidGrid(init) && ValidGrid(goal) && Covered(goal, init)
    ensures r.Some? && r.value.solution != NoPath ==> Solves(init, goal, r.value) && r.value.nodesCreated >= 1
    ensures r.Some? && r.value.solution == NoPath ==> r.value.cost == Finite(MaxCost) && Unreachable(init, goal)
    ensures init == goal ==> r == Some(SearchResult("", 1, Finite(0)))
  {
    if init == goal {
      var startNode := NewNode(goal, init, None, 0, "");
      StartTraced(init, goal);
      TracedSolves(init, goal, startNode, 1);
      NoPathIsNotASolution(init, goal, 1, Finite(0));
      return Some(SearchResult(ReconstructPath(startNode), 1, Finite(startNode.g)));
    }
    ghost var E;
    r, E := Run(init, goal, IntMax, fuel);
  }
}

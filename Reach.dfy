/**
 * Facts about move sequences the strategies share: the finite set of
 * boards a puzzle can ever show, and splitting a legal sequence at its
 * last move.
 */
module Reach {
  import opened Board

  /** All words of length n over the alphabet. */
  function Words(alpha: set<char>, n: nat): set<seq<char>>
  {
    if n == 0 then {[]} else set w, c | w in Words(alpha, n - 1) && c in alpha :: w + [c]
  }

  lemma {:induction false} WordsContain(alpha: set<char>, s: seq<char>)
    requires forall i :: 0 <= i < |s| ==> s[i] in alpha
    ensures s in Words(alpha, |s|)
    decreases |s|
  {
    if |s| > 0 {
      var w, c := s[..|s| - 1], s[|s| - 1];
      WordsContain(alpha, w);
      assert s == w + [c];
    }
  }

  function Alphabet(b: seq<char>): set<char>
  {
    set c | c in b
  }

  /** The boards as long as the initial one, over its characters. */
  function Universe(init: seq<char>): set<seq<char>>
  {
    Words(Alphabet(init), |init|)
  }

  /** Moves only rearrange cells, so every reachable board lies in the universe. */
  lemma ReachableInUniverse(init: seq<char>, ms: seq<Move>)
    requires ValidGrid(init) && Legal(init, ms)
    ensures Replay(init, ms) in Universe(init)
  {
    ReplayKeepsCells(init, ms);
    var x := Replay(init, ms);
    forall i | 0 <= i < |x| ensures x[i] in Alphabet(init) {
      assert x[i] in multiset(x);
    }
    WordsContain(Alphabet(init), x);
  }

  /** Some legal sequence leads from init to b. */
  ghost predicate Reachable(init: seq<char>, b: seq<char>)
  {
    exists ms :: Legal(init, ms) && Replay(init, ms) == b
  }

  /** No legal sequence leads from init to goal. */
  ghost predicate Unreachable(init: seq<char>, goal: seq<char>)
  {
    forall ms :: Legal(init, ms) ==> Replay(init, ms) != goal
  }

  /** A non-empty legal sequence is a legal prefix followed by one legal move. */
  lemma {:induction false} LegalPrefix(b: seq<char>, ms: seq<Move>)
    requires Legal(b, ms) && ms != []
    ensures Legal(b, ms[..|ms| - 1]) && LegalMove(Replay(b, ms[..|ms| - 1]), ms[|ms| - 1])
    ensures Replay(b, ms) == Apply(Replay(b, ms[..|ms| - 1]), ms[|ms| - 1])
    decreases |ms|
  {
    if |ms| > 1 {
      var tail := ms[1..];
      LegalPrefix(Apply(b, ms[0]), tail);
      assert tail[..|tail| - 1] == ms[..|ms| - 1][1..];
      assert tail[|tail| - 1] == ms[|ms| - 1];
    } else {
      assert ms[..0] == [];
      assert ms[1..] == [];
    }
  }

  /** A legal sequence splits at any point into a legal prefix and a legal rest from where the prefix leads. */
  lemma {:induction false} LegalSplit(b: seq<char>, ms: seq<Move>, i: int)
    requires Legal(b, ms) && 0 <= i <= |ms|
    ensures Legal(b, ms[..i]) && Legal(Replay(b, ms[..i]), ms[i..])
    ensures Replay(Replay(b, ms[..i]), ms[i..]) == Replay(b, ms)
    decreases i
  {
    if i == 0 {
      assert ms[..0] == [] && ms[0..] == ms;
    } else {
      var tail := ms[1..];
      LegalSplit(Apply(b, ms[0]), tail, i - 1);
      assert ms[..i][0] == ms[0] && ms[..i][1..] == tail[..i - 1];
      assert tail[i - 1..] == ms[i..];
    }
  }

  /** The prefix of j + 1 moves is the prefix of j moves and one legal move more. */
  lemma PrefixStep(b: seq<char>, ms: seq<Move>, j: int)
    requires Legal(b, ms) && 0 <= j < |ms|
    ensures Legal(b, ms[..j]) && LegalMove(Replay(b, ms[..j]), ms[j]) && Legal(b, ms[..j + 1])
    ensures Replay(b, ms[..j + 1]) == Apply(Replay(b, ms[..j]), ms[j])
  {
    LegalSplit(b, ms, j + 1);
    LegalPrefix(b, ms[..j + 1]);
    assert ms[..j + 1][..j] == ms[..j];
  }

  // ---------------------------------------------------------------------
  // Sequences that never revisit a board.

  /**
   * The boards ms passes through from b, b included, are all outside P and
   * pairwise distinct: what a depth-first search that never re-enters a
   * board on its branch can follow.
   */
  ghost predicate SimpleFrom(b: seq<char>, ms: seq<Move>, P: set<seq<char>>)
    decreases |ms|
  {
    b !in P && (ms == [] || (LegalMove(b, ms[0]) && SimpleFrom(Apply(b, ms[0]), ms[1..], P + {b})))
  }

  /** The boards ms passes through from b, b included. */
  ghost function Visited(b: seq<char>, ms: seq<Move>): set<seq<char>>
    requires Legal(b, ms)
    decreases |ms|
  {
    {b} + (if ms == [] then {} else Visited(Apply(b, ms[0]), ms[1..]))
  }

  lemma {:induction false} SimpleIsLegal(b: seq<char>, ms: seq<Move>, P: set<seq<char>>)
    requires |b| == Size && SimpleFrom(b, ms, P)
    ensures Legal(b, ms)
    decreases |ms|
  {
    if ms != [] {
      SimpleIsLegal(Apply(b, ms[0]), ms[1..], P + {b});
    }
  }

  /** Avoiding more boards, when the path never meets them. */
  lemma {:induction false} SimpleWiden(b: seq<char>, ms: seq<Move>, P: set<seq<char>>, Q: set<seq<char>>)
    requires Legal(b, ms) && SimpleFrom(b, ms, P) && Q !! Visited(b, ms)
    ensures SimpleFrom(b, ms, P + Q)
    decreases |ms|
  {
    if ms != [] {
      SimpleWiden(Apply(b, ms[0]), ms[1..], P + {b}, Q);
      assert P + {b} + Q == P + Q + {b};
    }
  }

  /** Avoiding fewer boards. */
  lemma {:induction false} SimpleShrink(b: seq<char>, ms: seq<Move>, P: set<seq<char>>, Q: set<seq<char>>)
    requires SimpleFrom(b, ms, P) && Q <= P
    ensures SimpleFrom(b, ms, Q)
    decreases |ms|
  {
    if ms != [] {
      SimpleShrink(Apply(b, ms[0]), ms[1..], P + {b}, Q + {b});
    }
  }

  /** From any board a simple path passes through, the rest of it is a simple path to the same end. */
  lemma {:induction false} SuffixFrom(b: seq<char>, ms: seq<Move>, P: set<seq<char>>, y: seq<char>) returns (s: seq<Move>)
    requires Legal(b, ms) && SimpleFrom(b, ms, P) && y in Visited(b, ms)
    ensures Legal(y, s) && Replay(y, s) == Replay(b, ms) && |s| <= |ms| && SimpleFrom(y, s, {})
    decreases |ms|
  {
    if y == b {
      SimpleShrink(b, ms, P, {});
      s := ms;
    } else {
      s := SuffixFrom(Apply(b, ms[0]), ms[1..], P + {b}, y);
    }
  }

  /** Cutting out the loops: every board a legal sequence reaches, a simple one no longer reaches too. */
  lemma {:induction false} MakeSimple(b: seq<char>, ms: seq<Move>) returns (s: seq<Move>)
    requires Legal(b, ms)
    ensures Legal(b, s) && Replay(b, s) == Replay(b, ms) && |s| <= |ms| && SimpleFrom(b, s, {})
    decreases |ms|
  {
    if ms == [] {
      s := [];
    } else {
      var m, c := ms[0], Apply(b, ms[0]);
      var r := MakeSimple(c, ms[1..]);
      if b in Visited(c, r) {
        s := SuffixFrom(c, r, {}, b);
      } else {
        SimpleWiden(c, r, {}, {b});
        s := [m] + r;
        assert s[0] == m && s[1..] == r;
        assert {} + {b} == {b};
      }
    }
  }

  /** The boards ms passes through from b before the last, b included when ms is not empty. */
  ghost function Before(b: seq<char>, ms: seq<Move>): set<seq<char>>
    requires Legal(b, ms)
    decreases |ms|
  {
    if ms == [] then {} else {b} + Before(Apply(b, ms[0]), ms[1..])
  }

  /** One more move passes through the board the sequence led to. */
  lemma {:induction false} BeforeSnoc(b: seq<char>, ms: seq<Move>, m: Move)
    requires Legal(b, ms) && LegalMove(Replay(b, ms), m)
    ensures Legal(b, ms + [m]) && Before(b, ms + [m]) == Before(b, ms) + {Replay(b, ms)}
    decreases |ms|
  {
    LegalSnoc(b, ms, m);
    if ms == [] {
      assert ms + [m] == [m] && [m][1..] == [];
    } else {
      BeforeSnoc(Apply(b, ms[0]), ms[1..], m);
      assert (ms + [m])[0] == ms[0] && (ms + [m])[1..] == ms[1..] + [m];
    }
  }

  /** A simple sequence stays simple when one more move leads to a board it has not passed through. */
  lemma {:induction false} SimpleSnoc(b: seq<char>, ms: seq<Move>, m: Move, P: set<seq<char>>)
    requires Legal(b, ms) && SimpleFrom(b, ms, P) && LegalMove(Replay(b, ms), m)
    requires Apply(Replay(b, ms), m) !in P + Before(b, ms) + {Replay(b, ms)}
    ensures SimpleFrom(b, ms + [m], P)
    decreases |ms|
  {
    if ms == [] {
      assert ms + [m] == [m] && [m][1..] == [];
    } else {
      SimpleSnoc(Apply(b, ms[0]), ms[1..], m, P + {b});
      assert (ms + [m])[0] == ms[0] && (ms + [m])[1..] == ms[1..] + [m];
    }
  }

  // ---------------------------------------------------------------------
  // How long a simple sequence can be.

  function Fact(n: nat): nat
  {
    if n == 0 then 1 else n * Fact(n - 1)
  }

  lemma SubsetCard<T>(A: set<T>, B: set<T>)
    requires A <= B
    ensures |A| <= |B|
  {
    assert B == A + (B - A);
  }

  /** A multiset has no more distinct elements than elements. */
  lemma {:induction false} SupportBound(M: multiset<char>)
    ensures |set c | c in M| <= |M|
    decreases |M|
  {
    if M != multiset{} {
      var c :| c in M;
      var M' := M - multiset{c};
      SupportBound(M');
      SubsetCard(set x | x in M, (set x | x in M') + {c});
    }
  }

  /** Dropping the common first character loses no word. */
  lemma {:induction false} TailsCard(S: set<seq<char>>, c: char)
    requires forall s :: s in S ==> |s| > 0 && s[0] == c
    ensures |set s | s in S :: s[1..]| == |S|
    decreases |S|
  {
    var T := set s | s in S :: s[1..];
    if S == {} {
      assert T == {};
    } else {
      var x :| x in S;
      var R := S - {x};
      TailsCard(R, c);
      var TR := set s | s in R :: s[1..];
      assert T == TR + {x[1..]};
      forall s | s in R ensures s[1..] != x[1..] {
        assert s == [c] + s[1..] && x == [c] + x[1..];
      }
    }
  }

  /** The words of S that start with c. */
  ghost function WithFirst(S: set<seq<char>>, c: char): set<seq<char>>
  {
    set s | s in S && |s| > 0 && s[0] == c
  }

  /** The words of S that do not start with c. */
  ghost function WithoutFirst(S: set<seq<char>>, c: char): set<seq<char>>
  {
    set s | s in S && !(|s| > 0 && s[0] == c)
  }

  lemma SplitFirst(S: set<seq<char>>, c: char)
    ensures |S| == |WithFirst(S, c)| + |WithoutFirst(S, c)|
  {
    assert S == WithFirst(S, c) + WithoutFirst(S, c);
    assert WithFirst(S, c) !! WithoutFirst(S, c);
  }

  /** Words of length n with multiset M, grouped by a first character from C: at most |C| (n-1)! of them. */
  lemma {:induction false} FirstCharBound(S: set<seq<char>>, M: multiset<char>, n: nat, C: set<char>)
    requires n > 0 && forall s :: s in S ==> |s| == n && multiset(s) == M && s[0] in C
    ensures |S| <= |C| * Fact(n - 1)
    decreases n, |C|
  {
    if S != {} {
      var x :| x in S;
      var c := x[0];
      SplitFirst(S, c);
      FirstCharBound(WithoutFirst(S, c), M, n, C - {c});
      OneFirstChar(WithFirst(S, c), M, n, c);
      var F := Fact(n - 1);
      assert |C - {c}| == |C| - 1;
      assert (|C| - 1) * F + F == |C| * F;
    }
  }

  /** Dropping the first character c takes one c out of the word's multiset. */
  lemma TailMultiset(s: seq<char>, c: char)
    requires |s| > 0 && s[0] == c
    ensures multiset(s[1..]) == multiset(s) - multiset{c}
  {
    assert s == [c] + s[1..];
    assert multiset(s) == multiset{c} + multiset(s[1..]);
  }

  /** Words of length n with multiset M and first character c: at most (n-1)! of them. */
  lemma {:induction false} OneFirstChar(S: set<seq<char>>, M: multiset<char>, n: nat, c: char)
    requires n > 0 && forall s :: s in S ==> |s| == n && multiset(s) == M && s[0] == c
    ensures |S| <= Fact(n - 1)
    decreases n, 0
  {
    TailsCard(S, c);
    var T := set s | s in S :: s[1..];
    forall t | t in T ensures |t| == n - 1 && multiset(t) == M - multiset{c} {
      var s :| s in S && t == s[1..];
      TailMultiset(s, c);
    }
    Arrangements(T, M - multiset{c}, n - 1);
  }

  lemma MulMono(a: int, b: int, k: nat)
    requires a <= b
    ensures a * k <= b * k
  {
  }

  /** There are at most n! words of length n with a given multiset of characters. */
  lemma {:induction false} Arrangements(S: set<seq<char>>, M: multiset<char>, n: nat)
    requires forall s :: s in S ==> |s| == n && multiset(s) == M
    ensures |S| <= Fact(n)
    decreases n, |M| + 1
  {
    if n == 0 {
      SubsetCard(S, {[]});
    } else if S != {} {
      var x :| x in S;
      assert |M| == n by {
        assert |multiset(x)| == |x|;
      }
      var C := set c | c in M;
      SupportBound(M);
      forall s | s in S ensures s[0] in C {
        assert s[0] in multiset(s);
      }
      FirstCharBound(S, M, n, C);
      MulMono(|C|, n, Fact(n - 1));
    }
  }

  /** A simple sequence passes through one more board than it has moves, none of them in P. */
  lemma {:induction false} SimpleVisited(b: seq<char>, ms: seq<Move>, P: set<seq<char>>)
    requires Legal(b, ms) && SimpleFrom(b, ms, P)
    ensures |Visited(b, ms)| == |ms| + 1 && Visited(b, ms) !! P
    decreases |ms|
  {
    if ms != [] {
      SimpleVisited(Apply(b, ms[0]), ms[1..], P + {b});
    }
  }

  /** Every board ms passes through rearranges the cells of b. */
  lemma {:induction false} VisitedArranged(b: seq<char>, ms: seq<Move>)
    requires Legal(b, ms)
    ensures forall x :: x in Visited(b, ms) ==> |x| == Size && multiset(x) == multiset(b)
    decreases |ms|
  {
    if ms != [] {
      ApplyLegal(b, ms[0]);
      VisitedArranged(Apply(b, ms[0]), ms[1..]);
    }
  }

  /** A simple sequence on a 3x3 board has fewer than 9! moves. */
  lemma SimpleShort(b: seq<char>, ms: seq<Move>)
    requires |b| == Size && SimpleFrom(b, ms, {})
    ensures |ms| < Fact(Size) == 362880
  {
    SimpleIsLegal(b, ms, {});
    SimpleVisited(b, ms, {});
    VisitedArranged(b, ms);
    Arrangements(Visited(b, ms), multiset(b), Size);
  }
}

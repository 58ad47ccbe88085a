/**
 * The 3x3 toroidal marble board (BoardState.java) and its move relation
 * (the move part of SearchAlgorithm.generateSuccessors).
 *
 * In the search layer a board is the row-major sequence of its nine cells:
 * cell (i, j) is element 3 * i + j.  `_` is an empty cell, `X` the obstacle,
 * every other character a marble of that colour.
 */
module Board {
  import opened Wrappers

  const Rows: int := 3
  const Cols: int := 3
  const Size: int := 9
  const Empty: char := '_'
  const Obstacle: char := 'X'

  predicate IsMarble(c: char) { c != Empty && c != Obstacle }

  /** Nine cells, each below 128 (the move-cost lookup table has 128 entries). */
  predicate ValidGrid(b: seq<char>) {
    |b| == Size && forall k :: 0 <= k < |b| ==> b[k] as int < 128
  }

  function Row(k: int): int { k / 3 }
  function Col(k: int): int { k % 3 }

  /** Cell 3 * i + j lies in row i and column j. */
  lemma CellOf(i: int, j: int)
    requires 0 <= i < 3 && 0 <= j < 3
    ensures Row(3 * i + j) == i && Col(3 * i + j) == j
  {
  }

  /**
   * The toroidal neighbour of cell k in direction d, with the directions
   * in generation order up, down, left, right; the row and column are
   * computed as (i + di + rows) % rows and (j + dj + cols) % cols.
   */
  function Neighbor(k: int, d: int): (n: int)
    requires 0 <= k < Size && 0 <= d < 4
    ensures 0 <= n < Size
  {
    var di := if d == 0 then -1 else if d == 1 then 1 else 0;
    var dj := if d == 2 then -1 else if d == 3 then 1 else 0;
    3 * ((Row(k) + di + 3) % 3) + (Col(k) + dj + 3) % 3
  }

  lemma NeighborNotSelf(k: int)
    requires 0 <= k < Size
    ensures Neighbor(k, 0) != k && Neighbor(k, 1) != k && Neighbor(k, 2) != k && Neighbor(k, 3) != k
  {
  }

  lemma NeighborsDistinctFromUp(k: int)
    requires 0 <= k < Size
    ensures Neighbor(k, 0) != Neighbor(k, 1) && Neighbor(k, 0) != Neighbor(k, 2) && Neighbor(k, 0) != Neighbor(k, 3)
  {
  }

  lemma NeighborsDistinctOthers(k: int)
    requires 0 <= k < Size
    ensures Neighbor(k, 1) != Neighbor(k, 2) && Neighbor(k, 1) != Neighbor(k, 3) && Neighbor(k, 2) != Neighbor(k, 3)
  {
  }

  /** The four neighbours of a cell are four different cells, none of them the cell itself. */
  lemma NeighborsDistinct(k: int)
    requires 0 <= k < Size
    ensures forall d :: 0 <= d < 4 ==> Neighbor(k, d) != k
    ensures forall d, e :: 0 <= d < e < 4 ==> Neighbor(k, d) != Neighbor(k, e)
  {
    NeighborNotSelf(k);
    NeighborsDistinctFromUp(k);
    NeighborsDistinctOthers(k);
  }

  predicate Adjacent(src: int, dst: int)
    requires 0 <= src < Size
  {
    Neighbor(src, 0) == dst || Neighbor(src, 1) == dst || Neighbor(src, 2) == dst || Neighbor(src, 3) == dst
  }

  /** The index of the direction leading from src to dst; 4 when dst is not adjacent. */
  function DirOf(src: int, dst: int): (d: int)
    requires 0 <= src < Size
    ensures 0 <= d <= 4
    ensures d < 4 <==> Adjacent(src, dst)
    ensures d < 4 ==> Neighbor(src, d) == dst
  {
    if Neighbor(src, 0) == dst then 0
    else if Neighbor(src, 1) == dst then 1
    else if Neighbor(src, 2) == dst then 2
    else if Neighbor(src, 3) == dst then 3
    else 4
  }

  /** One marble `ball` moving from cell src to cell dst. */
  datatype Move = Move(src: int, dst: int, ball: char)

  predicate InRange(m: Move) { 0 <= m.src < Size && 0 <= m.dst < Size }

  /** A legal move: a marble steps into an empty toroidal neighbour. */
  predicate LegalMove(b: seq<char>, m: Move) {
    |b| == Size && InRange(m) && Adjacent(m.src, m.dst)
    && IsMarble(b[m.src]) && m.ball == b[m.src] && b[m.dst] == Empty
  }

  /** The board after the move: the destination receives the ball, then the source is emptied. */
  function Apply(b: seq<char>, m: Move): seq<char>
    requires |b| == Size && InRange(m)
  {
    b[m.dst := m.ball][m.src := Empty]
  }

  /** A legal move changes exactly two cells and keeps the multiset of cells. */
  lemma ApplyLegal(b: seq<char>, m: Move)
    requires LegalMove(b, m)
    ensures m.src != m.dst
    ensures |Apply(b, m)| == Size
    ensures Apply(b, m)[m.src] == Empty && Apply(b, m)[m.dst] == m.ball
    ensures forall k :: 0 <= k < Size && k != m.src && k != m.dst ==> Apply(b, m)[k] == b[k]
    ensures multiset(Apply(b, m)) == multiset(b)
  {
    NeighborsDistinct(m.src);
    var c := b[m.dst := m.ball];
    assert multiset(c) == multiset(b) - multiset{Empty} + multiset{m.ball};
    assert c[m.src] == m.ball;
  }

  /** Every cell after a legal move holds a character the board already held. */
  lemma ApplyKeepsValid(b: seq<char>, m: Move)
    requires LegalMove(b, m) && ValidGrid(b)
    ensures ValidGrid(Apply(b, m))
    ensures forall k :: 0 <= k < Size ==> Apply(b, m)[k] in b
  {
    ApplyLegal(b, m);
    forall k | 0 <= k < Size ensures Apply(b, m)[k] in b && Apply(b, m)[k] as int < 128 {
      if k == m.src {
        assert Apply(b, m)[k] == b[m.dst];
      } else if k == m.dst {
        assert Apply(b, m)[k] == b[m.src];
      }
    }
  }

  // ---------------------------------------------------------------------
  // Move generation order: cells in row-major order, then the directions
  // up, down, left, right.

  /** The legal moves of the marble at cell k in the first d directions. */
  function DirMoves(b: seq<char>, k: int, d: int): seq<Move>
    requires |b| == Size && 0 <= k < Size && 0 <= d <= 4
  {
    if d == 0 then []
    else
      var n := Neighbor(k, d - 1);
      DirMoves(b, k, d - 1) + (if IsMarble(b[k]) && b[n] == Empty then [Move(k, n, b[k])] else [])
  }

  function CellMoves(b: seq<char>, k: int): seq<Move>
    requires |b| == Size && 0 <= k < Size
  {
    DirMoves(b, k, 4)
  }

  /** The legal moves from the cells 0 .. k-1, in generation order. */
  function MovesBefore(b: seq<char>, k: int): seq<Move>
    requires |b| == Size && 0 <= k <= Size
  {
    if k == 0 then [] else MovesBefore(b, k - 1) + CellMoves(b, k - 1)
  }

  function AllMoves(b: seq<char>): seq<Move>
    requires |b| == Size
  {
    MovesBefore(b, Size)
  }

  /** Rank of a move in generation order: its source cell, then its direction. */
  function Rank(m: Move): int
  {
    if 0 <= m.src < Size then 4 * m.src + DirOf(m.src, m.dst) else 0
  }

  lemma {:induction false} DirMovesShape(b: seq<char>, k: int, d: int)
    requires |b| == Size && 0 <= k < Size && 0 <= d <= 4
    ensures |DirMoves(b, k, d)| <= d
    ensures !IsMarble(b[k]) ==> DirMoves(b, k, d) == []
    ensures forall i :: 0 <= i < |DirMoves(b, k, d)| ==>
      var m := DirMoves(b, k, d)[i];
      LegalMove(b, m) && m.src == k && DirOf(k, m.dst) < d
    ensures forall i, j :: 0 <= i < j < |DirMoves(b, k, d)| ==>
      DirOf(k, DirMoves(b, k, d)[i].dst) < DirOf(k, DirMoves(b, k, d)[j].dst)
    ensures forall e :: 0 <= e < d && IsMarble(b[k]) && b[Neighbor(k, e)] == Empty ==>
      Move(k, Neighbor(k, e), b[k]) in DirMoves(b, k, d)
  {
    NeighborsDistinct(k);
    if d > 0 {
      DirMovesShape(b, k, d - 1);
      var n := Neighbor(k, d - 1);
      assert DirOf(k, n) == d - 1;
    }
  }

  lemma {:induction false} MovesBeforeLegal(b: seq<char>, k: int)
    requires |b| == Size && 0 <= k <= Size
    ensures forall i :: 0 <= i < |MovesBefore(b, k)| ==>
      LegalMove(b, MovesBefore(b, k)[i]) && MovesBefore(b, k)[i].src < k
  {
    if k > 0 {
      MovesBeforeLegal(b, k - 1);
      DirMovesShape(b, k - 1, 4);
    }
  }

  /** A legal move's rank lies in its source cell's block of four. */
  lemma RankRange(b: seq<char>, m: Move)
    requires LegalMove(b, m)
    ensures 4 * m.src <= Rank(m) < 4 * m.src + 4
  {
  }

  /** A cell's moves are legal, start at the cell, and come in rank order. */
  lemma CellMovesOrdered(b: seq<char>, k: int)
    requires |b| == Size && 0 <= k < Size
    ensures forall i :: 0 <= i < |CellMoves(b, k)| ==> LegalMove(b, CellMoves(b, k)[i]) && CellMoves(b, k)[i].src == k
    ensures forall i, j :: 0 <= i < j < |CellMoves(b, k)| ==> Rank(CellMoves(b, k)[i]) < Rank(CellMoves(b, k)[j])
  {
    DirMovesShape(b, k, 4);
  }

  lemma {:induction false} MovesBeforeOrdered(b: seq<char>, k: int)
    requires |b| == Size && 0 <= k <= Size
    ensures forall i, j :: 0 <= i < j < |MovesBefore(b, k)| ==>
      Rank(MovesBefore(b, k)[i]) < Rank(MovesBefore(b, k)[j])
  {
    if k > 0 {
      MovesBeforeOrdered(b, k - 1);
      MovesBeforeLegal(b, k - 1);
      CellMovesOrdered(b, k - 1);
      var p, c := MovesBefore(b, k - 1), CellMoves(b, k - 1);
      assert MovesBefore(b, k) == p + c;
      forall i, j | 0 <= i < j < |p + c| ensures Rank((p + c)[i]) < Rank((p + c)[j]) {
        if j < |p| {
          assert (p + c)[i] == p[i] && (p + c)[j] == p[j];
        } else if i >= |p| {
          assert (p + c)[i] == c[i - |p|] && (p + c)[j] == c[j - |p|];
        } else {
          assert (p + c)[i] == p[i] && (p + c)[j] == c[j - |p|];
          RankRange(b, p[i]);
          RankRange(b, c[j - |p|]);
        }
      }
    }
  }

  /** Every legal move of the marble at k is among its cell's moves. */
  lemma CellMovesComplete(b: seq<char>, k: int, m: Move)
    requires |b| == Size && 0 <= k < Size && LegalMove(b, m) && m.src == k
    ensures m in CellMoves(b, k)
  {
    DirMovesShape(b, k, 4);
    var e := DirOf(m.src, m.dst);
    assert m == Move(k, Neighbor(k, e), b[k]);
  }

  lemma {:induction false} MovesBeforeComplete(b: seq<char>, k: int)
    requires |b| == Size && 0 <= k <= Size
    ensures forall m :: LegalMove(b, m) && m.src < k ==> m in MovesBefore(b, k)
  {
    if k > 0 {
      MovesBeforeComplete(b, k - 1);
      var p, c := MovesBefore(b, k - 1), CellMoves(b, k - 1);
      assert MovesBefore(b, k) == p + c;
      forall m | LegalMove(b, m) && m.src < k ensures m in p + c {
        if m.src == k - 1 {
          CellMovesComplete(b, k - 1, m);
        } else {
          assert m in p;
        }
      }
    }
  }

  /**
   * The generated moves are exactly the legal moves, each once, in
   * row-major order of the source cell and then in direction order.
   */
  lemma AllMovesExactly(b: seq<char>)
    requires |b| == Size
    ensures forall m :: m in AllMoves(b) <==> LegalMove(b, m)
    ensures forall i, j :: 0 <= i < j < |AllMoves(b)| ==> Rank(AllMoves(b)[i]) < Rank(AllMoves(b)[j])
  {
    MovesBeforeLegal(b, Size);
    MovesBeforeOrdered(b, Size);
    MovesBeforeComplete(b, Size);
  }

  function MarblesBefore(b: seq<char>, k: int): int
    requires |b| == Size && 0 <= k <= Size
  {
    if k == 0 then 0 else MarblesBefore(b, k - 1) + (if IsMarble(b[k - 1]) then 1 else 0)
  }

  /** Each marble contributes at most four moves. */
  lemma {:induction false} AllMovesBound(b: seq<char>, k: int)
    requires |b| == Size && 0 <= k <= Size
    ensures |MovesBefore(b, k)| <= 4 * MarblesBefore(b, k)
  {
    if k > 0 {
      AllMovesBound(b, k - 1);
      DirMovesShape(b, k - 1, 4);
    }
  }

  // ---------------------------------------------------------------------
  // Move sequences.

  predicate Legal(b: seq<char>, ms: seq<Move>)
    decreases |ms|
  {
    |b| == Size &&
    (ms == [] || (LegalMove(b, ms[0]) && Legal(Apply(b, ms[0]), ms[1..])))
  }

  function Replay(b: seq<char>, ms: seq<Move>): seq<char>
    requires Legal(b, ms)
    decreases |ms|
  {
    if ms == [] then b else Replay(Apply(b, ms[0]), ms[1..])
  }

  /** Extending a legal sequence by one legal move at its end. */
  lemma {:induction false} LegalSnoc(b: seq<char>, ms: seq<Move>, m: Move)
    requires Legal(b, ms) && LegalMove(Replay(b, ms), m)
    ensures Legal(b, ms + [m]) && Replay(b, ms + [m]) == Apply(Replay(b, ms), m)
    decreases |ms|
  {
    if ms == [] {
      assert ms + [m] == [m];
      assert [m][1..] == [];
    } else {
      LegalSnoc(Apply(b, ms[0]), ms[1..], m);
      assert (ms + [m])[1..] == ms[1..] + [m];
    }
  }

  /** Replaying legal moves keeps the grid valid and never introduces a new character. */
  lemma {:induction false} ReplayKeepsCells(b: seq<char>, ms: seq<Move>)
    requires Legal(b, ms) && ValidGrid(b)
    ensures ValidGrid(Replay(b, ms))
    ensures multiset(Replay(b, ms)) == multiset(b)
    decreases |ms|
  {
    if ms != [] {
      ApplyKeepsValid(b, ms[0]);
      ApplyLegal(b, ms[0]);
      ReplayKeepsCells(Apply(b, ms[0]), ms[1..]);
    }
  }

  // ---------------------------------------------------------------------
  // Parsing the input rows.

  function IndexOfComma(s: string): (k: int)
    ensures 0 <= k <= |s|
    ensures k < |s| ==> s[k] == ','
  {
    if s == [] then 0 else if s[0] == ',' then 0 else 1 + IndexOfComma(s[1..])
  }

  /** No comma comes before the first one. */
  lemma {:induction false} IndexOfCommaIsFirst(s: string)
    ensures forall i :: 0 <= i < IndexOfComma(s) ==> s[i] != ','
    decreases |s|
  {
    if s != [] && s[0] != ',' {
      IndexOfCommaIsFirst(s[1..]);
      forall i | 0 <= i < IndexOfComma(s) ensures s[i] != ',' {
        if i > 0 {
          assert s[i] == s[1..][i - 1];
        }
      }
    }
  }

  /**
   * The comma-separated fields of a row.  Java's String.split also drops
   * trailing empty fields; that never changes the parse below, which fails
   * as soon as one of the first three fields is missing or empty.
   */
  function Split(s: string): (r: seq<string>)
    ensures |r| >= 1
    decreases |s|
  {
    var k := IndexOfComma(s);
    if k == |s| then [s] else [s[..k]] + Split(s[k + 1..])
  }

  function JoinComma(fs: seq<string>): string
  {
    if fs == [] then "" else if |fs| == 1 then fs[0] else fs[0] + "," + JoinComma(fs[1..])
  }

  /** Splitting loses nothing and the fields hold no comma. */
  lemma {:induction false} SplitJoin(s: string)
    ensures JoinComma(Split(s)) == s
    decreases |s|
  {
    var k := IndexOfComma(s);
    if k < |s| {
      var rest := s[k + 1..];
      SplitJoin(rest);
      var fs := [s[..k]] + Split(rest);
      assert Split(s) == fs;
      assert JoinComma(fs) == s[..k] + "," + JoinComma(Split(rest)) by {
        assert fs[0] == s[..k] && fs[1..] == Split(rest) && |fs| > 1;
      }
      assert s == s[..k] + "," + rest;
    }
  }

  lemma {:induction false} SplitFieldsHaveNoComma(s: string)
    ensures forall i :: 0 <= i < |Split(s)| ==> ',' !in Split(s)[i]
    decreases |s|
  {
    var k := IndexOfComma(s);
    IndexOfCommaIsFirst(s);
    if k < |s| {
      SplitFieldsHaveNoComma(s[k + 1..]);
    }
  }

  /** Cells of one row: the first character of each of its first three fields. */
  function ParseRow(row: string): (r: Option<seq<char>>)
    ensures r.Some? <==> |Split(row)| >= 3 && forall j :: 0 <= j < 3 ==> Split(row)[j] != ""
    ensures r.Some? ==> |r.value| == 3 && forall j :: 0 <= j < 3 ==> r.value[j] == Split(row)[j][0]
  {
    var f := Split(row);
    if |f| >= 3 && f[0] != "" && f[1] != "" && f[2] != "" then Some([f[0][0], f[1][0], f[2][0]]) else None
  }

  /**
   * The board a list of rows describes, or None where the Java constructor
   * throws (fewer than three rows, a missing or empty field).
   */
  function ParseCells(input: seq<string>): (r: Option<seq<char>>)
    ensures r.Some? <==> |input| >= 3 && forall i :: 0 <= i < 3 ==>
      |Split(input[i])| >= 3 && forall j :: 0 <= j < 3 ==> Split(input[i])[j] != ""
    ensures r.Some? ==> |r.value| == Size && forall i, j :: 0 <= i < 3 && 0 <= j < 3 ==>
      r.value[3 * i + j] == Split(input[i])[j][0]
  {
    if |input| < 3 then None
    else
      var r0, r1, r2 := ParseRow(input[0]), ParseRow(input[1]), ParseRow(input[2]);
      if r0.Some? && r1.Some? && r2.Some? then
        var cells := r0.value + r1.value + r2.value;
        assert forall j :: 0 <= j < 3 ==> cells[j] == r0.value[j] && cells[3 + j] == r1.value[j] && cells[6 + j] == r2.value[j];
        Some(cells)
      else
        None
  }

  /** The last empty cell before cell n in row-major order, as (row, col); (0, 0) when there is none. */
  function LastEmptyBefore(b: seq<char>, n: int): (int, int)
    requires 0 <= n <= |b|
  {
    if n == 0 then (0, 0)
    else if b[n - 1] == Empty then (Row(n - 1), Col(n - 1))
    else LastEmptyBefore(b, n - 1)
  }

  /** The tracked position is the last `_` in row-major order, when there is one. */
  lemma {:induction false} LastEmptyIsLast(b: seq<char>, n: int)
    requires 0 <= n <= |b| == Size
    requires exists k :: 0 <= k < n && b[k] == Empty
    ensures var (i, j) := LastEmptyBefore(b, n);
      0 <= 3 * i + j < n && b[3 * i + j] == Empty &&
      forall k :: 3 * i + j < k < n ==> b[k] != Empty
  {
    if b[n - 1] != Empty {
      LastEmptyIsLast(b, n - 1);
    }
  }

  // ---------------------------------------------------------------------
  // The board object.

  class BoardState {
    var board: array2<char>
    var trackEmptyRow: int
    var trackEmptyCol: int

    ghost predicate Valid()
      reads this
    {
      board.Length0 == Rows && board.Length1 == Cols
    }

    /** The cells in row-major order. */
    function Cells(): (s: seq<char>)
      reads this, board
      requires Valid()
      ensures |s| == Size
    {
      [board[0, 0], board[0, 1], board[0, 2],
       board[1, 0], board[1, 1], board[1, 2],
       board[2, 0], board[2, 1], board[2, 2]]
    }

    /** Builds the board from its rows (the list-of-rows constructor). */
    constructor FromRows(input: seq<string>)
      requires ParseCells(input).Some?
      ensures Valid() && fresh(board)
      ensures Cells() == ParseCells(input).value
      ensures (trackEmptyRow, trackEmptyCol) == LastEmptyBefore(Cells(), Size)
    {
      var cells := ParseCells(input).value;
      var a := new char[Rows, Cols];
      var er, ec := 0, 0;
      for i := 0 to Rows
        invariant forall r, c :: 0 <= r < Rows && 0 <= c < Cols && 3 * r + c < 3 * i ==> a[r, c] == cells[3 * r + c]
        invariant (er, ec) == LastEmptyBefore(cells, 3 * i)
      {
        var fields := Split(input[i]);
        for j := 0 to Cols
          invariant forall r, c :: 0 <= r < Rows && 0 <= c < Cols && 3 * r + c < 3 * i + j ==> a[r, c] == cells[3 * r + c]
          invariant (er, ec) == LastEmptyBefore(cells, 3 * i + j)
        {
          CellOf(i, j);
          a[i, j] := fields[j][0];
          if a[i, j] == Empty {
            er, ec := i, j;
          }
        }
      }
      board := a;
      trackEmptyRow, trackEmptyCol := er, ec;
    }

    /** Deep copy: equal cells and tracked position, in fresh storage. */
    constructor Copy(original: BoardState)
      requires original.Valid()
      ensures Valid() && fresh(board)
      ensures Cells() == original.Cells()
      ensures trackEmptyRow == original.trackEmptyRow && trackEmptyCol == original.trackEmptyCol
    {
      var a := new char[Rows, Cols];
      for i := 0 to Rows
        invariant forall r, c :: 0 <= r < i && 0 <= c < Cols ==> a[r, c] == original.board[r, c]
      {
        for j := 0 to Cols
          invariant forall r, c :: 0 <= r < i && 0 <= c < Cols ==> a[r, c] == original.board[r, c]
          invariant forall c :: 0 <= c < j ==> a[i, c] == original.board[i, c]
        {
          a[i, j] := original.board[i, j];
        }
      }
      board := a;
      trackEmptyRow, trackEmptyCol := original.trackEmptyRow, original.trackEmptyCol;
    }

    /** True iff all nine cells match the goal's. */
    method IsGoalState(goalState: BoardState) returns (r: bool)
      requires Valid() && goalState.Valid()
      ensures r <==> Cells() == goalState.Cells()
    {
      for i := 0 to Rows
        invariant forall p, q :: 0 <= p < i && 0 <= q < Cols ==> board[p, q] == goalState.board[p, q]
      {
        for j := 0 to Cols
          invariant forall p, q :: 0 <= p < i && 0 <= q < Cols ==> board[p, q] == goalState.board[p, q]
          invariant forall q :: 0 <= q < j ==> board[i, q] == goalState.board[i, q]
        {
          if board[i, j] != goalState.board[i, j] {
            assert Cells()[3 * i + j] != goalState.Cells()[3 * i + j];
            return false;
          }
        }
      }
      return true;
    }

    /** Deep, cell-wise equality; the same object is equal to itself and null to nothing. */
    method Equals(obj: BoardState?) returns (r: bool)
      requires Valid() && (obj != null ==> obj.Valid())
      ensures r <==> obj != null && Cells() == obj.Cells()
    {
      if this == obj {
        return true;
      }
      if obj == null {
        return false;
      }
      r := Cells() == obj.Cells();
    }
  }

  /** The row-major concatenation of the cells, used as the board's key. */
  method BoardToString(state: BoardState) returns (key: string)
    requires state.Valid()
    ensures key == state.Cells()
  {
    key := "";
    for i := 0 to Rows
      invariant key == state.Cells()[..3 * i]
    {
      for j := 0 to Cols
        invariant key == state.Cells()[..3 * i + j]
      {
        key := key + [state.board[i, j]];
      }
    }
  }

  /**
   * A successor board as generateSuccessors builds it: copy the board, write
   * the ball into the destination and `_` into the source.  The original is
   * left unchanged because the copy has its own storage.
   */
  method CopyAndMove(from: BoardState, m: Move) returns (next: BoardState)
    requires from.Valid() && InRange(m)
    ensures fresh(next) && fresh(next.board) && next.Valid()
    ensures next.Cells() == Apply(from.Cells(), m)
    ensures from.Cells() == old(from.Cells())
  {
    next := new BoardState.Copy(from);
    next.board[Row(m.dst), Col(m.dst)] := m.ball;
    next.board[Row(m.src), Col(m.src)] := Empty;
  }
}

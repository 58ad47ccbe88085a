/**
 * Move labels and path strings (the label and path construction in
 * SearchAlgorithm.generateSuccessors), their decoding, and the cost of a
 * move sequence.
 *
 * A label is `(i,j):c:(r,s)`, 1-indexed source, the marble, 1-indexed
 * destination; a path is its labels joined with `--`.
 */
module Paths {
  import opened Wrappers
  import opened Board
  import opened Costs

  function Digit(n: int): char
    requires 0 <= n <= 9
  {
    ('0' as int + n) as char
  }

  /** The move label, always 13 characters since rows and columns are 1 to 3. */
  function Label(m: Move): (l: string)
    requires InRange(m)
    ensures |l| == 13
  {
    "(" + [Digit(Row(m.src) + 1)] + "," + [Digit(Col(m.src) + 1)] + "):" + [m.ball]
    + ":(" + [Digit(Row(m.dst) + 1)] + "," + [Digit(Col(m.dst) + 1)] + ")"
  }

  /** The child's path: the label alone after an empty path, else the parent's path, `--`, the label. */
  function ExtendPath(path: string, lbl: string): string
  {
    if path == "" then lbl else path + "--" + lbl
  }

  predicate AllInRange(ms: seq<Move>)
  {
    forall i :: 0 <= i < |ms| ==> InRange(ms[i])
  }

  /** The path string of a move sequence, built the way successors extend their parent's path. */
  function Encode(ms: seq<Move>): (s: string)
    requires AllInRange(ms)
    ensures ms == [] <==> s == ""
  {
    if ms == [] then "" else ExtendPath(Encode(ms[..|ms| - 1]), Label(ms[|ms| - 1]))
  }

  function DigitValue(c: char): int { c as int - '0' as int }

  predicate IsCoord(c: char) { '1' <= c <= '3' }

  /** The move a 13-character label denotes. */
  function ParseLabel(s: string): Option<Move>
    requires |s| == 13
  {
    if s[0] == '(' && IsCoord(s[1]) && s[2] == ',' && IsCoord(s[3]) && s[4] == ')' && s[5] == ':'
       && s[7] == ':' && s[8] == '(' && IsCoord(s[9]) && s[10] == ',' && IsCoord(s[11]) && s[12] == ')'
    then
      Some(Move(3 * (DigitValue(s[1]) - 1) + DigitValue(s[3]) - 1, 3 * (DigitValue(s[9]) - 1) + DigitValue(s[11]) - 1, s[6]))
    else None
  }

  /** The moves of a non-empty path: a label, then either the end or `--` and more labels. */
  function DecodeLabels(s: string): Option<seq<Move>>
    decreases |s|
  {
    if |s| < 13 then None
    else match ParseLabel(s[..13])
      case None => None
      case Some(m) =>
        if |s| == 13 then Some([m])
        else if |s| >= 15 && s[13] == '-' && s[14] == '-' then
          match DecodeLabels(s[15..])
          case None => None
          case Some(rest) => Some([m] + rest)
        else None
  }

  /** The moves a path string denotes; None when it is not a path string. */
  function Decode(s: string): Option<seq<Move>>
  {
    if s == "" then Some([]) else DecodeLabels(s)
  }

  lemma ParseLabelOfLabel(m: Move)
    requires InRange(m)
    ensures ParseLabel(Label(m)) == Some(m)
  {
  }

  /** Appending a label after a head label and a possibly empty tail path. */
  lemma JoinStep(lm: string, q: string, lx: string)
    ensures (lm + (if q == "" then "" else "--" + q)) + "--" + lx == lm + ("--" + ExtendPath(q, lx))
  {
  }

  lemma {:induction false} EncodeFront(m: Move, rest: seq<Move>)
    requires InRange(m) && AllInRange(rest)
    ensures AllInRange([m] + rest)
    ensures Encode([m] + rest) == Label(m) + (if rest == [] then "" else "--" + Encode(rest))
    decreases |rest|
  {
    var ms := [m] + rest;
    assert AllInRange(ms) by {
      forall i | 0 <= i < |ms| ensures InRange(ms[i]) {
        if i > 0 { assert ms[i] == rest[i - 1]; }
      }
    }
    if rest == [] {
      assert ms[..0] == [];
    } else {
      var init, x := rest[..|rest| - 1], rest[|rest| - 1];
      assert AllInRange(init) by {
        forall i | 0 <= i < |init| ensures InRange(init[i]) { assert init[i] == rest[i]; }
      }
      EncodeFront(m, init);
      assert ms[..|ms| - 1] == [m] + init;
      assert ms[|ms| - 1] == x;
      JoinStep(Label(m), Encode(init), Label(x));
    }
  }

  /** A 13-character head, `--`, then a tail: where each part sits. */
  lemma SplitHead(l: string, t: string)
    requires |l| == 13
    ensures |l + ("--" + t)| >= 15 && (l + ("--" + t))[..13] == l
    ensures (l + ("--" + t))[13] == '-' && (l + ("--" + t))[14] == '-' && (l + ("--" + t))[15..] == t
  {
  }

  /** Decoding a path string gives back its moves. */
  lemma {:induction false} DecodeEncode(ms: seq<Move>)
    requires AllInRange(ms)
    ensures Decode(Encode(ms)) == Some(ms)
    decreases |ms|
  {
    if ms != [] {
      var m, rest := ms[0], ms[1..];
      assert AllInRange(rest) by {
        forall i | 0 <= i < |rest| ensures InRange(rest[i]) { assert rest[i] == ms[i + 1]; }
      }
      EncodeFront(m, rest);
      assert [m] + rest == ms;
      ParseLabelOfLabel(m);
      if rest != [] {
        DecodeEncode(rest);
        var s, t := Encode(ms), Encode(rest);
        assert s == Label(m) + ("--" + t);
        SplitHead(Label(m), t);
        assert DecodeLabels(s) == Some([m] + rest);
      } else {
        var s := Encode(ms);
        assert s == Label(m) && s[..13] == s;
        assert DecodeLabels(s) == Some([m]);
        assert ms == [m];
      }
    }
  }

  /** A label that parses is the label of the move it denotes. */
  lemma LabelOfParse(s: string)
    requires |s| == 13 && ParseLabel(s).Some?
    ensures InRange(ParseLabel(s).value) && Label(ParseLabel(s).value) == s
  {
    var m := ParseLabel(s).value;
    var r1, c1, r2, c2 := DigitValue(s[1]) - 1, DigitValue(s[3]) - 1, DigitValue(s[9]) - 1, DigitValue(s[11]) - 1;
    assert 0 <= r1 < 3 && 0 <= c1 < 3 && 0 <= r2 < 3 && 0 <= c2 < 3;
    assert Row(m.src) == r1 && Col(m.src) == c1;
    assert Row(m.dst) == r2 && Col(m.dst) == c2;
    assert Digit(r1 + 1) == s[1] && Digit(c1 + 1) == s[3] && Digit(r2 + 1) == s[9] && Digit(c2 + 1) == s[11];
    assert Label(m) == s;
  }

  /** A string with `--` after its first 13 characters is head, `--`, tail. */
  lemma JoinHead(s: string)
    requires |s| >= 15 && s[13] == '-' && s[14] == '-'
    ensures s == s[..13] + ("--" + s[15..])
  {
  }

  /** Encoding the moves a string decodes to gives back the string. */
  lemma {:induction false} EncodeDecode(s: string)
    requires Decode(s).Some?
    ensures AllInRange(Decode(s).value) && Encode(Decode(s).value) == s
    decreases |s|
  {
    if s != "" {
      var head := s[..13];
      LabelOfParse(head);
      var m := ParseLabel(head).value;
      if |s| == 13 {
        assert Decode(s).value == [m];
        assert [m][..0] == [];
        assert head == s;
      } else {
        var tail := s[15..];
        assert DecodeLabels(tail).Some?;
        EncodeDecode(tail);
        var rest := Decode(tail).value;
        assert Decode(s).value == [m] + rest;
        EncodeFront(m, rest);
        JoinHead(s);
      }
    }
  }


  /** The path extended by one move is the encoding of the extended sequence. */
  lemma EncodeSnoc(ms: seq<Move>, m: Move)
    requires AllInRange(ms) && InRange(m)
    ensures AllInRange(ms + [m])
    ensures Encode(ms + [m]) == ExtendPath(Encode(ms), Label(m))
  {
    assert (ms + [m])[..|ms|] == ms;
  }

  /** The cost of a move sequence: the sum of the movers' weights. */
  function PathCost(ms: seq<Move>): (c: int)
    ensures c >= 0
  {
    if ms == [] then 0 else PathCost(ms[..|ms| - 1]) + Weight(ms[|ms| - 1].ball)
  }

  lemma PathCostSnoc(ms: seq<Move>, m: Move)
    ensures PathCost(ms + [m]) == PathCost(ms) + Weight(m.ball)
  {
    assert (ms + [m])[..|ms|] == ms;
  }

  lemma {:induction false} PathCostFront(m: Move, rest: seq<Move>)
    ensures PathCost([m] + rest) == Weight(m.ball) + PathCost(rest)
    decreases |rest|
  {
    if rest != [] {
      var init, x := rest[..|rest| - 1], rest[|rest| - 1];
      PathCostFront(m, init);
      assert ([m] + rest)[..|rest|] == [m] + init;
    } else {
      assert ([m] + rest)[..0] == [];
    }
  }

  /** The cost of a sequence is the cost of any prefix plus the cost of the rest. */
  lemma {:induction false} PathCostSplit(ms: seq<Move>, i: int)
    requires 0 <= i <= |ms|
    ensures PathCost(ms[..i]) + PathCost(ms[i..]) == PathCost(ms)
    decreases i
  {
    if i == 0 {
      assert ms[..0] == [] && ms[0..] == ms;
    } else {
      var tail := ms[1..];
      PathCostSplit(tail, i - 1);
      PathCostFront(ms[0], tail);
      PathCostFront(ms[0], ms[..i][1..]);
      assert [ms[0]] + tail == ms && [ms[0]] + ms[..i][1..] == ms[..i];
      assert ms[..i][1..] == tail[..i - 1] && tail[i - 1..] == ms[i..];
    }
  }

  /** No move weighs more than a red marble, so a sequence costs at most 10 per move. */
  lemma {:induction false} PathCostBound(ms: seq<Move>)
    ensures PathCost(ms) <= 10 * |ms|
    decreases |ms|
  {
    if ms != [] {
      PathCostBound(ms[..|ms| - 1]);
    }
  }

  /** The prefix of j + 1 moves costs the weight of move j more than the prefix of j moves. */
  lemma PathCostPrefixStep(ms: seq<Move>, j: int)
    requires 0 <= j < |ms|
    ensures PathCost(ms[..j + 1]) == PathCost(ms[..j]) + Weight(ms[j].ball)
  {
    assert ms[..j + 1][..j] == ms[..j];
  }

  /** Legal sequences only use in-range moves, so they can be encoded. */
  lemma {:induction false} LegalInRange(b: seq<char>, ms: seq<Move>)
    requires Legal(b, ms)
    ensures AllInRange(ms)
    decreases |ms|
  {
    if ms != [] {
      LegalInRange(Apply(b, ms[0]), ms[1..]);
      forall i | 0 <= i < |ms| ensures InRange(ms[i]) {
        if i > 0 { assert ms[i] == ms[1..][i - 1]; }
      }
    }
  }
}

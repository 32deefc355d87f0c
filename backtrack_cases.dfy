/**
  Worked cases of the backtracking search: a one-domino puzzle it counts
  correctly, and a puzzle without a solution on which it still counts one,
  because its leaf test never looks at the guess's own adjacency.
*/
module BacktrackCases {
  import opened Common
  import opened Boards
  import opened Magnets
  import opened Backtrack

  /** Count of r in a line of two or three cells, spelled out. */
  lemma CountTwo(s: seq<char>, r: char)
    requires |s| == 2
    ensures Count(s, r) == (if s[0] == r then 1 else 0) + (if s[1] == r then 1 else 0)
  {
    assert Count(s[..1], r) == (if s[0] == r then 1 else 0) by {
      assert s[..1][..0] == [];
    }
  }

  lemma CountThree(s: seq<char>, r: char)
    requires |s| == 3
    ensures Count(s, r) == (if s[0] == r then 1 else 0) + (if s[1] == r then 1 else 0) + (if s[2] == r then 1 else 0)
  {
    assert Count(s[..1], r) == (if s[0] == r then 1 else 0) by {
      assert s[..1][..0] == [];
    }
    assert Count(s[..2], r) == Count(s[..1], r) + (if s[1] == r then 1 else 0) by {
      assert s[..2][..1] == s[..1];
    }
  }

  // ---------------------------------------------------------------------------
  // A worked case: the puzzle "1x2:1,10,1,01,TB", one vertical domino

  /** The game Deserialize builds from "1x2:1,10,1,01,TB" (CaseTexts.TallText). */
  function Tall(): (s: State)
    ensures Shaped(s)
  {
    State(1, 2, [[Up], [Down]], [[Empty], [Empty]], [[Empty], [Empty]], [1], [1, 0], [1], [0, 1])
  }

  /** Its one solution, + above -, is counted once; - and # at the head exceed row 0's clues. */
  lemma TallCount()
    ensures Search(Tall(), 0, 0, false).count == 1
  {
    var s := Tall();
    assert Scan(s.frames, 1, 2, 0, 0) == Head(0, 0);
    TallPositive();
    TallNegative();
    TallNeutral();
    assert s.(guess := s.guess) == s;
  }

  lemma TallPositive()
    ensures Branch(Tall(), 0, 0, Positive, false) == Outcome(1, [[Positive], [Negative]])
  {
    var s := Tall();
    assert Partner(s, 0, 0) == Coord(1, 0);
    var g1 := Put(Put(s.guess, 1, 2, 0, 0, Positive), 1, 2, 1, 0, Negative);
    assert g1[0] == [Positive] && g1[1] == [Negative];
    assert g1 == [[Positive], [Negative]];
    assert RowCount(g1, 1, 2, 0, Positive) == 1;
    var a1 := TrySet(s, 0, 0, Positive);
    assert a1 == Attempt(true, g1);
    var s1 := s.(guess := g1);
    assert Scan(s.frames, 1, 2, 0, 1) == Leaf;
    TallLeaf();
  }

  lemma TallLeaf()
    ensures LeafAsWritten(Tall().(guess := [[Positive], [Negative]]))
  {
    TallValid();
    TallSolved();
  }

  /** The blank grid of Tall passes the test of valid as written. */
  lemma TallValid()
    ensures ValidSpec(Tall().(guess := [[Positive], [Negative]]))
  {
    var s := Tall().(guess := [[Positive], [Negative]]);
    TallFrames();
    BlankGridValid(s);
  }

  /** The frames "T" over "B" pair up into one domino. */
  lemma TallFrames()
    ensures FramesComplete(Tall().frames, 1, 2)
  {
    var f := Tall().frames;
    forall i, j | InBounds(1, 2, i, j)
      ensures FrameOk(f, 1, 2, i, j)
    {
      if i == 0 {
        assert FrameEnd(f, 1, 2, i, j) == Coord(1, 0);
      } else {
        assert FrameEnd(f, 1, 2, i, j) == Coord(0, 0);
      }
    }
  }

  /** The guess + above - meets every clue of Tall. */
  lemma TallSolved()
    ensures SolvedSpec(Tall().(guess := [[Positive], [Negative]]))
  {
    var g := [[Positive], [Negative]];
    assert Column(g, 0) == [Positive, Negative];
    assert [Positive, Negative][..1] == [Positive];
    assert [Positive][..0] == [] && [Negative][..0] == [];
    assert Count([], Positive) == 0 && Count([], Negative) == 0;
    assert Count([Positive], Positive) == 1 && Count([Positive], Negative) == 0;
    assert Count([Positive, Negative], Positive) == 1 && Count([Positive, Negative], Negative) == 1;
    assert Count([Negative], Positive) == 0 && Count([Negative], Negative) == 1;
  }

  /** - at the head puts a - pole in row 0, whose clue allows none: refused and blanked. */
  lemma TallNegative()
    ensures Branch(Tall().(guess := [[Positive], [Negative]]), 0, 0, Negative, false) == Outcome(0, Tall().guess)
  {
    var s := Tall().(guess := [[Positive], [Negative]]);
    assert Partner(s, 0, 0) == Coord(1, 0);
    var g := Put(Put(s.guess, 1, 2, 0, 0, Negative), 1, 2, 1, 0, Positive);
    assert g[0] == [Negative] && g[1] == [Positive];
    assert [Negative][..0] == [];
    assert RowCount(g, 1, 2, 0, Negative) == 1;
    var b := Put(Put(g, 1, 2, 0, 0, Empty), 1, 2, 1, 0, Empty);
    assert b[0] == [Empty] && b[1] == [Empty];
    assert TrySet(s, 0, 0, Negative) == Attempt(false, b);
  }

  /** # at the head puts a neutral cell in row 0, whose clues leave room for none: refused and blanked. */
  lemma TallNeutral()
    ensures Branch(Tall(), 0, 0, Neutral, false) == Outcome(0, Tall().guess)
  {
    var s := Tall();
    assert Partner(s, 0, 0) == Coord(1, 0);
    var g := Put(Put(s.guess, 1, 2, 0, 0, Neutral), 1, 2, 1, 0, Neutral);
    assert g[0] == [Neutral] && g[1] == [Neutral];
    assert [Neutral][..0] == [];
    assert RowCount(g, 1, 2, 0, Neutral) == 1;
    var b := Put(Put(g, 1, 2, 0, 0, Empty), 1, 2, 1, 0, Empty);
    assert b[0] == [Empty] && b[1] == [Empty];
    assert TrySet(s, 0, 0, Neutral) == Attempt(false, b);
  }

  // ---------------------------------------------------------------------------
  // An overcount: "3x2:011,02,101,11,LRTLRB"

  /**
    The game Deserialize builds from "3x2:011,02,101,11,LRTLRB": two horizontal
    dominoes on the left, one vertical domino on the right (CaseTexts.OvercountedText).
  */
  function Overcounted(): (s: State)
    ensures Shaped(s)
  {
    State(3, 2, [[Left, Right, Up], [Left, Right, Down]], Blank3x2(), Blank3x2(), [0, 1, 1], [0, 2], [1, 0, 1], [1, 1])
  }

  function Blank3x2(): Grid {
    [[Empty, Empty, Empty], [Empty, Empty, Empty]]
  }

  /**
    The puzzle has no solution: row 1 needs two + poles, column 0 allows none, so
    the two right cells of row 1 would both be + and touch.
  */
  lemma OvercountedUnsolvable()
    ensures forall g :: !Solution(Overcounted(), g)
  {
    var p := Overcounted();
    forall g | Solution(p, g)
      ensures false
    {
      var s := p.(guess := g);
      assert Apart(g, 3, 2, 1, 1);
      assert RowSolved(s, 1) && ColSolved(s, 0);
      CountThree(g[1], Positive);
    }
  }

  /** + and - at the head (0, 0) put a + pole in row 0, whose clue allows none. */
  lemma FirstHeadPoles(r: char)
    requires r == Positive || r == Negative
    ensures Branch(Overcounted(), 0, 0, r, false) == Outcome(0, Blank3x2())
  {
    var s := Overcounted();
    assert Partner(s, 0, 0) == Coord(0, 1);
    var g := Put(Put(s.guess, 3, 2, 0, 0, r), 3, 2, 0, 1, Negate(r));
    assert g[0] == [r, Negate(r), Empty] && g[1] == Blank3x2()[1];
    CountThree(g[0], Positive);
    var b := Put(Put(g, 3, 2, 0, 0, Empty), 3, 2, 0, 1, Empty);
    assert b[0] == Blank3x2()[0] && b[1] == Blank3x2()[1];
    assert TrySet(s, 0, 0, r) == Attempt(false, b);
  }

  /** # at the head (0, 0) stands: row 0 still has room for its one - pole. */
  lemma FirstHeadNeutral()
    ensures Branch(Overcounted(), 0, 0, Neutral, false) ==
            Search(Overcounted().(guess := [[Neutral, Neutral, Empty], [Empty, Empty, Empty]]), 0, 1, false)
  {
    var s := Overcounted();
    assert Partner(s, 0, 0) == Coord(0, 1);
    var g := Put(Put(s.guess, 3, 2, 0, 0, Neutral), 3, 2, 0, 1, Neutral);
    assert g[0] == [Neutral, Neutral, Empty] && g[1] == Blank3x2()[1];
    assert g == [[Neutral, Neutral, Empty], [Empty, Empty, Empty]];
    CountThree(g[0], Positive);
    CountThree(g[0], Negative);
    CountThree(g[0], Neutral);
    CountThree(g[0], Wall);
    assert TrySet(s, 0, 0, Neutral) == Attempt(true, g);
  }

  /** + at the head (0, 2) puts a + pole in row 0: refused, and the guess is as before. */
  lemma SecondHeadPositive()
    ensures Branch(Overcounted().(guess := [[Neutral, Neutral, Empty], [Empty, Empty, Empty]]), 0, 2, Positive, false) ==
            Outcome(0, [[Neutral, Neutral, Empty], [Empty, Empty, Empty]])
  {
    var s := Overcounted().(guess := [[Neutral, Neutral, Empty], [Empty, Empty, Empty]]);
    assert Partner(s, 0, 2) == Coord(1, 2);
    var g := Put(Put(s.guess, 3, 2, 0, 2, Positive), 3, 2, 1, 2, Negative);
    assert g[0] == [Neutral, Neutral, Positive];
    CountThree(g[0], Positive);
    var b := Put(Put(g, 3, 2, 0, 2, Empty), 3, 2, 1, 2, Empty);
    assert b[0] == s.guess[0] && b[1] == s.guess[1];
    assert TrySet(s, 0, 2, Positive) == Attempt(false, b);
  }

  /** - at the head (0, 2) stands, and the search goes on to the head (1, 0). */
  lemma SecondHeadNegative()
    ensures Branch(Overcounted().(guess := [[Neutral, Neutral, Empty], [Empty, Empty, Empty]]), 0, 2, Negative, false) ==
            Search(Overcounted().(guess := [[Neutral, Neutral, Negative], [Empty, Empty, Positive]]), 0, 3, false)
  {
    var s := Overcounted().(guess := [[Neutral, Neutral, Empty], [Empty, Empty, Empty]]);
    assert Partner(s, 0, 2) == Coord(1, 2);
    var g := Put(Put(s.guess, 3, 2, 0, 2, Negative), 3, 2, 1, 2, Positive);
    assert g[0] == [Neutral, Neutral, Negative] && g[1] == [Empty, Empty, Positive];
    assert g == [[Neutral, Neutral, Negative], [Empty, Empty, Positive]];
    CountThree(g[0], Positive);
    CountThree(g[0], Negative);
    CountThree(g[0], Neutral);
    CountThree(g[0], Wall);
    assert TrySet(s, 0, 2, Negative) == Attempt(true, g);
  }

  /** + at the head (1, 0) stands and reaches a leaf that Solved rejects (column 0 has a + pole). */
  lemma ThirdHeadPositive()
    ensures Branch(Overcounted().(guess := [[Neutral, Neutral, Negative], [Empty, Empty, Positive]]), 1, 0, Positive, false).guess ==
            [[Neutral, Neutral, Negative], [Positive, Negative, Positive]]
  {
    var s := Overcounted().(guess := [[Neutral, Neutral, Negative], [Empty, Empty, Positive]]);
    assert Partner(s, 1, 0) == Coord(1, 1);
    var g := Put(Put(s.guess, 3, 2, 1, 0, Positive), 3, 2, 1, 1, Negative);
    assert g[0] == s.guess[0] && g[1] == [Positive, Negative, Positive];
    assert g == [[Neutral, Neutral, Negative], [Positive, Negative, Positive]];
    CountThree(g[1], Positive);
    CountThree(g[1], Negative);
    CountThree(g[1], Neutral);
    CountThree(g[1], Wall);
    assert TrySet(s, 1, 0, Positive) == Attempt(true, g);
    assert Scan(s.frames, 3, 2, 1, 1) == Leaf;
  }

  /**
    - at the head (1, 0) stands and reaches a leaf that the source counts: its
    clues all match, but the two + poles at (1, 1) and (1, 2) touch.
  */
  lemma ThirdHeadNegative()
    ensures Branch(Overcounted().(guess := [[Neutral, Neutral, Negative], [Positive, Negative, Positive]]), 1, 0, Negative, false).count == 1
  {
    var s := Overcounted().(guess := [[Neutral, Neutral, Negative], [Positive, Negative, Positive]]);
    assert Partner(s, 1, 0) == Coord(1, 1);
    var g := Put(Put(s.guess, 3, 2, 1, 0, Negative), 3, 2, 1, 1, Positive);
    assert g[0] == s.guess[0] && g[1] == [Negative, Positive, Positive];
    assert g == [[Neutral, Neutral, Negative], [Negative, Positive, Positive]];
    CountThree(g[1], Positive);
    CountThree(g[1], Negative);
    CountThree(g[1], Neutral);
    CountThree(g[1], Wall);
    assert TrySet(s, 1, 0, Negative) == Attempt(true, g);
    assert Scan(s.frames, 3, 2, 1, 1) == Leaf;
    OvercountedLeaf();
  }

  /** The leaf the source counts: Valid looks at the blank grid, Solved only at the clue totals. */
  lemma OvercountedLeaf()
    ensures LeafAsWritten(Overcounted().(guess := [[Neutral, Neutral, Negative], [Negative, Positive, Positive]]))
  {
    var g := [[Neutral, Neutral, Negative], [Negative, Positive, Positive]];
    OvercountedValid(g);
    OvercountedSolved(g);
  }

  /** Valid holds whatever the guess: the grid is blank and the frames are complete. */
  lemma OvercountedValid(g: Grid)
    requires IsRect(g, 3, 2)
    ensures ValidSpec(Overcounted().(guess := g))
  {
    var s := Overcounted().(guess := g);
    OvercountedFrames();
    BlankGridValid(s);
  }

  /** The frames "LRTLRB" pair up into three dominoes. */
  lemma OvercountedFrames()
    ensures FramesComplete(Overcounted().frames, 3, 2)
  {
    var f := Overcounted().frames;
    forall i, j | InBounds(3, 2, i, j)
      ensures FrameOk(f, 3, 2, i, j)
    {
      var e := FrameEnd(f, 3, 2, i, j);
      if i == 0 && j == 0 {
        assert e == Coord(0, 1);
      } else if i == 0 && j == 1 {
        assert e == Coord(0, 0);
      } else if i == 0 {
        assert e == Coord(1, 2);
      } else if j == 0 {
        assert e == Coord(1, 1);
      } else if j == 1 {
        assert e == Coord(1, 0);
      } else {
        assert e == Coord(0, 2);
      }
    }
  }

  /** A game of two or more cells with complete frames and an all-Empty grid is valid. */
  lemma BlankGridValid(s: State)
    requires Shaped(s) && s.width > 0 && s.height > 0 && (s.width > 1 || s.height > 1)
    requires FramesComplete(s.frames, s.width, s.height)
    requires forall i, j :: InBounds(s.width, s.height, i, j) ==> s.grid[i][j] == Empty
    ensures ValidSpec(s)
  {
    forall i, j | InBounds(s.width, s.height, i, j)
      ensures PolarityOk(s.frames, s.grid, s.width, s.height, i, j)
    {
      if s.frames[i][j] == Up || s.frames[i][j] == Left {
        PartnerSymmetric(s.frames, s.width, s.height, i, j);
      }
    }
  }

  /** Every line of the overcounted guess meets its pole clues. */
  lemma OvercountedSolved(g: Grid)
    requires g == [[Neutral, Neutral, Negative], [Negative, Positive, Positive]]
    ensures SolvedSpec(Overcounted().(guess := g))
  {
    var s := Overcounted().(guess := g);
    CountThree(g[0], Positive);
    CountThree(g[0], Negative);
    CountThree(g[1], Positive);
    CountThree(g[1], Negative);
    forall col | 0 <= col < 3
      ensures ColSolved(s, col)
    {
      CountTwo(Column(g, col), Positive);
      CountTwo(Column(g, col), Negative);
    }
  }

  /**
    The source's search counts a solution of this unsolvable puzzle: the guess
    # # - / - + + meets every clue, and its touching + poles go unnoticed.
  */
  lemma OvercountedCounts()
    ensures Search(Overcounted(), 0, 0, false).count >= 1
    ensures forall g :: !Solution(Overcounted(), g)
  {
    var p := Overcounted();
    assert Scan(p.frames, 3, 2, 0, 0) == Head(0, 0);
    FirstHeadPoles(Positive);
    FirstHeadPoles(Negative);
    FirstHeadNeutral();
    assert p.(guess := Blank3x2()) == p;
    SecondLevel();
    OvercountedUnsolvable();
  }

  /** From (0, 1) the search finds the head (0, 2), where - leads on to the head (1, 0). */
  lemma SecondLevel()
    ensures Search(Overcounted().(guess := [[Neutral, Neutral, Empty], [Empty, Empty, Empty]]), 0, 1, false).count >= 1
  {
    var s := Overcounted().(guess := [[Neutral, Neutral, Empty], [Empty, Empty, Empty]]);
    assert Scan(s.frames, 3, 2, 0, 1) == Head(0, 2);
    SecondHeadPositive();
    SecondHeadNegative();
    assert s.(guess := s.guess) == s;
    ThirdLevel();
  }

  /** From (0, 3) the search wraps to the head (1, 0), where - reaches the counted leaf. */
  lemma ThirdLevel()
    ensures Search(Overcounted().(guess := [[Neutral, Neutral, Negative], [Empty, Empty, Positive]]), 0, 3, false).count >= 1
  {
    var s := Overcounted().(guess := [[Neutral, Neutral, Negative], [Empty, Empty, Positive]]);
    assert Scan(s.frames, 3, 2, 0, 3) == Head(1, 0);
    ThirdHeadPositive();
    ThirdHeadNegative();
    assert s.(guess := [[Neutral, Neutral, Negative], [Positive, Negative, Positive]]) ==
           Overcounted().(guess := [[Neutral, Neutral, Negative], [Positive, Negative, Positive]]);
  }

  /** The corrected search counts no solution of the puzzle, since it has none. */
  lemma OvercountedIntended()
    ensures Search(Overcounted(), 0, 0, true).count == 0
  {
    IntendedSound(Overcounted(), 0, 0);
    OvercountedUnsolvable();
  }
}

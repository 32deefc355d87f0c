/**
  More rows of the backtracking counter's table of expected counts, each worked
  through the search as written: a 2x2 puzzle whose rows allow no pole (no
  solution), a 1x3 puzzle with a wall (one solution), and a 2x2 puzzle with
  every clue 1 (two solutions).
*/
module BacktrackTable {
  import opened Common
  import opened Boards
  import opened Magnets
  import opened Backtrack
  import opened BacktrackCases

  /** Count of r in a line of one cell. */
  lemma CountOne(s: seq<char>, r: char)
    requires |s| == 1
    ensures Count(s, r) == if s[0] == r then 1 else 0
  {
    assert s[..0] == [];
  }

  /** Two vertical dominoes side by side: "TTBB" on a 2x2 board. */
  function Stacked(): Grid {
    [[Up, Up], [Down, Down]]
  }

  function Blank2x2(): Grid {
    [[Empty, Empty], [Empty, Empty]]
  }

  /** The frames "TTBB" pair up into two dominoes. */
  lemma StackedComplete()
    ensures FramesComplete(Stacked(), 2, 2)
  {
    forall i, j | InBounds(2, 2, i, j)
      ensures FrameOk(Stacked(), 2, 2, i, j)
    {
      StackedCell(i, j);
    }
  }

  /** Each cell of "TTBB" has its partner in the other row of its column. */
  lemma StackedCell(i: int, j: int)
    requires InBounds(2, 2, i, j)
    ensures FrameOk(Stacked(), 2, 2, i, j)
  {
    var f := Stacked();
    if i == 0 {
      var e := FrameEnd(f, 2, 2, i, j);
      assert e == Coord(1, j);
      assert At(f, 2, 2, 1, j) == Down;
    } else {
      var e := FrameEnd(f, 2, 2, i, j);
      assert e == Coord(0, j);
      assert At(f, 2, 2, 0, j) == Up;
    }
  }

  // ---------------------------------------------------------------------------
  // "2x2:11,00,11,00,TTBB": no row allows a pole, every column needs one

  /** The game Deserialize builds from "2x2:11,00,11,00,TTBB" (CaseTexts.BlockedText). */
  function Blocked(): (s: State)
    ensures Shaped(s)
  {
    State(2, 2, Stacked(), Blank2x2(), Blank2x2(), [1, 1], [0, 0], [1, 1], [0, 0])
  }

  /** The search counts no solution: the only guess that gets past the row limits is all #, and it misses the column clues. */
  lemma BlockedCount()
    ensures Search(Blocked(), 0, 0, false).count == 0
  {
    var p := Blocked();
    assert Scan(p.frames, 2, 2, 0, 0) == Head(0, 0);
    BlockedFirstPole(Positive);
    BlockedFirstPole(Negative);
    assert p.(guess := Blank2x2()) == p;
    BlockedFirstNeutral();
    BlockedSecond();
  }

  /** A pole at the head (0, 0) goes over row 0's pole clues: refused and blanked. */
  lemma BlockedFirstPole(r: char)
    requires r == Positive || r == Negative
    ensures Branch(Blocked(), 0, 0, r, false) == Outcome(0, Blank2x2())
  {
    var s := Blocked();
    assert Partner(s, 0, 0) == Coord(1, 0);
    var g := Put(Put(s.guess, 2, 2, 0, 0, r), 2, 2, 1, 0, Negate(r));
    assert g[0] == [r, Empty];
    CountTwo(g[0], r);
    var b := Put(Put(g, 2, 2, 0, 0, Empty), 2, 2, 1, 0, Empty);
    assert b[0] == Blank2x2()[0] && b[1] == Blank2x2()[1];
    assert TrySet(s, 0, 0, r) == Attempt(false, b);
  }

  /** # at the head (0, 0) stands: row 0 has room for two # cells. */
  lemma BlockedFirstNeutral()
    ensures Branch(Blocked(), 0, 0, Neutral, false) ==
            Search(Blocked().(guess := [[Neutral, Empty], [Neutral, Empty]]), 0, 1, false)
  {
    var s := Blocked();
    assert Partner(s, 0, 0) == Coord(1, 0);
    var g := Put(Put(s.guess, 2, 2, 0, 0, Neutral), 2, 2, 1, 0, Neutral);
    assert g[0] == [Neutral, Empty] && g[1] == [Neutral, Empty];
    assert g == [[Neutral, Empty], [Neutral, Empty]];
    CountTwo(g[0], Positive);
    CountTwo(g[0], Negative);
    CountTwo(g[0], Neutral);
    CountTwo(g[0], Wall);
    assert TrySet(s, 0, 0, Neutral) == Attempt(true, g);
  }

  /** From (0, 1) the head (0, 1) refuses both poles, and # leads to a leaf that misses the column clues. */
  lemma BlockedSecond()
    ensures Search(Blocked().(guess := [[Neutral, Empty], [Neutral, Empty]]), 0, 1, false).count == 0
  {
    var s := Blocked().(guess := [[Neutral, Empty], [Neutral, Empty]]);
    assert Scan(s.frames, 2, 2, 0, 1) == Head(0, 1);
    BlockedSecondPole(Positive);
    BlockedSecondPole(Negative);
    assert s.(guess := s.guess) == s;
    BlockedSecondNeutral();
  }

  /** A pole at the head (0, 1) goes over row 0's pole clues: refused, and the guess is as before. */
  lemma BlockedSecondPole(r: char)
    requires r == Positive || r == Negative
    ensures Branch(Blocked().(guess := [[Neutral, Empty], [Neutral, Empty]]), 0, 1, r, false) ==
            Outcome(0, [[Neutral, Empty], [Neutral, Empty]])
  {
    var s := Blocked().(guess := [[Neutral, Empty], [Neutral, Empty]]);
    assert Partner(s, 0, 1) == Coord(1, 1);
    var g := Put(Put(s.guess, 2, 2, 0, 1, r), 2, 2, 1, 1, Negate(r));
    assert g[0] == [Neutral, r];
    CountTwo(g[0], r);
    var b := Put(Put(g, 2, 2, 0, 1, Empty), 2, 2, 1, 1, Empty);
    assert b[0] == s.guess[0] && b[1] == s.guess[1];
    assert TrySet(s, 0, 1, r) == Attempt(false, b);
  }

  /** # at the head (0, 1) stands, and the all-# leaf has no pole in column 0, whose clue asks for one. */
  lemma BlockedSecondNeutral()
    ensures Branch(Blocked().(guess := [[Neutral, Empty], [Neutral, Empty]]), 0, 1, Neutral, false).count == 0
  {
    var s := Blocked().(guess := [[Neutral, Empty], [Neutral, Empty]]);
    assert Partner(s, 0, 1) == Coord(1, 1);
    var g := Put(Put(s.guess, 2, 2, 0, 1, Neutral), 2, 2, 1, 1, Neutral);
    assert g[0] == [Neutral, Neutral] && g[1] == [Neutral, Neutral];
    CountTwo(g[0], Positive);
    CountTwo(g[0], Negative);
    CountTwo(g[0], Neutral);
    CountTwo(g[0], Wall);
    assert TrySet(s, 0, 1, Neutral) == Attempt(true, g);
    assert Scan(s.frames, 2, 2, 0, 2) == Leaf;
    var leaf := s.(guess := g);
    CountTwo(Column(g, 0), Positive);
    assert !ColSolved(leaf, 0);
  }

  // ---------------------------------------------------------------------------
  // "1x3:1,100,1,010,TB*": one vertical domino over a wall

  /** The game Deserialize builds from "1x3:1,100,1,010,TB*", with the wall copied into the grid and the guess (CaseTexts.CappedText). */
  function Capped(): (s: State)
    ensures Shaped(s)
  {
    State(1, 3, [[Up], [Down], [Wall]], [[Empty], [Empty], [Wall]], [[Empty], [Empty], [Wall]], [1], [1, 0, 0], [1], [0, 1, 0])
  }

  /** Its one solution, + above - above the wall, is counted once. */
  lemma CappedCount()
    ensures Search(Capped(), 0, 0, false).count == 1
  {
    var p := Capped();
    assert Scan(p.frames, 1, 3, 0, 0) == Head(0, 0);
    CappedPositive();
    CappedNegative();
    assert p.(guess := [[Empty], [Empty], [Wall]]) == p;
    CappedNeutral();
  }

  /** + at the head stands and reaches a leaf that is counted. */
  lemma CappedPositive()
    ensures Branch(Capped(), 0, 0, Positive, false) == Outcome(1, [[Positive], [Negative], [Wall]])
  {
    var s := Capped();
    assert Partner(s, 0, 0) == Coord(1, 0);
    var g := Put(Put(s.guess, 1, 3, 0, 0, Positive), 1, 3, 1, 0, Negative);
    assert g[0] == [Positive] && g[1] == [Negative] && g[2] == [Wall];
    assert g == [[Positive], [Negative], [Wall]];
    CountOne(g[0], Positive);
    CountOne(g[0], Negative);
    CountOne(g[0], Neutral);
    CountOne(g[0], Wall);
    assert TrySet(s, 0, 0, Positive) == Attempt(true, g);
    assert Scan(s.frames, 1, 3, 0, 1) == Leaf;
    CappedLeaf();
  }

  /** The leaf + / - / wall passes Valid (on the grid) and meets every clue. */
  lemma CappedLeaf()
    ensures LeafAsWritten(Capped().(guess := [[Positive], [Negative], [Wall]]))
  {
    CappedValid();
    CappedSolved();
  }

  /** The grid of Capped, Empty above a wall, passes Valid. */
  lemma CappedValid()
    ensures ValidSpec(Capped().(guess := [[Positive], [Negative], [Wall]]))
  {
    var s := Capped().(guess := [[Positive], [Negative], [Wall]]);
    forall i, j | InBounds(1, 3, i, j)
      ensures FrameOk(s.frames, 1, 3, i, j) && PolarityOk(s.frames, s.grid, 1, 3, i, j)
    {
      if i == 0 {
        assert FrameEnd(s.frames, 1, 3, i, j) == Coord(1, 0);
      } else if i == 1 {
        assert FrameEnd(s.frames, 1, 3, i, j) == Coord(0, 0);
      }
    }
  }

  /** + / - / wall meets every row and column clue of Capped. */
  lemma CappedSolved()
    ensures SolvedSpec(Capped().(guess := [[Positive], [Negative], [Wall]]))
  {
    var g := [[Positive], [Negative], [Wall]];
    CountOne(g[0], Positive);
    CountOne(g[0], Negative);
    CountOne(g[1], Positive);
    CountOne(g[1], Negative);
    CountOne(g[2], Positive);
    CountOne(g[2], Negative);
    assert Column(g, 0) == [Positive, Negative, Wall];
    CountThree(Column(g, 0), Positive);
    CountThree(Column(g, 0), Negative);
  }

  /** - at the head puts a - pole in row 0, whose clue allows none: refused and blanked. */
  lemma CappedNegative()
    ensures Branch(Capped().(guess := [[Positive], [Negative], [Wall]]), 0, 0, Negative, false) ==
            Outcome(0, [[Empty], [Empty], [Wall]])
  {
    var s := Capped().(guess := [[Positive], [Negative], [Wall]]);
    assert Partner(s, 0, 0) == Coord(1, 0);
    var g := Put(Put(s.guess, 1, 3, 0, 0, Negative), 1, 3, 1, 0, Positive);
    assert g[0] == [Negative];
    CountOne(g[0], Negative);
    var b := Put(Put(g, 1, 3, 0, 0, Empty), 1, 3, 1, 0, Empty);
    assert b[0] == [Empty] && b[1] == [Empty] && b[2] == [Wall];
    assert b == [[Empty], [Empty], [Wall]];
    assert TrySet(s, 0, 0, Negative) == Attempt(false, b);
  }

  /** # at the head puts a neutral cell in row 0, whose clues leave room for none: refused. */
  lemma CappedNeutral()
    ensures Branch(Capped(), 0, 0, Neutral, false).count == 0
  {
    var s := Capped();
    assert Partner(s, 0, 0) == Coord(1, 0);
    var g := Put(Put(s.guess, 1, 3, 0, 0, Neutral), 1, 3, 1, 0, Neutral);
    assert g[0] == [Neutral];
    CountOne(g[0], Positive);
    CountOne(g[0], Negative);
    CountOne(g[0], Neutral);
    CountOne(g[0], Wall);
    assert !TrySet(s, 0, 0, Neutral).ok;
  }

  // ---------------------------------------------------------------------------
  // "2x2:11,11,11,11,TTBB": every clue 1, two solutions

  /** The game Deserialize builds from "2x2:11,11,11,11,TTBB" (CaseTexts.TwinText). */
  function Twin(): (s: State)
    ensures Shaped(s)
  {
    State(2, 2, Stacked(), Blank2x2(), Blank2x2(), [1, 1], [1, 1], [1, 1], [1, 1])
  }

  /** Both solutions, + - / - + and - + / + -, are counted once each; # at the first head exceeds row 0. */
  lemma TwinCount()
    ensures Search(Twin(), 0, 0, false).count == 2
  {
    var p := Twin();
    assert Scan(p.frames, 2, 2, 0, 0) == Head(0, 0);
    TwinFirstPositive();
    TwinFirstNegative();
    TwinFirstNeutral();
  }

  /** + at the head (0, 0) stands, and the search from (0, 1) counts one leaf and restores the guess. */
  lemma TwinFirstPositive()
    ensures Branch(Twin(), 0, 0, Positive, false) == Outcome(1, [[Positive, Empty], [Negative, Empty]])
  {
    var s := Twin();
    assert Partner(s, 0, 0) == Coord(1, 0);
    var g := Put(Put(s.guess, 2, 2, 0, 0, Positive), 2, 2, 1, 0, Negative);
    assert g[0] == [Positive, Empty] && g[1] == [Negative, Empty];
    assert g == [[Positive, Empty], [Negative, Empty]];
    TwinRowFits(g[0], Positive);
    assert TrySet(s, 0, 0, Positive) == Attempt(true, g);
    TwinAfterPositive();
  }

  /** - at the head (0, 0), after +, stands, and the search from (0, 1) counts one leaf and restores the guess. */
  lemma TwinFirstNegative()
    ensures Branch(Twin().(guess := [[Positive, Empty], [Negative, Empty]]), 0, 0, Negative, false) ==
            Outcome(1, [[Negative, Empty], [Positive, Empty]])
  {
    var s := Twin().(guess := [[Positive, Empty], [Negative, Empty]]);
    assert Partner(s, 0, 0) == Coord(1, 0);
    var g := Put(Put(s.guess, 2, 2, 0, 0, Negative), 2, 2, 1, 0, Positive);
    assert g[0] == [Negative, Empty] && g[1] == [Positive, Empty];
    assert g == [[Negative, Empty], [Positive, Empty]];
    TwinRowFits(g[0], Negative);
    assert TrySet(s, 0, 0, Negative) == Attempt(true, g);
    assert s.(guess := g) == Twin().(guess := g);
    TwinAfterNegative();
  }

  /** # at the head (0, 0) puts a # in row 0, whose clues leave room for none: refused. */
  lemma TwinFirstNeutral()
    ensures Branch(Twin().(guess := [[Negative, Empty], [Positive, Empty]]), 0, 0, Neutral, false).count == 0
  {
    var s := Twin().(guess := [[Negative, Empty], [Positive, Empty]]);
    assert Partner(s, 0, 0) == Coord(1, 0);
    var g := Put(Put(s.guess, 2, 2, 0, 0, Neutral), 2, 2, 1, 0, Neutral);
    assert g[0] == [Neutral, Empty];
    CountTwo(g[0], Neutral);
    CountTwo(g[0], Wall);
    assert !TrySet(s, 0, 0, Neutral).ok;
  }

  /** A row of Twin holding one pole p and one Empty cell is within its limits. */
  lemma TwinRowFits(row: seq<char>, p: char)
    requires IsPole(p) && (row == [p, Empty] || row == [Empty, p])
    ensures Count(row, Positive) <= 1 && Count(row, Negative) <= 1 && Count(row, Neutral) + Count(row, Wall) == 0
  {
    CountTwo(row, Positive);
    CountTwo(row, Negative);
    CountTwo(row, Neutral);
    CountTwo(row, Wall);
  }

  /** With + at (0, 0): + at (0, 1) is refused beside it, - reaches a counted leaf, and # exceeds row 0. */
  lemma TwinAfterPositive()
    ensures Search(Twin().(guess := [[Positive, Empty], [Negative, Empty]]), 0, 1, false) ==
            Outcome(1, [[Positive, Empty], [Negative, Empty]])
  {
    var pe := [[Positive, Empty], [Negative, Empty]];
    var s := Twin().(guess := pe);
    assert Scan(s.frames, 2, 2, 0, 1) == Head(0, 1);
    TwinSecondRefused(pe, Positive);
    TwinSecondPole(pe, Negative, [[Positive, Negative], [Negative, Positive]]);
    TwinSecondNeutral(Positive, [[Positive, Negative], [Negative, Positive]], pe);
    TwinSecondBlanked(Positive, pe);
  }

  /** With - at (0, 0): + at (0, 1) reaches a counted leaf, - is refused beside it, and # exceeds row 0. */
  lemma TwinAfterNegative()
    ensures Search(Twin().(guess := [[Negative, Empty], [Positive, Empty]]), 0, 1, false) ==
            Outcome(1, [[Negative, Empty], [Positive, Empty]])
  {
    var ne := [[Negative, Empty], [Positive, Empty]];
    var mp := [[Negative, Positive], [Positive, Negative]];
    var s := Twin().(guess := ne);
    assert Scan(s.frames, 2, 2, 0, 1) == Head(0, 1);
    TwinSecondPole(ne, Positive, mp);
    TwinSecondRefused(mp, Negative);
    TwinSecondNeutral(Negative, mp, ne);
    TwinSecondBlanked(Negative, ne);
  }

  /** The pole p at the head (0, 1) is refused beside the same pole at (0, 0), and the guess is as before. */
  lemma TwinSecondRefused(g: Grid, p: char)
    requires IsPole(p) && IsRect(g, 2, 2) && g[0][0] == p
    ensures Branch(Twin().(guess := g), 0, 1, p, false) == Outcome(0, g)
  {
    var s := Twin().(guess := g);
    assert At(g, 2, 2, 0, 0) == p;
  }

  /** Blanking the head (0, 1) and its partner, once both are Empty again, leaves the guess as it is. */
  lemma TwinSecondBlanked(p: char, g: Grid)
    requires IsPole(p) && g == [[p, Empty], [Negate(p), Empty]]
    ensures Blanked(Twin().(guess := g), 0, 1) == g
  {
    var s := Twin().(guess := g);
    assert Partner(s, 0, 1) == Coord(1, 1);
    var b := Put(Put(g, 2, 2, 0, 1, Empty), 2, 2, 1, 1, Empty);
    assert b[0] == g[0] && b[1] == g[1];
  }

  /** The pole p at the head (0, 1), opposite the one at (0, 0), stands and completes a counted leaf. */
  lemma TwinSecondPole(g0: Grid, p: char, g: Grid)
    requires IsPole(p) && g0 == [[Negate(p), Empty], [p, Empty]] && g == [[Negate(p), p], [p, Negate(p)]]
    ensures Branch(Twin().(guess := g0), 0, 1, p, false) == Outcome(1, g)
  {
    var s := Twin().(guess := g0);
    assert Partner(s, 0, 1) == Coord(1, 1);
    var w := Put(Put(g0, 2, 2, 0, 1, p), 2, 2, 1, 1, Negate(p));
    assert w[0] == g[0] && w[1] == g[1];
    assert w == g;
    CountTwo(g[0], Positive);
    CountTwo(g[0], Negative);
    CountTwo(g[0], Neutral);
    CountTwo(g[0], Wall);
    assert TrySet(s, 0, 1, p) == Attempt(true, g);
    assert Scan(s.frames, 2, 2, 0, 2) == Leaf;
    TwinLeaf(g);
  }

  /** The two solutions pass the leaf test: the grid is blank, and every line holds one + and one -. */
  lemma TwinLeaf(g: Grid)
    requires g == [[Positive, Negative], [Negative, Positive]] || g == [[Negative, Positive], [Positive, Negative]]
    ensures LeafAsWritten(Twin().(guess := g))
  {
    var s := Twin().(guess := g);
    StackedComplete();
    BlankGridValid(s);
    forall row | 0 <= row < 2
      ensures RowSolved(s, row)
    {
      CountTwo(g[row], Positive);
      CountTwo(g[row], Negative);
    }
    forall col | 0 <= col < 2
      ensures ColSolved(s, col)
    {
      CountTwo(Column(g, col), Positive);
      CountTwo(Column(g, col), Negative);
    }
  }

  /** # at the head (0, 1) after a counted leaf puts a # in row 0: refused, and the head's pole is left with Empty beside it. */
  lemma TwinSecondNeutral(p: char, g0: Grid, g1: Grid)
    requires IsPole(p) && g0 == [[p, Negate(p)], [Negate(p), p]] && g1 == [[p, Empty], [Negate(p), Empty]]
    ensures Branch(Twin().(guess := g0), 0, 1, Neutral, false) == Outcome(0, g1)
  {
    var s := Twin().(guess := g0);
    assert Partner(s, 0, 1) == Coord(1, 1);
    var g := Put(Put(g0, 2, 2, 0, 1, Neutral), 2, 2, 1, 1, Neutral);
    assert g[0] == [p, Neutral];
    CountTwo(g[0], Neutral);
    CountTwo(g[0], Wall);
    var b := Put(Put(g, 2, 2, 0, 1, Empty), 2, 2, 1, 1, Empty);
    assert b[0] == g1[0] && b[1] == g1[1];
    assert b == g1;
    assert TrySet(s, 0, 1, Neutral) == Attempt(false, b);
  }
}

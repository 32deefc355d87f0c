/**
  Worked cases of the solver's rules: a puzzle with walls on which the
  satisfied rule, as written, decides a cell against the puzzle's only
  answer, and a line on which the need-all rule, as written, strikes the
  answer's Neutral from a cell that provides no pole.
*/
module SolverCases {
  import opened Common
  import opened Boards
  import opened Magnets
  import opened Cbs
  import opened Backtrack
  import opened BacktrackCases
  import opened Solver
  import opened SolverSound

  /** Holding over a line of three cells, spelled out. */
  lemma HoldingThree(l: seq<set<char>>, r: char)
    requires |l| == 3
    ensures Holding(l, r) == (if r in l[0] then 1 else 0) + (if r in l[1] then 1 else 0) + (if r in l[2] then 1 else 0)
  {
    assert l[..2][..1][..0] == [];
    assert l[..2][..1] == l[..1];
    assert Holding(l[..1], r) == (if r in l[0] then 1 else 0);
  }

  /** An answer value struck from the candidates of a domino cell is no longer open. */
  lemma Excluded(v: Solving, g: Grid, i: int, j: int)
    requires Fits(v) && IsRect(g, v.game.width, v.game.height) && InBounds(v.game.width, v.game.height, i, j)
    requires v.game.frames[i][j] != Wall && g[i][j] !in v.sets[i][j]
    ensures !Extends(v, g)
  {
    assert !Holds(v, g, i, j);
  }

  /** A decided cell that disagrees with an answer shuts that answer out. */
  lemma Contradicted(v: Solving, g: Grid, i: int, j: int)
    requires Fits(v) && IsRect(g, v.game.width, v.game.height) && InBounds(v.game.width, v.game.height, i, j)
    requires v.game.guess[i][j] != Empty && v.game.guess[i][j] != g[i][j]
    ensures !Extends(v, g)
  {
    assert !Holds(v, g, i, j);
  }

  // ---------------------------------------------------------------------------
  // satisfied counts the walls of a line as Neutral: "3x2:010,10,010,01,*TT*BB"

  /**
    The game Deserialize builds from "3x2:010,10,010,01,*TT*BB": a wall down
    column 0 and two vertical dominoes; row 0 asks for one +, row 1 for one - (CaseTexts.WalledText).
  */
  function Walled(): (s: State)
    ensures Shaped(s)
  {
    State(3, 2, [[Wall, Up, Up], [Wall, Down, Down]], WalledGrid(), WalledGrid(), [0, 1, 0], [1, 0], [0, 1, 0], [0, 1])
  }

  function WalledGrid(): Grid {
    [[Wall, Empty, Empty], [Wall, Empty, Empty]]
  }

  /** The puzzle's answer: + above - in column 1, # above # in column 2. */
  function WalledAnswer(): Grid {
    [[Wall, Positive, Neutral], [Wall, Negative, Neutral]]
  }

  /** The frames "*TT*BB" are two walls and two vertical dominoes. */
  lemma WalledFrames()
    ensures FramesComplete(Walled().frames, 3, 2)
  {
    var f := Walled().frames;
    forall i, j | InBounds(3, 2, i, j)
      ensures FrameOk(f, 3, 2, i, j)
    {
      var e := FrameEnd(f, 3, 2, i, j);
      if j == 0 {
        assert f[i][j] == Wall;
      } else if i == 0 && j == 1 {
        assert e == Coord(1, 1);
      } else if i == 0 {
        assert e == Coord(1, 2);
      } else if j == 1 {
        assert e == Coord(0, 1);
      } else {
        assert e == Coord(0, 2);
      }
    }
  }

  /** WalledAnswer answers the puzzle: a valid grid meeting every clue, walls only at the walls. */
  lemma WalledIsAnswer()
    ensures Answer(Walled(), WalledAnswer())
  {
    WalledValid();
    WalledSolved();
  }

  /** WalledAnswer, as a grid, is valid: opposite ends in each domino, no two like poles side by side. */
  lemma WalledValid()
    ensures ValidSpec(Walled().(guess := WalledAnswer()).(grid := WalledAnswer()))
  {
    WalledFrames();
    WalledPolarities();
    WalledApart();
    var g := WalledAnswer();
    assert forall i, j :: InBounds(3, 2, i, j) ==> GridSymbol(g[i][j]);
  }

  lemma WalledPolarities()
    ensures forall i, j :: InBounds(3, 2, i, j) ==> PolarityOk(Walled().frames, WalledAnswer(), 3, 2, i, j)
  {
    var g := WalledAnswer();
    var f := Walled().frames;
    forall i, j | InBounds(3, 2, i, j)
      ensures PolarityOk(f, g, 3, 2, i, j)
    {
      if i == 0 && j == 1 {
        assert FrameEnd(f, 3, 2, i, j) == Coord(1, 1);
      } else if i == 0 && j == 2 {
        assert FrameEnd(f, 3, 2, i, j) == Coord(1, 2);
      } else {
        assert f[i][j] != Up && f[i][j] != Left;
      }
    }
  }

  lemma WalledApart()
    ensures forall i, j :: InBounds(3, 2, i, j) ==> Apart(WalledAnswer(), 3, 2, i, j)
  {
    var g := WalledAnswer();
    assert At(g, 3, 2, -1, 1) == Border && At(g, 3, 2, 2, 1) == Border;
    assert At(g, 3, 2, 0, 0) == Wall && At(g, 3, 2, 0, 1) == Positive && At(g, 3, 2, 0, 2) == Neutral;
    assert At(g, 3, 2, 1, 0) == Wall && At(g, 3, 2, 1, 1) == Negative && At(g, 3, 2, 1, 2) == Neutral;
    assert Apart(g, 3, 2, 0, 1) && Apart(g, 3, 2, 1, 1);
    assert !IsPole(g[0][0]) && !IsPole(g[1][0]) && !IsPole(g[0][2]) && !IsPole(g[1][2]);
  }

  /** WalledAnswer meets the pole clues of every row and column. */
  lemma WalledSolved()
    ensures SolvedSpec(Walled().(guess := WalledAnswer()))
  {
    var g := WalledAnswer();
    var s := Walled().(guess := g);
    CountThree(g[0], Positive);
    CountThree(g[0], Negative);
    CountThree(g[1], Positive);
    CountThree(g[1], Negative);
    forall col | 0 <= col < 3
      ensures ColSolved(s, col)
    {
      CountTwo(Column(g, col), Positive);
      CountTwo(Column(g, col), Negative);
    }
  }

  /** Solve can run on the puzzle. */
  lemma WalledReady()
    ensures SolveReady(Walled()) && Ready(Solving(Walled(), LegacyInitial(Walled())))
  {
    WalledFrames();
    LegacyReady(Walled());
  }

  /** Solve's start keeps WalledAnswer open. */
  lemma WalledStart()
    ensures SolveReady(Walled())
    ensures Extends(Solving(Walled(), LegacyInitial(Walled())), WalledAnswer())
  {
    WalledFrames();
    WalledIsAnswer();
    StartSound(Walled(), WalledAnswer());
  }

  /**
    As written, the satisfied rule for # on row 0 of Solve's start finds a need
    of 3 - 1 - 0 = 2 Neutral cells, counting the wall among them, and two cells
    able to hold #; it commits # at (0, 1), where the only answer has +.
  */
  lemma WalledSatisfiedAsWritten()
    ensures var v := Solving(Walled(), LegacyInitial(Walled()));
      Ready(v) && Needed(Walled(), Row(0), Neutral, false) == 2 &&
      SatisfiedLine(v, Row(0), Neutral, false).game.guess[0][1] == Neutral &&
      !Extends(SatisfiedLine(v, Row(0), Neutral, false), WalledAnswer())
  {
    var s := Walled();
    var v := Solving(s, LegacyInitial(s));
    WalledStart();
    WalledNeed();
    WalledFill();
    var v' := SatisfiedLine(v, Row(0), Neutral, false);
    assert v' == FillLine(v, Row(0), Neutral, 0);
    Contradicted(v', WalledAnswer(), 0, 1);
  }

  /** Row 0 of Solve's start: a need of two # as written, and two cells able to hold #. */
  lemma WalledNeed()
    ensures var v := Solving(Walled(), LegacyInitial(Walled()));
      Ready(v) && Needed(Walled(), Row(0), Neutral, false) == 2 &&
      Holding(LineSets(v.sets, 3, 2, Row(0)), Neutral) == 2
  {
    var s := Walled();
    var v := Solving(s, LegacyInitial(s));
    WalledReady();
    WalledRowNeed();
    var sl := LineSets(v.sets, 3, 2, Row(0));
    assert sl[0] == {Wall} && sl[1] == Polarities && sl[2] == Polarities;
    HoldingThree(sl, Neutral);
  }

  /** As written, row 0 needs 3 - (1 + 0) = 2 Neutral cells, of which the guess has none yet. */
  lemma WalledRowNeed()
    ensures Needed(Walled(), Row(0), Neutral, false) == 2
  {
    var s := Walled();
    assert RowClue(s, 0, Neutral) == 2;
    CountThree(s.guess[0], Neutral);
    assert RowCount(s.guess, 3, 2, 0, Neutral) == 0;
  }

  /** Filling row 0 of Solve's start with # commits # at (0, 1). */
  lemma WalledFill()
    ensures var v := Solving(Walled(), LegacyInitial(Walled()));
      Ready(v) && FillLine(v, Row(0), Neutral, 0).game.guess[0][1] == Neutral
  {
    var s := Walled();
    var v := Solving(s, LegacyInitial(s));
    WalledReady();
    assert CellOf(Row(0), 1) == Coord(0, 1) && Neutral in v.sets[0][1];
    FillNeutral(v, Row(0), 0, 0, 1, 1);
  }

  /**
    Filling a line with # from i on leaves # in the guess at (row, col) when it
    was # already, or when it is the k-th cell of the line, k >= i, and # was
    among its candidates: the partner of a cell committed to # is # as well.
  */
  lemma {:induction false} FillNeutral(v: Solving, l: Line, i: int, row: int, col: int, k: int)
    requires Ready(v) && OnBoard(v.game, l) && 0 <= i && InBounds(v.game.width, v.game.height, row, col)
    requires v.game.guess[row][col] == Neutral ||
             (i <= k < Span(v.game, l) && CellOf(l, k) == Coord(row, col) && Neutral in v.sets[row][col])
    ensures FillLine(v, l, Neutral, i).game.guess[row][col] == Neutral
    decreases Span(v.game, l) - i
  {
    if i < Span(v.game, l) {
      var c := CellOf(l, i);
      var j := i + 1;
      if Neutral in v.sets[c.row][c.col] {
        assert CellReady(v, c.row, c.col);
        ReadyDomino(v, c.row, c.col);
        CommitKeeps(v, c.row, c.col, Neutral);
        NeutralCommit(v, l, i, row, col, k);
        var v1 := Commit(v, c.row, c.col, Neutral);
        FillNeutral(v1, l, j, row, col, k);
      } else {
        FillNeutral(v, l, j, row, col, k);
      }
    }
  }

  /** Committing # at the i-th cell of the line keeps FillNeutral's condition at (row, col) for the cells after it. */
  lemma NeutralCommit(v: Solving, l: Line, i: int, row: int, col: int, k: int)
    requires Fits(v) && OnBoard(v.game, l) && 0 <= i < Span(v.game, l) && InBounds(v.game.width, v.game.height, row, col)
    requires Domino(v.game, CellOf(l, i).row, CellOf(l, i).col)
    requires v.game.guess[row][col] == Neutral ||
             (i <= k < Span(v.game, l) && CellOf(l, k) == Coord(row, col) && Neutral in v.sets[row][col])
    ensures var v1 := Commit(v, CellOf(l, i).row, CellOf(l, i).col, Neutral);
      v1.game.guess[row][col] == Neutral ||
      (i + 1 <= k < Span(v.game, l) && CellOf(l, k) == Coord(row, col) && Neutral in v1.sets[row][col])
  {
  }

  /** Corrected, the rule leaves the wall out of the need (2 - 1 = 1 Neutral cell), and row 0 keeps the answer open. */
  lemma WalledSatisfiedIntended()
    ensures var v := Solving(Walled(), LegacyInitial(Walled()));
      Ready(v) && Needed(Walled(), Row(0), Neutral, true) == 1 &&
      Extends(SatisfiedLine(v, Row(0), Neutral, true), WalledAnswer())
  {
    var s := Walled();
    WalledStart();
    CountThree(s.guess[0], Neutral);
    CountThree(s.frames[0], Wall);
    SatisfiedLineSound(Solving(s, LegacyInitial(s)), WalledAnswer(), Row(0), Neutral);
  }

  // ---------------------------------------------------------------------------
  // needAll strikes # from cells that provide no pole

  /**
    A state on the frames "LRTLRB" with clues 110,11,110,11: row 1 decided
    + - on its left domino, row 0 still open.
  */
  function Needy(): (s: State)
    ensures Shaped(s)
  {
    State(3, 2, [[Left, Right, Up], [Left, Right, Down]], Blank3x2(), [[Empty, Empty, Empty], [Positive, Negative, Empty]],
          [1, 1, 0], [1, 1], [1, 1, 0], [1, 1])
  }

  /** Candidates that agree with the decided cells and with the answer below. */
  function NeedySets(): Sets {
    [[{Negative, Neutral}, {Positive, Neutral}, {Negative, Neutral}], [{Positive}, {Negative}, {Positive, Neutral}]]
  }

  /** The puzzle's answer: - + # over + - #. */
  function NeedyAnswer(): Grid {
    [[Negative, Positive, Neutral], [Positive, Negative, Neutral]]
  }

  /** NeedyAnswer, as a grid, is valid: opposite ends in each domino, no two like poles side by side. */
  lemma NeedyValid()
    ensures ValidSpec(Needy().(guess := NeedyAnswer()).(grid := NeedyAnswer()))
  {
    assert Needy().frames == Overcounted().frames;
    OvercountedFrames();
    NeedyPolarities();
    NeedyApart();
  }

  lemma NeedyPolarities()
    ensures forall i, j :: InBounds(3, 2, i, j) ==> PolarityOk(Needy().frames, NeedyAnswer(), 3, 2, i, j)
  {
    var g := NeedyAnswer();
    var f := Needy().frames;
    forall i, j | InBounds(3, 2, i, j)
      ensures PolarityOk(f, g, 3, 2, i, j)
    {
      if i == 0 && j == 0 {
        assert FrameEnd(f, 3, 2, i, j) == Coord(0, 1);
      } else if i == 1 && j == 0 {
        assert FrameEnd(f, 3, 2, i, j) == Coord(1, 1);
      } else if i == 0 && j == 2 {
        assert FrameEnd(f, 3, 2, i, j) == Coord(1, 2);
      } else {
        assert f[i][j] != Up && f[i][j] != Left;
      }
    }
  }

  lemma NeedyApart()
    ensures forall i, j :: InBounds(3, 2, i, j) ==> Apart(NeedyAnswer(), 3, 2, i, j)
  {
    var g := NeedyAnswer();
    assert At(g, 3, 2, -1, 0) == Border && At(g, 3, 2, -1, 1) == Border;
    assert At(g, 3, 2, 2, 0) == Border && At(g, 3, 2, 2, 1) == Border;
    assert At(g, 3, 2, 0, -1) == Border && At(g, 3, 2, 1, -1) == Border;
    assert At(g, 3, 2, 0, 0) == Negative && At(g, 3, 2, 0, 1) == Positive && At(g, 3, 2, 0, 2) == Neutral;
    assert At(g, 3, 2, 1, 0) == Positive && At(g, 3, 2, 1, 1) == Negative && At(g, 3, 2, 1, 2) == Neutral;
    assert Apart(g, 3, 2, 0, 0) && Apart(g, 3, 2, 0, 1) && Apart(g, 3, 2, 1, 0) && Apart(g, 3, 2, 1, 1);
    assert !IsPole(g[0][2]) && !IsPole(g[1][2]);
  }

  /** NeedyAnswer answers the puzzle: a valid grid meeting every clue, with a polarity in every cell. */
  lemma NeedyIsAnswer()
    ensures Answer(Needy(), NeedyAnswer())
  {
    var g := NeedyAnswer();
    NeedyValid();
    NeedySolved();
    NeedyComplete();
    assert IsRect(g, 3, 2);
  }

  /** NeedyAnswer has no wall and a polarity in every cell, as the walls of Needy ask. */
  lemma NeedyComplete()
    ensures Complete(Needy(), NeedyAnswer())
  {
    var g := NeedyAnswer();
    forall i, j | InBounds(3, 2, i, j)
      ensures Needy().frames[i][j] != Wall && g[i][j] in Polarities
    {
    }
  }

  /** NeedyAnswer meets the pole clues of every row and column. */
  lemma NeedySolved()
    ensures SolvedSpec(Needy().(guess := NeedyAnswer()))
  {
    var g := NeedyAnswer();
    var s := Needy().(guess := g);
    CountThree(g[0], Positive);
    CountThree(g[0], Negative);
    CountThree(g[1], Positive);
    CountThree(g[1], Negative);
    forall col | 0 <= col < 3
      ensures ColSolved(s, col)
    {
      CountTwo(Column(g, col), Positive);
      CountTwo(Column(g, col), Negative);
    }
  }

  /** The state keeps NeedyAnswer open: every answer value is a candidate and the decided cells hold it. */
  lemma NeedyExtends()
    ensures Extends(Solving(Needy(), NeedySets()), NeedyAnswer())
  {
    var v := Solving(Needy(), NeedySets());
    var g := NeedyAnswer();
    NeedyReady();
    NeedyIsAnswer();
    forall i, j | InBounds(3, 2, i, j)
      ensures Holds(v, g, i, j)
    {
      NeedyCell(i, j);
    }
  }

  /** The rules can run on the state: complete frames, and polarities as the candidates of its open cells. */
  lemma NeedyReady()
    ensures Ready(Solving(Needy(), NeedySets()))
  {
    var v := Solving(Needy(), NeedySets());
    assert Needy().frames == Overcounted().frames;
    OvercountedFrames();
    forall i, j | InBounds(3, 2, i, j)
      ensures CellReady(v, i, j)
    {
      NeedyCell(i, j);
    }
  }

  /** One cell of the state: a domino end whose candidates are polarities holding the answer, decided as the answer is. */
  lemma NeedyCell(i: int, j: int)
    requires InBounds(3, 2, i, j)
    ensures Needy().frames[i][j] != Wall
    ensures NeedySets()[i][j] <= Polarities && NeedyAnswer()[i][j] in NeedySets()[i][j]
    ensures Needy().guess[i][j] == Empty || Needy().guess[i][j] == NeedyAnswer()[i][j]
  {
    if i == 0 {
      assert Needy().guess[0][j] == Empty;
    } else if j == 0 {
      assert NeedySets()[1][0] == {Positive};
    } else if j == 1 {
      assert NeedySets()[1][1] == {Negative};
    } else {
      assert NeedySets()[1][2] == {Positive, Neutral};
    }
  }

  /**
    As written, the need-all rule for + on row 0 finds one + needed and one
    provided (by the domino at (0, 0)), and strikes # from every cell of the
    row: from (0, 2) too, whose vertical domino provides no + and holds # in
    the answer.
  */
  lemma NeedyAsWritten()
    ensures var v := Solving(Needy(), NeedySets());
      Ready(v) && Neutral !in NeedAllLine(v, Row(0), Positive, false).sets[0][2] &&
      !Extends(NeedAllLine(v, Row(0), Positive, false), NeedyAnswer())
  {
    var v := Solving(Needy(), NeedySets());
    NeedySetup(v);
    NeedyBalance(v);
    StrikesEveryNeutral(v, NeedyAnswer(), Row(0), Positive, 2);
  }

  /** Row 0 of the state is a paired line of three domino cells; its last cell is # in the answer. */
  lemma NeedySetup(v: Solving)
    requires v == Solving(Needy(), NeedySets())
    ensures Ready(v) && OnBoard(v.game, Row(0)) && Span(v.game, Row(0)) == 3
    ensures Paired(LineOf(v.game.frames, v.game.width, v.game.height, Row(0)), Lead(Row(0)), Trail(Row(0)))
    ensures IsRect(NeedyAnswer(), v.game.width, v.game.height)
    ensures v.game.frames[0][2] != Wall && NeedyAnswer()[0][2] == Neutral
  {
    NeedyReady();
    LinePaired(v.game, Row(0));
  }

  /** Row 0 needs as many + as it provides. */
  lemma NeedyBalance(v: Solving)
    requires v == Solving(Needy(), NeedySets())
    requires Paired(LineOf(v.game.frames, v.game.width, v.game.height, Row(0)), Lead(Row(0)), Trail(Row(0)))
    ensures Needed(v.game, Row(0), Positive, false) ==
            Provides(LineOf(v.game.frames, v.game.width, v.game.height, Row(0)), LineSets(v.sets, v.game.width, v.game.height, Row(0)),
                     Positive, Lead(Row(0)), Trail(Row(0)), Span(v.game, Row(0)))
  {
    NeedyNeed();
    NeedyProvides();
  }

  /**
    As written, a need equal to what a line provides strikes # from every cell
    of the line, so the rule shuts out every answer with # in a domino cell of
    that line, whatever the cell's domino provides.
  */
  lemma StrikesEveryNeutral(v: Solving, g: Grid, l: Line, cat: char, k: int)
    requires Ready(v) && OnBoard(v.game, l) && 0 <= k < Span(v.game, l)
    requires Paired(LineOf(v.game.frames, v.game.width, v.game.height, l), Lead(l), Trail(l))
    requires Needed(v.game, l, cat, false) ==
             Provides(LineOf(v.game.frames, v.game.width, v.game.height, l), LineSets(v.sets, v.game.width, v.game.height, l),
                      cat, Lead(l), Trail(l), Span(v.game, l))
    requires IsRect(g, v.game.width, v.game.height)
    requires v.game.frames[CellOf(l, k).row][CellOf(l, k).col] != Wall && g[CellOf(l, k).row][CellOf(l, k).col] == Neutral
    ensures Neutral !in NeedAllLine(v, l, cat, false).sets[CellOf(l, k).row][CellOf(l, k).col]
    ensures !Extends(NeedAllLine(v, l, cat, false), g)
  {
    var c := CellOf(l, k);
    Excluded(NeedAllLine(v, l, cat, false), g, c.row, c.col);
  }

  /** Row 0 asks for one + and its guess has none yet. */
  lemma NeedyNeed()
    ensures Needed(Needy(), Row(0), Positive, false) == 1
  {
    var s := Needy();
    CountThree(s.guess[0], Positive);
    assert RowCount(s.guess, 3, 2, 0, Positive) == 0;
  }

  /** On row 0, only the domino at (0, 0) can still take +, and provides counts it once. */
  lemma NeedyProvides()
    ensures var fl := LineOf(Needy().frames, 3, 2, Row(0));
      var sl := LineSets(NeedySets(), 3, 2, Row(0));
      Paired(fl, Left, Right) && Provides(fl, sl, Positive, Left, Right, 3) == 1 &&
      !Providing(fl, sl, Positive, Left, Right, 2)
  {
    var fl := LineOf(Needy().frames, 3, 2, Row(0));
    var sl := LineSets(NeedySets(), 3, 2, Row(0));
    assert fl == [Left, Right, Up];
    assert sl == [{Negative, Neutral}, {Positive, Neutral}, {Negative, Neutral}];
    RowZeroProvides(fl, sl);
  }

  /** Row 0 of the Needy state, as frame symbols and candidate sets. */
  lemma RowZeroProvides(fl: seq<char>, sl: seq<set<char>>)
    requires fl == [Left, Right, Up] && sl == [{Negative, Neutral}, {Positive, Neutral}, {Negative, Neutral}]
    ensures Paired(fl, Left, Right) && Provides(fl, sl, Positive, Left, Right, 3) == 1 &&
      !Providing(fl, sl, Positive, Left, Right, 2)
  {
    assert PairedAt(fl, Left, Right, 0) && PairedAt(fl, Left, Right, 1) && PairedAt(fl, Left, Right, 2);
    assert Unit(fl, sl, Positive, Left, Right, 0) == 1;
    assert Unit(fl, sl, Positive, Left, Right, 1) == 0;
    assert Unit(fl, sl, Positive, Left, Right, 2) == 0;
    assert Provides(fl, sl, Positive, Left, Right, 1) == 1;
    assert Provides(fl, sl, Positive, Left, Right, 2) == 1;
  }

  /** Corrected, the rule strikes # only from the cells of the domino at (0, 0), and row 0 keeps the answer open. */
  lemma NeedyIntended()
    ensures var v := Solving(Needy(), NeedySets());
      Ready(v) && Extends(NeedAllLine(v, Row(0), Positive, true), NeedyAnswer())
  {
    NeedyExtends();
    NeedAllLineSound(Solving(Needy(), NeedySets()), NeedyAnswer(), Row(0), Positive);
  }
}

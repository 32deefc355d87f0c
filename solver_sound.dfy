/**
  What the solver's rules preserve: every rule, in its corrected form, keeps
  each answer of the puzzle that agrees with the decided cells among the
  candidates, and decides cells only as that answer does. Solve therefore
  never contradicts a solution that agrees with its starting guess.
*/
module SolverSound {
  import opened Common
  import opened Boards
  import opened Magnets
  import opened Cbs
  import opened Backtrack
  import opened Solver

  // ---------------------------------------------------------------------------
  // Answers

  /** g is filled in: walls exactly where the frames have walls, and +, - or # in every domino end. */
  ghost predicate Complete(s: State, g: Grid)
    requires Shaped(s) && IsRect(g, s.width, s.height)
  {
    forall i, j :: InBounds(s.width, s.height, i, j) ==>
      (s.frames[i][j] == Wall <==> g[i][j] == Wall) && (s.frames[i][j] != Wall ==> g[i][j] in Polarities)
  }

  /** g is a filled-in solution of the puzzle s: valid as a grid and meeting every pole clue. */
  ghost predicate Answer(s: State, g: Grid)
    requires Shaped(s)
  {
    Solution(s, g) && Complete(s, g)
  }

  /** The cell (i, j) of v is as Extends requires: the answer is a candidate, and a decided cell holds the answer. */
  ghost predicate Holds(v: Solving, g: Grid, i: int, j: int)
    requires Fits(v) && IsRect(g, v.game.width, v.game.height) && InBounds(v.game.width, v.game.height, i, j)
  {
    (v.game.frames[i][j] != Wall ==> g[i][j] in v.sets[i][j]) &&
    (v.game.guess[i][j] != Empty ==> v.game.guess[i][j] == g[i][j])
  }

  /** The answer g is still open to the solver in v: nothing decided or struck contradicts it. */
  ghost predicate Extends(v: Solving, g: Grid) {
    Ready(v) && Answer(v.game, g) &&
    forall i, j {:trigger Holds(v, g, i, j)} :: InBounds(v.game.width, v.game.height, i, j) ==> Holds(v, g, i, j)
  }

  /** Whether g answers the puzzle does not depend on the guess. */
  lemma AnswerSame(v: Solving, v': Solving, g: Grid)
    requires Fits(v) && Fits(v') && Same(v, v') && Answer(v.game, g)
    ensures Answer(v'.game, g)
  {
    assert v'.game.(guess := g) == v.game.(guess := g);
  }

  /** The two ends of a domino hold opposite values in an answer. */
  lemma AnswerPartner(s: State, g: Grid, row: int, col: int)
    requires Shaped(s) && Answer(s, g) && Domino(s, row, col)
    ensures var e := FrameEnd(s.frames, s.width, s.height, row, col);
      g[e.row][e.col] == Negate(g[row][col])
  {
    var t := s.(guess := g).(grid := g);
    assert ValidSpec(t);
    PartnerSymmetric(s.frames, s.width, s.height, row, col);
    var e := FrameEnd(s.frames, s.width, s.height, row, col);
    if s.frames[row][col] == Up || s.frames[row][col] == Left {
      assert PolarityOk(t.frames, g, s.width, s.height, row, col);
    } else {
      assert PolarityOk(t.frames, g, s.width, s.height, e.row, e.col);
      NegateInvolution(g[e.row][e.col]);
    }
  }

  /** Striking candidates that are not the answer keeps the answer open. */
  lemma ExtendsShrink(v: Solving, v': Solving, g: Grid)
    requires Extends(v, g) && Fits(v') && Shrinks(v, v')
    requires forall i, j :: InBounds(v.game.width, v.game.height, i, j) && v.game.frames[i][j] != Wall ==> g[i][j] in v'.sets[i][j]
    ensures Extends(v', g)
  {
    ShrinkKeeps(v, v');
    forall i, j | InBounds(v.game.width, v.game.height, i, j)
      ensures Holds(v', g, i, j)
    {
      assert Holds(v, g, i, j);
    }
  }

  /** Committing the answer's value at a domino keeps the answer open. */
  lemma CommitSound(v: Solving, g: Grid, row: int, col: int)
    requires Extends(v, g) && Domino(v.game, row, col)
    ensures g[row][col] in Polarities
    ensures Extends(Commit(v, row, col, g[row][col]), g)
  {
    var s := v.game;
    var r := g[row][col];
    var v' := Commit(v, row, col, r);
    var e := FrameEnd(s.frames, s.width, s.height, row, col);
    AnswerPartner(s, g, row, col);
    PartnerSymmetric(s.frames, s.width, s.height, row, col);
    CommitKeeps(v, row, col, r);
    AnswerSame(v, v', g);
    forall i, j | InBounds(s.width, s.height, i, j)
      ensures Holds(v', g, i, j)
    {
      assert Holds(v, g, i, j);
    }
  }

  // ---------------------------------------------------------------------------
  // justOne

  /** justOne commits only the answer's values. */
  lemma {:induction false} JustOneSound(v: Solving, g: Grid, row: int, col: int)
    requires Extends(v, g) && 0 <= row && 0 <= col
    ensures Extends(JustOneFrom(v, row, col), g)
    decreases v.game.height - row, v.game.width - col, 1
  {
    if row >= v.game.height {
      JustOneStep(v, row, col);
    } else if col >= v.game.width {
      JustOneSound(v, g, row + 1, 0);
      JustOneStep(v, row, col);
    } else if v.game.guess[row][col] == Empty && |v.sets[row][col]| == 1 {
      JustOneSoundAtCommit(v, g, row, col);
    } else {
      JustOneSound(v, g, row, col + 1);
      JustOneStep(v, row, col);
    }
  }

  /** justOne past the board, at a row's end, or at a cell it does not commit. */
  lemma JustOneStep(v: Solving, row: int, col: int)
    requires Ready(v) && 0 <= row && 0 <= col
    ensures row >= v.game.height ==> JustOneFrom(v, row, col) == v
    ensures row < v.game.height && col >= v.game.width ==> JustOneFrom(v, row, col) == JustOneFrom(v, row + 1, 0)
    ensures InBounds(v.game.width, v.game.height, row, col) &&
            !(v.game.guess[row][col] == Empty && |v.sets[row][col]| == 1) ==>
            JustOneFrom(v, row, col) == JustOneFrom(v, row, col + 1)
  {
  }

  /** JustOneSound at a cell justOne commits: its one candidate is the answer's value. */
  lemma {:induction false} JustOneSoundAtCommit(v: Solving, g: Grid, row: int, col: int)
    requires Extends(v, g) && InBounds(v.game.width, v.game.height, row, col)
    requires v.game.guess[row][col] == Empty && |v.sets[row][col]| == 1
    ensures Extends(JustOneFrom(v, row, col), g)
    decreases v.game.height - row, v.game.width - col, 0
  {
    var r := Solver.Only(v.sets[row][col]);
    JustOneCommit(v, row, col);
    assert Holds(v, g, row, col);
    assert g[row][col] == r;
    CommitSound(v, g, row, col);
    var v', j := Commit(v, row, col, r), col + 1;
    JustOneSound(v', g, row, j);
  }

  // ---------------------------------------------------------------------------
  // resolveNeighbors

  /** The frame rule at one domino end strikes only values the answer's partner does not hold. */
  lemma FrameStepSound(v: Solving, g: Grid, row: int, col: int)
    requires Extends(v, g) && InBounds(v.game.width, v.game.height, row, col) && v.game.frames[row][col] != Wall
    ensures var s := v.game;
      var e := FrameEnd(s.frames, s.width, s.height, row, col);
      InBounds(s.width, s.height, e.row, e.col) &&
      Extends(v.(sets := Assign(v.sets, s.width, s.height, e.row, e.col, v.sets[e.row][e.col] - Mirror(v.sets[row][col]))), g)
  {
    var s := v.game;
    ReadyDomino(v, row, col);
    var e := FrameEnd(s.frames, s.width, s.height, row, col);
    var v1 := v.(sets := Assign(v.sets, s.width, s.height, e.row, e.col, v.sets[e.row][e.col] - Mirror(v.sets[row][col])));
    AnswerPartner(s, g, row, col);
    assert Holds(v, g, row, col) && Holds(v, g, e.row, e.col);
    assert g[e.row][e.col] !in Mirror(v.sets[row][col]);
    forall i, j | InBounds(s.width, s.height, i, j) && s.frames[i][j] != Wall
      ensures g[i][j] in v1.sets[i][j]
    {
      assert Holds(v, g, i, j);
    }
    ExtendsShrink(v, v1, g);
  }

  /** The frame rule keeps the answer open. */
  lemma {:induction false} FramePassSound(v: Solving, g: Grid, row: int, col: int)
    requires Extends(v, g) && 0 <= row && 0 <= col
    ensures Extends(FramePassFrom(v, row, col), g)
    decreases v.game.height - row, v.game.width - col, 1
  {
    if row >= v.game.height {
      FramePassStep(v, row, col);
    } else if col >= v.game.width {
      FramePassWrapSound(v, g, row, col);
    } else {
      FramePassCellSound(v, g, row, col);
    }
  }

  /** FramePassSound at the end of a row: the rule goes on from the next row. */
  lemma {:induction false} FramePassWrapSound(v: Solving, g: Grid, row: int, col: int)
    requires Extends(v, g) && 0 <= row < v.game.height && v.game.width <= col
    ensures Extends(FramePassFrom(v, row, col), g)
    decreases v.game.height - row, v.game.width - col, 0
  {
    FramePassSound(v, g, row + 1, 0);
    FramePassStep(v, row, col);
  }

  /** FramePassSound at a cell of the board: its step, then the rest of the row. */
  lemma {:induction false} FramePassCellSound(v: Solving, g: Grid, row: int, col: int)
    requires Extends(v, g) && InBounds(v.game.width, v.game.height, row, col)
    ensures Extends(FramePassFrom(v, row, col), g)
    decreases v.game.height - row, v.game.width - col, 0
  {
    FrameNextSound(v, g, row, col);
    FramePassSound(FrameNext(v, row, col), g, row, col + 1);
  }

  /** The frame rule past the board and at a row's end. */
  lemma FramePassStep(v: Solving, row: int, col: int)
    requires Ready(v) && 0 <= row && 0 <= col
    ensures row >= v.game.height ==> FramePassFrom(v, row, col) == v
    ensures row < v.game.height && col >= v.game.width ==> FramePassFrom(v, row, col) == FramePassFrom(v, row + 1, 0)
  {
  }

  /** The state after the frame rule's step at (row, col): the partner of a domino end loses the mirror of its candidates. */
  ghost function FrameNext(v: Solving, row: int, col: int): (v': Solving)
    requires Ready(v) && InBounds(v.game.width, v.game.height, row, col)
    ensures Ready(v') && v'.game == v.game && FramePassFrom(v, row, col) == FramePassFrom(v', row, col + 1)
  {
    var s := v.game;
    assert FrameOk(s.frames, s.width, s.height, row, col);
    var e := FrameEnd(s.frames, s.width, s.height, row, col);
    if e == Coord(-1, -1) then v
    else
      assert CellReady(v, row, col);
      ReadyDomino(v, row, col);
      var v1 := v.(sets := Assign(v.sets, s.width, s.height, e.row, e.col, v.sets[e.row][e.col] - Mirror(v.sets[row][col])));
      ShrinkKeeps(v, v1);
      v1
  }

  /** The frame rule's step at (row, col) keeps the answer open. */
  lemma FrameNextSound(v: Solving, g: Grid, row: int, col: int)
    requires Extends(v, g) && InBounds(v.game.width, v.game.height, row, col)
    ensures Extends(FrameNext(v, row, col), g)
  {
    var s := v.game;
    assert FrameOk(s.frames, s.width, s.height, row, col);
    if FrameEnd(s.frames, s.width, s.height, row, col) != Coord(-1, -1) {
      FrameStepSound(v, g, row, col);
    }
  }

  /** No orthogonal neighbour of a cell holds, in the guess, the pole the answer puts in the cell. */
  lemma NotNeighbourPole(v: Solving, g: Grid, i: int, j: int)
    requires Extends(v, g) && InBounds(v.game.width, v.game.height, i, j)
    ensures g[i][j] !in NeighbourPoles(v.game.guess, v.game.width, v.game.height, i, j, 4)
  {
    forall k | 0 <= k < 4
      ensures !IsPole(g[i][j]) || At(v.game.guess, v.game.width, v.game.height, i + Adjacents[k].row, j + Adjacents[k].col) != g[i][j]
    {
      NotBeside(v, g, i, j, k);
    }
  }

  /** The k-th neighbour of a cell does not hold, in the guess, the pole the answer puts in the cell. */
  lemma NotBeside(v: Solving, g: Grid, i: int, j: int, k: int)
    requires Extends(v, g) && InBounds(v.game.width, v.game.height, i, j) && 0 <= k < 4
    ensures !IsPole(g[i][j]) || At(v.game.guess, v.game.width, v.game.height, i + Adjacents[k].row, j + Adjacents[k].col) != g[i][j]
  {
    var s := v.game;
    var r, c := i + Adjacents[k].row, j + Adjacents[k].col;
    if InBounds(s.width, s.height, r, c) {
      assert Holds(v, g, r, c);
      AnswerApart(s, g, r, c);
    }
    PolesApart(s, g, i, j, k);
  }

  /**
    A pole of g is never beside the same pole where g keeps poles apart, so a
    neighbour whose guess, when set, is g's value does not hold the pole of the cell.
  */
  lemma PolesApart(s: State, g: Grid, i: int, j: int, k: int)
    requires Shaped(s) && IsRect(g, s.width, s.height) && InBounds(s.width, s.height, i, j) && 0 <= k < 4
    requires var r, c := i + Adjacents[k].row, j + Adjacents[k].col;
      InBounds(s.width, s.height, r, c) ==>
        Apart(g, s.width, s.height, r, c) && (s.guess[r][c] != Empty ==> s.guess[r][c] == g[r][c])
    ensures !IsPole(g[i][j]) || At(s.guess, s.width, s.height, i + Adjacents[k].row, j + Adjacents[k].col) != g[i][j]
  {
    var r, c := i + Adjacents[k].row, j + Adjacents[k].col;
    if InBounds(s.width, s.height, r, c) {
      AdjacentsBack(s.width, s.height, g, i, j, k);
    }
  }

  /** No two orthogonal neighbours hold the same pole in an answer. */
  lemma AnswerApart(s: State, g: Grid, row: int, col: int)
    requires Shaped(s) && Answer(s, g) && InBounds(s.width, s.height, row, col)
    ensures IsRect(g, s.width, s.height) && Apart(g, s.width, s.height, row, col)
  {
    assert ValidSpec(s.(guess := g).(grid := g));
  }

  /** A cell is among the orthogonal neighbours of each of its orthogonal neighbours. */
  lemma AdjacentsBack(w: int, h: int, g: Grid, i: int, j: int, k: int)
    requires IsRect(g, w, h) && InBounds(w, h, i, j) && 0 <= k < 4
    requires InBounds(w, h, i + Adjacents[k].row, j + Adjacents[k].col)
    ensures var n := Coord(i + Adjacents[k].row, j + Adjacents[k].col);
      Apart(g, w, h, n.row, n.col) && IsPole(g[n.row][n.col]) ==> g[i][j] != g[n.row][n.col]
  {
  }

  /** resolveNeighbors keeps the answer open. */
  lemma ResolveNeighborsSound(v: Solving, g: Grid)
    requires Extends(v, g)
    ensures Extends(ResolveNeighbors(v), g)
  {
    FramePassSound(v, g, 0, 0);
    var v1 := FramePassFrom(v, 0, 0);
    forall i, j | InBounds(v.game.width, v.game.height, i, j) && v.game.frames[i][j] != Wall
      ensures g[i][j] in AdjacencyFrom(v1, 0, 0).sets[i][j]
    {
      assert Holds(v1, g, i, j);
      NotNeighbourPole(v1, g, i, j);
    }
    ExtendsShrink(v1, AdjacencyFrom(v1, 0, 0), g);
  }

  // ---------------------------------------------------------------------------
  // Counting along a line

  /** Two lines that hold x and y at the same places count them equally. */
  lemma {:induction false} CountMatch(a: seq<char>, b: seq<char>, x: char, y: char)
    requires |a| == |b| && forall i :: 0 <= i < |a| ==> (a[i] == x <==> b[i] == y)
    ensures Count(a, x) == Count(b, y)
  {
    if a != [] {
      CountMatch(a[..|a| - 1], b[..|b| - 1], x, y);
    }
  }

  /**
    The need of a line for cat (what the answer has less what the guess has)
    is at most the number of cells that can still hold cat, and when the two
    are equal every cell that can hold cat holds it in the answer.
  */
  lemma {:induction false} LineSlack(al: seq<char>, gl: seq<char>, sl: seq<set<char>>, cat: char)
    requires |al| == |gl| == |sl|
    requires forall i :: 0 <= i < |al| && al[i] == cat ==> cat in sl[i]
    requires forall i :: 0 <= i < |al| && gl[i] == cat ==> al[i] == cat
    ensures Count(al, cat) - Count(gl, cat) <= Holding(sl, cat)
    ensures Count(al, cat) - Count(gl, cat) == Holding(sl, cat) ==> forall i :: 0 <= i < |al| && cat in sl[i] ==> al[i] == cat
  {
    if al != [] {
      var n := |al| - 1;
      LineSlack(al[..n], gl[..n], sl[..n], cat);
    }
  }

  /** The cells of a line, in the answer, the guess and the candidates, as LineSlack relates them. */
  lemma LineFacts(v: Solving, g: Grid, l: Line, cat: char)
    requires Extends(v, g) && OnBoard(v.game, l) && cat in Polarities
    ensures var s := v.game;
      var al := LineOf(g, s.width, s.height, l);
      var gl := LineOf(s.guess, s.width, s.height, l);
      var sl := LineSets(v.sets, s.width, s.height, l);
      (forall i :: 0 <= i < |al| && al[i] == cat ==> cat in sl[i]) &&
      (forall i :: 0 <= i < |al| && gl[i] == cat ==> al[i] == cat)
  {
    var s := v.game;
    forall i | 0 <= i < Span(s, l)
      ensures Holds(v, g, CellOf(l, i).row, CellOf(l, i).col)
    {
    }
  }

  /** A line of an answer meets the line's pole clues. */
  lemma AnswerLineClues(v: Solving, g: Grid, l: Line)
    requires Extends(v, g) && OnBoard(v.game, l)
    ensures var s := v.game;
      var al := LineOf(g, s.width, s.height, l);
      Count(al, Positive) == (if l.Row? then s.rowPos[l.index] else s.colPos[l.index]) &&
      Count(al, Negative) == (if l.Row? then s.rowNeg[l.index] else s.colNeg[l.index])
  {
    var s := v.game;
    assert SolvedSpec(s.(guess := g));
    if l.Row? {
      assert RowSolved(s.(guess := g), l.index);
    } else {
      assert ColSolved(s.(guess := g), l.index);
    }
  }

  /** A line of an answer holds only +, -, # and walls, the walls where the frames have them. */
  lemma AnswerLineSymbols(v: Solving, g: Grid, l: Line)
    requires Extends(v, g) && OnBoard(v.game, l)
    ensures var s := v.game;
      var al := LineOf(g, s.width, s.height, l);
      var fl := LineOf(s.frames, s.width, s.height, l);
      forall i :: 0 <= i < |al| ==> GridSymbol(al[i]) && al[i] != Empty && (al[i] == Wall <==> fl[i] == Wall)
  {
    var s := v.game;
    var al := LineOf(g, s.width, s.height, l);
    forall i | 0 <= i < |al|
      ensures GridSymbol(al[i]) && al[i] != Empty
    {
      var c := CellOf(l, i);
      assert c.row < s.height && c.col < s.width;
    }
  }

  /** The # a line of an answer holds: its length less its poles and its walls. */
  lemma NeutralsInLine(al: seq<char>, fl: seq<char>)
    requires |al| == |fl|
    requires forall i :: 0 <= i < |al| ==> GridSymbol(al[i]) && al[i] != Empty && (al[i] == Wall <==> fl[i] == Wall)
    ensures Count(al, Neutral) == |al| - (Count(al, Positive) + Count(al, Negative)) - Count(fl, Wall)
  {
    CountPartition(al);
    CountMatch(al, fl, Wall, Wall);
    CountMatch(al, al, Empty, Border);
  }

  /**
    In an answer a line holds its clue's number of cat, the walls counted
    apart for #, so the corrected need is the answer's count less the guess's.
  */
  lemma NeededInAnswer(v: Solving, g: Grid, l: Line, cat: char)
    requires Extends(v, g) && OnBoard(v.game, l) && cat in Polarities
    ensures var s := v.game;
      Needed(s, l, cat, true) == Count(LineOf(g, s.width, s.height, l), cat) - Count(LineOf(s.guess, s.width, s.height, l), cat)
  {
    var s := v.game;
    AnswerLineClues(v, g, l);
    if cat == Neutral {
      AnswerLineSymbols(v, g, l);
      NeutralsInLine(LineOf(g, s.width, s.height, l), LineOf(s.frames, s.width, s.height, l));
    }
  }

  // ---------------------------------------------------------------------------
  // satisfied

  /** Every cell of the line from i on that can still hold cat holds it in the answer. */
  ghost predicate FillOk(v: Solving, g: Grid, l: Line, cat: char, i: int)
    requires SetsShape(v.sets, v.game.width, v.game.height) && IsRect(g, v.game.width, v.game.height) && OnBoard(v.game, l)
  {
    var sl := LineSets(v.sets, v.game.width, v.game.height, l);
    var al := LineOf(g, v.game.width, v.game.height, l);
    forall k :: 0 <= k < |sl| && i <= k && cat in sl[k] ==> al[k] == cat
  }

  /** The satisfied rule's commits keep the answer open when every cell they reach holds cat in the answer. */
  lemma {:induction false} FillLineSound(v: Solving, g: Grid, l: Line, cat: char, i: int)
    requires Extends(v, g) && OnBoard(v.game, l) && cat in Polarities && 0 <= i && FillOk(v, g, l, cat, i)
    ensures Extends(FillLine(v, l, cat, i), g)
    decreases Span(v.game, l) - i
  {
    if i < Span(v.game, l) {
      FillNextSound(v, g, l, cat, i);
      FillLineSound(FillNext(v, l, cat, i), g, l, cat, i + 1);
    } else {
      FillLineStep(v, l, cat, i);
    }
  }

  /** The state after the satisfied rule's step at the i-th cell of the line: a commit of cat where cat is a candidate. */
  ghost function FillNext(v: Solving, l: Line, cat: char, i: int): (v': Solving)
    requires Ready(v) && OnBoard(v.game, l) && cat in Polarities && 0 <= i < Span(v.game, l)
    ensures Ready(v') && Same(v, v') && FillLine(v, l, cat, i) == FillLine(v', l, cat, i + 1)
  {
    var c := CellOf(l, i);
    if cat in v.sets[c.row][c.col] then
      FillCommit(v, l, cat, i);
      Commit(v, c.row, c.col, cat)
    else
      FillLineStep(v, l, cat, i);
      v
  }

  /** The satisfied rule's step at the i-th cell keeps the answer open, and every later cell that can hold cat holds it in the answer. */
  lemma FillNextSound(v: Solving, g: Grid, l: Line, cat: char, i: int)
    requires Extends(v, g) && OnBoard(v.game, l) && cat in Polarities && 0 <= i < Span(v.game, l) && FillOk(v, g, l, cat, i)
    ensures Extends(FillNext(v, l, cat, i), g) && FillOk(FillNext(v, l, cat, i), g, l, cat, i + 1)
  {
    var c := CellOf(l, i);
    if cat in v.sets[c.row][c.col] {
      FillCommit(v, l, cat, i);
      var al := LineOf(g, v.game.width, v.game.height, l);
      assert g[c.row][c.col] == cat by { assert al[i] == cat; }
      CommitSound(v, g, c.row, c.col);
      FillStepSound(v, g, l, cat, i, Commit(v, c.row, c.col, cat));
    }
  }

  /** The line fill past the line's end, and at a cell that cannot hold cat. */
  lemma FillLineStep(v: Solving, l: Line, cat: char, i: int)
    requires Ready(v) && OnBoard(v.game, l) && 0 <= i && cat in Polarities
    ensures i >= Span(v.game, l) ==> FillLine(v, l, cat, i) == v
    ensures i < Span(v.game, l) && cat !in v.sets[CellOf(l, i).row][CellOf(l, i).col] ==>
            FillLine(v, l, cat, i) == FillLine(v, l, cat, i + 1)
  {
  }

  /** After a commit of the satisfied rule, the cells after it that can hold cat still hold cat in the answer. */
  lemma FillStepSound(v: Solving, g: Grid, l: Line, cat: char, i: int, v': Solving)
    requires Fits(v) && Answer(v.game, g) && IsRect(g, v.game.width, v.game.height)
    requires OnBoard(v.game, l) && cat in Polarities && 0 <= i < Span(v.game, l) && FillOk(v, g, l, cat, i)
    requires Domino(v.game, CellOf(l, i).row, CellOf(l, i).col) && g[CellOf(l, i).row][CellOf(l, i).col] == cat
    requires v' == Commit(v, CellOf(l, i).row, CellOf(l, i).col, cat)
    ensures FillOk(v', g, l, cat, i + 1)
  {
    var c := CellOf(l, i);
    AnswerPartner(v.game, g, c.row, c.col);
  }

  /** The corrected satisfied rule on one line keeps the answer open. */
  lemma SatisfiedLineSound(v: Solving, g: Grid, l: Line, cat: char)
    requires Extends(v, g) && OnBoard(v.game, l) && cat in Polarities
    ensures Extends(SatisfiedLine(v, l, cat, true), g)
  {
    var s := v.game;
    var al := LineOf(g, s.width, s.height, l);
    var sl := LineSets(v.sets, s.width, s.height, l);
    if Needed(s, l, cat, true) == Holding(sl, cat) {
      NeededInAnswer(v, g, l, cat);
      LineFacts(v, g, l, cat);
      LineSlack(al, LineOf(s.guess, s.width, s.height, l), sl, cat);
      assert FillOk(v, g, l, cat, 0);
      FillLineSound(v, g, l, cat, 0);
    }
  }

  /** The corrected satisfied rule on every row or every column from k on keeps the answer open. */
  lemma {:induction false} SatisfiedFromSound(v: Solving, g: Grid, rows: bool, k: int, cat: char)
    requires Extends(v, g) && 0 <= k && cat in Polarities
    ensures Extends(SatisfiedFrom(v, rows, k, cat, true), g)
    decreases (if rows then v.game.height else v.game.width) - k
  {
    if k < (if rows then v.game.height else v.game.width) {
      var l, j := LineAt(rows, k), k + 1;
      SatisfiedLineSound(v, g, l, cat);
      var v1 := SatisfiedLine(v, l, cat, true);
      SatisfiedFromSound(v1, g, rows, j, cat);
      SatisfiedFromStep(v, rows, k, j, cat);
    }
  }

  /** SatisfiedFrom from k is the rule on line k followed by SatisfiedFrom from j = k + 1. */
  lemma SatisfiedFromStep(v: Solving, rows: bool, k: int, j: int, cat: char)
    requires Ready(v) && 0 <= k < (if rows then v.game.height else v.game.width) && j == k + 1 && cat in Polarities
    ensures SatisfiedFrom(v, rows, k, cat, true) == SatisfiedFrom(SatisfiedLine(v, LineAt(rows, k), cat, true), rows, j, cat, true)
  {
  }

  /** The corrected satisfiedCBS keeps the answer open. */
  lemma SatisfiedSound(v: Solving, g: Grid)
    requires Extends(v, g)
    ensures Extends(Satisfied(v, true), g)
  {
    SatisfiedFromSound(v, g, true, 0, Positive);
    var v1 := SatisfiedFrom(v, true, 0, Positive, true);
    SatisfiedFromSound(v1, g, false, 0, Positive);
    var v2 := SatisfiedPass(v, Positive, true);
    SatisfiedFromSound(v2, g, true, 0, Negative);
    var v3 := SatisfiedFrom(v2, true, 0, Negative, true);
    SatisfiedFromSound(v3, g, false, 0, Negative);
    var v4 := SatisfiedPass(v2, Negative, true);
    SatisfiedFromSound(v4, g, true, 0, Neutral);
    var v5 := SatisfiedFrom(v4, true, 0, Neutral, true);
    SatisfiedFromSound(v5, g, false, 0, Neutral);
  }

  // ---------------------------------------------------------------------------
  // needAll

  /** A line of symbols as candidate sets of one value each, so that Provides counts the dominoes that hold cat. */
  function Singletons(xl: seq<char>): (sl: seq<set<char>>)
    ensures |sl| == |xl| && forall i :: 0 <= i < |xl| ==> sl[i] == {xl[i]}
  {
    seq(|xl|, i requires 0 <= i < |xl| => {xl[i]})
  }

  /** The answer line al and the guess line gl agree with the candidate line sl as an answer does. */
  ghost predicate LineAgrees(al: seq<char>, gl: seq<char>, sl: seq<set<char>>, cat: char) {
    |al| == |gl| == |sl| &&
    forall i :: 0 <= i < |al| ==> (al[i] == cat ==> cat in sl[i]) && (gl[i] == cat ==> al[i] == cat)
  }

  /** The two ends of each domino along the line hold opposite values. */
  ghost predicate DominoPoles(fl: seq<char>, al: seq<char>, lead: char) {
    |fl| == |al| &&
    forall i :: 0 <= i < |fl| - 1 && fl[i] == lead ==> al[i + 1] == Negate(al[i]) && al[i] == Negate(al[i + 1])
  }

  /** Counted domino by domino, a line that never holds cat at both ends of one domino holds Count(xl, cat) of it. */
  lemma {:induction false} DominoCount(fl: seq<char>, xl: seq<char>, cat: char, lead: char, trail: char, n: int)
    requires |fl| == |xl| && Paired(fl, lead, trail) && lead != trail && 0 <= n <= |fl|
    requires forall i :: 0 <= i < |fl| - 1 && fl[i] == lead ==> !(xl[i] == cat && xl[i + 1] == cat)
    ensures Provides(fl, Singletons(xl), cat, lead, trail, n) ==
      Count(xl[..n], cat) + (if 0 < n < |fl| && fl[n - 1] == lead && xl[n] == cat then 1 else 0)
  {
    if n > 0 {
      var m := n - 1;
      DominoCount(fl, xl, cat, lead, trail, m);
      assert xl[..n][..m] == xl[..m];
      assert PairedAt(fl, lead, trail, m);
      if m > 0 {
        assert PairedAt(fl, lead, trail, m - 1);
      }
    }
  }

  /** A unit the answer fills is still open in the candidates, and a unit the guess fills is filled in the answer. */
  lemma UnitOrder(fl: seq<char>, al: seq<char>, gl: seq<char>, sl: seq<set<char>>, cat: char, lead: char, trail: char, i: int)
    requires |fl| == |al| && LineAgrees(al, gl, sl, cat) && Paired(fl, lead, trail) && 0 <= i < |fl|
    ensures Unit(fl, Singletons(gl), cat, lead, trail, i) <= Unit(fl, Singletons(al), cat, lead, trail, i) <= Unit(fl, sl, cat, lead, trail, i)
  {
    assert PairedAt(fl, lead, trail, i);
  }

  /** What provides counts beyond the answer's need, over the first n cells. */
  ghost function Slack(fl: seq<char>, al: seq<char>, gl: seq<char>, sl: seq<set<char>>, cat: char, lead: char, trail: char, n: int): int
    requires |fl| == |al| && LineAgrees(al, gl, sl, cat) && Paired(fl, lead, trail) && 0 <= n <= |fl|
  {
    Provides(fl, sl, cat, lead, trail, n) - Provides(fl, Singletons(al), cat, lead, trail, n) + Provides(fl, Singletons(gl), cat, lead, trail, n)
  }

  /** What the unit at i counts beyond the answer's need. */
  ghost function Gap(fl: seq<char>, al: seq<char>, gl: seq<char>, sl: seq<set<char>>, cat: char, lead: char, trail: char, i: int): int
    requires |fl| == |al| && LineAgrees(al, gl, sl, cat) && Paired(fl, lead, trail) && 0 <= i < |fl|
  {
    Unit(fl, sl, cat, lead, trail, i) - Unit(fl, Singletons(al), cat, lead, trail, i) + Unit(fl, Singletons(gl), cat, lead, trail, i)
  }

  /** The slack is a sum of gaps none of which is negative, so it bounds each of them. */
  lemma {:induction false} SlackBounds(fl: seq<char>, al: seq<char>, gl: seq<char>, sl: seq<set<char>>, cat: char, lead: char, trail: char, n: int)
    requires |fl| == |al| && LineAgrees(al, gl, sl, cat) && Paired(fl, lead, trail) && 0 <= n <= |fl|
    ensures 0 <= Slack(fl, al, gl, sl, cat, lead, trail, n)
    ensures forall i :: 0 <= i < n ==> 0 <= Gap(fl, al, gl, sl, cat, lead, trail, i) <= Slack(fl, al, gl, sl, cat, lead, trail, n)
  {
    if n > 0 {
      SlackBounds(fl, al, gl, sl, cat, lead, trail, n - 1);
      UnitOrder(fl, al, gl, sl, cat, lead, trail, n - 1);
    }
  }

  /**
    On a line whose pole need (the answer's count of cat less the guess's)
    equals provides, every cell counted in provides holds a pole in the answer.
  */
  lemma ProvidingPoles(fl: seq<char>, al: seq<char>, gl: seq<char>, sl: seq<set<char>>, cat: char, lead: char, trail: char)
    requires LineAgrees(al, gl, sl, cat) && DominoPoles(fl, al, lead) && Paired(fl, lead, trail) && lead != trail && IsPole(cat)
    requires Count(al, cat) - Count(gl, cat) == Provides(fl, sl, cat, lead, trail, |fl|)
    ensures forall i :: 0 <= i < |fl| && Providing(fl, sl, cat, lead, trail, i) ==> al[i] != Neutral
  {
    ZeroSlack(fl, al, gl, sl, cat, lead, trail);
    SlackBounds(fl, al, gl, sl, cat, lead, trail, |fl|);
    ProvidingEvery(fl, al, gl, sl, cat, lead, trail);
  }

  /** When the need equals provides, provides counts nothing beyond what the answer still needs: the slack is zero. */
  lemma ZeroSlack(fl: seq<char>, al: seq<char>, gl: seq<char>, sl: seq<set<char>>, cat: char, lead: char, trail: char)
    requires LineAgrees(al, gl, sl, cat) && DominoPoles(fl, al, lead) && Paired(fl, lead, trail) && lead != trail && IsPole(cat)
    requires Count(al, cat) - Count(gl, cat) == Provides(fl, sl, cat, lead, trail, |fl|)
    ensures Slack(fl, al, gl, sl, cat, lead, trail, |fl|) == 0
  {
    var n := |fl|;
    DominoCount(fl, al, cat, lead, trail, n);
    DominoCount(fl, gl, cat, lead, trail, n);
    assert al[..n] == al && gl[..n] == gl;
  }

  /** With no gap above zero, every cell counted in provides holds a pole in the answer. */
  lemma ProvidingEvery(fl: seq<char>, al: seq<char>, gl: seq<char>, sl: seq<set<char>>, cat: char, lead: char, trail: char)
    requires LineAgrees(al, gl, sl, cat) && DominoPoles(fl, al, lead) && Paired(fl, lead, trail) && lead != trail && IsPole(cat)
    requires forall k :: 0 <= k < |fl| ==> Gap(fl, al, gl, sl, cat, lead, trail, k) <= 0
    ensures forall i :: 0 <= i < |fl| && Providing(fl, sl, cat, lead, trail, i) ==> al[i] != Neutral
  {
    forall i | 0 <= i < |fl| && Providing(fl, sl, cat, lead, trail, i)
      ensures al[i] != Neutral
    {
      ProvidingPole(fl, al, gl, sl, cat, lead, trail, i);
    }
  }

  /** A cell counted in provides, in a unit without slack, holds a pole in the answer. */
  lemma ProvidingPole(fl: seq<char>, al: seq<char>, gl: seq<char>, sl: seq<set<char>>, cat: char, lead: char, trail: char, i: int)
    requires LineAgrees(al, gl, sl, cat) && DominoPoles(fl, al, lead) && Paired(fl, lead, trail) && lead != trail && IsPole(cat)
    requires 0 <= i < |fl| && Providing(fl, sl, cat, lead, trail, i)
    requires forall k :: 0 <= k < |fl| ==> Gap(fl, al, gl, sl, cat, lead, trail, k) <= 0
    ensures al[i] != Neutral
  {
    assert PairedAt(fl, lead, trail, i);
    var m := if fl[i] == trail then i - 1 else i;
    assert Gap(fl, al, gl, sl, cat, lead, trail, m) <= 0;
    UnitOrder(fl, al, gl, sl, cat, lead, trail, m);
    assert PairedAt(fl, lead, trail, m);
  }

  /** In an answer the two ends of each domino along a line hold opposite values. */
  lemma AnswerLinePoles(v: Solving, g: Grid, l: Line)
    requires Extends(v, g) && OnBoard(v.game, l)
    ensures var s := v.game;
      DominoPoles(LineOf(s.frames, s.width, s.height, l), LineOf(g, s.width, s.height, l), Lead(l))
  {
    var s := v.game;
    var fl := LineOf(s.frames, s.width, s.height, l);
    var al := LineOf(g, s.width, s.height, l);
    forall i | 0 <= i < |fl| - 1 && fl[i] == Lead(l)
      ensures al[i + 1] == Negate(al[i]) && al[i] == Negate(al[i + 1])
    {
      var c := CellOf(l, i);
      PartnerSymmetric(s.frames, s.width, s.height, c.row, c.col);
      var e := FrameEnd(s.frames, s.width, s.height, c.row, c.col);
      assert e == CellOf(l, i + 1);
      AnswerPartner(s, g, c.row, c.col);
      NegateInvolution(al[i]);
    }
  }

  /** Every cell of the line counted in provides holds a pole in the answer. */
  ghost predicate KeepsPoles(s: State, g: Grid, l: Line, cat: char, sl: seq<set<char>>)
    requires Shaped(s) && IsRect(g, s.width, s.height) && OnBoard(s, l) && |sl| == Span(s, l)
    requires Paired(LineOf(s.frames, s.width, s.height, l), Lead(l), Trail(l))
  {
    var fl := LineOf(s.frames, s.width, s.height, l);
    var al := LineOf(g, s.width, s.height, l);
    forall k :: 0 <= k < |sl| && Providing(fl, sl, cat, Lead(l), Trail(l), k) ==> al[k] != Neutral
  }

  /** The corrected strike of # keeps the answer open when the cells it reaches hold poles in the answer. */
  lemma {:induction false} DropFromSound(v: Solving, g: Grid, l: Line, cat: char, sl: seq<set<char>>, i: int)
    requires Extends(v, g) && OnBoard(v.game, l) && 0 <= i && |sl| == Span(v.game, l)
    requires Paired(LineOf(v.game.frames, v.game.width, v.game.height, l), Lead(l), Trail(l))
    requires KeepsPoles(v.game, g, l, cat, sl)
    ensures Extends(DropFrom(v, l, cat, true, sl, i), g)
    decreases Span(v.game, l) - i
  {
    if i < Span(v.game, l) {
      var j := i + 1;
      var v1 := DropNext(v, l, cat, sl, i);
      if Providing(LineOf(v.game.frames, v.game.width, v.game.height, l), sl, cat, Lead(l), Trail(l), i) {
        DropStepSound(v, g, l, cat, sl, i);
      }
      DropFromSound(v1, g, l, cat, sl, j);
      DropFromNext(v, g, l, cat, sl, i, j);
    }
  }

  /** The state after the corrected strike at the i-th cell of the line. */
  ghost function DropNext(v: Solving, l: Line, cat: char, sl: seq<set<char>>, i: int): (v': Solving)
    requires Ready(v) && OnBoard(v.game, l) && 0 <= i < Span(v.game, l) && |sl| == Span(v.game, l)
    requires Paired(LineOf(v.game.frames, v.game.width, v.game.height, l), Lead(l), Trail(l))
    ensures Ready(v') && Shrinks(v, v')
  {
    var c := CellOf(l, i);
    if Providing(LineOf(v.game.frames, v.game.width, v.game.height, l), sl, cat, Lead(l), Trail(l), i) then
      var v1 := v.(sets := Remove(v.sets, v.game.width, v.game.height, c.row, c.col, Neutral));
      ShrinkKeeps(v, v1);
      v1
    else v
  }

  /** The corrected strike from i on is the strike at i followed by the strike from j = i + 1 on. */
  lemma DropFromNext(v: Solving, g: Grid, l: Line, cat: char, sl: seq<set<char>>, i: int, j: int)
    requires Ready(v) && OnBoard(v.game, l) && 0 <= i < Span(v.game, l) && j == i + 1 && |sl| == Span(v.game, l)
    requires Paired(LineOf(v.game.frames, v.game.width, v.game.height, l), Lead(l), Trail(l))
    requires Extends(DropFrom(DropNext(v, l, cat, sl, i), l, cat, true, sl, j), g)
    ensures Extends(DropFrom(v, l, cat, true, sl, i), g)
  {
  }

  /** Striking # at a cell counted in provides keeps the answer open. */
  lemma DropStepSound(v: Solving, g: Grid, l: Line, cat: char, sl: seq<set<char>>, i: int)
    requires Extends(v, g) && OnBoard(v.game, l) && 0 <= i < Span(v.game, l) && |sl| == Span(v.game, l)
    requires Paired(LineOf(v.game.frames, v.game.width, v.game.height, l), Lead(l), Trail(l))
    requires KeepsPoles(v.game, g, l, cat, sl) && Providing(LineOf(v.game.frames, v.game.width, v.game.height, l), sl, cat, Lead(l), Trail(l), i)
    ensures var s := v.game;
      Extends(v.(sets := Remove(v.sets, s.width, s.height, CellOf(l, i).row, CellOf(l, i).col, Neutral)), g)
  {
    var s := v.game;
    var c := CellOf(l, i);
    var v1 := v.(sets := Remove(v.sets, s.width, s.height, c.row, c.col, Neutral));
    assert g[c.row][c.col] != Neutral by {
      assert LineOf(g, s.width, s.height, l)[i] != Neutral;
    }
    forall i', j' | InBounds(s.width, s.height, i', j') && s.frames[i'][j'] != Wall
      ensures g[i'][j'] in v1.sets[i'][j']
    {
      assert Holds(v, g, i', j');
    }
    ExtendsShrink(v, v1, g);
  }

  /** The corrected need-all rule on one line keeps the answer open. */
  lemma NeedAllLineSound(v: Solving, g: Grid, l: Line, cat: char)
    requires Extends(v, g) && OnBoard(v.game, l) && IsPole(cat)
    ensures Extends(NeedAllLine(v, l, cat, true), g)
  {
    var s := v.game;
    var fl := LineOf(s.frames, s.width, s.height, l);
    var al := LineOf(g, s.width, s.height, l);
    var gl := LineOf(s.guess, s.width, s.height, l);
    var sl := LineSets(v.sets, s.width, s.height, l);
    LinePaired(s, l);
    if Needed(s, l, cat, true) == Provides(fl, sl, cat, Lead(l), Trail(l), |fl|) {
      NeededInAnswer(v, g, l, cat);
      LineFacts(v, g, l, cat);
      AnswerLinePoles(v, g, l);
      ProvidingPoles(fl, al, gl, sl, cat, Lead(l), Trail(l));
      assert KeepsPoles(s, g, l, cat, sl);
      DropFromSound(v, g, l, cat, sl, 0);
    }
  }

  /** The corrected need-all rule on every row or every column from k on keeps the answer open. */
  lemma {:induction false} NeedAllFromSound(v: Solving, g: Grid, rows: bool, k: int, cat: char)
    requires Extends(v, g) && 0 <= k && IsPole(cat)
    ensures Extends(NeedAllFrom(v, rows, k, cat, true), g)
    decreases (if rows then v.game.height else v.game.width) - k
  {
    if k < (if rows then v.game.height else v.game.width) {
      var l, j := LineAt(rows, k), k + 1;
      NeedAllLineSound(v, g, l, cat);
      var v1 := NeedAllLine(v, l, cat, true);
      NeedAllFromSound(v1, g, rows, j, cat);
      NeedAllFromStep(v, rows, k, j, cat);
    }
  }

  /** The corrected need-all rule from line k on is the rule on line k, then from line j = k + 1 on. */
  lemma NeedAllFromStep(v: Solving, rows: bool, k: int, j: int, cat: char)
    requires Ready(v) && 0 <= k < (if rows then v.game.height else v.game.width) && j == k + 1
    ensures NeedAllFrom(v, rows, k, cat, true) == NeedAllFrom(NeedAllLine(v, LineAt(rows, k), cat, true), rows, j, cat, true)
  {
  }

  /** The corrected needAllCBS keeps the answer open. */
  lemma NeedAllSound(v: Solving, g: Grid)
    requires Extends(v, g)
    ensures Extends(NeedAll(v, true), g)
  {
    NeedAllFromSound(v, g, true, 0, Positive);
    var v1 := NeedAllFrom(v, true, 0, Positive, true);
    NeedAllFromSound(v1, g, false, 0, Positive);
    var v2 := NeedAllPass(v, Positive, true);
    NeedAllFromSound(v2, g, true, 0, Negative);
    var v3 := NeedAllFrom(v2, true, 0, Negative, true);
    NeedAllFromSound(v3, g, false, 0, Negative);
  }

  // ---------------------------------------------------------------------------
  // Solve

  /** A round of the corrected rules keeps the answer open. */
  lemma RoundSound(v: Solving, g: Grid)
    requires Extends(v, g)
    ensures Extends(Round(v, true), g)
  {
    JustOneSound(v, g, 0, 0);
    var v1 := JustOneFrom(v, 0, 0);
    SatisfiedSound(v1, g);
    var v2 := Satisfied(v1, true);
    ResolveNeighborsSound(v2, g);
    NeedAllSound(ResolveNeighbors(v2), g);
  }

  /** Any number of rounds of the corrected rules keeps the answer open. */
  lemma {:induction false} RoundsSound(v: Solving, g: Grid, n: nat)
    requires Extends(v, g)
    ensures Extends(Rounds(v, n, true), g)
    decreases n
  {
    if n > 0 {
      var m: nat := n - 1;
      RoundSound(v, g);
      RoundsSound(Round(v, true), g, m);
      RoundsStep(v, m, true);
    }
  }

  /** Solve's starting candidates keep open every answer that agrees with the starting guess. */
  lemma StartSound(s: State, g: Grid)
    requires SolveReady(s) && Answer(s, g)
    requires forall i, j :: InBounds(s.width, s.height, i, j) && s.guess[i][j] != Empty ==> s.guess[i][j] == g[i][j]
    ensures Extends(Solving(s, LegacyInitial(s)), g)
  {
    var v := Solving(s, LegacyInitial(s));
    LegacyReady(s);
    forall i, j | InBounds(s.width, s.height, i, j)
      ensures Holds(v, g, i, j)
    {
    }
  }

  /**
    With the corrected rules, Solve run on a puzzle with an answer that agrees
    with the starting guess decides every cell as that answer does, and keeps
    the answer among the candidates of every cell it leaves open.
  */
  lemma SolveSound(s: State, g: Grid)
    requires SolveReady(s) && Answer(s, g)
    requires forall i, j :: InBounds(s.width, s.height, i, j) && s.guess[i][j] != Empty ==> s.guess[i][j] == g[i][j]
    ensures Extends(SolveSpec(s, true), g)
    ensures var t := SolveSpec(s, true).game;
      forall i, j :: InBounds(s.width, s.height, i, j) && t.guess[i][j] != Empty ==> t.guess[i][j] == g[i][j]
  {
    var v := Solving(s, LegacyInitial(s));
    StartSound(s, g);
    RoundsSound(v, g, RoundLimit);
    var t := SolveSpec(s, true);
    forall i, j | InBounds(s.width, s.height, i, j) && t.game.guess[i][j] != Empty
      ensures t.game.guess[i][j] == g[i][j]
    {
      assert Holds(t, g, i, j);
    }
  }
}

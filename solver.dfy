/**
  The constraint-based solver: starting from the candidate sets, rounds of local
  deduction rules commit dominoes whose value is forced and strike candidates
  that cannot occur. Every rule is a function on a Solving value (the
  specification) and a method on the game and its CBS object (the code).
  The flag `intended` selects the corrected rules (see satisfied and need-all);
  the methods follow the code as written, with intended == false.
*/
module Solver {
  import opened Common
  import opened Boards
  import opened Magnets
  import opened Cbs
  import opened Backtrack

  // ---------------------------------------------------------------------------
  // What the rules rely on

  /**
    The rules index safely: frames are complete, a wall's candidates are at
    most {Wall}, and an undecided (Empty) cell is a domino end whose
    candidates are polarities.
  */
  ghost predicate Ready(v: Solving) {
    Fits(v) && FramesComplete(v.game.frames, v.game.width, v.game.height) &&
    forall i, j {:trigger CellReady(v, i, j)} :: InBounds(v.game.width, v.game.height, i, j) ==> CellReady(v, i, j)
  }

  /** The cell (i, j) as Ready requires it. */
  ghost predicate CellReady(v: Solving, i: int, j: int)
    requires Fits(v) && InBounds(v.game.width, v.game.height, i, j)
  {
    (v.game.frames[i][j] == Wall ==> v.sets[i][j] <= {Wall}) &&
    (v.game.guess[i][j] == Empty ==> v.game.frames[i][j] != Wall && v.sets[i][j] <= Polarities)
  }

  /** v' has the game of v, except perhaps for the guess. */
  ghost predicate Same(v: Solving, v': Solving) {
    var s, s' := v.game, v'.game;
    s'.width == s.width && s'.height == s.height && s'.frames == s.frames && s'.grid == s.grid &&
    s'.colPos == s.colPos && s'.rowPos == s.rowPos && s'.colNeg == s.colNeg && s'.rowNeg == s.rowNeg
  }

  /** v' has the game of v and every candidate set of v' is within that of v. */
  ghost predicate Shrinks(v: Solving, v': Solving)
    requires Fits(v) && Fits(v')
  {
    v'.game == v.game &&
    forall i, j :: InBounds(v.game.width, v.game.height, i, j) ==> v'.sets[i][j] <= v.sets[i][j]
  }

  /** A cell that is not a wall is a domino end whose partner is on the board. */
  lemma ReadyDomino(v: Solving, row: int, col: int)
    requires Ready(v) && InBounds(v.game.width, v.game.height, row, col) && v.game.frames[row][col] != Wall
    ensures Domino(v.game, row, col)
  {
    PartnerSymmetric(v.game.frames, v.game.width, v.game.height, row, col);
  }

  /** Committing a polarity keeps the rules safe and keeps decided cells and candidates in agreement. */
  lemma CommitKeeps(v: Solving, row: int, col: int, r: char)
    requires Ready(v) && Domino(v.game, row, col) && r in Polarities
    ensures Ready(Commit(v, row, col, r)) && Same(v, Commit(v, row, col, r))
    ensures Agrees(v) ==> Agrees(Commit(v, row, col, r))
    ensures OnlyExpected(v) ==> OnlyExpected(Commit(v, row, col, r))
  {
    PartnerSymmetric(v.game.frames, v.game.width, v.game.height, row, col);
    var v' := Commit(v, row, col, r);
    forall i, j | InBounds(v.game.width, v.game.height, i, j)
      ensures CellReady(v', i, j)
    {
      assert CellReady(v, i, j);
    }
  }

  /** Striking candidates keeps the rules safe and keeps decided cells and candidates in agreement. */
  lemma ShrinkKeeps(v: Solving, v': Solving)
    requires Ready(v) && Fits(v') && Shrinks(v, v')
    ensures Ready(v')
    ensures Agrees(v) ==> Agrees(v')
    ensures OnlyExpected(v) ==> OnlyExpected(v')
  {
    forall i, j | InBounds(v.game.width, v.game.height, i, j)
      ensures CellReady(v', i, j)
    {
      assert CellReady(v, i, j);
    }
  }

  /** The one member of a singleton set. */
  function Only(s: set<char>): (x: char)
    requires |s| == 1
    ensures s == {x}
  {
    var x :| x in s;
    assert |s - {x}| == 0;
    x
  }

  // ---------------------------------------------------------------------------
  // justOne: an undecided cell with a single candidate is committed to it

  /** justOneCBS from (row, col) on, in row-major order; a cell is looked at only if it is still Empty when reached. */
  function JustOneFrom(v: Solving, row: int, col: int): (v': Solving)
    requires Ready(v) && 0 <= row && 0 <= col
    ensures Ready(v') && Same(v, v')
    ensures Agrees(v) ==> Agrees(v')
    ensures OnlyExpected(v) ==> OnlyExpected(v')
    decreases v.game.height - row, v.game.width - col
  {
    if row >= v.game.height then v
    else if col >= v.game.width then JustOneFrom(v, row + 1, 0)
    else if v.game.guess[row][col] == Empty && |v.sets[row][col]| == 1 then
      var r := Only(v.sets[row][col]);
      assert CellReady(v, row, col);
      ReadyDomino(v, row, col);
      CommitKeeps(v, row, col, r);
      JustOneFrom(Commit(v, row, col, r), row, col + 1)
    else
      JustOneFrom(v, row, col + 1)
  }

  /** A commit decides its cell and leaves decided cells decided. */
  lemma CommitDecides(v: Solving, row: int, col: int, r: char, i: int, j: int)
    requires Ready(v) && Domino(v.game, row, col) && r in Polarities && InBounds(v.game.width, v.game.height, i, j)
    requires v.game.guess[i][j] != Empty || (i == row && j == col)
    ensures Commit(v, row, col, r).game.guess[i][j] != Empty
  {
  }

  /** A cell a commit leaves undecided keeps its candidates. */
  lemma CommitElsewhere(v: Solving, row: int, col: int, r: char, i: int, j: int)
    requires Ready(v) && Domino(v.game, row, col) && r in Polarities && InBounds(v.game.width, v.game.height, i, j)
    requires Commit(v, row, col, r).game.guess[i][j] == Empty
    ensures Commit(v, row, col, r).sets[i][j] == v.sets[i][j]
  {
  }

  /** The step justOne takes at an undecided cell with one candidate: a commit the rules can go on from. */
  lemma JustOneCommit(v: Solving, row: int, col: int)
    requires Ready(v) && InBounds(v.game.width, v.game.height, row, col)
    requires v.game.guess[row][col] == Empty && |v.sets[row][col]| == 1
    ensures Domino(v.game, row, col) && Only(v.sets[row][col]) in Polarities
    ensures Ready(Commit(v, row, col, Only(v.sets[row][col])))
    ensures JustOneFrom(v, row, col) == JustOneFrom(Commit(v, row, col, Only(v.sets[row][col])), row, col + 1)
  {
    var r := Only(v.sets[row][col]);
    assert CellReady(v, row, col);
    ReadyDomino(v, row, col);
    CommitKeeps(v, row, col, r);
  }

  /** justOne never makes a decided cell undecided again. */
  lemma {:induction false} StaysDecided(v: Solving, row: int, col: int, i: int, j: int)
    requires Ready(v) && 0 <= row && 0 <= col
    requires InBounds(v.game.width, v.game.height, i, j) && v.game.guess[i][j] != Empty
    ensures JustOneFrom(v, row, col).game.guess[i][j] != Empty
    decreases v.game.height - row, v.game.width - col, 1
  {
    if row >= v.game.height {
    } else if col >= v.game.width {
      StaysDecided(v, row + 1, 0, i, j);
    } else if v.game.guess[row][col] == Empty && |v.sets[row][col]| == 1 {
      StaysDecidedAfterCommit(v, row, col, i, j);
    } else {
      StaysDecided(v, row, col + 1, i, j);
    }
  }

  /** StaysDecided at a cell justOne commits. */
  lemma {:induction false} StaysDecidedAfterCommit(v: Solving, row: int, col: int, i: int, j: int)
    requires Ready(v) && InBounds(v.game.width, v.game.height, row, col)
    requires v.game.guess[row][col] == Empty && |v.sets[row][col]| == 1
    requires InBounds(v.game.width, v.game.height, i, j) && v.game.guess[i][j] != Empty
    ensures JustOneFrom(v, row, col).game.guess[i][j] != Empty
    decreases v.game.height - row, v.game.width - col, 0
  {
    var r := Only(v.sets[row][col]);
    JustOneCommit(v, row, col);
    CommitDecides(v, row, col, r, i, j);
    StaysDecided(Commit(v, row, col, r), row, col + 1, i, j);
  }

  /** After justOne no cell that was undecided with a single candidate remains undecided. */
  lemma {:induction false} JustOneDecides(v: Solving, row: int, col: int, i: int, j: int)
    requires Ready(v) && 0 <= row && 0 <= col <= v.game.width
    requires InBounds(v.game.width, v.game.height, i, j) && (i > row || (i == row && j >= col))
    requires v.game.guess[i][j] == Empty && |v.sets[i][j]| == 1
    ensures JustOneFrom(v, row, col).game.guess[i][j] != Empty
    decreases v.game.height - row, v.game.width - col
  {
    if col >= v.game.width {
      JustOneDecides(v, row + 1, 0, i, j);
    } else if v.game.guess[row][col] == Empty && |v.sets[row][col]| == 1 {
      var r := Only(v.sets[row][col]);
      JustOneCommit(v, row, col);
      var v1 := Commit(v, row, col, r);
      if v1.game.guess[i][j] != Empty {
        StaysDecided(v1, row, col + 1, i, j);
      } else {
        CommitElsewhere(v, row, col, r, i, j);
        JustOneDecides(v1, row, col + 1, i, j);
      }
    } else {
      JustOneDecides(v, row, col + 1, i, j);
    }
  }

  // ---------------------------------------------------------------------------
  // resolveNeighbors: the frame rule and the adjacency rule

  /** What the partner of a cell whose candidates are S cannot be: the opposite of each polarity S lacks. */
  function Mirror(S: set<char>): (m: set<char>)
    ensures m <= Polarities
    ensures forall r :: r in Polarities ==> (Negate(r) in m <==> r !in S)
  {
    (if Positive in S then {} else {Negative}) + (if Negative in S then {} else {Positive}) +
    (if Neutral in S then {} else {Neutral})
  }

  /** The frame rule from (row, col) on, in row-major order: walls are skipped, each other cell prunes its partner. */
  function FramePassFrom(v: Solving, row: int, col: int): (v': Solving)
    requires Ready(v) && 0 <= row && 0 <= col
    ensures Fits(v') && Shrinks(v, v') && Ready(v')
    decreases v.game.height - row, v.game.width - col
  {
    var s := v.game;
    if row >= s.height then v
    else if col >= s.width then FramePassFrom(v, row + 1, 0)
    else
      assert FrameOk(s.frames, s.width, s.height, row, col);
      var e := FrameEnd(s.frames, s.width, s.height, row, col);
      if e == Coord(-1, -1) then FramePassFrom(v, row, col + 1)
      else
        assert CellReady(v, row, col);
        ReadyDomino(v, row, col);
        var v1 := v.(sets := Assign(v.sets, s.width, s.height, e.row, e.col, v.sets[e.row][e.col] - Mirror(v.sets[row][col])));
        ShrinkKeeps(v, v1);
        var v' := FramePassFrom(v1, row, col + 1);
        v'
  }

  /** A pole as a one-element set; anything else as the empty set. */
  function PoleAt(x: char): (p: set<char>)
    ensures x in p <==> IsPole(x)
    ensures p <= {x}
  {
    if IsPole(x) then {x} else {}
  }

  /** The poles the guess holds in the first n orthogonal neighbours of (row, col). */
  function NeighbourPoles(g: Grid, w: int, h: int, row: int, col: int, n: int): (p: set<char>)
    requires IsRect(g, w, h) && 0 <= n <= |Adjacents|
    ensures forall x :: x in p <==>
      IsPole(x) && exists k :: 0 <= k < n && At(g, w, h, row + Adjacents[k].row, col + Adjacents[k].col) == x
  {
    if n == 0 then {}
    else
      var q := NeighbourPoles(g, w, h, row, col, n - 1);
      var x := At(g, w, h, row + Adjacents[n - 1].row, col + Adjacents[n - 1].col);
      q + PoleAt(x)
  }

  /** The adjacency rule from (row, col) on: a cell loses every pole an orthogonal neighbour of the guess holds. */
  function AdjacencyFrom(v: Solving, row: int, col: int): (v': Solving)
    requires Ready(v) && 0 <= row && 0 <= col
    ensures Fits(v') && Shrinks(v, v') && Ready(v')
    ensures forall i, j :: InBounds(v.game.width, v.game.height, i, j) ==>
      v'.sets[i][j] == if i > row || (i == row && j >= col)
        then v.sets[i][j] - NeighbourPoles(v.game.guess, v.game.width, v.game.height, i, j, 4)
        else v.sets[i][j]
    decreases v.game.height - row, v.game.width - col
  {
    var s := v.game;
    if row >= s.height then v
    else if col >= s.width then AdjacencyFrom(v, row + 1, 0)
    else
      var v1 := v.(sets := Assign(v.sets, s.width, s.height, row, col, v.sets[row][col] - NeighbourPoles(s.guess, s.width, s.height, row, col, 4)));
      ShrinkKeeps(v, v1);
      AdjacencyFrom(v1, row, col + 1)
  }

  /** resolveNeighborsCBS: the frame rule over every cell, then the adjacency rule over every cell. */
  function ResolveNeighbors(v: Solving): (v': Solving)
    requires Ready(v)
    ensures Fits(v') && Shrinks(v, v') && Ready(v')
  {
    var v1 := FramePassFrom(v, 0, 0);
    AdjacencyFrom(v1, 0, 0)
  }

  /** After resolveNeighbors no candidate set holds a pole that an orthogonal neighbour of the guess holds. */
  lemma NoPoleBesideItself(v: Solving, i: int, j: int, k: int)
    requires Ready(v) && InBounds(v.game.width, v.game.height, i, j) && 0 <= k < 4
    requires IsPole(At(v.game.guess, v.game.width, v.game.height, i + Adjacents[k].row, j + Adjacents[k].col))
    ensures At(v.game.guess, v.game.width, v.game.height, i + Adjacents[k].row, j + Adjacents[k].col) !in ResolveNeighbors(v).sets[i][j]
  {
    var x := At(v.game.guess, v.game.width, v.game.height, i + Adjacents[k].row, j + Adjacents[k].col);
    assert x in NeighbourPoles(v.game.guess, v.game.width, v.game.height, i, j, 4);
  }

  // ---------------------------------------------------------------------------
  // Lines

  /** A row or a column of the board. */
  datatype Line = Row(index: int) | Col(index: int)

  /** The i-th cell along a line. */
  function CellOf(l: Line, i: int): Coord {
    if l.Row? then Coord(l.index, i) else Coord(i, l.index)
  }

  /** The number of cells along a line. */
  function Span(s: State, l: Line): int {
    if l.Row? then s.width else s.height
  }

  predicate OnBoard(s: State, l: Line) {
    0 <= l.index < (if l.Row? then s.height else s.width)
  }

  /** The symbols of a grid along a line. */
  function LineOf(g: Grid, w: int, h: int, l: Line): (x: seq<char>)
    requires IsRect(g, w, h) && 0 <= l.index < (if l.Row? then h else w)
    ensures |x| == (if l.Row? then w else h)
    ensures forall i :: 0 <= i < |x| ==> x[i] == g[CellOf(l, i).row][CellOf(l, i).col]
  {
    if l.Row? then g[l.index] else Column(g, l.index)
  }

  /** The candidate sets along a line. */
  function LineSets(c: Sets, w: int, h: int, l: Line): (x: seq<set<char>>)
    requires SetsShape(c, w, h) && 0 <= l.index < (if l.Row? then h else w)
    ensures |x| == (if l.Row? then w else h)
    ensures forall i :: 0 <= i < |x| ==> x[i] == c[CellOf(l, i).row][CellOf(l, i).col]
  {
    if l.Row? then c[l.index] else SetsColumn(c, l.index)
  }

  /** The first and second end of a domino lying along the line. */
  function Lead(l: Line): char { if l.Row? then Left else Up }
  function Trail(l: Line): char { if l.Row? then Right else Down }

  /** rowNeeds or colNeeds; with intended set, the Neutral need leaves the line's walls out. */
  function Needed(s: State, l: Line, r: char, intended: bool): int
    requires Shaped(s) && OnBoard(s, l)
  {
    (if l.Row? then RowNeeds(s, l.index, r) else ColNeeds(s, l.index, r)) -
    (if intended && r == Neutral then Count(LineOf(s.frames, s.width, s.height, l), Wall) else 0)
  }

  // ---------------------------------------------------------------------------
  // satisfied: a line whose need for a value equals the cells still able to
  // hold it has all of them committed to it

  /** Commits cat at every cell of the line from i on whose candidates include it. */
  function FillLine(v: Solving, l: Line, cat: char, i: int): (v': Solving)
    requires Ready(v) && OnBoard(v.game, l) && 0 <= i && cat in Polarities
    ensures Ready(v') && Same(v, v')
    ensures Agrees(v) ==> Agrees(v')
    ensures OnlyExpected(v) ==> OnlyExpected(v')
    decreases Span(v.game, l) - i
  {
    if i >= Span(v.game, l) then v
    else
      var c := CellOf(l, i);
      if cat in v.sets[c.row][c.col] then
        assert CellReady(v, c.row, c.col);
        ReadyDomino(v, c.row, c.col);
        CommitKeeps(v, c.row, c.col, cat);
        FillLine(Commit(v, c.row, c.col, cat), l, cat, i + 1)
      else FillLine(v, l, cat, i + 1)
  }

  /** The satisfied rule on one line. */
  function SatisfiedLine(v: Solving, l: Line, cat: char, intended: bool): (v': Solving)
    requires Ready(v) && OnBoard(v.game, l) && cat in Polarities
    ensures Ready(v') && Same(v, v')
    ensures Agrees(v) ==> Agrees(v')
    ensures OnlyExpected(v) ==> OnlyExpected(v')
  {
    if Needed(v.game, l, cat, intended) == Holding(LineSets(v.sets, v.game.width, v.game.height, l), cat)
    then FillLine(v, l, cat, 0) else v
  }

  /** The line with index k of the kind named by rows. */
  function LineAt(rows: bool, k: int): Line {
    if rows then Row(k) else Col(k)
  }

  /** The satisfied rule on every row (rows) or every column from index k on. */
  function SatisfiedFrom(v: Solving, rows: bool, k: int, cat: char, intended: bool): (v': Solving)
    requires Ready(v) && 0 <= k && cat in Polarities
    ensures Ready(v') && Same(v, v')
    ensures Agrees(v) ==> Agrees(v')
    ensures OnlyExpected(v) ==> OnlyExpected(v')
    decreases (if rows then v.game.height else v.game.width) - k
  {
    if k >= (if rows then v.game.height else v.game.width) then v
    else SatisfiedFrom(SatisfiedLine(v, LineAt(rows, k), cat, intended), rows, k + 1, cat, intended)
  }

  /** satisfiedCBS for one category: rows, then columns. */
  function SatisfiedPass(v: Solving, cat: char, intended: bool): (v': Solving)
    requires Ready(v) && cat in Polarities
    ensures Ready(v') && Same(v, v')
    ensures Agrees(v) ==> Agrees(v')
    ensures OnlyExpected(v) ==> OnlyExpected(v')
  {
    SatisfiedFrom(SatisfiedFrom(v, true, 0, cat, intended), false, 0, cat, intended)
  }

  /** satisfiedCBS: the categories +, - and # in turn. */
  function Satisfied(v: Solving, intended: bool): (v': Solving)
    requires Ready(v)
    ensures Ready(v') && Same(v, v')
    ensures Agrees(v) ==> Agrees(v')
    ensures OnlyExpected(v) ==> OnlyExpected(v')
  {
    SatisfiedPass(SatisfiedPass(SatisfiedPass(v, Positive, intended), Negative, intended), Neutral, intended)
  }

  // ---------------------------------------------------------------------------
  // needAll: a line whose pole need equals the dominoes still able to provide
  // the pole can have no neutral among them

  /** Every lead end is followed by a trail end and every trail end follows a lead end. */
  ghost predicate Paired(fl: seq<char>, lead: char, trail: char) {
    forall i {:trigger PairedAt(fl, lead, trail, i)} :: 0 <= i < |fl| ==> PairedAt(fl, lead, trail, i)
  }

  /** The cell at i is paired as Paired requires. */
  ghost predicate PairedAt(fl: seq<char>, lead: char, trail: char, i: int)
    requires 0 <= i < |fl|
  {
    (fl[i] == lead ==> i + 1 < |fl| && fl[i + 1] == trail) &&
    (fl[i] == trail ==> 0 < i && fl[i - 1] == lead)
  }

  /** In complete frames the dominoes along a line are paired. */
  lemma LinePaired(s: State, l: Line)
    requires Shaped(s) && FramesComplete(s.frames, s.width, s.height) && OnBoard(s, l)
    ensures Paired(LineOf(s.frames, s.width, s.height, l), Lead(l), Trail(l))
  {
    var fl := LineOf(s.frames, s.width, s.height, l);
    forall i | 0 <= i < |fl|
      ensures PairedAt(fl, Lead(l), Trail(l), i)
    {
      var c := CellOf(l, i);
      if fl[i] == Lead(l) || fl[i] == Trail(l) {
        PartnerSymmetric(s.frames, s.width, s.height, c.row, c.col);
        var e := FrameEnd(s.frames, s.width, s.height, c.row, c.col);
        if l.Row? {
          assert e == Coord(l.index, if fl[i] == Left then i + 1 else i - 1);
          assert s.frames[e.row][e.col] == fl[e.col];
        } else {
          assert e == Coord(if fl[i] == Up then i + 1 else i - 1, l.index);
          assert s.frames[e.row][e.col] == fl[e.row];
        }
      }
    }
  }

  /**
    What the cell at i contributes to provides: nothing at a trail end (its
    domino was counted at the lead end), one at a lead end if either end can
    still take cat, one elsewhere if the cell can.
  */
  function Unit(fl: seq<char>, sl: seq<set<char>>, cat: char, lead: char, trail: char, i: int): (n: nat)
    requires |fl| == |sl| && 0 <= i < |fl| && Paired(fl, lead, trail)
    ensures n <= 1
  {
    assert PairedAt(fl, lead, trail, i);
    if fl[i] == trail then 0
    else if fl[i] == lead then (if cat in sl[i] || cat in sl[i + 1] then 1 else 0)
    else if cat in sl[i] then 1 else 0
  }

  /** provides over the first n cells of the line. */
  function Provides(fl: seq<char>, sl: seq<set<char>>, cat: char, lead: char, trail: char, n: int): (p: nat)
    requires |fl| == |sl| && 0 <= n <= |fl| && Paired(fl, lead, trail)
    ensures p <= n
  {
    if n == 0 then 0 else Provides(fl, sl, cat, lead, trail, n - 1) + Unit(fl, sl, cat, lead, trail, n - 1)
  }

  /** The cell at i belongs to a domino or single cell counted in provides. */
  predicate Providing(fl: seq<char>, sl: seq<set<char>>, cat: char, lead: char, trail: char, i: int)
    requires |fl| == |sl| && 0 <= i < |fl| && Paired(fl, lead, trail)
  {
    assert PairedAt(fl, lead, trail, i);
    if fl[i] == trail then Unit(fl, sl, cat, lead, trail, i - 1) == 1 else Unit(fl, sl, cat, lead, trail, i) == 1
  }

  /**
    Strikes Neutral along the line from i on: as written from every cell, as
    intended only from the cells counted in provides (sl: the line's sets when
    they were counted).
  */
  function DropFrom(v: Solving, l: Line, cat: char, intended: bool, sl: seq<set<char>>, i: int): (v': Solving)
    requires Ready(v) && OnBoard(v.game, l) && 0 <= i
    requires |sl| == Span(v.game, l) && Paired(LineOf(v.game.frames, v.game.width, v.game.height, l), Lead(l), Trail(l))
    ensures Fits(v') && Shrinks(v, v') && Ready(v')
    ensures !intended ==> forall k :: i <= k < Span(v.game, l) ==> Neutral !in v'.sets[CellOf(l, k).row][CellOf(l, k).col]
    decreases Span(v.game, l) - i
  {
    if i >= Span(v.game, l) then v
    else
      var c := CellOf(l, i);
      var fl := LineOf(v.game.frames, v.game.width, v.game.height, l);
      if !intended || Providing(fl, sl, cat, Lead(l), Trail(l), i) then
        var v1 := v.(sets := Remove(v.sets, v.game.width, v.game.height, c.row, c.col, Neutral));
        ShrinkKeeps(v, v1);
        DropFrom(v1, l, cat, intended, sl, i + 1)
      else DropFrom(v, l, cat, intended, sl, i + 1)
  }

  /** The need-all rule on one line. */
  function NeedAllLine(v: Solving, l: Line, cat: char, intended: bool): (v': Solving)
    requires Ready(v) && OnBoard(v.game, l)
    ensures Fits(v') && Shrinks(v, v') && Ready(v')
  {
    var fl := LineOf(v.game.frames, v.game.width, v.game.height, l);
    var sl := LineSets(v.sets, v.game.width, v.game.height, l);
    LinePaired(v.game, l);
    if Needed(v.game, l, cat, intended) == Provides(fl, sl, cat, Lead(l), Trail(l), |fl|)
    then DropFrom(v, l, cat, intended, sl, 0) else v
  }

  /** The need-all rule on every row (rows) or every column from index k on. */
  function NeedAllFrom(v: Solving, rows: bool, k: int, cat: char, intended: bool): (v': Solving)
    requires Ready(v) && 0 <= k
    ensures Fits(v') && Shrinks(v, v') && Ready(v')
    decreases (if rows then v.game.height else v.game.width) - k
  {
    if k >= (if rows then v.game.height else v.game.width) then v
    else
      var v1 := NeedAllLine(v, LineAt(rows, k), cat, intended);
      var v' := NeedAllFrom(v1, rows, k + 1, cat, intended);
      v'
  }

  /** needAllCBS for one pole: rows, then columns. */
  function NeedAllPass(v: Solving, cat: char, intended: bool): (v': Solving)
    requires Ready(v)
    ensures Fits(v') && Shrinks(v, v') && Ready(v')
  {
    var v1 := NeedAllFrom(v, true, 0, cat, intended);
    var v' := NeedAllFrom(v1, false, 0, cat, intended);
    v'
  }

  /** needAllCBS: the poles + and - in turn. */
  function NeedAll(v: Solving, intended: bool): (v': Solving)
    requires Ready(v)
    ensures Fits(v') && Shrinks(v, v') && Ready(v')
  {
    var v1 := NeedAllPass(v, Positive, intended);
    var v' := NeedAllPass(v1, Negative, intended);
    v'
  }

  // ---------------------------------------------------------------------------
  // Solve

  /** One round of Solve: justOne, satisfied, resolveNeighbors, doubleSingle (which does nothing), needAll. */
  function Round(v: Solving, intended: bool): (v': Solving)
    requires Ready(v)
    ensures Ready(v') && Same(v, v')
    ensures Agrees(v) ==> Agrees(v')
    ensures OnlyExpected(v) ==> OnlyExpected(v')
  {
    var v1 := JustOneFrom(v, 0, 0);
    var v2 := Satisfied(v1, intended);
    var v3 := ResolveNeighbors(v2);
    ShrinkKeeps(v2, v3);
    var v4 := NeedAll(v3, intended);
    ShrinkKeeps(v3, v4);
    v4
  }

  /** n rounds. */
  function Rounds(v: Solving, n: nat, intended: bool): (v': Solving)
    requires Ready(v)
    ensures Ready(v') && Same(v, v')
    ensures Agrees(v) ==> Agrees(v')
    ensures OnlyExpected(v) ==> OnlyExpected(v')
    decreases n
  {
    if n == 0 then v
    else
      var v1 := Round(v, intended);
      var v' := Rounds(v1, n - 1, intended);
      v'
  }

  /** The number of rounds Solve runs. */
  const RoundLimit: nat := 1000

  /** A game Solve can run on without an index panic: complete frames, and walls that hold Wall in the guess. */
  ghost predicate SolveReady(s: State) {
    Shaped(s) && FramesComplete(s.frames, s.width, s.height) &&
    forall i, j :: InBounds(s.width, s.height, i, j) && s.frames[i][j] == Wall ==> s.guess[i][j] == Wall
  }

  /** The solver's own start is safe for the rules. */
  lemma LegacyReady(s: State)
    requires SolveReady(s)
    ensures Ready(Solving(s, LegacyInitial(s)))
  {
  }

  /** Rounds peeled at the front: one more round first, then the rest. */
  lemma RoundsStep(v: Solving, m: nat, intended: bool)
    requires Ready(v)
    ensures Rounds(v, m + 1, intended) == Rounds(Round(v, intended), m, intended)
  {
  }

  /** Solve: the older candidate sets, then RoundLimit rounds. */
  function SolveSpec(s: State, intended: bool): (v': Solving)
    requires SolveReady(s)
    ensures Ready(v') && Same(Solving(s, LegacyInitial(s)), v')
  {
    LegacyReady(s);
    Rounds(Solving(s, LegacyInitial(s)), RoundLimit, intended)
  }

  /**
    Solve never leaves a decided cell with a candidate other than its value, and
    never lets in a candidate outside +, -, # and Wall: the check of validateCBS
    (and of validate) holds after every round when it holds at the start.
  */
  lemma {:induction false} RoundsConsistent(v: Solving, n: nat, intended: bool)
    requires Ready(v) && Consistent(v)
    ensures Consistent(Rounds(v, n, intended))
  {
  }

  /** A guess of grid symbols gives a start that validateCBS accepts, so every round does too. */
  lemma SolveConsistent(s: State, intended: bool)
    requires SolveReady(s)
    requires forall i, j :: InBounds(s.width, s.height, i, j) ==> GridSymbol(s.guess[i][j])
    ensures Consistent(SolveSpec(s, intended))
  {
    LegacyInitialConsistent(s);
    LegacyReady(s);
    RoundsConsistent(Solving(s, LegacyInitial(s)), RoundLimit, intended);
  }
  // ---------------------------------------------------------------------------
  // The rules as the code runs them: the game and the candidate sets of a CBS
  // object are updated in place

  /** setFrame: r at (row, col) and its opposite at the partner, in the guess and as the only candidates. */
  method SetFrame(game: Game, c: CBS, row: int, col: int, r: char)
    requires c.Matches(game) && Domino(game.Snapshot(), row, col)
    modifies c, game.guess
    ensures c.Matches(game) && c.dirty == old(c.dirty)
    ensures c.View(game) == Commit(old(c.View(game)), row, col, r)
  {
    game.guess.Set(row, col, r);
    c.sets := Assign(c.sets, c.width, c.height, row, col, {r});
    var e := game.GetFrameEnd(row, col);
    game.guess.Set(e.row, e.col, Negate(r));
    c.sets := Assign(c.sets, c.width, c.height, e.row, e.col, {Negate(r)});
  }

  /** justOneCBS: each cell still Empty when reached whose candidates are a single value is committed to it. */
  method JustOneCBS(game: Game, c: CBS)
    requires c.Matches(game) && Ready(c.View(game))
    modifies c, game.guess
    ensures c.Matches(game) && c.dirty == old(c.dirty)
    ensures c.View(game) == JustOneFrom(old(c.View(game)), 0, 0)
  {
    ghost var v0 := c.View(game);
    var row := 0;
    while row < c.height
      invariant 0 <= row <= c.height && c.Matches(game) && c.dirty == old(c.dirty)
      invariant Ready(c.View(game)) && JustOneFrom(c.View(game), row, 0) == JustOneFrom(v0, 0, 0)
    {
      JustOneRow(game, c, row);
      row := row + 1;
    }
  }

  /** One row of justOneCBS. */
  method JustOneRow(game: Game, c: CBS, row: int)
    requires c.Matches(game) && Ready(c.View(game)) && 0 <= row < c.height
    modifies c, game.guess
    ensures c.Matches(game) && c.dirty == old(c.dirty) && Ready(c.View(game))
    ensures JustOneFrom(c.View(game), row + 1, 0) == JustOneFrom(old(c.View(game)), row, 0)
  {
    ghost var v0 := c.View(game);
    var col := 0;
    while col < c.width
      invariant 0 <= col <= c.width && c.Matches(game) && c.dirty == old(c.dirty)
      invariant Ready(c.View(game)) && JustOneFrom(c.View(game), row, col) == JustOneFrom(v0, row, 0)
    {
      JustOneAt(game, c, row, col);
      col := col + 1;
    }
  }

  /** One cell of justOneCBS. */
  method JustOneAt(game: Game, c: CBS, row: int, col: int)
    requires c.Matches(game) && Ready(c.View(game)) && InBounds(c.width, c.height, row, col)
    modifies c, game.guess
    ensures c.Matches(game) && c.dirty == old(c.dirty) && Ready(c.View(game))
    ensures JustOneFrom(c.View(game), row, col + 1) == JustOneFrom(old(c.View(game)), row, col)
  {
    ghost var v := c.View(game);
    if game.guess.Get(row, col) == Empty && |c.sets[row][col]| == 1 {
      var r :| r in c.sets[row][col];
      assert r == Only(v.sets[row][col]);
      JustOneCommit(v, row, col);
      SetFrame(game, c, row, col, r);
    }
  }

  /** The satisfied rule's commits along one line, from its first cell to its last. */
  method FillLineCBS(game: Game, c: CBS, l: Line, cat: char)
    requires c.Matches(game) && Ready(c.View(game)) && OnBoard(game.Snapshot(), l) && cat in Polarities
    modifies c, game.guess
    ensures c.Matches(game) && c.dirty == old(c.dirty)
    ensures c.View(game) == FillLine(old(c.View(game)), l, cat, 0)
  {
    ghost var v0 := c.View(game);
    var n := if l.Row? then c.width else c.height;
    var i := 0;
    while i < n
      invariant 0 <= i <= n && c.Matches(game) && c.dirty == old(c.dirty)
      invariant Ready(c.View(game)) && Same(v0, c.View(game)) && FillLine(c.View(game), l, cat, i) == FillLine(v0, l, cat, 0)
    {
      FillAt(game, c, l, cat, i);
      i := i + 1;
    }
  }

  /** One cell of the satisfied rule's commits. */
  method FillAt(game: Game, c: CBS, l: Line, cat: char, i: int)
    requires c.Matches(game) && Ready(c.View(game)) && OnBoard(game.Snapshot(), l) && cat in Polarities
    requires 0 <= i < Span(game.Snapshot(), l)
    modifies c, game.guess
    ensures c.Matches(game) && c.dirty == old(c.dirty) && Ready(c.View(game)) && Same(old(c.View(game)), c.View(game))
    ensures FillLine(c.View(game), l, cat, i + 1) == FillLine(old(c.View(game)), l, cat, i)
  {
    ghost var v := c.View(game);
    var cell := CellOf(l, i);
    if cat in c.sets[cell.row][cell.col] {
      FillCommit(v, l, cat, i);
      SetFrame(game, c, cell.row, cell.col, cat);
    }
  }

  /** The step FillAt takes when the cell can hold cat: a commit the rules can go on from. */
  lemma FillCommit(v: Solving, l: Line, cat: char, i: int)
    requires Ready(v) && OnBoard(v.game, l) && cat in Polarities && 0 <= i < Span(v.game, l)
    requires cat in v.sets[CellOf(l, i).row][CellOf(l, i).col]
    ensures Domino(v.game, CellOf(l, i).row, CellOf(l, i).col)
    ensures Ready(Commit(v, CellOf(l, i).row, CellOf(l, i).col, cat)) && Same(v, Commit(v, CellOf(l, i).row, CellOf(l, i).col, cat))
    ensures FillLine(v, l, cat, i) == FillLine(Commit(v, CellOf(l, i).row, CellOf(l, i).col, cat), l, cat, i + 1)
  {
    var cell := CellOf(l, i);
    assert CellReady(v, cell.row, cell.col);
    ReadyDomino(v, cell.row, cell.col);
    CommitKeeps(v, cell.row, cell.col, cat);
  }

  /** The satisfied rule on one line: rowNeeds against rowHasCBS (colNeeds against colHasCBS). */
  method SatisfiedLineCBS(game: Game, c: CBS, l: Line, cat: char)
    requires c.Matches(game) && Ready(c.View(game)) && OnBoard(game.Snapshot(), l) && cat in Polarities
    modifies c, game.guess
    ensures c.Matches(game) && c.dirty == old(c.dirty)
    ensures c.View(game) == SatisfiedLine(old(c.View(game)), l, cat, false)
  {
    var needs, has;
    if l.Row? {
      needs := RowNeedsOf(game, l.index, cat);
      has := c.RowSpaceTotal(game, l.index, cat);
    } else {
      needs := ColNeedsOf(game, l.index, cat);
      has := c.ColSpaceTotal(game, l.index, cat);
    }
    if needs == has {
      FillLineCBS(game, c, l, cat);
    }
  }

  /** satisfiedCBS for one category: every row, then every column. */
  method SatisfiedPassCBS(game: Game, c: CBS, cat: char)
    requires c.Matches(game) && Ready(c.View(game)) && cat in Polarities
    modifies c, game.guess
    ensures c.Matches(game) && c.dirty == old(c.dirty)
    ensures c.View(game) == SatisfiedPass(old(c.View(game)), cat, false)
  {
    ghost var v0 := c.View(game);
    var row := 0;
    while row < c.height
      invariant 0 <= row <= c.height && c.Matches(game) && c.dirty == old(c.dirty)
      invariant Ready(c.View(game)) && Same(v0, c.View(game))
      invariant SatisfiedFrom(c.View(game), true, row, cat, false) == SatisfiedFrom(v0, true, 0, cat, false)
    {
      SatisfiedLineCBS(game, c, Row(row), cat);
      row := row + 1;
    }
    ghost var v1 := c.View(game);
    var col := 0;
    while col < c.width
      invariant 0 <= col <= c.width && c.Matches(game) && c.dirty == old(c.dirty)
      invariant Ready(c.View(game)) && Same(v0, c.View(game))
      invariant SatisfiedFrom(c.View(game), false, col, cat, false) == SatisfiedFrom(v1, false, 0, cat, false)
    {
      SatisfiedLineCBS(game, c, Col(col), cat);
      col := col + 1;
    }
  }

  /** satisfiedCBS: the categories +, - and # in turn. */
  method SatisfiedCBS(game: Game, c: CBS)
    requires c.Matches(game) && Ready(c.View(game))
    modifies c, game.guess
    ensures c.Matches(game) && c.dirty == old(c.dirty)
    ensures c.View(game) == Satisfied(old(c.View(game)), false)
  {
    SatisfiedPassCBS(game, c, Positive);
    SatisfiedPassCBS(game, c, Negative);
    SatisfiedPassCBS(game, c, Neutral);
  }

  /** resolveNeighborsCBS: the frame rule over every cell, then the adjacency rule over every cell. */
  method ResolveNeighborsCBS(game: Game, c: CBS)
    requires c.Matches(game) && Ready(c.View(game))
    modifies c
    ensures c.Matches(game) && c.dirty == old(c.dirty)
    ensures c.View(game) == ResolveNeighbors(old(c.View(game)))
  {
    FramePassCBS(game, c);
    AdjacencyCBS(game, c);
  }

  /** The first loop of resolveNeighborsCBS. */
  method FramePassCBS(game: Game, c: CBS)
    requires c.Matches(game) && Ready(c.View(game))
    modifies c
    ensures c.Matches(game) && c.dirty == old(c.dirty) && Ready(c.View(game))
    ensures c.View(game) == FramePassFrom(old(c.View(game)), 0, 0)
  {
    ghost var v0 := c.View(game);
    var row := 0;
    while row < c.height
      invariant 0 <= row <= c.height && c.Matches(game) && c.dirty == old(c.dirty)
      invariant Ready(c.View(game)) && FramePassFrom(c.View(game), row, 0) == FramePassFrom(v0, 0, 0)
    {
      FramePassRow(game, c, row);
      row := row + 1;
    }
  }

  /** One row of the frame loop of resolveNeighborsCBS. */
  method FramePassRow(game: Game, c: CBS, row: int)
    requires c.Matches(game) && Ready(c.View(game)) && 0 <= row < c.height
    modifies c
    ensures c.Matches(game) && c.dirty == old(c.dirty) && Ready(c.View(game))
    ensures FramePassFrom(c.View(game), row + 1, 0) == FramePassFrom(old(c.View(game)), row, 0)
  {
    ghost var v0 := c.View(game);
    var col := 0;
    while col < c.width
      invariant 0 <= col <= c.width && c.Matches(game) && c.dirty == old(c.dirty)
      invariant Ready(c.View(game)) && FramePassFrom(c.View(game), row, col) == FramePassFrom(v0, row, 0)
    {
      FrameAt(game, c, row, col);
      col := col + 1;
    }
  }

  /** The second loop of resolveNeighborsCBS. */
  method AdjacencyCBS(game: Game, c: CBS)
    requires c.Matches(game) && Ready(c.View(game))
    modifies c
    ensures c.Matches(game) && c.dirty == old(c.dirty)
    ensures c.View(game) == AdjacencyFrom(old(c.View(game)), 0, 0)
  {
    ghost var v0 := c.View(game);
    var row := 0;
    while row < c.height
      invariant 0 <= row <= c.height && c.Matches(game) && c.dirty == old(c.dirty)
      invariant Ready(c.View(game)) && AdjacencyFrom(c.View(game), row, 0) == AdjacencyFrom(v0, 0, 0)
    {
      AdjacencyRow(game, c, row);
      row := row + 1;
    }
  }

  /** One row of the adjacency loop of resolveNeighborsCBS. */
  method AdjacencyRow(game: Game, c: CBS, row: int)
    requires c.Matches(game) && Ready(c.View(game)) && 0 <= row < c.height
    modifies c
    ensures c.Matches(game) && c.dirty == old(c.dirty) && Ready(c.View(game))
    ensures AdjacencyFrom(c.View(game), row + 1, 0) == AdjacencyFrom(old(c.View(game)), row, 0)
  {
    ghost var v0 := c.View(game);
    var col := 0;
    while col < c.width
      invariant 0 <= col <= c.width && c.Matches(game) && c.dirty == old(c.dirty)
      invariant Ready(c.View(game)) && AdjacencyFrom(c.View(game), row, col) == AdjacencyFrom(v0, row, 0)
    {
      AdjacentAt(game, c, row, col);
      col := col + 1;
    }
  }

  /** One cell of the frame rule: each polarity the cell cannot hold strikes its opposite from the partner. */
  method FrameAt(game: Game, c: CBS, row: int, col: int)
    requires c.Matches(game) && Ready(c.View(game)) && InBounds(c.width, c.height, row, col)
    modifies c
    ensures c.Matches(game) && c.dirty == old(c.dirty) && Ready(c.View(game))
    ensures FramePassFrom(c.View(game), row, col + 1) == FramePassFrom(old(c.View(game)), row, col)
  {
    ghost var v := c.View(game);
    assert FrameOk(v.game.frames, c.width, c.height, row, col);
    var e := game.GetFrameEnd(row, col);
    if e.row == -1 && e.col == -1 {
      return;
    }
    assert CellReady(v, row, col);
    ReadyDomino(v, row, col);
    var p := StrikeMirror(c.sets[e.row][e.col], c.sets[row][col]);
    c.sets := Assign(c.sets, c.width, c.height, e.row, e.col, p);
    ShrinkKeeps(v, c.View(game));
  }

  /** One cell of the adjacency rule: a pole held by an orthogonal neighbour in the guess is struck. */
  method AdjacentAt(game: Game, c: CBS, row: int, col: int)
    requires c.Matches(game) && Ready(c.View(game)) && InBounds(c.width, c.height, row, col)
    modifies c
    ensures c.Matches(game) && c.dirty == old(c.dirty) && Ready(c.View(game))
    ensures AdjacencyFrom(c.View(game), row, col + 1) == AdjacencyFrom(old(c.View(game)), row, col)
  {
    ghost var v := c.View(game);
    var p := StrikeNeighbourPoles(game, c.sets[row][col], row, col);
    AdjacencyStep(v, row, col);
    c.sets := Assign(c.sets, c.width, c.height, row, col, p);
  }

  /** The three tests of the frame rule: the partner P loses the opposite of each polarity S lacks. */
  method StrikeMirror(P: set<char>, S: set<char>) returns (p: set<char>)
    ensures p == P - Mirror(S)
  {
    p := P;
    if Positive !in S {
      p := p - {Negate(Positive)};
    }
    if Negative !in S {
      p := p - {Negate(Negative)};
    }
    if Neutral !in S {
      p := p - {Negate(Neutral)};
    }
  }

  /** The switch of the adjacency rule over the four neighbours, applied to the candidates S. */
  method StrikeNeighbourPoles(game: Game, S: set<char>, row: int, col: int) returns (p: set<char>)
    requires game.WellFormed()
    ensures p == S - NeighbourPoles(game.guess.cells, game.guess.width, game.guess.height, row, col, 4)
  {
    p := S;
    var k := 0;
    while k < |Adjacents|
      invariant 0 <= k <= |Adjacents|
      invariant p == S - NeighbourPoles(game.guess.cells, game.guess.width, game.guess.height, row, col, k)
    {
      var x := game.guess.Get(row + Adjacents[k].row, col + Adjacents[k].col);
      assert NeighbourPoles(game.guess.cells, game.guess.width, game.guess.height, row, col, k + 1) ==
        NeighbourPoles(game.guess.cells, game.guess.width, game.guess.height, row, col, k) + PoleAt(x);
      if x == Positive {
        p := p - {Positive};
      } else if x == Negative {
        p := p - {Negative};
      }
      k := k + 1;
    }
  }

  /** The step the adjacency rule takes at (row, col). */
  lemma AdjacencyStep(v: Solving, row: int, col: int)
    requires Ready(v) && InBounds(v.game.width, v.game.height, row, col)
    ensures var s := v.game;
      var v1 := v.(sets := Assign(v.sets, s.width, s.height, row, col, v.sets[row][col] - NeighbourPoles(s.guess, s.width, s.height, row, col, 4)));
      Ready(v1) && AdjacencyFrom(v, row, col) == AdjacencyFrom(v1, row, col + 1)
  {
    var s := v.game;
    var v1 := v.(sets := Assign(v.sets, s.width, s.height, row, col, v.sets[row][col] - NeighbourPoles(s.guess, s.width, s.height, row, col, 4)));
    ShrinkKeeps(v, v1);
  }

  /** provides of needAllCBS: the dominoes and single cells along the line that can still take cat. */
  method ProvidesCBS(game: Game, c: CBS, l: Line, cat: char) returns (supply: nat)
    requires c.Matches(game) && FramesComplete(game.frames.cells, c.width, c.height) && OnBoard(game.Snapshot(), l)
    ensures Paired(LineOf(game.frames.cells, c.width, c.height, l), Lead(l), Trail(l)) &&
      supply == Provides(LineOf(game.frames.cells, c.width, c.height, l), LineSets(c.sets, c.width, c.height, l), cat, Lead(l), Trail(l), Span(game.Snapshot(), l))
  {
    ghost var fl := LineOf(game.frames.cells, c.width, c.height, l);
    ghost var sl := LineSets(c.sets, c.width, c.height, l);
    ghost var s := game.Snapshot();
    LinePaired(s, l);
    var n := if l.Row? then c.width else c.height;
    assert n == Span(s, l) && |fl| == n;
    supply := 0;
    var i := 0;
    while i < n
      invariant 0 <= i <= n && supply == Provides(fl, sl, cat, Lead(l), Trail(l), i)
    {
      var unit := UnitAt(game, c, l, cat, i);
      ProvidesNext(fl, sl, cat, Lead(l), Trail(l), i, i + 1);
      supply := supply + unit;
      i := i + 1;
    }
  }

  /** What the cell at i of the line adds to provides. */
  method UnitAt(game: Game, c: CBS, l: Line, cat: char, i: int) returns (unit: nat)
    requires c.Matches(game) && 0 <= l.index < (if l.Row? then c.height else c.width) && 0 <= i < (if l.Row? then c.width else c.height)
    requires Paired(LineOf(game.frames.cells, c.width, c.height, l), Lead(l), Trail(l))
    ensures unit == Unit(LineOf(game.frames.cells, c.width, c.height, l), LineSets(c.sets, c.width, c.height, l), cat, Lead(l), Trail(l), i)
  {
    ghost var fl := LineOf(game.frames.cells, c.width, c.height, l);
    ghost var sl := LineSets(c.sets, c.width, c.height, l);
    var cell := CellOf(l, i);
    var direction := game.GetFrame(cell.row, cell.col);
    assert PairedAt(fl, Lead(l), Trail(l), i);
    assert fl[i] == direction && sl[i] == c.sets[cell.row][cell.col];
    unit := 0;
    if direction == Trail(l) {
    } else if direction == Lead(l) {
      var next := CellOf(l, i + 1);
      assert sl[i + 1] == c.sets[next.row][next.col];
      if cat in c.sets[cell.row][cell.col] || cat in c.sets[next.row][next.col] {
        unit := 1;
      }
    } else if cat in c.sets[cell.row][cell.col] {
      unit := 1;
    }
  }

  /** provides over j = i + 1 cells adds cell i's unit. */
  lemma ProvidesNext(fl: seq<char>, sl: seq<set<char>>, cat: char, lead: char, trail: char, i: int, j: int)
    requires |fl| == |sl| && 0 <= i < |fl| && j == i + 1 && Paired(fl, lead, trail)
    ensures Provides(fl, sl, cat, lead, trail, j) == Provides(fl, sl, cat, lead, trail, i) + Unit(fl, sl, cat, lead, trail, i)
  {
  }

  /** The need-all rule on one line: when needs equals provides, Neutral is struck from every cell of the line. */
  method NeedAllLineCBS(game: Game, c: CBS, l: Line, cat: char)
    requires c.Matches(game) && Ready(c.View(game)) && OnBoard(game.Snapshot(), l)
    modifies c
    ensures c.Matches(game) && c.dirty == old(c.dirty)
    ensures c.View(game) == NeedAllLine(old(c.View(game)), l, cat, false)
  {
    ghost var v := c.View(game);
    ghost var sl := LineSets(c.sets, c.width, c.height, l);
    var needs;
    if l.Row? {
      needs := RowNeedsOf(game, l.index, cat);
    } else {
      needs := ColNeedsOf(game, l.index, cat);
    }
    var supply := ProvidesCBS(game, c, l, cat);
    if needs != supply {
      return;
    }
    DropLineCBS(game, c, l, cat, sl);
  }

  /** The deletes of needAllCBS: Neutral is struck from every cell of the line. */
  method DropLineCBS(game: Game, c: CBS, l: Line, cat: char, ghost sl: seq<set<char>>)
    requires c.Matches(game) && Ready(c.View(game)) && OnBoard(game.Snapshot(), l)
    requires |sl| == Span(game.Snapshot(), l) && Paired(LineOf(game.frames.cells, c.width, c.height, l), Lead(l), Trail(l))
    modifies c
    ensures c.Matches(game) && c.dirty == old(c.dirty)
    ensures c.View(game) == DropFrom(old(c.View(game)), l, cat, false, sl, 0)
  {
    ghost var v := c.View(game);
    var n := if l.Row? then c.width else c.height;
    assert n == Span(v.game, l) && OnBoard(v.game, l);
    var i := 0;
    while i < n
      invariant 0 <= i <= n && c.Matches(game) && c.dirty == old(c.dirty)
      invariant Ready(c.View(game)) && c.View(game).game == v.game
      invariant DropFrom(c.View(game), l, cat, false, sl, i) == DropFrom(v, l, cat, false, sl, 0)
    {
      ghost var u := c.View(game);
      var cell := CellOf(l, i);
      DropStep(u, l, cat, sl, i);
      c.Delete(cell.row, cell.col, Neutral);
      i := i + 1;
    }
  }

  /** The step the need-all rule as written takes at the i-th cell of the line. */
  lemma DropStep(v: Solving, l: Line, cat: char, sl: seq<set<char>>, i: int)
    requires Ready(v) && OnBoard(v.game, l) && 0 <= i < Span(v.game, l)
    requires |sl| == Span(v.game, l) && Paired(LineOf(v.game.frames, v.game.width, v.game.height, l), Lead(l), Trail(l))
    ensures var c := CellOf(l, i);
      var v1 := v.(sets := Remove(v.sets, v.game.width, v.game.height, c.row, c.col, Neutral));
      Ready(v1) && DropFrom(v, l, cat, false, sl, i) == DropFrom(v1, l, cat, false, sl, i + 1)
  {
    var c := CellOf(l, i);
    ShrinkKeeps(v, v.(sets := Remove(v.sets, v.game.width, v.game.height, c.row, c.col, Neutral)));
  }

  /** needAllCBS for one pole: every row, then every column. */
  method NeedAllPassCBS(game: Game, c: CBS, cat: char)
    requires c.Matches(game) && Ready(c.View(game))
    modifies c
    ensures c.Matches(game) && c.dirty == old(c.dirty)
    ensures c.View(game) == NeedAllPass(old(c.View(game)), cat, false)
  {
    ghost var v0 := c.View(game);
    var row := 0;
    while row < c.height
      invariant 0 <= row <= c.height && c.Matches(game) && c.dirty == old(c.dirty)
      invariant Ready(c.View(game)) && NeedAllFrom(c.View(game), true, row, cat, false) == NeedAllFrom(v0, true, 0, cat, false)
    {
      NeedAllLineCBS(game, c, Row(row), cat);
      row := row + 1;
    }
    ghost var v1 := c.View(game);
    var col := 0;
    while col < c.width
      invariant 0 <= col <= c.width && c.Matches(game) && c.dirty == old(c.dirty)
      invariant Ready(c.View(game)) && NeedAllFrom(c.View(game), false, col, cat, false) == NeedAllFrom(v1, false, 0, cat, false)
    {
      NeedAllLineCBS(game, c, Col(col), cat);
      col := col + 1;
    }
  }

  /** needAllCBS: the poles + and - in turn. */
  method NeedAllCBS(game: Game, c: CBS)
    requires c.Matches(game) && Ready(c.View(game))
    modifies c
    ensures c.Matches(game) && c.dirty == old(c.dirty)
    ensures c.View(game) == NeedAll(old(c.View(game)), false)
  {
    NeedAllPassCBS(game, c, Positive);
    NeedAllPassCBS(game, c, Negative);
  }

  /**
    Solve: the older candidate sets, then RoundLimit rounds of justOne,
    satisfied, resolveNeighbors and needAll. The guess ends as SolveSpec says.
  */
  method Solve(game: Game)
    requires game.WellFormed() && SolveReady(game.Snapshot())
    modifies game.guess
    ensures game.WellFormed()
    ensures game.Snapshot() == SolveSpec(old(game.Snapshot()), false).game
  {
    ghost var s0 := game.Snapshot();
    var c := new CBS.Legacy(game);
    LegacyReady(s0);
    var i := 0;
    while i < RoundLimit
      invariant 0 <= i <= RoundLimit && c.Matches(game) && Ready(c.View(game))
      invariant Rounds(c.View(game), RoundLimit - i, false) == SolveSpec(s0, false)
    {
      RoundCBS(game, c);
      i := i + 1;
    }
  }

  /** One pass of the loop of Solve (validateCBS only reports, and doubleSingleCBS does nothing). */
  method RoundCBS(game: Game, c: CBS)
    requires c.Matches(game) && Ready(c.View(game))
    modifies c, game.guess
    ensures c.Matches(game) && c.dirty == old(c.dirty) && Ready(c.View(game))
    ensures c.View(game) == Round(old(c.View(game)), false)
  {
    JustOneCBS(game, c);
    SatisfiedCBS(game, c);
    ResolveNeighborsCBS(game, c);
    NeedAllCBS(game, c);
  }
}

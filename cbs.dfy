/**
  The constraint-based solver's representation: for every cell of the guess, the
  set of values still possible there, and a flag recording whether any change
  was made. The rules that narrow the sets live in module Solver.
*/
module Cbs {
  import opened Common
  import opened Boards
  import opened Magnets

  // ---------------------------------------------------------------------------
  // Candidate sets as values

  /** One set of possible values per cell, row by row. */
  type Sets = seq<seq<set<char>>>

  predicate SetsShape(c: Sets, w: int, h: int) {
    w >= 0 && h >= 0 && |c| == h && forall i :: 0 <= i < h ==> |c[i]| == w
  }

  /** The values a domino cell can take. */
  const Polarities: set<char> := {Positive, Negative, Neutral}

  /** The values a candidate set may hold at all. */
  const Expected: set<char> := {Positive, Negative, Neutral, Wall}

  /** A game together with the solver's candidate sets. */
  datatype Solving = Solving(game: State, sets: Sets)

  ghost predicate Fits(v: Solving) {
    Shaped(v.game) && SetsShape(v.sets, v.game.width, v.game.height)
  }

  /** The sets with the one at (row, col) replaced by p. */
  function Assign(c: Sets, w: int, h: int, row: int, col: int, p: set<char>): (c': Sets)
    requires SetsShape(c, w, h) && InBounds(w, h, row, col)
    ensures SetsShape(c', w, h)
    ensures forall i, j :: InBounds(w, h, i, j) ==> c'[i][j] == if i == row && j == col then p else c[i][j]
  {
    c[row := c[row][col := p]]
  }

  /** The sets with r struck from the one at (row, col). */
  function Remove(c: Sets, w: int, h: int, row: int, col: int, r: char): (c': Sets)
    requires SetsShape(c, w, h) && InBounds(w, h, row, col)
    ensures SetsShape(c', w, h)
    ensures forall i, j :: InBounds(w, h, i, j) ==> c'[i][j] == if i == row && j == col then c[i][j] - {r} else c[i][j]
  {
    if r in c[row][col] then Assign(c, w, h, row, col, c[row][col] - {r}) else c
  }

  /** The candidate sets down column col. */
  function SetsColumn(c: Sets, col: int): (l: seq<set<char>>)
    requires 0 <= col && forall i :: 0 <= i < |c| ==> col < |c[i]|
    ensures |l| == |c| && forall i :: 0 <= i < |c| ==> l[i] == c[i][col]
  {
    seq(|c|, i requires 0 <= i < |c| => c[i][col])
  }

  /** The initial candidates of a cell holding r: a wall stays a wall, an Empty cell may be anything, any other value has none. */
  function Fresh(r: char): set<char> {
    if r == Wall then {Wall} else if r == Empty then Polarities else {}
  }

  /** The candidate sets a new solver starts from. */
  function Initial(s: State): (c: Sets)
    requires Shaped(s)
    ensures SetsShape(c, s.width, s.height)
    ensures forall i, j :: InBounds(s.width, s.height, i, j) ==> c[i][j] == Fresh(s.guess[i][j])
  {
    seq(s.height, i requires 0 <= i < s.height => seq(s.width, j requires 0 <= j < s.width => Fresh(s.guess[i][j])))
  }

  // ---------------------------------------------------------------------------
  // Consistency, as validate checks it

  /**
    Every decided cell (+, - or #) has no candidate other than its value. A subset
    and not equality: need-all strikes # from decided # cells too, which leaves
    their sets empty.
  */
  ghost predicate Agrees(v: Solving)
    requires Fits(v)
  {
    forall i, j :: InBounds(v.game.width, v.game.height, i, j) && v.game.guess[i][j] in Polarities ==>
      v.sets[i][j] <= {v.game.guess[i][j]}
  }

  /** Every candidate is +, -, # or a wall. */
  ghost predicate OnlyExpected(v: Solving)
    requires Fits(v)
  {
    forall i, j :: InBounds(v.game.width, v.game.height, i, j) ==> v.sets[i][j] <= Expected
  }

  ghost predicate Consistent(v: Solving)
    requires Fits(v)
  {
    Agrees(v) && OnlyExpected(v)
  }

  /** Why validate rejects: the game itself, a decided cell with another candidate, or an unexpected candidate. */
  datatype Fault = InvalidGame | Extraneous(row: int, col: int) | Unexpected(row: int, col: int)

  /** The cell (i, j) breaks Agrees (when unexpected is false) or OnlyExpected (when it is true). */
  predicate Faulty(v: Solving, unexpected: bool, i: int, j: int)
    requires SetsShape(v.sets, v.game.width, v.game.height) && IsRect(v.game.guess, v.game.width, v.game.height)
    requires InBounds(v.game.width, v.game.height, i, j)
  {
    if unexpected then v.sets[i][j] - Expected != {}
    else v.game.guess[i][j] in Polarities && v.sets[i][j] - {v.game.guess[i][j]} != {}
  }

  /** The first faulty cell at or after (row, col) in row-major order. */
  function FindFault(v: Solving, unexpected: bool, row: nat, col: nat): (o: Option<Coord>)
    requires SetsShape(v.sets, v.game.width, v.game.height) && IsRect(v.game.guess, v.game.width, v.game.height)
    ensures o.Some? ==> InBounds(v.game.width, v.game.height, o.value.row, o.value.col) && Faulty(v, unexpected, o.value.row, o.value.col)
    ensures forall i, j :: (InBounds(v.game.width, v.game.height, i, j) && (i > row || (i == row && j >= col)) &&
              (o.None? || i < o.value.row || (i == o.value.row && j < o.value.col))) ==> !Faulty(v, unexpected, i, j)
    decreases v.game.height - row, v.game.width - col
  {
    if row >= v.game.height then None
    else if col >= v.game.width then FindFault(v, unexpected, row + 1, 0)
    else if Faulty(v, unexpected, row, col) then Some(Coord(row, col))
    else FindFault(v, unexpected, row, col + 1)
  }

  /** What validate returns: the first fault found, game first, then decided cells, then unexpected candidates. */
  ghost function Validation(v: Solving): Option<Fault>
    requires Fits(v)
  {
    if !ValidSpec(v.game) then Some(InvalidGame)
    else match FindFault(v, false, 0, 0)
      case Some(c) => Some(Extraneous(c.row, c.col))
      case None =>
        match FindFault(v, true, 0, 0)
        case Some(c) => Some(Unexpected(c.row, c.col))
        case None => None
  }

  /** validate passes exactly when the game is valid and the candidate sets are consistent with the guess. */
  lemma ValidationPasses(v: Solving)
    requires Fits(v)
    ensures Validation(v) == None <==> ValidSpec(v.game) && Consistent(v)
  {
    var w, h := v.game.width, v.game.height;
    if FindFault(v, false, 0, 0).None? {
      forall i, j | InBounds(w, h, i, j) && v.game.guess[i][j] in Polarities
        ensures v.sets[i][j] <= {v.game.guess[i][j]}
      {
        assert !Faulty(v, false, i, j);
      }
    }
    if FindFault(v, true, 0, 0).None? {
      forall i, j | InBounds(w, h, i, j)
        ensures v.sets[i][j] <= Expected
      {
        assert !Faulty(v, true, i, j);
      }
    }
  }

  /** A fresh solver on a valid game passes validate: walls and open cells get consistent candidates. */
  lemma InitialConsistent(s: State)
    requires Shaped(s)
    ensures Consistent(Solving(s, Initial(s)))
  {
  }

  // ---------------------------------------------------------------------------
  // Committing a domino

  /** (row, col) is a domino cell on the board whose partner is on the board too. */
  predicate Domino(s: State, row: int, col: int)
    requires Shaped(s)
  {
    InBounds(s.width, s.height, row, col) && IsOrientation(s.frames[row][col]) &&
    InBounds(s.width, s.height, FrameEnd(s.frames, s.width, s.height, row, col).row, FrameEnd(s.frames, s.width, s.height, row, col).col)
  }

  /** r at (row, col) and its opposite at the partner, in the guess and as the only candidates. */
  function Commit(v: Solving, row: int, col: int, r: char): (v': Solving)
    requires Fits(v) && Domino(v.game, row, col)
    ensures Fits(v') && v'.game == v.game.(guess := v'.game.guess)
    ensures var e := FrameEnd(v.game.frames, v.game.width, v.game.height, row, col);
      forall i, j :: InBounds(v.game.width, v.game.height, i, j) ==>
        v'.game.guess[i][j] == (if Coord(i, j) == e then Negate(r) else if i == row && j == col then r else v.game.guess[i][j]) &&
        v'.sets[i][j] == (if Coord(i, j) == e then {Negate(r)} else if i == row && j == col then {r} else v.sets[i][j])
  {
    var s := v.game;
    var e := FrameEnd(s.frames, s.width, s.height, row, col);
    var g := Put(Put(s.guess, s.width, s.height, row, col, r), s.width, s.height, e.row, e.col, Negate(r));
    Solving(s.(guess := g), Assign(Assign(v.sets, s.width, s.height, row, col, {r}), s.width, s.height, e.row, e.col, {Negate(r)}))
  }

  /** Committing r at (row, col) changes the guess at one of the two ends. */
  predicate Changes(v: Solving, row: int, col: int, r: char)
    requires Fits(v) && Domino(v.game, row, col)
  {
    var e := FrameEnd(v.game.frames, v.game.width, v.game.height, row, col);
    r != v.game.guess[row][col] || Negate(r) != v.game.guess[e.row][e.col]
  }

  /** The two ends of a domino are different cells. */
  lemma PartnerElsewhere(s: State, row: int, col: int)
    requires Shaped(s) && Domino(s, row, col)
    ensures FrameEnd(s.frames, s.width, s.height, row, col) != Coord(row, col)
  {
    var d := Offset(s.frames[row][col]);
    assert d in Adjacents;
  }

  /** The dirty test of setFrame is exact: it fires iff the commit alters the guess. */
  lemma ChangesIffGuessDiffers(v: Solving, row: int, col: int, r: char)
    requires Fits(v) && Domino(v.game, row, col)
    ensures Changes(v, row, col, r) <==> Commit(v, row, col, r).game.guess != v.game.guess
  {
    var s := v.game;
    var e := FrameEnd(s.frames, s.width, s.height, row, col);
    var g := Commit(v, row, col, r).game.guess;
    PartnerElsewhere(s, row, col);
    if Changes(v, row, col, r) {
      if r != s.guess[row][col] {
        assert g[row][col] == r;
      } else {
        assert g[e.row][e.col] == Negate(r);
      }
    } else {
      forall i, j | InBounds(s.width, s.height, i, j)
        ensures g[i][j] == s.guess[i][j]
      {
      }
      GridExtensionality(g, s.guess, s.width, s.height);
    }
  }

  /** Committing a value candidates may hold keeps the sets consistent with the guess. */
  lemma CommitConsistent(v: Solving, row: int, col: int, r: char)
    requires Fits(v) && Domino(v.game, row, col) && Consistent(v) && r in Expected
    ensures Consistent(Commit(v, row, col, r))
  {
    PartnerElsewhere(v.game, row, col);
  }

  // ---------------------------------------------------------------------------
  // Line counts

  /** rowNeeds: how many more r the clues ask of row `row` than the guess has. */
  function RowNeeds(s: State, row: int, r: char): int
    requires Shaped(s) && 0 <= row < s.height
  {
    RowClue(s, row, r) - RowCount(s.guess, s.width, s.height, row, r)
  }

  /** colNeeds: how many more r the clues ask of column `col` than the guess has. */
  function ColNeeds(s: State, col: int, r: char): int
    requires Shaped(s) && 0 <= col < s.width
  {
    ColClue(s, col, r) - ColCount(s.guess, s.width, s.height, col, r)
  }

  /** rowNeeds: the row's clue for r less the r already in the guess. */
  method RowNeedsOf(game: Game, row: int, r: char) returns (n: int)
    requires game.WellFormed() && 0 <= row < game.frames.height
    ensures n == RowNeeds(game.Snapshot(), row, r)
  {
    var has := game.guess.CountRow(row, r);
    n := game.CountRow(row, r) - has;
  }

  /** colNeeds: the column's clue for r less the r already in the guess. */
  method ColNeedsOf(game: Game, col: int, r: char) returns (n: int)
    requires game.WellFormed() && 0 <= col < game.frames.width
    ensures n == ColNeeds(game.Snapshot(), col, r)
  {
    var has := game.guess.CountCol(col, r);
    n := game.CountCol(col, r) - has;
  }

  /** The guess is solved exactly when no row or column needs another + or -. */
  lemma NeedsMetIffSolved(s: State)
    requires Shaped(s)
    ensures SolvedSpec(s) <==>
              (forall row :: 0 <= row < s.height ==> RowNeeds(s, row, Positive) == 0 && RowNeeds(s, row, Negative) == 0) &&
              (forall col :: 0 <= col < s.width ==> ColNeeds(s, col, Positive) == 0 && ColNeeds(s, col, Negative) == 0)
  {
    forall row | 0 <= row < s.height
      ensures RowSolved(s, row) <==> RowNeeds(s, row, Positive) == 0 && RowNeeds(s, row, Negative) == 0
    {
    }
    forall col | 0 <= col < s.width
      ensures ColSolved(s, col) <==> ColNeeds(s, col, Positive) == 0 && ColNeeds(s, col, Negative) == 0
    {
    }
  }

  /** The number of sets in a line that hold r. */
  function Holding(l: seq<set<char>>, r: char): (n: nat)
    ensures n <= |l|
  {
    if l == [] then 0 else Holding(l[..|l| - 1], r) + (if r in l[|l| - 1] then 1 else 0)
  }

  /** The number of cells in a line that are Empty in the guess and hold r. */
  function Open(g: seq<char>, l: seq<set<char>>, r: char): (n: nat)
    requires |g| == |l|
  {
    if l == [] then 0 else Open(g[..|g| - 1], l[..|l| - 1], r) + (if g[|g| - 1] == Empty && r in l[|l| - 1] then 1 else 0)
  }

  /** Remaining counts a subset of what Total counts, so Remaining <= Total <= the line's length. */
  lemma {:induction false} OpenAtMostHolding(g: seq<char>, l: seq<set<char>>, r: char)
    requires |g| == |l|
    ensures Open(g, l, r) <= Holding(l, r) <= |l|
  {
    if l != [] {
      OpenAtMostHolding(g[..|g| - 1], l[..|l| - 1], r);
    }
  }

  // ---------------------------------------------------------------------------
  // The solver object

  class CBS {
    const width: int
    const height: int
    var sets: Sets
    /** Set whenever a guess value or a candidate set changes. */
    var dirty: bool

    ghost predicate Valid()
      reads this
    {
      SetsShape(sets, width, height)
    }

    /** The solver is sized for the game. */
    ghost predicate Matches(game: Game)
      reads this, game, game.frames, game.grid, game.guess
    {
      Valid() && game.WellFormed() && width == game.frames.width && height == game.frames.height
    }

    /** The game and the sets as a value. */
    ghost function View(game: Game): (v: Solving)
      requires Matches(game)
      reads this, game, game.frames, game.grid, game.guess
      ensures Fits(v)
    {
      Solving(game.Snapshot(), sets)
    }

    /** new: walls get {Wall}, Empty cells every polarity, cells already holding a value nothing. */
    constructor New(game: Game)
      requires game.WellFormed()
      ensures Matches(game) && sets == Initial(game.Snapshot()) && !dirty
    {
      var w, h := game.guess.width, game.guess.height;
      var c: Sets := [];
      var row := 0;
      while row < h
        invariant 0 <= row <= h && |c| == row
        invariant forall i :: 0 <= i < row ==> c[i] == Initial(game.Snapshot())[i]
      {
        var line: seq<set<char>> := [];
        var col := 0;
        while col < w
          invariant 0 <= col <= w && |line| == col
          invariant forall j :: 0 <= j < col ==> line[j] == Fresh(game.guess.cells[row][j])
        {
          line := line + [Fresh(game.guess.Get(row, col))];
          col := col + 1;
        }
        c := c + [line];
        row := row + 1;
      }
      width, height := w, h;
      sets := c;
      dirty := false;
    }

    /** The older new of the solver rules: every non-Empty cell keeps its value as its only candidate. */
    constructor Legacy(game: Game)
      requires game.WellFormed()
      ensures Matches(game) && sets == LegacyInitial(game.Snapshot()) && !dirty
    {
      var w, h := game.guess.width, game.guess.height;
      var c: Sets := [];
      var row := 0;
      while row < h
        invariant 0 <= row <= h && |c| == row
        invariant forall i :: 0 <= i < row ==> c[i] == LegacyInitial(game.Snapshot())[i]
      {
        var line: seq<set<char>> := [];
        var col := 0;
        while col < w
          invariant 0 <= col <= w && |line| == col
          invariant forall j :: 0 <= j < col ==> line[j] == Kept(game.guess.cells[row][j])
        {
          line := line + [Kept(game.guess.Get(row, col))];
          col := col + 1;
        }
        c := c + [line];
        row := row + 1;
      }
      width, height := w, h;
      sets := c;
      dirty := false;
    }

    /** setFrame: commits r at (row, col) and its opposite at the partner; dirty if the guess changes. */
    method SetFrame(game: Game, row: int, col: int, r: char)
      requires Matches(game) && Domino(game.Snapshot(), row, col)
      modifies this, game.guess
      ensures Matches(game)
      ensures View(game) == Commit(old(View(game)), row, col, r)
      ensures dirty == (old(dirty) || Changes(old(View(game)), row, col, r))
    {
      var e := game.GetFrameEnd(row, col);
      if r != game.guess.Get(row, col) || Negate(r) != game.guess.Get(e.row, e.col) {
        dirty := true;
      }
      game.guess.Set(row, col, r);
      sets := Assign(sets, width, height, row, col, {r});
      game.guess.Set(e.row, e.col, Negate(r));
      sets := Assign(sets, width, height, e.row, e.col, {Negate(r)});
    }

    /** A plain delete of r from the cell's candidates, as needAllCBS does it: dirty is left alone. */
    method Delete(row: int, col: int, r: char)
      requires Valid() && InBounds(width, height, row, col)
      modifies this
      ensures Valid() && sets == Remove(old(sets), width, height, row, col, r) && dirty == old(dirty)
    {
      sets := Remove(sets, width, height, row, col, r);
    }

    /** unsetPossibility: strikes r from the cell's candidates; dirty iff r was there. */
    method UnsetPossibility(row: int, col: int, r: char)
      requires Valid() && InBounds(width, height, row, col)
      modifies this
      ensures Valid()
      ensures sets == Remove(old(sets), width, height, row, col, r)
      ensures dirty == (old(dirty) || r in old(sets)[row][col])
      ensures r !in old(sets)[row][col] ==> sets == old(sets)
    {
      if r in sets[row][col] {
        dirty := true;
      }
      sets := Remove(sets, width, height, row, col, r);
    }

    /** rowHasSpaceForTotal: the cells of the row whose candidates include r, decided or not. */
    method RowSpaceTotal(game: Game, row: int, r: char) returns (count: nat)
      requires Matches(game) && 0 <= row < height
      ensures count == Holding(sets[row], r)
    {
      count := 0;
      var col := 0;
      while col < game.guess.width
        invariant 0 <= col <= width && count == Holding(sets[row][..col], r)
      {
        assert sets[row][..col + 1][..col] == sets[row][..col];
        if r in sets[row][col] {
          count := count + 1;
        }
        col := col + 1;
      }
      assert sets[row][..width] == sets[row];
    }

    /** colHasSpaceForTotal: the cells of the column whose candidates include r, decided or not. */
    method ColSpaceTotal(game: Game, col: int, r: char) returns (count: nat)
      requires Matches(game) && 0 <= col < width
      ensures count == Holding(SetsColumn(sets, col), r)
    {
      var l := SetsColumn(sets, col);
      count := 0;
      var row := 0;
      while row < game.guess.height
        invariant 0 <= row <= height && count == Holding(l[..row], r)
      {
        assert l[..row + 1][..row] == l[..row];
        if r in sets[row][col] {
          count := count + 1;
        }
        row := row + 1;
      }
      assert l[..height] == l;
    }

    /** rowHasSpaceForRemaining: the cells of the row still Empty in the guess whose candidates include r. */
    method RowSpaceRemaining(game: Game, row: int, r: char) returns (count: nat)
      requires Matches(game) && 0 <= row < height
      ensures count == Open(game.guess.cells[row], sets[row], r)
    {
      var g := game.guess.cells[row];
      count := 0;
      var col := 0;
      while col < game.guess.width
        invariant 0 <= col <= width && count == Open(g[..col], sets[row][..col], r)
      {
        assert sets[row][..col + 1][..col] == sets[row][..col] && g[..col + 1][..col] == g[..col];
        if game.guess.Get(row, col) == Empty && r in sets[row][col] {
          count := count + 1;
        }
        col := col + 1;
      }
      assert sets[row][..width] == sets[row] && g[..width] == g;
    }

    /** colHasSpaceForRemaining: the cells of the column still Empty in the guess whose candidates include r. */
    method ColSpaceRemaining(game: Game, col: int, r: char) returns (count: nat)
      requires Matches(game) && 0 <= col < width
      ensures count == Open(Column(game.guess.cells, col), SetsColumn(sets, col), r)
    {
      var g := Column(game.guess.cells, col);
      var l := SetsColumn(sets, col);
      count := 0;
      var row := 0;
      while row < game.guess.height
        invariant 0 <= row <= height && count == Open(g[..row], l[..row], r)
      {
        assert l[..row + 1][..row] == l[..row] && g[..row + 1][..row] == g[..row];
        if game.guess.Get(row, col) == Empty && r in sets[row][col] {
          count := count + 1;
        }
        row := row + 1;
      }
      assert l[..height] == l && g[..height] == g;
    }

    /** validate: the game must be valid, decided cells may keep only their value, and candidates must be expected ones. */
    method Validate(game: Game) returns (err: Option<Fault>)
      requires Matches(game)
      ensures err == Validation(View(game))
    {
      var valid := game.Valid();
      if !valid {
        return Some(InvalidGame);
      }
      var c := FirstFault(game, false);
      if c.Some? {
        return Some(Extraneous(c.value.row, c.value.col));
      }
      c := FirstFault(game, true);
      if c.Some? {
        return Some(Unexpected(c.value.row, c.value.col));
      }
      return None;
    }

    /** The row-major scan of validate for one kind of fault. */
    method FirstFault(game: Game, unexpected: bool) returns (c: Option<Coord>)
      requires Matches(game)
      ensures c == FindFault(View(game), unexpected, 0, 0)
    {
      ghost var v := View(game);
      var row := 0;
      while row < height
        invariant 0 <= row <= height
        invariant FindFault(v, unexpected, row, 0) == FindFault(v, unexpected, 0, 0)
      {
        var col := 0;
        while col < width
          invariant 0 <= col <= width
          invariant FindFault(v, unexpected, row, col) == FindFault(v, unexpected, 0, 0)
        {
          var r := game.guess.Get(row, col);
          var bad := if unexpected then sets[row][col] - Expected != {}
                     else r in Polarities && sets[row][col] - {r} != {};
          if bad {
            return Some(Coord(row, col));
          }
          col := col + 1;
        }
        row := row + 1;
      }
      return None;
    }
  }

  /** The older initial candidates: a non-Empty cell (a wall included) keeps its value, an Empty cell may be anything. */
  function Kept(r: char): set<char> {
    if r != Empty then {r} else Polarities
  }

  function LegacyInitial(s: State): (c: Sets)
    requires Shaped(s)
    ensures SetsShape(c, s.width, s.height)
    ensures forall i, j :: InBounds(s.width, s.height, i, j) ==> c[i][j] == Kept(s.guess[i][j])
  {
    seq(s.height, i requires 0 <= i < s.height => seq(s.width, j requires 0 <= j < s.width => Kept(s.guess[i][j])))
  }

  /** The older start is consistent when the guess holds only grid symbols. */
  lemma LegacyInitialConsistent(s: State)
    requires Shaped(s)
    requires forall i, j :: InBounds(s.width, s.height, i, j) ==> GridSymbol(s.guess[i][j])
    ensures Consistent(Solving(s, LegacyInitial(s)))
  {
  }
}

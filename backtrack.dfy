/**
  The backtracking solution counter: a depth-first search over the domino heads
  (Up and Left frame ends) in row-major order. Each head tries +, - and # in
  turn, writing the head and the opposite value at its partner in the guess,
  pruning on the head's row clues, and undoing its writes before it returns.
*/
module Backtrack {
  import opened Common
  import opened Boards
  import opened Magnets

  // ---------------------------------------------------------------------------
  // The search as a function of the game value

  /** (row, col) is the head of a domino: an Up or Left frame end. */
  predicate IsHead(f: Grid, w: int, h: int, row: int, col: int)
    requires IsRect(f, w, h)
  {
    At(f, w, h, row, col) == Up || At(f, w, h, row, col) == Left
  }

  /** Cell (i, j) comes strictly before (row, col) in row-major order. */
  predicate Earlier(i: int, j: int, row: int, col: int) {
    i < row || (i == row && j < col)
  }

  /** Where the scan for the next head stops: past the last row, or at a head. */
  datatype Stop = Leaf | Head(row: int, col: int)

  /**
    The scanning loop of CountSolutions: wraps to the next row at the right edge,
    stops past the last row or at the first head at or after (row, col).
  */
  function Scan(f: Grid, w: int, h: int, row: int, col: int): (st: Stop)
    requires IsRect(f, w, h)
    ensures st.Head? ==> InBounds(w, h, st.row, st.col) && IsHead(f, w, h, st.row, st.col) && !Earlier(st.row, st.col, row, col)
    ensures forall i, j :: InBounds(w, h, i, j) && !Earlier(i, j, row, col) && (st.Leaf? || Earlier(i, j, st.row, st.col)) ==>
              !IsHead(f, w, h, i, j)
    decreases h - row, w - col
  {
    var r := if col >= w then row + 1 else row;
    var c := if col >= w then 0 else col;
    if r >= h then Leaf
    else if IsHead(f, w, h, r, c) then Head(r, c)
    else Scan(f, w, h, r, c + 1)
  }

  /** The other end of the domino headed at (row, col). */
  function Partner(s: State, row: int, col: int): Coord
    requires Shaped(s) && IsHead(s.frames, s.width, s.height, row, col)
  {
    FrameEnd(s.frames, s.width, s.height, row, col)
  }

  /** The guess with the head at (row, col) and its partner made Empty. */
  function Blanked(s: State, row: int, col: int): (g: Grid)
    requires Shaped(s) && IsHead(s.frames, s.width, s.height, row, col)
    ensures IsRect(g, s.width, s.height)
  {
    var e := Partner(s, row, col);
    Put(Put(s.guess, s.width, s.height, row, col, Empty), s.width, s.height, e.row, e.col, Empty)
  }

  /**
    The head's row has more + or - poles than its clues allow, or more neutral
    and wall cells than the clues leave for them.
  */
  predicate ExceedsRowLimits(s: State, row: int)
    requires Shaped(s) && 0 <= row < s.height
  {
    RowCount(s.guess, s.width, s.height, row, Positive) > s.rowPos[row] ||
    RowCount(s.guess, s.width, s.height, row, Negative) > s.rowNeg[row] ||
    RowCount(s.guess, s.width, s.height, row, Neutral) + RowCount(s.guess, s.width, s.height, row, Wall) >
      s.width - (s.rowPos[row] + s.rowNeg[row])
  }

  /** The outcome of one attempt to place a domino: whether it stands, and the guess afterwards. */
  datatype Attempt = Attempt(ok: bool, guess: Grid)

  /**
    Placing r at the head (row, col): a pole is refused, with no write, when the
    cell above or to the left already holds it; otherwise head and partner are
    written, and undone again (both Empty) if the head's row exceeds its limits.
  */
  function TrySet(s: State, row: int, col: int, r: char): (a: Attempt)
    requires Shaped(s) && IsHead(s.frames, s.width, s.height, row, col)
    ensures IsRect(a.guess, s.width, s.height)
  {
    var e := Partner(s, row, col);
    if Negate(r) != r && (At(s.guess, s.width, s.height, row - 1, col) == r || At(s.guess, s.width, s.height, row, col - 1) == r) then
      Attempt(false, s.guess)
    else
      var g := Put(Put(s.guess, s.width, s.height, row, col, r), s.width, s.height, e.row, e.col, Negate(r));
      var placed := s.(guess := g);
      if ExceedsRowLimits(placed, row) then Attempt(false, Blanked(placed, row, col))
      else Attempt(true, g)
  }

  /** The outcome of a search: the number of solutions counted and the guess it leaves. */
  datatype Outcome = Outcome(count: nat, guess: Grid)

  /** The leaf test as written: Valid (which inspects grid, not the guess) and Solved. */
  ghost predicate LeafAsWritten(s: State)
    requires Shaped(s)
  {
    ValidSpec(s) && SolvedSpec(s)
  }

  /** The evidently intended leaf test: the guess itself is a valid, solved board. */
  ghost predicate LeafIntended(s: State)
    requires Shaped(s)
  {
    ValidSpec(s.(grid := s.guess)) && SolvedSpec(s)
  }

  /** A complete and consistent solution of the puzzle s, placed in the guess. */
  ghost predicate Solution(s: State, g: Grid)
    requires Shaped(s)
  {
    IsRect(g, s.width, s.height) && LeafIntended(s.(guess := g))
  }

  /**
    The search from (row, col). With intended false it counts the leaves the
    source counts; with intended true it counts only guesses that are valid
    solutions.
  */
  ghost function Search(s: State, row: int, col: int, intended: bool): (o: Outcome)
    requires Shaped(s)
    ensures IsRect(o.guess, s.width, s.height)
    decreases s.height - row, s.width - col, 1
  {
    match Scan(s.frames, s.width, s.height, row, col)
    case Leaf =>
      var counted := if intended then LeafIntended(s) else LeafAsWritten(s);
      Outcome(if counted then 1 else 0, s.guess)
    case Head(r, c) =>
      var o1 := Branch(s, r, c, Positive, intended);
      var o2 := Branch(s.(guess := o1.guess), r, c, Negative, intended);
      var o3 := Branch(s.(guess := o2.guess), r, c, Neutral, intended);
      Outcome(o1.count + o2.count + o3.count, Blanked(s.(guess := o3.guess), r, c))
  }

  /** One branch at the head (row, col): place r and, if it stands, search on from the next cell. */
  ghost function Branch(s: State, row: int, col: int, r: char, intended: bool): (o: Outcome)
    requires Shaped(s) && InBounds(s.width, s.height, row, col) && IsHead(s.frames, s.width, s.height, row, col)
    ensures IsRect(o.guess, s.width, s.height)
    decreases s.height - row, s.width - col, 0
  {
    var a := TrySet(s, row, col, r);
    if a.ok then Search(s.(guess := a.guess), row, col + 1, intended) else Outcome(0, a.guess)
  }

  // ---------------------------------------------------------------------------
  // The search on the game object

  /** Whether the row of the last placed head exceeds its limits (col and r are not consulted). */
  method ExceedsRowLimitsOf(game: Game, row: int, col: int, r: char) returns (exceeds: bool)
    requires game.WellFormed() && 0 <= row < game.frames.height
    ensures exceeds == ExceedsRowLimits(game.Snapshot(), row)
  {
    var pos := game.guess.CountRow(row, Positive);
    if pos > game.CountRow(row, Positive) {
      return true;
    }
    var neg := game.guess.CountRow(row, Negative);
    if neg > game.CountRow(row, Negative) {
      return true;
    }
    var neutral := game.guess.CountRow(row, Neutral);
    var walls := game.guess.CountRow(row, Wall);
    if neutral + walls > game.CountRow(row, Neutral) {
      return true;
    }
    return false;
  }

  /** Makes the head at (row, col) and its partner Empty in the guess. */
  method BlankCell(game: Game, row: int, col: int)
    requires game.WellFormed() && IsHead(game.frames.cells, game.frames.width, game.frames.height, row, col)
    modifies game.guess
    ensures game.WellFormed()
    ensures game.guess.cells == Blanked(old(game.Snapshot()), row, col)
  {
    var e := game.GetFrameEnd(row, col);
    game.guess.Set(row, col, Empty);
    game.guess.Set(e.row, e.col, Empty);
  }

  /** Tries to place r at the head (row, col); see TrySet. */
  method SetCell(game: Game, row: int, col: int, r: char) returns (ok: bool)
    requires game.WellFormed() && IsHead(game.frames.cells, game.frames.width, game.frames.height, row, col)
    modifies game.guess
    ensures game.WellFormed()
    ensures Attempt(ok, game.guess.cells) == TrySet(old(game.Snapshot()), row, col, r)
  {
    var e := game.GetFrameEnd(row, col);
    if Negate(r) != r {
      if game.guess.Get(row - 1, col) == r {
        return false;
      }
      if game.guess.Get(row, col - 1) == r {
        return false;
      }
    }
    game.guess.Set(row, col, r);
    game.guess.Set(e.row, e.col, Negate(r));
    var exceeds := ExceedsRowLimitsOf(game, row, col, r);
    if exceeds {
      BlankCell(game, row, col);
      return false;
    }
    return true;
  }

  /** The scanning loop: the next head at or after (row, col), or Leaf past the last row. */
  method NextStop(game: Game, row: int, col: int) returns (st: Stop)
    requires game.WellFormed()
    ensures st == Scan(game.frames.cells, game.frames.width, game.frames.height, row, col)
  {
    var w, h := game.frames.width, game.frames.height;
    var r, c := row, col;
    while true
      invariant Scan(game.frames.cells, w, h, r, c) == Scan(game.frames.cells, w, h, row, col)
      decreases h - r, w - c
    {
      if c >= w {
        c := 0;
        r := r + 1;
      }
      if r >= h {
        return Leaf;
      }
      if game.frames.Get(r, c) == Up || game.frames.Get(r, c) == Left {
        return Head(r, c);
      }
      c := c + 1;
    }
  }

  /** The number of solutions the search counts from (row, col); the guess is left as Search says. */
  method CountSolutions(game: Game, row: int, col: int) returns (solutions: nat)
    requires game.WellFormed()
    modifies game.guess
    ensures game.WellFormed()
    ensures Outcome(solutions, game.guess.cells) == Search(old(game.Snapshot()), row, col, false)
    decreases game.frames.height - row, game.frames.width - col, 1
  {
    var st := NextStop(game, row, col);
    if st.Leaf? {
      var valid := game.Valid();
      var solved := game.Solved();
      solutions := if valid && solved then 1 else 0;
      return;
    }
    var r, c := st.row, st.col;
    ghost var s := game.Snapshot();
    var n1 := TryBranch(game, r, c, Positive);
    ghost var s2 := game.Snapshot();
    var n2 := TryBranch(game, r, c, Negative);
    ghost var s3 := game.Snapshot();
    var n3 := TryBranch(game, r, c, Neutral);
    ghost var s4 := game.Snapshot();
    assert s2 == s.(guess := s2.guess) && s3 == s.(guess := s3.guess) && s4 == s.(guess := s4.guess);
    BlankCell(game, r, c);
    solutions := n1 + n2 + n3;
  }

  /** One branch of the search at the head (row, col): SetCell, then the search from the next cell if it stands. */
  method TryBranch(game: Game, row: int, col: int, r: char) returns (solutions: nat)
    requires game.WellFormed() && InBounds(game.frames.width, game.frames.height, row, col)
    requires IsHead(game.frames.cells, game.frames.width, game.frames.height, row, col)
    modifies game.guess
    ensures game.WellFormed()
    ensures Outcome(solutions, game.guess.cells) == Branch(old(game.Snapshot()), row, col, r, false)
    decreases game.frames.height - row, game.frames.width - col, 0
  {
    ghost var s := game.Snapshot();
    var ok := SetCell(game, row, col, r);
    solutions := 0;
    if ok {
      assert game.Snapshot() == s.(guess := game.guess.cells);
      solutions := CountSolutions(game, row, col + 1);
    }
  }

  /** Whether the search counts exactly one solution from the top-left cell. */
  method SingleSolution(game: Game) returns (single: bool)
    requires game.WellFormed()
    modifies game.guess
    ensures game.WellFormed()
    ensures single <==> Search(old(game.Snapshot()), 0, 0, false).count == 1
    ensures game.guess.cells == Search(old(game.Snapshot()), 0, 0, false).guess
  {
    var n := CountSolutions(game, 0, 0);
    single := n == 1;
  }

  // ---------------------------------------------------------------------------
  // Properties of the search

  /**
    The cells a search from (row, col) may write: the heads at or after
    (row, col) and their partners (the Down below an Up, the Right beside a Left).
  */
  ghost predicate Touched(f: Grid, w: int, h: int, row: int, col: int, i: int, j: int)
    requires IsRect(f, w, h)
  {
    InBounds(w, h, i, j) &&
    ((IsHead(f, w, h, i, j) && !Earlier(i, j, row, col)) ||
     (f[i][j] == Down && !Earlier(i - 1, j, row, col)) ||
     (f[i][j] == Right && !Earlier(i, j - 1, row, col)))
  }

  /** Every cell of g' is as in g, or is a touched cell that was made Empty. */
  ghost predicate Resets(f: Grid, w: int, h: int, row: int, col: int, g: Grid, g': Grid)
    requires IsRect(f, w, h) && IsRect(g, w, h) && IsRect(g', w, h)
  {
    forall i, j :: InBounds(w, h, i, j) ==> g'[i][j] == g[i][j] || (Touched(f, w, h, row, col, i, j) && g'[i][j] == Empty)
  }

  /** A placement writes at most the head and its partner. */
  lemma TrySetWritesDomino(s: State, row: int, col: int, r: char, i: int, j: int)
    requires Shaped(s) && IsHead(s.frames, s.width, s.height, row, col) && InBounds(s.width, s.height, i, j)
    requires (i, j) != (row, col) && Coord(i, j) != Partner(s, row, col)
    ensures TrySet(s, row, col, r).guess[i][j] == s.guess[i][j]
  {
  }

  /**
    One branch at (row, col) leaves every cell other than the head and its partner
    as it was, or Empty if a later search touched it.
  */
  lemma {:induction false} BranchResets(s: State, row: int, col: int, r: char, intended: bool, i: int, j: int)
    requires Shaped(s) && FramesComplete(s.frames, s.width, s.height)
    requires InBounds(s.width, s.height, row, col) && IsHead(s.frames, s.width, s.height, row, col)
    requires InBounds(s.width, s.height, i, j) && (i, j) != (row, col) && Coord(i, j) != Partner(s, row, col)
    ensures var g' := Branch(s, row, col, r, intended).guess;
            g'[i][j] == s.guess[i][j] || (Touched(s.frames, s.width, s.height, row, col + 1, i, j) && g'[i][j] == Empty)
    decreases s.height - row, s.width - col, 0
  {
    var a := TrySet(s, row, col, r);
    TrySetWritesDomino(s, row, col, r, i, j);
    if a.ok {
      SearchResets(s.(guess := a.guess), row, col + 1, intended);
    }
  }

  /**
    A search writes only the heads at or after its start and their partners, and
    every cell it writes is Empty again when it returns.
  */
  lemma {:induction false} SearchResets(s: State, row: int, col: int, intended: bool)
    requires Shaped(s) && FramesComplete(s.frames, s.width, s.height)
    ensures Resets(s.frames, s.width, s.height, row, col, s.guess, Search(s, row, col, intended).guess)
    decreases s.height - row, s.width - col, 1
  {
    var f, w, h := s.frames, s.width, s.height;
    match Scan(f, w, h, row, col)
    case Leaf =>
    case Head(r, c) =>
      var o1 := Branch(s, r, c, Positive, intended);
      var o2 := Branch(s.(guess := o1.guess), r, c, Negative, intended);
      var o3 := Branch(s.(guess := o2.guess), r, c, Neutral, intended);
      var g' := Blanked(s.(guess := o3.guess), r, c);
      var e := Partner(s, r, c);
      PartnerSymmetric(f, w, h, r, c);
      forall i, j | InBounds(w, h, i, j)
        ensures g'[i][j] == s.guess[i][j] || (Touched(f, w, h, row, col, i, j) && g'[i][j] == Empty)
      {
        if (i, j) == (r, c) || Coord(i, j) == e {
          assert Touched(f, w, h, row, col, i, j);
        } else {
          BranchResets(s, r, c, Positive, intended, i, j);
          BranchResets(s.(guess := o1.guess), r, c, Negative, intended, i, j);
          BranchResets(s.(guess := o2.guess), r, c, Neutral, intended, i, j);
          assert g'[i][j] == o3.guess[i][j];
          if Touched(f, w, h, r, c + 1, i, j) {
            assert Touched(f, w, h, row, col, i, j);
          }
        }
      }
  }

  /**
    A search started on a guess whose heads and partners from (row, col) on are
    all Empty, as Deserialize leaves them, gives that guess back unchanged.
  */
  lemma GuessRestored(s: State, row: int, col: int, intended: bool)
    requires Shaped(s) && FramesComplete(s.frames, s.width, s.height)
    requires forall i, j :: Touched(s.frames, s.width, s.height, row, col, i, j) ==> s.guess[i][j] == Empty
    ensures Search(s, row, col, intended).guess == s.guess
  {
    var g' := Search(s, row, col, intended).guess;
    SearchResets(s, row, col, intended);
    GridExtensionality(g', s.guess, s.width, s.height);
  }

  /**
    The corrected search is sound: whenever it counts a solution, the puzzle has a
    solution (a guess that is valid and meets every clue).
  */
  lemma {:induction false} IntendedSound(s: State, row: int, col: int)
    requires Shaped(s)
    ensures Search(s, row, col, true).count > 0 ==> exists g :: Solution(s, g)
    decreases s.height - row, s.width - col, 1
  {
    match Scan(s.frames, s.width, s.height, row, col)
    case Leaf =>
      if LeafIntended(s) {
        assert s.(guess := s.guess) == s;
        assert Solution(s, s.guess);
      }
    case Head(r, c) =>
      var o1 := Branch(s, r, c, Positive, true);
      var o2 := Branch(s.(guess := o1.guess), r, c, Negative, true);
      var o3 := Branch(s.(guess := o2.guess), r, c, Neutral, true);
      assert Search(s, row, col, true).count == o1.count + o2.count + o3.count;
      if o1.count > 0 {
        BranchSound(s, r, c, Positive);
      } else if o2.count > 0 {
        BranchSound(s.(guess := o1.guess), r, c, Negative);
        var g :| Solution(s.(guess := o1.guess), g);
        SolutionIgnoresGuess(s, o1.guess, g);
      } else if o3.count > 0 {
        BranchSound(s.(guess := o2.guess), r, c, Neutral);
        var g :| Solution(s.(guess := o2.guess), g);
        SolutionIgnoresGuess(s, o2.guess, g);
      }
  }

  /** Whether g solves the puzzle does not depend on the guess in progress. */
  lemma SolutionIgnoresGuess(s: State, x: Grid, g: Grid)
    requires Shaped(s) && IsRect(x, s.width, s.height)
    ensures Solution(s.(guess := x), g) == Solution(s, g)
  {
    assert s.(guess := x).(guess := g) == s.(guess := g);
  }

  /** A branch of the corrected search that counts a solution shows the puzzle has one. */
  lemma {:induction false} BranchSound(s: State, row: int, col: int, r: char)
    requires Shaped(s) && InBounds(s.width, s.height, row, col) && IsHead(s.frames, s.width, s.height, row, col)
    ensures Branch(s, row, col, r, true).count > 0 ==> exists g :: Solution(s, g)
    decreases s.height - row, s.width - col, 0
  {
    var a := TrySet(s, row, col, r);
    if a.ok {
      var s' := s.(guess := a.guess);
      IntendedSound(s', row, col + 1);
      if Search(s', row, col + 1, true).count > 0 {
        var g :| Solution(s', g);
        SolutionIgnoresGuess(s, a.guess, g);
      }
    }
  }
}

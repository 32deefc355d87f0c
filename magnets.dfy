/**
  A Magnets game: three boards of the same size (the domino frames, the
  solution grid and the player's guess) and the four clue vectors giving the
  number of + and - poles in every column and row.
*/
module Magnets {
  import opened Common
  import opened Boards

  // ---------------------------------------------------------------------------
  // Frames and dominoes

  /** A frames board only ever holds orientations, walls and (before it is filled) Empty. */
  ghost predicate FrameAlphabet(f: Grid, w: int, h: int)
    requires IsRect(f, w, h)
  {
    forall row, col :: InBounds(w, h, row, col) ==>
      IsOrientation(f[row][col]) || f[row][col] == Wall || f[row][col] == Empty
  }

  /** The direction an orientation points in: Up is the top half of a vertical domino, so its partner is below. */
  function Offset(o: char): (d: Coord)
    requires IsOrientation(o)
    ensures d in Adjacents
  {
    if o == Up then Coord(1, 0)
    else if o == Down then Coord(-1, 0)
    else if o == Left then Coord(0, 1)
    else Coord(0, -1)
  }

  /** Opposite orientations point in opposite directions. */
  lemma OffsetNegate(o: char)
    requires IsOrientation(o)
    ensures Offset(Negate(o)) == Coord(-Offset(o).row, -Offset(o).col)
  {
  }

  /** The other end of the domino at (row, col); (-1, -1) for a wall, which has none. */
  function FrameEnd(f: Grid, w: int, h: int, row: int, col: int): Coord
    requires IsRect(f, w, h)
    requires IsOrientation(At(f, w, h, row, col)) || At(f, w, h, row, col) == Wall
  {
    var o := At(f, w, h, row, col);
    if o == Wall then Coord(-1, -1) else Coord(row + Offset(o).row, col + Offset(o).col)
  }

  /** (row, col) is a wall, or a domino end whose partner holds the opposite orientation. */
  ghost predicate FrameOk(f: Grid, w: int, h: int, row: int, col: int)
    requires IsRect(f, w, h) && FrameAlphabet(f, w, h) && InBounds(w, h, row, col)
  {
    f[row][col] != Empty &&
    (f[row][col] != Wall ==> At(f, w, h, FrameEnd(f, w, h, row, col).row, FrameEnd(f, w, h, row, col).col) == Negate(f[row][col]))
  }

  /** Every cell of the frames board is a wall or half of a well-formed domino. */
  ghost predicate FramesComplete(f: Grid, w: int, h: int)
    requires IsRect(f, w, h) && FrameAlphabet(f, w, h)
  {
    forall row, col :: InBounds(w, h, row, col) ==> FrameOk(f, w, h, row, col)
  }

  /**
    In complete frames the partner relation is an involution: the partner of a
    domino end lies on the board, holds the opposite orientation, and has the
    first cell as its own partner.
  */
  lemma PartnerSymmetric(f: Grid, w: int, h: int, row: int, col: int)
    requires IsRect(f, w, h) && FrameAlphabet(f, w, h) && FramesComplete(f, w, h)
    requires InBounds(w, h, row, col) && f[row][col] != Wall
    ensures IsOrientation(f[row][col])
    ensures InBounds(w, h, FrameEnd(f, w, h, row, col).row, FrameEnd(f, w, h, row, col).col)
    ensures FrameEnd(f, w, h, row, col) != Coord(row, col)
    ensures f[FrameEnd(f, w, h, row, col).row][FrameEnd(f, w, h, row, col).col] == Negate(f[row][col])
    ensures FrameEnd(f, w, h, FrameEnd(f, w, h, row, col).row, FrameEnd(f, w, h, row, col).col) == Coord(row, col)
  {
    assert FrameOk(f, w, h, row, col);
    var o := f[row][col];
    OffsetNegate(o);
  }

  // ---------------------------------------------------------------------------
  // Whole-game snapshots and the consistency rules

  /** The value of a game: its dimensions, its three boards and its four clue vectors. */
  datatype State = State(width: int, height: int, frames: Grid, grid: Grid, guess: Grid,
                         colPos: seq<int>, rowPos: seq<int>, colNeg: seq<int>, rowNeg: seq<int>)

  /** The boards are width x height, the column clues have width entries and the row clues height. */
  ghost predicate Shaped(s: State) {
    IsRect(s.frames, s.width, s.height) && IsRect(s.grid, s.width, s.height) && IsRect(s.guess, s.width, s.height) &&
    |s.colPos| == s.width && |s.colNeg| == s.width && |s.rowPos| == s.height && |s.rowNeg| == s.height &&
    FrameAlphabet(s.frames, s.width, s.height)
  }

  /** The symbols a solution grid may hold (Empty while it is still being filled). */
  predicate GridSymbol(r: char) {
    r == Positive || r == Negative || r == Neutral || r == Wall || r == Empty
  }

  /** The grid holds opposite values at the two ends of the domino headed (Up or Left) at (row, col). */
  ghost predicate PolarityOk(f: Grid, g: Grid, w: int, h: int, row: int, col: int)
    requires IsRect(f, w, h) && IsRect(g, w, h) && InBounds(w, h, row, col)
  {
    (f[row][col] == Up || f[row][col] == Left) ==>
      Negate(g[row][col]) == At(g, w, h, FrameEnd(f, w, h, row, col).row, FrameEnd(f, w, h, row, col).col)
  }

  /** A pole at (row, col) has no orthogonal neighbour holding the same pole. */
  ghost predicate Apart(g: Grid, w: int, h: int, row: int, col: int)
    requires IsRect(g, w, h) && InBounds(w, h, row, col)
  {
    IsPole(g[row][col]) ==>
      At(g, w, h, row - 1, col) != g[row][col] && At(g, w, h, row, col - 1) != g[row][col] &&
      At(g, w, h, row, col + 1) != g[row][col] && At(g, w, h, row + 1, col) != g[row][col]
  }

  /** A board with positive sides has more than one cell exactly when one side exceeds 1. */
  lemma CellCount(w: int, h: int)
    requires w > 0 && h > 0
    ensures w * h > 1 <==> w > 1 || h > 1
  {
    if w > 1 {
      assert w * h >= w * 1;
    } else if h > 1 {
      assert w * h >= 1 * h;
    }
  }

  /**
    What Game.Valid accepts: a board of at least two cells whose frames are complete,
    whose grid holds only grid symbols, whose dominoes carry opposite values in grid,
    and where no two equal poles touch. The guess board plays no part.
  */
  ghost predicate ValidSpec(s: State)
    requires Shaped(s)
  {
    s.width > 0 && s.height > 0 && (s.width > 1 || s.height > 1) &&
    FramesComplete(s.frames, s.width, s.height) &&
    (forall row, col :: InBounds(s.width, s.height, row, col) ==> GridSymbol(s.grid[row][col])) &&
    (forall row, col :: InBounds(s.width, s.height, row, col) ==> PolarityOk(s.frames, s.grid, s.width, s.height, row, col)) &&
    (forall row, col :: InBounds(s.width, s.height, row, col) ==> Apart(s.grid, s.width, s.height, row, col))
  }

  /** Row `row` of the guess has exactly the clued number of + and - poles. */
  ghost predicate RowSolved(s: State, row: int)
    requires Shaped(s) && 0 <= row < s.height
  {
    RowCount(s.guess, s.width, s.height, row, Positive) == s.rowPos[row] &&
    RowCount(s.guess, s.width, s.height, row, Negative) == s.rowNeg[row]
  }

  /** Column `col` of the guess has exactly the clued number of + and - poles. */
  ghost predicate ColSolved(s: State, col: int)
    requires Shaped(s) && 0 <= col < s.width
  {
    ColCount(s.guess, s.width, s.height, col, Positive) == s.colPos[col] &&
    ColCount(s.guess, s.width, s.height, col, Negative) == s.colNeg[col]
  }

  /** What Game.Solved accepts: every line of the guess meets its pole clues (adjacency is not checked). */
  ghost predicate SolvedSpec(s: State)
    requires Shaped(s)
  {
    (forall row :: 0 <= row < s.height ==> RowSolved(s, row)) &&
    (forall col :: 0 <= col < s.width ==> ColSolved(s, col))
  }

  /** The number of r the clues ask of row `row`: the clue for a pole, the rest of the row for Neutral, else grid's count. */
  function RowClue(s: State, row: int, r: char): int
    requires Shaped(s) && 0 <= row < s.height
  {
    if r == Positive then s.rowPos[row]
    else if r == Negative then s.rowNeg[row]
    else if r == Neutral then s.width - (s.rowPos[row] + s.rowNeg[row])
    else RowCount(s.grid, s.width, s.height, row, r)
  }

  /** The number of r the clues ask of column `col`; see RowClue. */
  function ColClue(s: State, col: int, r: char): int
    requires Shaped(s) && 0 <= col < s.width
  {
    if r == Positive then s.colPos[col]
    else if r == Negative then s.colNeg[col]
    else if r == Neutral then s.height - (s.colPos[col] + s.colNeg[col])
    else ColCount(s.grid, s.width, s.height, col, r)
  }

  /** In a line holding only grid symbols, the five symbol counts add up to the line's length. */
  lemma {:induction false} CountPartition(s: seq<char>)
    requires forall i :: 0 <= i < |s| ==> GridSymbol(s[i])
    ensures Count(s, Positive) + Count(s, Negative) + Count(s, Neutral) + Count(s, Wall) + Count(s, Empty) == |s|
  {
    if s != [] {
      CountPartition(s[..|s| - 1]);
    }
  }

  // ---------------------------------------------------------------------------
  // The game object

  class Game {
    const frames: Board
    const grid: Board
    const guess: Board
    var colPos: seq<int>
    var rowPos: seq<int>
    var colNeg: seq<int>
    var rowNeg: seq<int>

    /** Three distinct boards of one size, clue vectors of matching length, frames over the frame alphabet. */
    ghost predicate WellFormed()
      reads this, frames, grid, guess
    {
      frames != grid && frames != guess && grid != guess &&
      frames.Valid() && grid.Valid() && guess.Valid() &&
      grid.width == frames.width && guess.width == frames.width &&
      grid.height == frames.height && guess.height == frames.height &&
      |colPos| == frames.width && |colNeg| == frames.width &&
      |rowPos| == frames.height && |rowNeg| == frames.height &&
      FrameAlphabet(frames.cells, frames.width, frames.height)
    }

    /** The game as a value. */
    ghost function Snapshot(): (s: State)
      requires WellFormed()
      reads this, frames, grid, guess
      ensures Shaped(s)
    {
      State(frames.width, frames.height, frames.cells, grid.cells, guess.cells, colPos, rowPos, colNeg, rowNeg)
    }

    /** An empty width x height game: three blank boards and all-zero clues. */
    constructor Make(width: int, height: int)
      requires width >= 0 && height >= 0
      ensures WellFormed() && fresh(frames) && fresh(grid) && fresh(guess)
      ensures frames.width == width && frames.height == height
      ensures frames.cells == Blank(width, height) && grid.cells == Blank(width, height) && guess.cells == Blank(width, height)
      ensures colPos == seq(width, _ => 0) && colNeg == seq(width, _ => 0)
      ensures rowPos == seq(height, _ => 0) && rowNeg == seq(height, _ => 0)
    {
      grid := new Board.New(width, height);
      frames := new Board.New(width, height);
      guess := new Board.New(width, height);
      rowPos := seq(height, _ => 0);
      rowNeg := seq(height, _ => 0);
      colPos := seq(width, _ => 0);
      colNeg := seq(width, _ => 0);
    }

    /** The frame symbol at (row, col), or Border off the board. */
    function GetFrame(row: int, col: int): (r: char)
      requires WellFormed()
      reads this, frames, grid, guess
      ensures InBounds(frames.width, frames.height, row, col) ==> r == frames.cells[row][col]
      ensures !InBounds(frames.width, frames.height, row, col) ==> r == Border
    {
      frames.Get(row, col)
    }

    /** The other end of the domino at (row, col), or (-1, -1) for a wall. Any other frame symbol is a caller error. */
    function GetFrameEnd(row: int, col: int): (e: Coord)
      requires WellFormed()
      requires IsOrientation(frames.Get(row, col)) || frames.Get(row, col) == Wall
      reads this, frames, grid, guess
      ensures frames.Get(row, col) == Wall ==> e == Coord(-1, -1)
      ensures IsOrientation(frames.Get(row, col)) ==> e != Coord(row, col) && Coord(e.row - row, e.col - col) in Adjacents
      ensures frames.Get(row, col) == Up ==> e == Coord(row + 1, col)
      ensures frames.Get(row, col) == Down ==> e == Coord(row - 1, col)
      ensures frames.Get(row, col) == Left ==> e == Coord(row, col + 1)
      ensures frames.Get(row, col) == Right ==> e == Coord(row, col - 1)
    {
      FrameEnd(frames.cells, frames.width, frames.height, row, col)
    }

    /** The domino heads (Up or Left ends), in row-major order. */
    function Frames(): (cs: seq<Coord>)
      requires WellFormed()
      reads this, frames, grid, guess
      ensures forall c :: c in cs <==>
        InBounds(frames.width, frames.height, c.row, c.col) && (frames.cells[c.row][c.col] == Up || frames.cells[c.row][c.col] == Left)
    {
      var cs := frames.Cells(Only([Up, Left]));
      assert forall v :: Count([Up, Left], v) == (if v == Up || v == Left then 1 else 0) by {
        assert [Up, Left][..1] == [Up];
        assert [Up][..0] == [];
      }
      cs
    }

    /**
      Writes r at (row, col) of l and the opposite of r at the other end of that
      cell's domino; a wall has no other end.
    */
    method SetDomino(l: Board, row: int, col: int, r: char)
      requires WellFormed() && l.Valid() && l != frames
      requires IsOrientation(frames.Get(row, col)) || frames.Get(row, col) == Wall
      modifies l
      ensures l.Valid()
      ensures l.cells ==
        var once := Put(old(l.cells), l.width, l.height, row, col, r);
        if frames.cells[row][col] == Wall then once
        else Put(once, l.width, l.height, GetFrameEnd(row, col).row, GetFrameEnd(row, col).col, Negate(r))
    {
      l.Set(row, col, r);
      var e := GetFrameEnd(row, col);
      if e.row == -1 && e.col == -1 {
        return;
      }
      l.Set(e.row, e.col, Negate(r));
    }

    /** The count of r in row `row` as the clues give it: the clue for a pole, the rest of the row for Neutral. */
    function CountRow(row: int, r: char): (n: int)
      requires WellFormed() && 0 <= row < frames.height
      reads this, frames, grid, guess
      ensures n == RowClue(Snapshot(), row, r)
    {
      if r == Positive then rowPos[row]
      else if r == Negative then rowNeg[row]
      else if r == Neutral then grid.width - (rowPos[row] + rowNeg[row])
      else RowCount(grid.cells, grid.width, grid.height, row, r)
    }

    /** The count of r in column `col` as the clues give it: the clue for a pole, the rest of the column for Neutral. */
    function CountCol(col: int, r: char): (n: int)
      requires WellFormed() && 0 <= col < frames.width
      reads this, frames, grid, guess
      ensures n == ColClue(Snapshot(), col, r)
    {
      if r == Positive then colPos[col]
      else if r == Negative then colNeg[col]
      else if r == Neutral then grid.height - (colPos[col] + colNeg[col])
      else ColCount(grid.cells, grid.width, grid.height, col, r)
    }

    /** Whether the game is consistent; see ValidSpec. */
    method Valid() returns (ok: bool)
      requires WellFormed()
      ensures ok == ValidSpec(Snapshot())
    {
      if grid.width <= 0 || grid.height <= 0 {
        return false;
      }
      if grid.width * grid.height <= 1 {
        CellCount(grid.width, grid.height);
        return false;
      }
      ok := CheckFrames();
      if !ok {
        return;
      }
      ok := CheckGridSymbols();
      if !ok {
        return;
      }
      ok := CheckPolarities();
      if !ok {
        return;
      }
      ok := CheckApart();
    }

    /** First pass of Valid: every frames cell is a wall or a domino end facing its opposite. */
    method CheckFrames() returns (ok: bool)
      requires WellFormed()
      ensures ok == FramesComplete(frames.cells, frames.width, frames.height)
    {
      var w, h := frames.width, frames.height;
      var row := 0;
      while row < h
        invariant 0 <= row <= h
        invariant forall i, j :: 0 <= i < row && 0 <= j < w ==> FrameOk(frames.cells, w, h, i, j)
      {
        var col := 0;
        while col < w
          invariant 0 <= col <= w
          invariant forall i, j :: 0 <= i < row && 0 <= j < w ==> FrameOk(frames.cells, w, h, i, j)
          invariant forall j :: 0 <= j < col ==> FrameOk(frames.cells, w, h, row, j)
        {
          var cell := frames.Get(row, col);
          if cell != Wall {
            if cell == Empty {
              assert !FrameOk(frames.cells, w, h, row, col);
              return false;
            }
            var e := GetFrameEnd(row, col);
            var adjacent := frames.Get(e.row, e.col);
            if adjacent != Negate(cell) {
              assert !FrameOk(frames.cells, w, h, row, col);
              return false;
            }
          }
          col := col + 1;
        }
        row := row + 1;
      }
      return true;
    }

    /** Second pass of Valid: every grid cell is +, -, #, a wall or Empty. */
    method CheckGridSymbols() returns (ok: bool)
      requires WellFormed()
      ensures ok == forall row, col :: InBounds(grid.width, grid.height, row, col) ==> GridSymbol(grid.cells[row][col])
    {
      var w, h := grid.width, grid.height;
      var row := 0;
      while row < h
        invariant 0 <= row <= h
        invariant forall i, j :: 0 <= i < row && 0 <= j < w ==> GridSymbol(grid.cells[i][j])
      {
        var col := 0;
        while col < w
          invariant 0 <= col <= w
          invariant forall i, j :: 0 <= i < row && 0 <= j < w ==> GridSymbol(grid.cells[i][j])
          invariant forall j :: 0 <= j < col ==> GridSymbol(grid.cells[row][j])
        {
          var g := grid.Get(row, col);
          if !GridSymbol(g) {
            assert !GridSymbol(grid.cells[row][col]);
            return false;
          }
          col := col + 1;
        }
        row := row + 1;
      }
      return true;
    }

    /** Third pass of Valid: at every domino head, grid holds opposite values at the two ends. */
    method CheckPolarities() returns (ok: bool)
      requires WellFormed()
      ensures ok == forall row, col :: InBounds(grid.width, grid.height, row, col) ==>
                      PolarityOk(frames.cells, grid.cells, grid.width, grid.height, row, col)
    {
      var w, h := grid.width, grid.height;
      var row := 0;
      while row < h
        invariant 0 <= row <= h
        invariant forall i, j :: 0 <= i < row && 0 <= j < w ==> PolarityOk(frames.cells, grid.cells, w, h, i, j)
      {
        var col := 0;
        while col < w
          invariant 0 <= col <= w
          invariant forall i, j :: 0 <= i < row && 0 <= j < w ==> PolarityOk(frames.cells, grid.cells, w, h, i, j)
          invariant forall j :: 0 <= j < col ==> PolarityOk(frames.cells, grid.cells, w, h, row, j)
        {
          var f := frames.Get(row, col);
          if f == Up || f == Left {
            var g := grid.Get(row, col);
            var e := GetFrameEnd(row, col);
            var found := grid.Get(e.row, e.col);
            if Negate(g) != found {
              assert !PolarityOk(frames.cells, grid.cells, w, h, row, col);
              return false;
            }
          }
          col := col + 1;
        }
        row := row + 1;
      }
      return true;
    }

    /** Fourth pass of Valid: no pole in grid has an orthogonal neighbour holding the same pole. */
    method CheckApart() returns (ok: bool)
      requires WellFormed()
      ensures ok == forall row, col :: InBounds(grid.width, grid.height, row, col) ==>
                      Apart(grid.cells, grid.width, grid.height, row, col)
    {
      var w, h := grid.width, grid.height;
      var row := 0;
      while row < h
        invariant 0 <= row <= h
        invariant forall i, j :: 0 <= i < row && 0 <= j < w ==> Apart(grid.cells, w, h, i, j)
      {
        var col := 0;
        while col < w
          invariant 0 <= col <= w
          invariant forall i, j :: 0 <= i < row && 0 <= j < w ==> Apart(grid.cells, w, h, i, j)
          invariant forall j :: 0 <= j < col ==> Apart(grid.cells, w, h, row, j)
        {
          var g := grid.Get(row, col);
          if IsPole(g) {
            var k := 0;
            while k < |Adjacents|
              invariant 0 <= k <= |Adjacents|
              invariant forall m :: 0 <= m < k ==> At(grid.cells, w, h, row + Adjacents[m].row, col + Adjacents[m].col) != g
            {
              if grid.Get(row + Adjacents[k].row, col + Adjacents[k].col) == g {
                assert !Apart(grid.cells, w, h, row, col);
                return false;
              }
              k := k + 1;
            }
            assert At(grid.cells, w, h, row + Adjacents[0].row, col + Adjacents[0].col) != g;
            assert At(grid.cells, w, h, row + Adjacents[1].row, col + Adjacents[1].col) != g;
            assert At(grid.cells, w, h, row + Adjacents[2].row, col + Adjacents[2].col) != g;
            assert At(grid.cells, w, h, row + Adjacents[3].row, col + Adjacents[3].col) != g;
          }
          col := col + 1;
        }
        row := row + 1;
      }
      return true;
    }

    /** Whether every row and column of the guess meets its pole clues; see SolvedSpec. */
    method Solved() returns (ok: bool)
      requires WellFormed()
      ensures ok == SolvedSpec(Snapshot())
    {
      var row := 0;
      while row < guess.height
        invariant 0 <= row <= guess.height
        invariant forall i :: 0 <= i < row ==> RowSolved(Snapshot(), i)
      {
        var pos := guess.CountRow(row, Positive);
        if pos != rowPos[row] {
          assert !RowSolved(Snapshot(), row);
          return false;
        }
        var neg := guess.CountRow(row, Negative);
        if neg != rowNeg[row] {
          assert !RowSolved(Snapshot(), row);
          return false;
        }
        row := row + 1;
      }
      var col := 0;
      while col < guess.width
        invariant 0 <= col <= guess.width
        invariant forall i :: 0 <= i < col ==> ColSolved(Snapshot(), i)
      {
        var pos := guess.CountCol(col, Positive);
        if pos != colPos[col] {
          assert !ColSolved(Snapshot(), col);
          return false;
        }
        var neg := guess.CountCol(col, Negative);
        if neg != colNeg[col] {
          assert !ColSolved(Snapshot(), col);
          return false;
        }
        col := col + 1;
      }
      return true;
    }
  }

  // ---------------------------------------------------------------------------
  // Properties of the game operations

  /**
    When the row clues agree with the grid and the row holds only grid symbols,
    the Neutral count the clues imply is exactly the row's neutrals, walls and
    Empty cells together.
  */
  lemma NeutralCountRow(game: Game, row: int)
    requires game.WellFormed() && 0 <= row < game.frames.height
    requires game.rowPos[row] == RowCount(game.grid.cells, game.grid.width, game.grid.height, row, Positive)
    requires game.rowNeg[row] == RowCount(game.grid.cells, game.grid.width, game.grid.height, row, Negative)
    requires forall col :: 0 <= col < game.grid.width ==> GridSymbol(game.grid.cells[row][col])
    ensures game.CountRow(row, Neutral) ==
      RowCount(game.grid.cells, game.grid.width, game.grid.height, row, Neutral) +
      RowCount(game.grid.cells, game.grid.width, game.grid.height, row, Wall) +
      RowCount(game.grid.cells, game.grid.width, game.grid.height, row, Empty)
  {
    CountPartition(game.grid.cells[row]);
  }

  /** The column counterpart of NeutralCountRow. */
  lemma NeutralCountCol(game: Game, col: int)
    requires game.WellFormed() && 0 <= col < game.frames.width
    requires game.colPos[col] == ColCount(game.grid.cells, game.grid.width, game.grid.height, col, Positive)
    requires game.colNeg[col] == ColCount(game.grid.cells, game.grid.width, game.grid.height, col, Negative)
    requires forall row :: 0 <= row < game.grid.height ==> GridSymbol(game.grid.cells[row][col])
    ensures game.CountCol(col, Neutral) ==
      ColCount(game.grid.cells, game.grid.width, game.grid.height, col, Neutral) +
      ColCount(game.grid.cells, game.grid.width, game.grid.height, col, Wall) +
      ColCount(game.grid.cells, game.grid.width, game.grid.height, col, Empty)
  {
    CountPartition(Column(game.grid.cells, col));
  }

  /**
    In complete frames, writing a domino puts r at the cell and the opposite of r
    at its partner, so the pair passes the polarity check, and leaves every
    other cell alone.
  */
  lemma DominoWrite(f: Grid, g: Grid, w: int, h: int, row: int, col: int, r: char)
    requires IsRect(f, w, h) && IsRect(g, w, h) && FrameAlphabet(f, w, h) && FramesComplete(f, w, h)
    requires InBounds(w, h, row, col) && f[row][col] != Wall
    ensures var e := FrameEnd(f, w, h, row, col);
            var g' := Put(Put(g, w, h, row, col, r), w, h, e.row, e.col, Negate(r));
            g'[row][col] == r && g'[e.row][e.col] == Negate(r) &&
            PolarityOk(f, g', w, h, row, col) && PolarityOk(f, g', w, h, e.row, e.col) &&
            forall i, j :: InBounds(w, h, i, j) && Coord(i, j) != Coord(row, col) && Coord(i, j) != e ==> g'[i][j] == g[i][j]
  {
    PartnerSymmetric(f, w, h, row, col);
    NegateInvolution(r);
  }
}

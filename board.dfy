/**
  A board is a width x height matrix of symbols with bounds-checked access.
  The first half of this module is the value-level view of a board (a grid of
  rows); the class Board at the end is the mutable object the game holds.
*/
module Boards {
  import opened Common

  type Grid = seq<seq<char>>

  datatype Coord = Coord(row: int, col: int)

  /** The four orthogonal neighbour offsets, in the order the source visits them. */
  const Adjacents: seq<Coord> := [Coord(-1, 0), Coord(0, -1), Coord(0, 1), Coord(1, 0)]

  /** g has h rows of w cells each. */
  predicate IsRect(g: Grid, w: int, h: int) {
    w >= 0 && h >= 0 && |g| == h && forall i :: 0 <= i < h ==> |g[i]| == w
  }

  predicate InBounds(w: int, h: int, row: int, col: int) {
    0 <= row < h && 0 <= col < w
  }

  /** Bounds-checked read: Border off the grid, the stored cell otherwise. */
  function At(g: Grid, w: int, h: int, row: int, col: int): char
    requires IsRect(g, w, h)
  {
    if InBounds(w, h, row, col) then g[row][col] else Border
  }

  /** Bounds-checked write: off the grid nothing changes. */
  function Put(g: Grid, w: int, h: int, row: int, col: int, r: char): (g': Grid)
    requires IsRect(g, w, h)
    ensures IsRect(g', w, h)
  {
    if InBounds(w, h, row, col) then g[row := g[row][col := r]] else g
  }

  /** A write is seen by a read of the same cell and by no other read. */
  lemma AtPut(g: Grid, w: int, h: int, row: int, col: int, r: char, row': int, col': int)
    requires IsRect(g, w, h)
    ensures At(Put(g, w, h, row, col, r), w, h, row', col') ==
            if InBounds(w, h, row, col) && row' == row && col' == col then r else At(g, w, h, row', col')
  {
  }

  /** Two grids of the same shape that agree on every cell are equal. */
  lemma GridExtensionality(g: Grid, g': Grid, w: int, h: int)
    requires IsRect(g, w, h) && IsRect(g', w, h)
    requires forall row, col :: InBounds(w, h, row, col) ==> g[row][col] == g'[row][col]
    ensures g == g'
  {
    forall row | 0 <= row < h
      ensures g[row] == g'[row]
    {
      assert forall col :: 0 <= col < w ==> g[row][col] == g'[row][col];
    }
  }

  /** The grid a fresh board holds: every cell Empty. */
  function Blank(w: nat, h: nat): (g: Grid)
    ensures IsRect(g, w, h)
    ensures forall row, col :: InBounds(w, h, row, col) ==> g[row][col] == Empty
  {
    seq(h, _ => seq(w, _ => Empty))
  }

  /** Number of entries of s equal to r. */
  function Count(s: seq<char>, r: char): (n: nat)
    ensures n <= |s|
  {
    if s == [] then 0 else Count(s[..|s| - 1], r) + (if s[|s| - 1] == r then 1 else 0)
  }

  /** Count extends one entry at a time, which is how the counting loops use it. */
  lemma CountPrefix(s: seq<char>, r: char, k: nat)
    requires k < |s|
    ensures Count(s[..k + 1], r) == Count(s[..k], r) + (if s[k] == r then 1 else 0)
  {
    assert s[..k + 1][..k] == s[..k];
  }

  /** Count agrees with the number of positions holding r. */
  lemma {:induction false} CountIsCardinality(s: seq<char>, r: char)
    ensures Count(s, r) == |set i | 0 <= i < |s| && s[i] == r|
  {
    if s != [] {
      var n := |s| - 1;
      CountIsCardinality(s[..n], r);
      var before := set i | 0 <= i < n && s[..n][i] == r;
      var all := set i | 0 <= i < |s| && s[i] == r;
      if s[n] == r {
        assert all == before + {n};
      } else {
        assert all == before;
      }
    }
  }

  /** Count distributes over concatenation. */
  lemma {:induction false} CountAppend(a: seq<char>, b: seq<char>, r: char)
    ensures Count(a + b, r) == Count(a, r) + Count(b, r)
  {
    if b != [] {
      var n := |b| - 1;
      assert (a + b)[..|a + b| - 1] == a + b[..n];
      CountAppend(a, b[..n], r);
    } else {
      assert a + b == a;
    }
  }

  /** Replacing one entry changes its old value's count by -1 and its new value's count by +1. */
  lemma {:induction false} CountUpdate(s: seq<char>, k: nat, v: char, r: char)
    requires k < |s|
    ensures Count(s[k := v], r) ==
            Count(s, r) - (if s[k] == r then 1 else 0) + (if v == r then 1 else 0)
  {
    var t := s[k := v];
    assert s == s[..k] + [s[k]] + s[k + 1..];
    assert t == s[..k] + [v] + s[k + 1..];
    CountAppend(s[..k] + [s[k]], s[k + 1..], r);
    CountAppend(s[..k], [s[k]], r);
    CountAppend(s[..k] + [v], s[k + 1..], r);
    CountAppend(s[..k], [v], r);
    assert Count([s[k]], r) == (if s[k] == r then 1 else 0) by {
      assert [s[k]][..0] == [];
    }
    assert Count([v], r) == (if v == r then 1 else 0) by {
      assert [v][..0] == [];
    }
  }

  /** The column col of g, top to bottom. */
  function Column(g: Grid, col: int): (c: seq<char>)
    requires 0 <= col
    requires forall i :: 0 <= i < |g| ==> col < |g[i]|
    ensures |c| == |g|
    ensures forall i :: 0 <= i < |g| ==> c[i] == g[i][col]
  {
    seq(|g|, i requires 0 <= i < |g| => g[i][col])
  }

  /** Number of cells of row `row` of g equal to r. */
  function RowCount(g: Grid, w: int, h: int, row: int, r: char): (n: nat)
    requires IsRect(g, w, h) && 0 <= row < h
    ensures n <= w
  {
    Count(g[row], r)
  }

  /** Number of cells of column `col` of g equal to r. */
  function ColCount(g: Grid, w: int, h: int, col: int, r: char): (n: nat)
    requires IsRect(g, w, h) && 0 <= col < w
    ensures n <= h
  {
    Count(Column(g, col), r)
  }

  /** A one-cell write changes each row count only in the row written, and by at most one. */
  lemma RowCountPut(g: Grid, w: int, h: int, row: int, col: int, v: char, row': int, r: char)
    requires IsRect(g, w, h) && InBounds(w, h, row, col) && 0 <= row' < h
    ensures RowCount(Put(g, w, h, row, col, v), w, h, row', r) ==
            if row' != row then RowCount(g, w, h, row', r)
            else RowCount(g, w, h, row, r) - (if g[row][col] == r then 1 else 0) + (if v == r then 1 else 0)
  {
    if row' == row {
      CountUpdate(g[row], col, v, r);
    }
  }

  /** A one-cell write changes each column count only in the column written, and by at most one. */
  lemma ColCountPut(g: Grid, w: int, h: int, row: int, col: int, v: char, col': int, r: char)
    requires IsRect(g, w, h) && InBounds(w, h, row, col) && 0 <= col' < w
    ensures ColCount(Put(g, w, h, row, col, v), w, h, col', r) ==
            if col' != col then ColCount(g, w, h, col', r)
            else ColCount(g, w, h, col, r) - (if g[row][col] == r then 1 else 0) + (if v == r then 1 else 0)
  {
    var g' := Put(g, w, h, row, col, v);
    if col' == col {
      assert Column(g', col) == Column(g, col)[row := v];
      CountUpdate(Column(g, col), row, v, r);
    } else {
      assert Column(g', col') == Column(g, col');
    }
  }

  // ---------------------------------------------------------------------------
  // Cell enumeration

  /** Which cells an enumeration yields: all of them, or those whose value is listed. */
  datatype Filter = All | Only(values: seq<char>)

  /** How often a cell holding v is yielded: once per filter entry equal to v. */
  function Multiplicity(v: char, f: Filter): nat {
    match f
    case All => 1
    case Only(values) => Count(values, v)
  }

  function Repeat(c: Coord, n: nat): (s: seq<Coord>)
    ensures |s| == n && forall i :: 0 <= i < n ==> s[i] == c
  {
    if n == 0 then [] else [c] + Repeat(c, n - 1)
  }

  /** The cells (row, col), (row, col + 1), ... of one row, as the enumeration yields them. */
  function RowCells(g: Grid, w: int, h: int, row: int, col: int, f: Filter): seq<Coord>
    requires IsRect(g, w, h) && 0 <= row < h && 0 <= col
    decreases w - col
  {
    if col >= w then [] else Repeat(Coord(row, col), Multiplicity(g[row][col], f)) + RowCells(g, w, h, row, col + 1, f)
  }

  /** The cells of rows row, row + 1, ..., in row-major order. */
  function CellsFrom(g: Grid, w: int, h: int, row: int, f: Filter): seq<Coord>
    requires IsRect(g, w, h) && 0 <= row
    decreases h - row
  {
    if row >= h then [] else RowCells(g, w, h, row, 0, f) + CellsFrom(g, w, h, row + 1, f)
  }

  /** Every cell in row-major order, or only the cells whose value the filter lists. */
  function Enumerate(g: Grid, w: int, h: int, f: Filter): seq<Coord>
    requires IsRect(g, w, h)
  {
    CellsFrom(g, w, h, 0, f)
  }

  /** Strict row-major order. */
  predicate Before(a: Coord, b: Coord) {
    a.row < b.row || (a.row == b.row && a.col < b.col)
  }

  /** A cell is yielded iff it is on the board and the filter admits its value. */
  predicate Admitted(g: Grid, w: int, h: int, c: Coord, f: Filter)
    requires IsRect(g, w, h)
  {
    InBounds(w, h, c.row, c.col) && Multiplicity(g[c.row][c.col], f) > 0
  }

  /** A row's enumeration from col yields exactly the admitted cells of the row at or after col. */
  lemma {:induction false} RowCellsMembers(g: Grid, w: int, h: int, row: int, col: int, f: Filter)
    requires IsRect(g, w, h) && 0 <= row < h && 0 <= col
    ensures forall c :: c in RowCells(g, w, h, row, col, f) <==> c.row == row && col <= c.col && Admitted(g, w, h, c, f)
    decreases w - col
  {
    if col < w {
      RowCellsMembers(g, w, h, row, col + 1, f);
      var head: seq<Coord> := Repeat(Coord(row, col), Multiplicity(g[row][col], f));
      var tail: seq<Coord> := RowCells(g, w, h, row, col + 1, f);
      assert RowCells(g, w, h, row, col, f) == head + tail;
    } else {
      assert RowCells(g, w, h, row, col, f) == [];
    }
  }

  /** A row's enumeration stays in the row and goes left to right. */
  lemma {:induction false} RowCellsOrdered(g: Grid, w: int, h: int, row: int, col: int, f: Filter)
    requires IsRect(g, w, h) && 0 <= row < h && 0 <= col
    ensures forall i, j :: 0 <= i < j < |RowCells(g, w, h, row, col, f)| ==>
              RowCells(g, w, h, row, col, f)[i].row == row && RowCells(g, w, h, row, col, f)[i].col <= RowCells(g, w, h, row, col, f)[j].col
    decreases w - col
  {
    if col < w {
      RowCellsOrdered(g, w, h, row, col + 1, f);
      RowCellsMembers(g, w, h, row, col + 1, f);
      var head: seq<Coord> := Repeat(Coord(row, col), Multiplicity(g[row][col], f));
      var tail: seq<Coord> := RowCells(g, w, h, row, col + 1, f);
      var s := RowCells(g, w, h, row, col, f);
      assert s == head + tail;
      forall i, j | 0 <= i < j < |s|
        ensures s[i].row == row && s[i].col <= s[j].col
      {
        if j < |head| {
          assert s[i] == head[i] && s[j] == head[j];
        } else if i >= |head| {
          assert s[i] == tail[i - |head|] && s[j] == tail[j - |head|];
        } else {
          assert s[i] == head[i] && s[j] == tail[j - |head|];
          assert tail[j - |head|] in tail;
        }
      }
    } else {
      assert RowCells(g, w, h, row, col, f) == [];
    }
  }

  /** With no filter a row's enumeration from col has one entry per cell from col on. */
  lemma {:induction false} RowCellsLength(g: Grid, w: int, h: int, row: int, col: int, f: Filter)
    requires IsRect(g, w, h) && 0 <= row < h && 0 <= col
    ensures f == All ==> |RowCells(g, w, h, row, col, f)| == if col <= w then w - col else 0
    decreases w - col
  {
    if col < w {
      RowCellsLength(g, w, h, row, col + 1, f);
      assert RowCells(g, w, h, row, col, f) ==
             Repeat(Coord(row, col), Multiplicity(g[row][col], f)) + RowCells(g, w, h, row, col + 1, f);
    } else {
      assert RowCells(g, w, h, row, col, f) == [];
    }
  }

  lemma {:induction false} CellsFromFacts(g: Grid, w: int, h: int, row: int, f: Filter)
    requires IsRect(g, w, h) && 0 <= row
    ensures forall c :: c in CellsFrom(g, w, h, row, f) <==> row <= c.row && Admitted(g, w, h, c, f)
    ensures forall i, j :: 0 <= i < j < |CellsFrom(g, w, h, row, f)| ==>
              !Before(CellsFrom(g, w, h, row, f)[j], CellsFrom(g, w, h, row, f)[i])
    ensures f == All ==> |CellsFrom(g, w, h, row, f)| == if row <= h then (h - row) * w else 0
    decreases h - row
  {
    if row < h {
      CellsFromFacts(g, w, h, row + 1, f);
      RowCellsMembers(g, w, h, row, 0, f);
      RowCellsOrdered(g, w, h, row, 0, f);
      RowCellsLength(g, w, h, row, 0, f);
      var head := RowCells(g, w, h, row, 0, f);
      var tail := CellsFrom(g, w, h, row + 1, f);
      assert CellsFrom(g, w, h, row, f) == head + tail;
      forall i, j | 0 <= i < j < |head + tail|
        ensures !Before((head + tail)[j], (head + tail)[i])
      {
        if j < |head| {
        } else if i >= |head| {
          assert (head + tail)[i] == tail[i - |head|];
          assert (head + tail)[j] == tail[j - |head|];
        } else {
          assert (head + tail)[i] == head[i];
          assert head[i] in head;
          assert (head + tail)[j] == tail[j - |head|];
          assert tail[j - |head|] in tail;
        }
      }
      if f == All {
        assert (h - row) * w == w + (h - (row + 1)) * w;
      }
    }
  }

  /**
    Without a filter the enumeration yields all width x height cells, each once, in
    strictly increasing row-major order; with a filter it yields, in row-major order,
    exactly the cells whose value the filter lists.
  */
  lemma CellsEnumeration(g: Grid, w: int, h: int, f: Filter)
    requires IsRect(g, w, h)
    ensures forall c :: c in Enumerate(g, w, h, f) <==> Admitted(g, w, h, c, f)
    ensures forall i, j :: 0 <= i < j < |Enumerate(g, w, h, f)| ==> !Before(Enumerate(g, w, h, f)[j], Enumerate(g, w, h, f)[i])
    ensures f == All ==> |Enumerate(g, w, h, f)| == w * h
    ensures f == All ==> forall i, j :: 0 <= i < j < |Enumerate(g, w, h, f)| ==> Before(Enumerate(g, w, h, f)[i], Enumerate(g, w, h, f)[j])
  {
    CellsFromFacts(g, w, h, 0, f);
    if f == All {
      var cs := Enumerate(g, w, h, f);
      forall i, j | 0 <= i < j < |cs|
        ensures Before(cs[i], cs[j])
      {
        CellsAllDistinct(g, w, h, 0, i, j);
      }
    }
  }

  lemma {:induction false} RowCellsAllAt(g: Grid, w: int, h: int, row: int, col: int, i: int)
    requires IsRect(g, w, h) && 0 <= row < h && 0 <= col <= w && 0 <= i < w - col
    ensures |RowCells(g, w, h, row, col, All)| == w - col
    ensures RowCells(g, w, h, row, col, All)[i] == Coord(row, col + i)
    decreases w - col
  {
    RowCellsAllStep(g, w, h, row, col);
    if col + 1 < w {
      RowCellsAllAt(g, w, h, row, col + 1, if i > 0 then i - 1 else 0);
    } else {
      assert RowCells(g, w, h, row, col + 1, All) == [];
    }
  }

  /** With no filter a row's enumeration yields (row, col), then the rest of the row. */
  lemma RowCellsAllStep(g: Grid, w: int, h: int, row: int, col: int)
    requires IsRect(g, w, h) && 0 <= row < h && 0 <= col < w
    ensures RowCells(g, w, h, row, col, All) == [Coord(row, col)] + RowCells(g, w, h, row, col + 1, All)
  {
    assert Repeat(Coord(row, col), 1) == [Coord(row, col)];
  }

  lemma {:induction false} CellsAllDistinct(g: Grid, w: int, h: int, row: int, i: int, j: int)
    requires IsRect(g, w, h) && 0 <= row
    requires 0 <= i < j < |CellsFrom(g, w, h, row, All)|
    ensures Before(CellsFrom(g, w, h, row, All)[i], CellsFrom(g, w, h, row, All)[j])
    decreases h - row
  {
    var head := RowCells(g, w, h, row, 0, All);
    var tail := CellsFrom(g, w, h, row + 1, All);
    RowCellsMembers(g, w, h, row, 0, All);
    RowCellsOrdered(g, w, h, row, 0, All);
    RowCellsLength(g, w, h, row, 0, All);
    CellsFromFacts(g, w, h, row + 1, All);
    assert CellsFrom(g, w, h, row, All) == head + tail;
    if j < |head| {
      RowCellsAllAt(g, w, h, row, 0, i);
      RowCellsAllAt(g, w, h, row, 0, j);
    } else if i >= |head| {
      CellsAllDistinct(g, w, h, row + 1, i - |head|, j - |head|);
    } else {
      assert (head + tail)[i] == head[i];
      assert head[i] in head;
      assert (head + tail)[j] == tail[j - |head|];
      assert tail[j - |head|] in tail;
    }
  }

  // ---------------------------------------------------------------------------
  // Flood fill

  /** Number of cells of the whole grid equal to r. */
  function Total(g: Grid, r: char): nat {
    if g == [] then 0 else Total(g[..|g| - 1], r) + Count(g[|g| - 1], r)
  }

  /** A one-cell write changes the grid total the way it changes that row's count. */
  lemma {:induction false} TotalPut(g: Grid, w: int, h: int, row: int, col: int, v: char, r: char)
    requires IsRect(g, w, h) && InBounds(w, h, row, col)
    ensures Total(Put(g, w, h, row, col, v), r) ==
            Total(g, r) - (if g[row][col] == r then 1 else 0) + (if v == r then 1 else 0)
    decreases h
  {
    var g' := Put(g, w, h, row, col, v);
    var n := h - 1;
    if row == n {
      assert g'[..n] == g[..n];
      CountUpdate(g[row], col, v, r);
    } else {
      assert g'[..n] == Put(g[..n], w, n, row, col, v);
      TotalPut(g[..n], w, n, row, col, v, r);
    }
  }

  /** (row, col) holds a pole and one of its four neighbours holds the opposite pole. */
  ghost predicate Supported(g: Grid, w: int, h: int, row: int, col: int)
    requires IsRect(g, w, h) && InBounds(w, h, row, col)
  {
    IsPole(g[row][col]) &&
    (At(g, w, h, row - 1, col) == Negate(g[row][col]) || At(g, w, h, row, col - 1) == Negate(g[row][col]) ||
     At(g, w, h, row, col + 1) == Negate(g[row][col]) || At(g, w, h, row + 1, col) == Negate(g[row][col]))
  }

  /** If (row, col) holds a pole, none of its four neighbours is Empty. */
  ghost predicate Settled(g: Grid, w: int, h: int, row: int, col: int)
    requires IsRect(g, w, h) && InBounds(w, h, row, col)
  {
    IsPole(g[row][col]) ==>
      At(g, w, h, row - 1, col) != Empty && At(g, w, h, row, col - 1) != Empty &&
      At(g, w, h, row, col + 1) != Empty && At(g, w, h, row + 1, col) != Empty
  }

  /** g grew out of o by filling Empty cells only, each with the opposite of a neighbouring pole. */
  ghost predicate FilledFrom(o: Grid, g: Grid, w: int, h: int) {
    IsRect(o, w, h) && IsRect(g, w, h) &&
    forall row, col :: InBounds(w, h, row, col) ==>
      g[row][col] == o[row][col] || (o[row][col] == Empty && Supported(g, w, h, row, col))
  }

  /** Filling one more Empty cell next to the opposite pole keeps the grid filled from o. */
  lemma FillStep(o: Grid, g: Grid, w: int, h: int, row: int, col: int, k: int)
    requires FilledFrom(o, g, w, h) && InBounds(w, h, row, col) && IsPole(g[row][col])
    requires 0 <= k < |Adjacents|
    requires At(g, w, h, row + Adjacents[k].row, col + Adjacents[k].col) == Empty
    ensures FilledFrom(o, Put(g, w, h, row + Adjacents[k].row, col + Adjacents[k].col, Negate(g[row][col])), w, h)
  {
    var r, c := row + Adjacents[k].row, col + Adjacents[k].col;
    var v := Negate(g[row][col]);
    var g' := Put(g, w, h, r, c, v);
    NegateInvolution(g[row][col]);
    forall i, j | InBounds(w, h, i, j)
      ensures g'[i][j] == o[i][j] || (o[i][j] == Empty && Supported(g', w, h, i, j))
    {
      if i == r && j == c {
        assert At(g', w, h, row, col) == g[row][col];
      } else if g[i][j] != o[i][j] {
        assert Supported(g, w, h, i, j);
        AtPut(g, w, h, r, c, v, i - 1, j);
        AtPut(g, w, h, r, c, v, i, j - 1);
        AtPut(g, w, h, r, c, v, i, j + 1);
        AtPut(g, w, h, r, c, v, i + 1, j);
      }
    }
  }

  /** Filling an Empty neighbour keeps the pole, keeps the grid filled from o and uses up one Empty cell. */
  lemma FillOne(o: Grid, g: Grid, g': Grid, w: int, h: int, row: int, col: int, k: int)
    requires FilledFrom(o, g, w, h) && InBounds(w, h, row, col) && IsPole(g[row][col])
    requires 0 <= k < |Adjacents|
    requires At(g, w, h, row + Adjacents[k].row, col + Adjacents[k].col) == Empty
    requires g' == Put(g, w, h, row + Adjacents[k].row, col + Adjacents[k].col, Negate(g[row][col]))
    ensures FilledFrom(o, g', w, h) && g'[row][col] == g[row][col] && Total(g', Empty) == Total(g, Empty) - 1
  {
    var r, c := row + Adjacents[k].row, col + Adjacents[k].col;
    FillStep(o, g, w, h, row, col, k);
    assert InBounds(w, h, r, c) && g[r][c] == Empty;
    TotalPut(g, w, h, r, c, Negate(g[row][col]), Empty);
    assert (r, c) != (row, col);
  }

  /** The k-th neighbour of (row, col) is off the board or not Empty. */
  ghost predicate NeighbourFilled(g: Grid, w: int, h: int, row: int, col: int, k: int)
    requires IsRect(g, w, h) && 0 <= k < |Adjacents|
  {
    At(g, w, h, row + Adjacents[k].row, col + Adjacents[k].col) != Empty
  }

  /**
    The mutable board: a width x height matrix of symbols. Reads and writes are
    bounds-checked; the dimensions never change after construction.
  */
  class Board {
    const width: int
    const height: int
    var cells: Grid

    ghost predicate Valid()
      reads this
    {
      IsRect(cells, width, height)
    }

    /** A width x height board with every cell Empty. */
    constructor New(width: int, height: int)
      requires width >= 0 && height >= 0
      ensures Valid() && this.width == width && this.height == height
      ensures cells == Blank(width, height)
    {
      this.width := width;
      this.height := height;
      cells := seq(height, _ => seq(width, _ => 0 as char));
      new;
      var row := 0;
      while row < height
        invariant 0 <= row <= height && IsRect(cells, width, height)
        invariant forall i, j :: 0 <= i < row && 0 <= j < width ==> cells[i][j] == Empty
      {
        var col := 0;
        while col < width
          invariant 0 <= col <= width && IsRect(cells, width, height)
          invariant forall i, j :: 0 <= i < row && 0 <= j < width ==> cells[i][j] == Empty
          invariant forall j :: 0 <= j < col ==> cells[row][j] == Empty
        {
          cells := Put(cells, width, height, row, col, Empty);
          col := col + 1;
        }
        row := row + 1;
      }
      GridExtensionality(cells, Blank(width, height), width, height);
    }

    /** The cell at (row, col), or Border off the board. */
    function Get(row: int, col: int): (r: char)
      requires Valid()
      reads this
      ensures InBounds(width, height, row, col) ==> r == cells[row][col]
      ensures !InBounds(width, height, row, col) ==> r == Border
    {
      At(cells, width, height, row, col)
    }

    /** Stores r at (row, col); a write off the board is ignored. */
    method Set(row: int, col: int, r: char)
      requires Valid()
      modifies this
      ensures Valid() && cells == Put(old(cells), width, height, row, col, r)
    {
      if row < 0 || row >= height || col < 0 || col >= width {
        return;
      }
      cells := cells[row := cells[row][col := r]];
    }

    /** The cells the enumeration yields, in row-major order (see CellsEnumeration). */
    function Cells(f: Filter): (cs: seq<Coord>)
      requires Valid()
      reads this
      ensures forall c :: c in cs <==> Admitted(cells, width, height, c, f)
      ensures f == All ==> |cs| == width * height
    {
      CellsEnumeration(cells, width, height, f);
      Enumerate(cells, width, height, f)
    }

    /** Number of cells of row `row` holding r. */
    method CountRow(row: int, r: char) returns (count: int)
      requires Valid() && 0 <= row < height
      ensures count == RowCount(cells, width, height, row, r)
    {
      count := 0;
      var col := 0;
      while col < width
        invariant 0 <= col <= width
        invariant count == Count(cells[row][..col], r)
      {
        CountPrefix(cells[row], r, col);
        if cells[row][col] == r {
          count := count + 1;
        }
        col := col + 1;
      }
      assert cells[row][..width] == cells[row];
    }

    /** Number of cells of column `col` holding r. */
    method CountCol(col: int, r: char) returns (count: int)
      requires Valid() && 0 <= col < width
      ensures count == ColCount(cells, width, height, col, r)
    {
      ghost var column := Column(cells, col);
      count := 0;
      var row := 0;
      while row < height
        invariant 0 <= row <= height
        invariant count == Count(column[..row], r)
      {
        CountPrefix(column, r, row);
        if cells[row][col] == r {
          count := count + 1;
        }
        row := row + 1;
      }
      assert column[..height] == column;
    }

    /** Whether l2 has the same dimensions and the same symbol in every cell. */
    method Equal(l2: Board) returns (b: bool)
      requires Valid() && l2.Valid()
      ensures b <==> width == l2.width && height == l2.height && cells == l2.cells
    {
      if height != l2.height || width != l2.width {
        return false;
      }
      var row := 0;
      while row < height
        invariant 0 <= row <= height
        invariant forall i, j :: 0 <= i < row && 0 <= j < width ==> cells[i][j] == l2.cells[i][j]
      {
        var col := 0;
        while col < width
          invariant 0 <= col <= width
          invariant forall i, j :: 0 <= i < row && 0 <= j < width ==> cells[i][j] == l2.cells[i][j]
          invariant forall j :: 0 <= j < col ==> cells[row][j] == l2.cells[row][j]
        {
          if Get(row, col) != l2.Get(row, col) {
            return false;
          }
          col := col + 1;
        }
        row := row + 1;
      }
      GridExtensionality(cells, l2.cells, width, height);
      return true;
    }

    /**
      Repeatedly gives every Empty neighbour of a pole the opposite pole, until
      no pole has an Empty neighbour. Cells already holding a symbol never change.
    */
    method FloodFill()
      requires Valid()
      modifies this
      ensures Valid() && FilledFrom(old(cells), cells, width, height)
      ensures forall row, col :: InBounds(width, height, row, col) ==> Settled(cells, width, height, row, col)
    {
      var changed := true;
      while changed
        invariant Valid() && FilledFrom(old(cells), cells, width, height)
        invariant !changed ==> forall i, j :: InBounds(width, height, i, j) ==> Settled(cells, width, height, i, j)
        decreases Total(cells, Empty) + (if changed then 1 else 0)
      {
        changed := FillPass(old(cells));
      }
    }

    /** One sweep of FloodFill over the poles, in row-major order; reports whether a cell was filled. */
    method FillPass(ghost o: Grid) returns (changed: bool)
      requires Valid() && FilledFrom(o, cells, width, height)
      modifies this
      ensures Valid() && FilledFrom(o, cells, width, height)
      ensures changed ==> Total(cells, Empty) < Total(old(cells), Empty)
      ensures !changed ==> cells == old(cells)
      ensures !changed ==> forall i, j :: InBounds(width, height, i, j) ==> Settled(cells, width, height, i, j)
    {
      changed := false;
      var row := 0;
      while row < height
        invariant 0 <= row <= height && Valid() && FilledFrom(o, cells, width, height)
        invariant Total(cells, Empty) <= Total(old(cells), Empty)
        invariant changed ==> Total(cells, Empty) < Total(old(cells), Empty)
        invariant !changed ==> cells == old(cells)
        invariant !changed ==> forall i, j :: 0 <= i < row && 0 <= j < width ==> Settled(cells, width, height, i, j)
      {
        var filled := FillRow(o, row);
        changed := changed || filled;
        row := row + 1;
      }
    }

    /** One row of the sweep of FillPass; reports whether a cell was filled. */
    method FillRow(ghost o: Grid, row: int) returns (changed: bool)
      requires Valid() && FilledFrom(o, cells, width, height) && 0 <= row < height
      modifies this
      ensures Valid() && FilledFrom(o, cells, width, height)
      ensures Total(cells, Empty) <= Total(old(cells), Empty)
      ensures changed ==> Total(cells, Empty) < Total(old(cells), Empty)
      ensures !changed ==> cells == old(cells)
      ensures !changed ==> forall j :: 0 <= j < width ==> Settled(cells, width, height, row, j)
    {
      changed := false;
      var col := 0;
      while col < width
        invariant 0 <= col <= width && Valid() && FilledFrom(o, cells, width, height)
        invariant Total(cells, Empty) <= Total(old(cells), Empty)
        invariant changed ==> Total(cells, Empty) < Total(old(cells), Empty)
        invariant !changed ==> cells == old(cells)
        invariant !changed ==> forall j :: 0 <= j < col ==> Settled(cells, width, height, row, j)
      {
        var filled := FillAround(o, row, col);
        changed := changed || filled;
        col := col + 1;
      }
    }

    /** If (row, col) holds a pole, gives each Empty neighbour the opposite pole; reports whether one was filled. */
    method FillAround(ghost o: Grid, row: int, col: int) returns (changed: bool)
      requires Valid() && FilledFrom(o, cells, width, height) && InBounds(width, height, row, col)
      modifies this
      ensures Valid() && FilledFrom(o, cells, width, height)
      ensures Total(cells, Empty) <= Total(old(cells), Empty)
      ensures changed ==> Total(cells, Empty) < Total(old(cells), Empty)
      ensures !changed ==> cells == old(cells) && Settled(cells, width, height, row, col)
    {
      changed := false;
      var grid := Get(row, col);
      if !IsPole(grid) {
        return;
      }
      var k := 0;
      while k < |Adjacents|
        invariant 0 <= k <= |Adjacents| && Valid() && FilledFrom(o, cells, width, height)
        invariant cells[row][col] == grid
        invariant Total(cells, Empty) <= Total(old(cells), Empty)
        invariant changed ==> Total(cells, Empty) < Total(old(cells), Empty)
        invariant !changed ==> cells == old(cells)
        invariant !changed ==> forall m :: 0 <= m < k ==> NeighbourFilled(cells, width, height, row, col, m)
      {
        var filled := FillNeighbour(o, row, col, k);
        changed := changed || filled;
        k := k + 1;
      }
      if !changed {
        assert NeighbourFilled(cells, width, height, row, col, 0) && NeighbourFilled(cells, width, height, row, col, 1);
        assert NeighbourFilled(cells, width, height, row, col, 2) && NeighbourFilled(cells, width, height, row, col, 3);
      }
    }

    /** Fills the k-th neighbour of the pole at (row, col) if it is Empty; reports whether it was. */
    method FillNeighbour(ghost o: Grid, row: int, col: int, k: int) returns (filled: bool)
      requires Valid() && FilledFrom(o, cells, width, height) && InBounds(width, height, row, col)
      requires IsPole(cells[row][col]) && 0 <= k < |Adjacents|
      modifies this
      ensures Valid() && FilledFrom(o, cells, width, height)
      ensures cells[row][col] == old(cells[row][col])
      ensures filled ==> Total(cells, Empty) == Total(old(cells), Empty) - 1
      ensures !filled ==> cells == old(cells) && NeighbourFilled(cells, width, height, row, col, k)
    {
      var grid := Get(row, col);
      var r := row + Adjacents[k].row;
      var c := col + Adjacents[k].col;
      filled := false;
      if Get(r, c) == Empty {
        ghost var g := cells;
        Set(r, c, Negate(grid));
        FillOne(o, g, cells, width, height, row, col, k);
        filled := true;
      }
    }
  }
}

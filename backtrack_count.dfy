/**
  The corrected backtracking counter counts exactly the solutions the puzzle
  has: every solution that agrees with the starting guess is reached by a
  counted leaf, and the counted leaves are distinct solutions of that kind. So
  the count is one exactly when the solution is unique, which is what
  singleSolution asks of the counter.
*/
module BacktrackCount {
  import opened Common
  import opened Boards
  import opened Magnets
  import opened Backtrack

  /** The values the search tries at a head, in the order +, -, #. */
  predicate Tried(v: char) {
    v == Positive || v == Negative || v == Neutral
  }

  /** Every head of g holds a value the search tries. */
  ghost predicate HeadsFilled(s: State, g: Grid)
    requires Shaped(s) && IsRect(g, s.width, s.height)
  {
    forall i, j :: InBounds(s.width, s.height, i, j) && IsHead(s.frames, s.width, s.height, i, j) ==> Tried(g[i][j])
  }

  /**
    g is a solution with its heads filled, and the guess holds g's value in every
    cell except those a search from (row, col) writes, which may be Empty instead.
  */
  ghost predicate Consistent(s: State, row: int, col: int, g: Grid)
    requires Shaped(s)
  {
    IsRect(g, s.width, s.height) && Solution(s, g) && HeadsFilled(s, g) &&
    Resets(s.frames, s.width, s.height, row, col, g, s.guess)
  }

  /** The same, seen from the head (row, col): the head and its partner are not constrained. */
  ghost predicate ConsistentBeside(s: State, row: int, col: int, g: Grid)
    requires Shaped(s) && IsHead(s.frames, s.width, s.height, row, col)
  {
    IsRect(g, s.width, s.height) && Solution(s, g) && HeadsFilled(s, g) &&
    forall i, j :: InBounds(s.width, s.height, i, j) && (i, j) != (row, col) && Coord(i, j) != Partner(s, row, col) ==>
      s.guess[i][j] == g[i][j] || (Touched(s.frames, s.width, s.height, row, col + 1, i, j) && s.guess[i][j] == Empty)
  }

  /** The guess a search from (row, col) expects: the cells it writes are Empty, every other head is filled. */
  ghost predicate Pending(s: State, row: int, col: int)
    requires Shaped(s)
  {
    forall i, j :: InBounds(s.width, s.height, i, j) ==>
      if Touched(s.frames, s.width, s.height, row, col, i, j) then s.guess[i][j] == Empty
      else IsHead(s.frames, s.width, s.height, i, j) ==> Tried(s.guess[i][j])
  }

  /** The same, seen from the head (row, col): the head and its partner are not constrained. */
  ghost predicate PendingBeside(s: State, row: int, col: int)
    requires Shaped(s) && IsHead(s.frames, s.width, s.height, row, col)
  {
    forall i, j :: InBounds(s.width, s.height, i, j) && (i, j) != (row, col) && Coord(i, j) != Partner(s, row, col) ==>
      if Touched(s.frames, s.width, s.height, row, col + 1, i, j) then s.guess[i][j] == Empty
      else IsHead(s.frames, s.width, s.height, i, j) ==> Tried(s.guess[i][j])
  }

  /** Every grid of G is consistent with the guess for a search from (row, col). */
  ghost predicate AllConsistent(s: State, row: int, col: int, G: set<Grid>)
    requires Shaped(s)
  {
    forall g :: g in G ==> Consistent(s, row, col, g)
  }

  /** Every grid of G is consistent beside the head (row, col) and holds v there. */
  ghost predicate AllBeside(s: State, row: int, col: int, v: char, G: set<Grid>)
    requires Shaped(s) && InBounds(s.width, s.height, row, col) && IsHead(s.frames, s.width, s.height, row, col)
  {
    forall g :: g in G ==> ConsistentBeside(s, row, col, g) && g[row][col] == v
  }

  // ---------------------------------------------------------------------------
  // The cells a search writes

  /** A search that finds no head writes nothing. */
  lemma NothingTouched(s: State, row: int, col: int, i: int, j: int)
    requires Shaped(s) && FramesComplete(s.frames, s.width, s.height)
    requires Scan(s.frames, s.width, s.height, row, col) == Leaf
    ensures !Touched(s.frames, s.width, s.height, row, col, i, j)
  {
    var f, w, h := s.frames, s.width, s.height;
    if InBounds(w, h, i, j) && f[i][j] != Wall {
      PartnerSymmetric(f, w, h, i, j);
    }
  }

  /** No head lies between (row, col) and the head the scan stops at, so both searches write the same cells. */
  lemma TouchedFromHead(s: State, row: int, col: int, r: int, c: int, i: int, j: int)
    requires Shaped(s) && FramesComplete(s.frames, s.width, s.height)
    requires Scan(s.frames, s.width, s.height, row, col) == Head(r, c)
    ensures Touched(s.frames, s.width, s.height, row, col, i, j) <==> Touched(s.frames, s.width, s.height, r, c, i, j)
  {
    var f, w, h := s.frames, s.width, s.height;
    if InBounds(w, h, i, j) && f[i][j] != Wall {
      PartnerSymmetric(f, w, h, i, j);
    }
  }

  /** A search from a head writes the head, its partner, and what the search from the next cell writes. */
  lemma TouchedNext(s: State, r: int, c: int, i: int, j: int)
    requires Shaped(s) && FramesComplete(s.frames, s.width, s.height)
    requires InBounds(s.width, s.height, r, c) && IsHead(s.frames, s.width, s.height, r, c)
    ensures Touched(s.frames, s.width, s.height, r, c, i, j) <==>
            (i, j) == (r, c) || Coord(i, j) == Partner(s, r, c) || Touched(s.frames, s.width, s.height, r, c + 1, i, j)
    ensures !Touched(s.frames, s.width, s.height, r, c + 1, r, c)
    ensures !Touched(s.frames, s.width, s.height, r, c + 1, Partner(s, r, c).row, Partner(s, r, c).col)
  {
    var f, w, h := s.frames, s.width, s.height;
    PartnerSymmetric(f, w, h, r, c);
    if InBounds(w, h, i, j) && f[i][j] != Wall {
      PartnerSymmetric(f, w, h, i, j);
    }
  }

  // ---------------------------------------------------------------------------
  // A placement that agrees with a solution stands

  /** Blanking cells never raises the count of a symbol other than Empty. */
  lemma {:induction false} CountBelow(a: seq<char>, b: seq<char>, v: char)
    requires |a| == |b| && v != Empty
    requires forall k :: 0 <= k < |a| ==> a[k] == b[k] || a[k] == Empty
    ensures Count(a, v) <= Count(b, v)
  {
    if a != [] {
      var n := |a| - 1;
      CountBelow(a[..n], b[..n], v);
    }
  }

  /** A row holding only a solution's values and Empty cells is within the row limits. */
  lemma WithinRowLimits(s: State, g: Grid, row: int)
    requires Shaped(s) && 0 <= row < s.height && Solution(s, g)
    requires forall j :: 0 <= j < s.width ==> s.guess[row][j] == g[row][j] || s.guess[row][j] == Empty
    ensures !ExceedsRowLimits(s, row)
  {
    var a, b := s.guess[row], g[row];
    var v := s.(guess := g).(grid := g);
    assert forall k :: 0 <= k < |b| ==> GridSymbol(b[k]) by {
      forall k | 0 <= k < |b|
        ensures GridSymbol(b[k])
      {
        assert GridSymbol(v.grid[row][k]);
      }
    }
    CountPartition(b);
    CountBelow(a, b, Positive);
    CountBelow(a, b, Negative);
    CountBelow(a, b, Neutral);
    CountBelow(a, b, Wall);
    assert RowSolved(s.(guess := g), row);
  }

  /** A solution's rules at one cell: its domino halves are opposite and its poles are apart. */
  lemma SolutionAt(s: State, g: Grid, row: int, col: int)
    requires Shaped(s) && Solution(s, g) && InBounds(s.width, s.height, row, col)
    ensures PolarityOk(s.frames, g, s.width, s.height, row, col)
    ensures Apart(g, s.width, s.height, row, col)
  {
    var sg := s.(guess := g).(grid := g);
    assert PolarityOk(sg.frames, sg.grid, s.width, s.height, row, col);
    assert Apart(sg.grid, s.width, s.height, row, col);
  }

  /** A cell before the head holds g's value in a guess consistent beside the head. */
  lemma EarlierAgrees(s: State, row: int, col: int, g: Grid, i: int, j: int)
    requires Shaped(s) && InBounds(s.width, s.height, row, col) && IsHead(s.frames, s.width, s.height, row, col)
    requires ConsistentBeside(s, row, col, g)
    ensures InBounds(s.width, s.height, i, j) && Earlier(i, j, row, col) ==> s.guess[i][j] == g[i][j]
  {
    if InBounds(s.width, s.height, i, j) && Earlier(i, j, row, col) {
      var e := Partner(s, row, col);
      assert e == Coord(row + 1, col) || e == Coord(row, col + 1);
      assert !Touched(s.frames, s.width, s.height, row, col + 1, i, j);
    }
  }

  /** The pole test at a head whose value in g is a pole reads only cells holding g's values, none of them that pole. */
  lemma PoleTestPasses(s: State, row: int, col: int, g: Grid)
    requires Shaped(s) && FramesComplete(s.frames, s.width, s.height)
    requires InBounds(s.width, s.height, row, col) && IsHead(s.frames, s.width, s.height, row, col)
    requires ConsistentBeside(s, row, col, g)
    ensures Tried(g[row][col])
    ensures IsPole(g[row][col]) ==>
              At(s.guess, s.width, s.height, row - 1, col) != g[row][col] &&
              At(s.guess, s.width, s.height, row, col - 1) != g[row][col]
  {
    SolutionAt(s, g, row, col);
    EarlierAgrees(s, row, col, g, row - 1, col);
    EarlierAgrees(s, row, col, g, row, col - 1);
  }

  /** Writing g's values at a head and its partner leaves a guess agreeing with g up to the cells the next search writes. */
  lemma PlacedAgrees(s: State, row: int, col: int, g: Grid)
    requires Shaped(s) && FramesComplete(s.frames, s.width, s.height)
    requires InBounds(s.width, s.height, row, col) && IsHead(s.frames, s.width, s.height, row, col)
    requires ConsistentBeside(s, row, col, g)
    ensures var e := Partner(s, row, col);
            Resets(s.frames, s.width, s.height, row, col + 1, g,
                   Put(Put(s.guess, s.width, s.height, row, col, g[row][col]), s.width, s.height, e.row, e.col, Negate(g[row][col])))
  {
    var f, w, h := s.frames, s.width, s.height;
    var v := g[row][col];
    var e := Partner(s, row, col);
    PartnerSymmetric(f, w, h, row, col);
    SolutionAt(s, g, row, col);
    assert g[e.row][e.col] == Negate(v);
    var y := Put(Put(s.guess, w, h, row, col, v), w, h, e.row, e.col, Negate(v));
    forall i, j | InBounds(w, h, i, j)
      ensures y[i][j] == g[i][j] || (Touched(f, w, h, row, col + 1, i, j) && y[i][j] == Empty)
    {
      if (i, j) != (row, col) && Coord(i, j) != e {
        assert y[i][j] == s.guess[i][j];
      }
    }
  }

  /**
    Placing g's value at a head stands when the guess agrees with g away from the
    head and its partner: the pole test reads only earlier cells, which hold g's
    values, and the row then holds only g's values and Empty cells.
  */
  lemma PlaceStands(s: State, row: int, col: int, g: Grid)
    requires Shaped(s) && FramesComplete(s.frames, s.width, s.height)
    requires InBounds(s.width, s.height, row, col) && IsHead(s.frames, s.width, s.height, row, col)
    requires ConsistentBeside(s, row, col, g)
    ensures var e := Partner(s, row, col);
            TrySet(s, row, col, g[row][col]) ==
              Attempt(true, Put(Put(s.guess, s.width, s.height, row, col, g[row][col]), s.width, s.height, e.row, e.col, Negate(g[row][col])))
    ensures Resets(s.frames, s.width, s.height, row, col + 1, g, TrySet(s, row, col, g[row][col]).guess)
  {
    var w, h := s.width, s.height;
    var v := g[row][col];
    var e := Partner(s, row, col);
    var y := Put(Put(s.guess, w, h, row, col, v), w, h, e.row, e.col, Negate(v));
    PoleTestPasses(s, row, col, g);
    PlacedAgrees(s, row, col, g);
    RowAgrees(s, row, col + 1, g, y);
    SolutionIgnoresGuess(s, y, g);
    WithinRowLimits(s.(guess := y), g, row);
  }

  /** A guess agreeing with g up to Empty cells agrees with it that way along each row. */
  lemma RowAgrees(s: State, row: int, col: int, g: Grid, y: Grid)
    requires Shaped(s) && 0 <= row < s.height && IsRect(g, s.width, s.height) && IsRect(y, s.width, s.height)
    requires Resets(s.frames, s.width, s.height, row, col, g, y)
    ensures forall j :: 0 <= j < s.width ==> y[row][j] == g[row][j] || y[row][j] == Empty
  {
    forall j | 0 <= j < s.width
      ensures y[row][j] == g[row][j] || y[row][j] == Empty
    {
      assert InBounds(s.width, s.height, row, j);
    }
  }

  // ---------------------------------------------------------------------------
  // Completeness: every consistent solution is counted

  /** A consistent solution seen from the head the scan stops at. */
  lemma HeadBeside(s: State, row: int, col: int, r: int, c: int, g: Grid)
    requires Shaped(s) && FramesComplete(s.frames, s.width, s.height)
    requires Scan(s.frames, s.width, s.height, row, col) == Head(r, c)
    requires Consistent(s, row, col, g)
    ensures ConsistentBeside(s, r, c, g)
  {
    forall i, j | InBounds(s.width, s.height, i, j) && (i, j) != (r, c) && Coord(i, j) != Partner(s, r, c)
      ensures s.guess[i][j] == g[i][j] || (Touched(s.frames, s.width, s.height, r, c + 1, i, j) && s.guess[i][j] == Empty)
    {
      TouchedFromHead(s, row, col, r, c, i, j);
      TouchedNext(s, r, c, i, j);
    }
  }

  /** An earlier branch at the head leaves a consistent solution consistent for the next one. */
  lemma ResetBeside(s: State, r: int, c: int, v: char, g: Grid)
    requires Shaped(s) && FramesComplete(s.frames, s.width, s.height)
    requires InBounds(s.width, s.height, r, c) && IsHead(s.frames, s.width, s.height, r, c)
    requires ConsistentBeside(s, r, c, g)
    ensures ConsistentBeside(s.(guess := Branch(s, r, c, v, true).guess), r, c, g)
  {
    var x := Branch(s, r, c, v, true).guess;
    forall i, j | InBounds(s.width, s.height, i, j) && (i, j) != (r, c) && Coord(i, j) != Partner(s, r, c)
      ensures x[i][j] == g[i][j] || (Touched(s.frames, s.width, s.height, r, c + 1, i, j) && x[i][j] == Empty)
    {
      BranchResets(s, r, c, v, true, i, j);
    }
    SolutionIgnoresGuess(s, x, g);
  }

  /** The branch trying v counts at least every consistent solution with v at the head. */
  lemma {:induction false} BranchComplete(s: State, row: int, col: int, v: char, G: set<Grid>)
    requires Shaped(s) && FramesComplete(s.frames, s.width, s.height)
    requires InBounds(s.width, s.height, row, col) && IsHead(s.frames, s.width, s.height, row, col)
    requires AllBeside(s, row, col, v, G)
    ensures Branch(s, row, col, v, true).count >= |G|
    decreases s.height - row, s.width - col, 0
  {
    if G != {} {
      var g0 :| g0 in G;
      PlaceStands(s, row, col, g0);
      var y := TrySet(s, row, col, v).guess;
      var s' := s.(guess := y);
      forall g | g in G
        ensures Consistent(s', row, col + 1, g)
      {
        PlaceStands(s, row, col, g);
        SolutionIgnoresGuess(s, y, g);
      }
      IntendedComplete(s', row, col + 1, G);
    }
  }

  /**
    The corrected search from (row, col) counts at least as many leaves as there
    are solutions consistent with the guess there: none is missed.
  */
  lemma {:induction false} IntendedComplete(s: State, row: int, col: int, G: set<Grid>)
    requires Shaped(s) && FramesComplete(s.frames, s.width, s.height)
    requires forall g :: g in G ==> Consistent(s, row, col, g)
    ensures Search(s, row, col, true).count >= |G|
    decreases s.height - row, s.width - col, 1
  {
    match Scan(s.frames, s.width, s.height, row, col)
    case Leaf =>
      if G != {} {
        var g :| g in G;
        forall i, j | InBounds(s.width, s.height, i, j)
          ensures g[i][j] == s.guess[i][j]
        {
          NothingTouched(s, row, col, i, j);
        }
        GridExtensionality(g, s.guess, s.width, s.height);
        assert s.(guess := g) == s;
        forall g' | g' in G
          ensures g' == g
        {
          forall i, j | InBounds(s.width, s.height, i, j)
            ensures g'[i][j] == s.guess[i][j]
          {
            NothingTouched(s, row, col, i, j);
          }
          GridExtensionality(g', s.guess, s.width, s.height);
        }
        assert G == {g};
      }
    case Head(r, c) =>
      var o1 := Branch(s, r, c, Positive, true);
      var s2 := s.(guess := o1.guess);
      var o2 := Branch(s2, r, c, Negative, true);
      var s3 := s.(guess := o2.guess);
      var Gp := HeadsAt(G, r, c, Positive);
      var Gn := HeadsAt(G, r, c, Negative);
      var Gz := HeadsAt(G, r, c, Neutral);
      forall g | g in G
        ensures ConsistentBeside(s, r, c, g) && ConsistentBeside(s2, r, c, g) && ConsistentBeside(s3, r, c, g)
        ensures g in Gp + Gn + Gz
      {
        HeadBeside(s, row, col, r, c, g);
        ResetBeside(s, r, c, Positive, g);
        ResetBeside(s2, r, c, Negative, g);
        assert Tried(g[r][c]);
      }
      assert G <= Gp + Gn + Gz;
      BranchComplete(s, r, c, Positive, Gp);
      BranchComplete(s2, r, c, Negative, Gn);
      BranchComplete(s3, r, c, Neutral, Gz);
      UnionBound(G, Gp, Gn, Gz);
  }

  /** The grids of G holding v at (r, c). */
  function HeadsAt(G: set<Grid>, r: nat, c: nat, v: char): (H: set<Grid>)
    ensures H <= G
    ensures forall g :: g in H <==> g in G && r < |g| && c < |g[r]| && g[r][c] == v
  {
    set g | g in G && r < |g| && c < |g[r]| && g[r][c] == v
  }

  /** A set covered by three others is no larger than their sizes together. */
  lemma UnionBound(G: set<Grid>, A: set<Grid>, B: set<Grid>, C: set<Grid>)
    requires G <= A + B + C
    ensures |G| <= |A| + |B| + |C|
  {
    SubsetSize(G, A + B + C);
    assert |A + B| <= |A| + |B|;
  }

  /** A subset is no larger than the set it is in. */
  lemma {:induction false} SubsetSize(G: set<Grid>, H: set<Grid>)
    requires G <= H
    ensures |G| <= |H|
  {
    if G != {} {
      var g :| g in G;
      SubsetSize(G - {g}, H - {g});
    }
  }

  // ---------------------------------------------------------------------------
  // Soundness: the counted leaves are distinct consistent solutions

  /** From a pending guess, every cell away from the head the scan stops at and its partner is as the branches need it. */
  lemma HeadPending(s: State, row: int, col: int, r: int, c: int)
    requires Shaped(s) && FramesComplete(s.frames, s.width, s.height)
    requires Scan(s.frames, s.width, s.height, row, col) == Head(r, c)
    requires Pending(s, row, col)
    ensures PendingBeside(s, r, c)
  {
    forall i, j | InBounds(s.width, s.height, i, j) && (i, j) != (r, c) && Coord(i, j) != Partner(s, r, c)
      ensures if Touched(s.frames, s.width, s.height, r, c + 1, i, j) then s.guess[i][j] == Empty
              else IsHead(s.frames, s.width, s.height, i, j) ==> Tried(s.guess[i][j])
    {
      TouchedFromHead(s, row, col, r, c, i, j);
      TouchedNext(s, r, c, i, j);
    }
  }

  /** x holds the guess's value in every cell away from the head (r, c) and its partner. */
  ghost predicate SameBeside(s: State, r: int, c: int, x: Grid)
    requires Shaped(s) && IsHead(s.frames, s.width, s.height, r, c) && IsRect(x, s.width, s.height)
  {
    forall i, j :: InBounds(s.width, s.height, i, j) && (i, j) != (r, c) && Coord(i, j) != Partner(s, r, c) ==>
      x[i][j] == s.guess[i][j]
  }

  /** With the later cells Empty, a branch leaves every cell away from the head and its partner as it was. */
  lemma BranchKeepsBeside(s: State, r: int, c: int, v: char)
    requires Shaped(s) && FramesComplete(s.frames, s.width, s.height)
    requires InBounds(s.width, s.height, r, c) && IsHead(s.frames, s.width, s.height, r, c)
    requires PendingBeside(s, r, c)
    ensures SameBeside(s, r, c, Branch(s, r, c, v, true).guess)
    ensures PendingBeside(s.(guess := Branch(s, r, c, v, true).guess), r, c)
  {
    forall i, j | InBounds(s.width, s.height, i, j) && (i, j) != (r, c) && Coord(i, j) != Partner(s, r, c)
      ensures Branch(s, r, c, v, true).guess[i][j] == s.guess[i][j]
    {
      BranchResets(s, r, c, v, true, i, j);
    }
  }

  /** Agreeing beside the head is transitive. */
  lemma SameBesideTrans(s: State, r: int, c: int, x: Grid, y: Grid)
    requires Shaped(s) && IsHead(s.frames, s.width, s.height, r, c)
    requires IsRect(x, s.width, s.height) && IsRect(y, s.width, s.height)
    requires SameBeside(s, r, c, x) && SameBeside(s.(guess := x), r, c, y)
    ensures SameBeside(s, r, c, y)
  {
  }

  /** A solution consistent beside the head, on a guess equal to a pending one beside it, is consistent with the pending one. */
  lemma BesideConsistent(s: State, row: int, col: int, r: int, c: int, x: Grid, g: Grid)
    requires Shaped(s) && FramesComplete(s.frames, s.width, s.height)
    requires Scan(s.frames, s.width, s.height, row, col) == Head(r, c)
    requires Pending(s, row, col) && IsRect(x, s.width, s.height)
    requires SameBeside(s, r, c, x)
    requires ConsistentBeside(s.(guess := x), r, c, g)
    ensures Consistent(s, row, col, g)
  {
    forall i, j | InBounds(s.width, s.height, i, j)
      ensures s.guess[i][j] == g[i][j] || (Touched(s.frames, s.width, s.height, row, col, i, j) && s.guess[i][j] == Empty)
    {
      TouchedFromHead(s, row, col, r, c, i, j);
      TouchedNext(s, r, c, i, j);
    }
    SolutionIgnoresGuess(s, x, g);
  }

  /** A placement that stands leaves a guess pending for the search from the next cell. */
  lemma PlacedPending(s: State, row: int, col: int, v: char)
    requires Shaped(s) && FramesComplete(s.frames, s.width, s.height)
    requires InBounds(s.width, s.height, row, col) && IsHead(s.frames, s.width, s.height, row, col)
    requires PendingBeside(s, row, col) && Tried(v) && TrySet(s, row, col, v).ok
    ensures Pending(s.(guess := TrySet(s, row, col, v).guess), row, col + 1)
  {
    var f, w, h := s.frames, s.width, s.height;
    var e := Partner(s, row, col);
    PartnerSymmetric(f, w, h, row, col);
    var y := TrySet(s, row, col, v).guess;
    assert y == Put(Put(s.guess, w, h, row, col, v), w, h, e.row, e.col, Negate(v));
    forall i, j | InBounds(w, h, i, j)
      ensures if Touched(f, w, h, row, col + 1, i, j) then y[i][j] == Empty else IsHead(f, w, h, i, j) ==> Tried(y[i][j])
    {
      TouchedNext(s, row, col, i, j);
    }
  }

  /** A solution consistent with the guess after a placement that stands holds the placed value and is consistent beside the head. */
  lemma PlacedBeside(s: State, row: int, col: int, v: char, g: Grid)
    requires Shaped(s) && FramesComplete(s.frames, s.width, s.height)
    requires InBounds(s.width, s.height, row, col) && IsHead(s.frames, s.width, s.height, row, col)
    requires TrySet(s, row, col, v).ok
    requires Consistent(s.(guess := TrySet(s, row, col, v).guess), row, col + 1, g)
    ensures ConsistentBeside(s, row, col, g) && g[row][col] == v
  {
    var f, w, h := s.frames, s.width, s.height;
    var e := Partner(s, row, col);
    PartnerSymmetric(f, w, h, row, col);
    var y := TrySet(s, row, col, v).guess;
    TrySetStands(s, row, col, v);
    TouchedNext(s, row, col, row, col);
    assert y[row][col] == v;
    forall i, j | InBounds(w, h, i, j) && (i, j) != (row, col) && Coord(i, j) != e
      ensures s.guess[i][j] == g[i][j] || (Touched(f, w, h, row, col + 1, i, j) && s.guess[i][j] == Empty)
    {
      assert y[i][j] == s.guess[i][j];
    }
    SolutionIgnoresGuess(s, y, g);
  }

  /** A placement that stands has written v at the head and its negation at the partner, and nothing else. */
  lemma TrySetStands(s: State, row: int, col: int, v: char)
    requires Shaped(s) && IsHead(s.frames, s.width, s.height, row, col)
    requires TrySet(s, row, col, v).ok
    ensures var e := Partner(s, row, col);
            TrySet(s, row, col, v).guess == Put(Put(s.guess, s.width, s.height, row, col, v), s.width, s.height, e.row, e.col, Negate(v))
  {
  }

  /** The leaves a branch trying v counts are that many solutions consistent beside the head, with v there. */
  lemma {:induction false} BranchCounted(s: State, row: int, col: int, v: char)
    requires Shaped(s) && FramesComplete(s.frames, s.width, s.height)
    requires InBounds(s.width, s.height, row, col) && IsHead(s.frames, s.width, s.height, row, col)
    requires PendingBeside(s, row, col) && Tried(v)
    ensures exists G: set<Grid> :: |G| == Branch(s, row, col, v, true).count &&
              AllBeside(s, row, col, v, G)
    decreases s.height - row, s.width - col, 0
  {
    var a := TrySet(s, row, col, v);
    if a.ok {
      var s' := s.(guess := a.guess);
      PlacedPending(s, row, col, v);
      IntendedCounted(s', row, col + 1);
      var G: set<Grid> :| |G| == Search(s', row, col + 1, true).count && AllConsistent(s', row, col + 1, G);
      forall g | g in G
        ensures ConsistentBeside(s, row, col, g) && g[row][col] == v
      {
        PlacedBeside(s, row, col, v, g);
      }
      assert |G| == Branch(s, row, col, v, true).count && AllBeside(s, row, col, v, G);
    } else {
      var G: set<Grid> := {};
      assert |G| == Branch(s, row, col, v, true).count && AllBeside(s, row, col, v, G);
    }
  }

  /**
    The leaves the corrected search from (row, col) counts, on a pending guess,
    are that many distinct solutions consistent with the guess: none is counted
    twice and none is counted that is not a solution.
  */
  lemma {:induction false} IntendedCounted(s: State, row: int, col: int)
    requires Shaped(s) && FramesComplete(s.frames, s.width, s.height)
    requires Pending(s, row, col)
    ensures exists G: set<Grid> :: |G| == Search(s, row, col, true).count &&
              AllConsistent(s, row, col, G)
    decreases s.height - row, s.width - col, 2
  {
    match Scan(s.frames, s.width, s.height, row, col)
    case Leaf =>
      LeafCounted(s, row, col);
    case Head(r, c) =>
      HeadCounted(s, row, col, r, c);
  }

  /** At a leaf, the count is one exactly for a guess that is itself a solution, and that guess is consistent. */
  lemma LeafCounted(s: State, row: int, col: int)
    requires Shaped(s) && FramesComplete(s.frames, s.width, s.height)
    requires Pending(s, row, col) && Scan(s.frames, s.width, s.height, row, col) == Leaf
    ensures exists G: set<Grid> :: |G| == Search(s, row, col, true).count &&
              AllConsistent(s, row, col, G)
  {
    if LeafIntended(s) {
      forall i, j | InBounds(s.width, s.height, i, j)
        ensures !Touched(s.frames, s.width, s.height, row, col, i, j)
      {
        NothingTouched(s, row, col, i, j);
      }
      assert s.(guess := s.guess) == s;
      assert Consistent(s, row, col, s.guess);
      var G := {s.guess};
      assert |G| == Search(s, row, col, true).count && AllConsistent(s, row, col, G);
    } else {
      var G: set<Grid> := {};
      assert |G| == Search(s, row, col, true).count && AllConsistent(s, row, col, G);
    }
  }

  /** At a head, the three branches count disjoint sets of consistent solutions, told apart by the head's value. */
  lemma {:induction false} HeadCounted(s: State, row: int, col: int, r: int, c: int)
    requires Shaped(s) && FramesComplete(s.frames, s.width, s.height)
    requires Pending(s, row, col) && Scan(s.frames, s.width, s.height, row, col) == Head(r, c)
    ensures exists G: set<Grid> :: |G| == Search(s, row, col, true).count &&
              AllConsistent(s, row, col, G)
    decreases s.height - row, s.width - col, 1
  {
    var o1 := Branch(s, r, c, Positive, true);
    var s2 := s.(guess := o1.guess);
    var o2 := Branch(s2, r, c, Negative, true);
    var s3 := s.(guess := o2.guess);
    var o3 := Branch(s3, r, c, Neutral, true);
    BranchesPending(s, row, col, r, c);
    BranchCounted(s, r, c, Positive);
    BranchCounted(s2, r, c, Negative);
    BranchCounted(s3, r, c, Neutral);
    var G1 := BranchSet(s, row, col, r, c, s.guess, Positive);
    var G2 := BranchSet(s, row, col, r, c, o1.guess, Negative);
    var G3 := BranchSet(s, row, col, r, c, o2.guess, Neutral);
    assert G1 * G2 == {} && (G1 + G2) * G3 == {};
    Combine(s, row, col, G1, G2, G3, Search(s, row, col, true).count);
  }

  /** From a pending guess, each branch at the head starts from a guess equal to it away from the head and its partner. */
  lemma BranchesPending(s: State, row: int, col: int, r: int, c: int)
    requires Shaped(s) && FramesComplete(s.frames, s.width, s.height)
    requires Pending(s, row, col) && Scan(s.frames, s.width, s.height, row, col) == Head(r, c)
    ensures var o1 := Branch(s, r, c, Positive, true);
            var o2 := Branch(s.(guess := o1.guess), r, c, Negative, true);
            PendingBeside(s, r, c) && SameBeside(s, r, c, s.guess) &&
            PendingBeside(s.(guess := o1.guess), r, c) && SameBeside(s, r, c, o1.guess) &&
            PendingBeside(s.(guess := o2.guess), r, c) && SameBeside(s, r, c, o2.guess)
  {
    var o1 := Branch(s, r, c, Positive, true);
    var s2 := s.(guess := o1.guess);
    var o2 := Branch(s2, r, c, Negative, true);
    HeadPending(s, row, col, r, c);
    BranchKeepsBeside(s, r, c, Positive);
    BranchKeepsBeside(s2, r, c, Negative);
    assert s2.(guess := o2.guess) == s.(guess := o2.guess);
    SameBesideTrans(s, r, c, o1.guess, o2.guess);
  }

  /** x holds v at (r, c). */
  predicate HoldsAt(x: Grid, r: int, c: int, v: char) {
    0 <= r < |x| && 0 <= c < |x[r]| && x[r][c] == v
  }

  /** The solutions a branch counts, as a set consistent with the pending guess, each holding the tried value at the head. */
  lemma BranchSet(s: State, row: int, col: int, r: int, c: int, x: Grid, v: char) returns (G: set<Grid>)
    requires Shaped(s) && FramesComplete(s.frames, s.width, s.height)
    requires Scan(s.frames, s.width, s.height, row, col) == Head(r, c)
    requires Pending(s, row, col) && IsRect(x, s.width, s.height) && SameBeside(s, r, c, x)
    requires exists G: set<Grid> :: |G| == Branch(s.(guess := x), r, c, v, true).count && AllBeside(s.(guess := x), r, c, v, G)
    ensures |G| == Branch(s.(guess := x), r, c, v, true).count && AllConsistent(s, row, col, G)
    ensures forall g :: g in G ==> HoldsAt(g, r, c, v)
  {
    G :| |G| == Branch(s.(guess := x), r, c, v, true).count && AllBeside(s.(guess := x), r, c, v, G);
    BranchesConsistent(s, row, col, r, c, x, v, G);
  }

  /** The solutions one branch counts are consistent with the pending guess the search started from. */
  lemma BranchesConsistent(s: State, row: int, col: int, r: int, c: int, x: Grid, v: char, G: set<Grid>)
    requires Shaped(s) && FramesComplete(s.frames, s.width, s.height)
    requires Scan(s.frames, s.width, s.height, row, col) == Head(r, c)
    requires Pending(s, row, col) && IsRect(x, s.width, s.height)
    requires SameBeside(s, r, c, x)
    requires AllBeside(s.(guess := x), r, c, v, G)
    ensures AllConsistent(s, row, col, G)
  {
    forall g | g in G
      ensures Consistent(s, row, col, g)
    {
      BesideConsistent(s, row, col, r, c, x, g);
    }
  }

  /** Three disjoint sets of consistent solutions make one of their total size. */
  lemma Combine(s: State, row: int, col: int, A: set<Grid>, B: set<Grid>, C: set<Grid>, n: int)
    requires Shaped(s)
    requires AllConsistent(s, row, col, A) && AllConsistent(s, row, col, B) && AllConsistent(s, row, col, C)
    requires A * B == {} && (A + B) * C == {} && n == |A| + |B| + |C|
    ensures exists G: set<Grid> :: |G| == n && AllConsistent(s, row, col, G)
  {
    DisjointSize(A, B, C);
    assert AllConsistent(s, row, col, A + B + C);
  }

  /** Three pairwise disjoint sets have as many elements together as apart. */
  lemma DisjointSize(A: set<Grid>, B: set<Grid>, C: set<Grid>)
    requires A * B == {} && (A + B) * C == {}
    ensures |A + B + C| == |A| + |B| + |C|
  {
  }

  // ---------------------------------------------------------------------------
  // What singleSolution relies on

  /**
    On a pending guess the corrected count is one exactly when the puzzle has a
    consistent solution and no two consistent solutions differ.
  */
  lemma SingleIffUnique(s: State)
    requires Shaped(s) && FramesComplete(s.frames, s.width, s.height)
    requires Pending(s, 0, 0)
    ensures Search(s, 0, 0, true).count == 1 <==>
            (exists g :: Consistent(s, 0, 0, g)) &&
            (forall g, g' :: Consistent(s, 0, 0, g) && Consistent(s, 0, 0, g') ==> g == g')
  {
    if Search(s, 0, 0, true).count == 1 {
      CountedOnce(s);
    }
    if exists g :: Consistent(s, 0, 0, g) {
      var g :| Consistent(s, 0, 0, g);
      if forall g, g' :: Consistent(s, 0, 0, g) && Consistent(s, 0, 0, g') ==> g == g' {
        UniqueCounted(s, g);
      }
    }
  }

  /** A count of one names a consistent solution, and no two consistent solutions differ. */
  lemma CountedOnce(s: State)
    requires Shaped(s) && FramesComplete(s.frames, s.width, s.height)
    requires Pending(s, 0, 0) && Search(s, 0, 0, true).count == 1
    ensures exists g :: Consistent(s, 0, 0, g)
    ensures forall g, g' :: Consistent(s, 0, 0, g) && Consistent(s, 0, 0, g') ==> g == g'
  {
    IntendedCounted(s, 0, 0);
    var G: set<Grid> :| |G| == 1 && AllConsistent(s, 0, 0, G);
    assert G != {};
    var g :| g in G;
    assert Consistent(s, 0, 0, g);
    forall g1, g2 | Consistent(s, 0, 0, g1) && Consistent(s, 0, 0, g2)
      ensures g1 == g2
    {
      SameWhenOnce(s, g1, g2);
    }
  }

  /** With a count of one, two consistent solutions are the same grid. */
  lemma SameWhenOnce(s: State, g: Grid, g': Grid)
    requires Shaped(s) && FramesComplete(s.frames, s.width, s.height)
    requires Search(s, 0, 0, true).count == 1
    requires Consistent(s, 0, 0, g) && Consistent(s, 0, 0, g')
    ensures g == g'
  {
    IntendedComplete(s, 0, 0, {g, g'});
    assert g != g' ==> |{g, g'}| == 2;
  }

  /** A solution that is the only consistent one is counted exactly once. */
  lemma UniqueCounted(s: State, g: Grid)
    requires Shaped(s) && FramesComplete(s.frames, s.width, s.height)
    requires Pending(s, 0, 0) && Consistent(s, 0, 0, g)
    requires forall g1, g2 :: Consistent(s, 0, 0, g1) && Consistent(s, 0, 0, g2) ==> g1 == g2
    ensures Search(s, 0, 0, true).count == 1
  {
    IntendedComplete(s, 0, 0, {g});
    IntendedCounted(s, 0, 0);
    var G: set<Grid> :| |G| == Search(s, 0, 0, true).count && AllConsistent(s, 0, 0, G);
    assert G <= {g};
    SubsetSize(G, {g});
  }

  /**
    The guess Deserialize leaves (walls at the wall frames, Empty elsewhere) is
    pending for a search from the top-left cell; a solution is then consistent
    with it exactly when it holds walls at the wall frames.
  */
  lemma StartPending(s: State)
    requires Shaped(s) && FramesComplete(s.frames, s.width, s.height)
    requires forall i, j :: InBounds(s.width, s.height, i, j) ==> s.guess[i][j] == if s.frames[i][j] == Wall then Wall else Empty
    ensures Pending(s, 0, 0)
    ensures forall i, j :: InBounds(s.width, s.height, i, j) ==>
              (Touched(s.frames, s.width, s.height, 0, 0, i, j) <==> s.frames[i][j] != Wall)
  {
    var f, w, h := s.frames, s.width, s.height;
    forall i, j | InBounds(w, h, i, j)
      ensures Touched(f, w, h, 0, 0, i, j) <==> f[i][j] != Wall
    {
      if f[i][j] != Wall {
        PartnerSymmetric(f, w, h, i, j);
      }
    }
  }
}

/**
  The text form of a game: "WxH:" followed by the column-positive, row-positive,
  column-negative and row-negative clues (one base-62 digit per line, each field
  ended by ','), then one letter per cell in row-major order: L, R, T, B for the
  domino ends Left, Right, Up, Down and '*' for a wall.
*/
module Codec {
  import opened Common
  import opened Boards
  import opened Magnets

  // ---------------------------------------------------------------------------
  // Base-62 clue digits

  /** '0'..'9', 'a'..'z' and 'A'..'Z': the 62 digits a clue is written with. */
  predicate IsClueDigit(r: char) {
    ('0' <= r <= '9') || ('a' <= r <= 'z') || ('A' <= r <= 'Z')
  }

  /** The digit for a clue: 0-9, then a-z for 10-35, then A-Z for 36-61; '-' below range, '!' above. */
  function CountToRune(count: int): (r: char)
    ensures count < 0 ==> r == '-'
    ensures 61 < count ==> r == '!'
    ensures 0 <= count <= 61 ==> IsClueDigit(r) && RuneToCount(r) == count
  {
    if count < 0 then '-'
    else if count <= 9 then ('0' as int + count) as char
    else if count <= 9 + 26 then ('a' as int + (count - 10)) as char
    else if count <= 9 + 26 + 26 then ('A' as int + (count - 10 - 26)) as char
    else '!'
  }

  /**
    The clue a digit stands for, -1 below '0' and above 'z'. The range checks are
    coarse: the characters between '9' and 'A' and between 'Z' and 'a' are not
    rejected but decode to stray values.
  */
  function RuneToCount(r: char): (n: int)
    ensures r < '0' || 'z' < r ==> n == -1
    ensures IsClueDigit(r) ==> 0 <= n <= 61
    ensures ('0' <= r <= '9') ==> n == r as int - '0' as int
  {
    if r < '0' then -1
    else if r <= '9' then r as int - '0' as int
    else if r <= 'Z' then r as int - 'A' as int + 10 + 26
    else if r <= 'z' then r as int - 'a' as int + 10
    else -1
  }

  /** Every clue digit is the digit of the count it decodes to. */
  lemma ClueDigitRoundTrip(r: char)
    requires IsClueDigit(r)
    ensures CountToRune(RuneToCount(r)) == r
  {
  }

  // ---------------------------------------------------------------------------
  // Decimal dimensions

  /** The position of the first c in s, or -1 if there is none. */
  function IndexOf(s: seq<char>, c: char): (i: int)
    ensures -1 <= i < |s|
    ensures 0 <= i ==> s[i] == c && forall j :: 0 <= j < i ==> s[j] != c
    ensures i == -1 ==> forall j :: 0 <= j < |s| ==> s[j] != c
  {
    if s == [] then -1
    else if s[0] == c then 0
    else
      var k := IndexOf(s[1..], c);
      if k == -1 then -1 else k + 1
  }

  predicate IsDecimalDigit(c: char) {
    '0' <= c <= '9'
  }

  predicate AllDecimal(s: seq<char>) {
    forall i :: 0 <= i < |s| ==> IsDecimalDigit(s[i])
  }

  /** The value of a string of decimal digits, most significant first. */
  function Decimal(s: seq<char>): nat
    requires AllDecimal(s)
  {
    if s == [] then 0 else Decimal(s[..|s| - 1]) * 10 + (s[|s| - 1] as int - '0' as int)
  }

  /**
    Decimal parsing of a dimension: an optional sign and at least one digit.
    Anything else is a syntax error, which the decoder ignores, taking 0.
  */
  function Atoi(s: seq<char>): int {
    if |s| > 0 && (s[0] == '-' || s[0] == '+') then
      if |s| == 1 || !AllDecimal(s[1..]) then 0
      else if s[0] == '-' then 0 - Decimal(s[1..]) else Decimal(s[1..])
    else if s == [] || !AllDecimal(s) then 0
    else Decimal(s)
  }

  /** The decimal form of n, as "%d" prints it. */
  function Itoa(n: nat): (s: seq<char>)
    ensures |s| >= 1 && AllDecimal(s)
    ensures s[0] == '0' ==> n == 0 && |s| == 1
  {
    if n < 10 then [('0' as int + n) as char] else Itoa(n / 10) + [('0' as int + n % 10) as char]
  }

  /** Printing a dimension and parsing it back gives the dimension. */
  lemma {:induction false} AtoiItoa(n: nat)
    ensures Atoi(Itoa(n)) == n
    ensures Decimal(Itoa(n)) == n
  {
    var s := Itoa(n);
    if n >= 10 {
      AtoiItoa(n / 10);
      assert s[..|s| - 1] == Itoa(n / 10);
    } else {
      assert s[..0] == [];
    }
    assert s[0] != '-' && s[0] != '+';
    assert Atoi(s) == Decimal(s);
  }

  // ---------------------------------------------------------------------------
  // The text form of a game

  /** The letter for a frame symbol; '!' for anything that is not a frame. */
  function Letter(f: char): char {
    if f == Left then 'L'
    else if f == Right then 'R'
    else if f == Up then 'T'
    else if f == Down then 'B'
    else if f == Wall then '*'
    else '!'
  }

  predicate IsFrameLetter(c: char) {
    c == 'L' || c == 'R' || c == 'T' || c == 'B' || c == '*'
  }

  /** The frame symbol a letter stands for. */
  function FrameSymbol(c: char): (f: char)
    requires IsFrameLetter(c)
    ensures Letter(f) == c
  {
    if c == 'L' then Left
    else if c == 'R' then Right
    else if c == 'T' then Up
    else if c == 'B' then Down
    else Wall
  }

  /** The frame letters of cells (row, col), (row, col + 1), ... to the end of the board, row-major. */
  function Letters(f: Grid, w: int, h: int, row: int, col: int): seq<char>
    requires IsRect(f, w, h) && 0 <= row && 0 <= col
    decreases h - row, w - col
  {
    if row >= h then []
    else if col >= w then Letters(f, w, h, row + 1, 0)
    else [Letter(f[row][col])] + Letters(f, w, h, row, col + 1)
  }

  /** One clue digit per entry. */
  function Digits(clues: seq<int>): (d: seq<char>)
    ensures |d| == |clues|
    ensures forall i :: 0 <= i < |clues| ==> d[i] == CountToRune(clues[i])
  {
    seq(|clues|, i requires 0 <= i < |clues| => CountToRune(clues[i]))
  }

  /** The text a game serializes to. */
  function Render(s: State): seq<char>
    requires Shaped(s)
  {
    Itoa(s.width) + ['x'] + Itoa(s.height) + [':'] +
    Digits(s.colPos) + [','] + Digits(s.rowPos) + [','] + Digits(s.colNeg) + [','] + Digits(s.rowNeg) + [','] +
    Letters(s.frames, s.width, s.height, 0, 0)
  }

  /** The three boards the decoder fills in. */
  datatype Layers = Layers(frames: Grid, grid: Grid, guess: Grid)

  /**
    Places frame letters from (row, col) on, moving right and wrapping to the next
    row at the right edge. A wall letter also walls the grid and the guess; letters
    beyond the board are accepted and change nothing; any other letter fails.
  */
  function Place(letters: seq<char>, w: int, h: int, row: int, col: int, l: Layers): (r: Option<Layers>)
    requires IsRect(l.frames, w, h) && IsRect(l.grid, w, h) && IsRect(l.guess, w, h)
    ensures r.Some? ==> IsRect(r.value.frames, w, h) && IsRect(r.value.grid, w, h) && IsRect(r.value.guess, w, h)
    ensures r.Some? <==> forall i :: 0 <= i < |letters| ==> IsFrameLetter(letters[i])
    decreases |letters|
  {
    if letters == [] then Some(l)
    else if !IsFrameLetter(letters[0]) then None
    else
      var next := PlaceLetter(letters[0], w, h, row, col, l);
      var r := if col + 1 >= w then Place(letters[1..], w, h, row + 1, 0, next) else Place(letters[1..], w, h, row, col + 1, next);
      assert forall i :: 1 <= i < |letters| ==> letters[1..][i - 1] == letters[i];
      r
  }

  /** The layers after one frame letter is written at (row, col). */
  function PlaceLetter(c: char, w: int, h: int, row: int, col: int, l: Layers): (r: Layers)
    requires IsFrameLetter(c) && IsRect(l.frames, w, h) && IsRect(l.grid, w, h) && IsRect(l.guess, w, h)
    ensures IsRect(r.frames, w, h) && IsRect(r.grid, w, h) && IsRect(r.guess, w, h)
  {
    var frames := Put(l.frames, w, h, row, col, FrameSymbol(c));
    var grid := if c == '*' then Put(l.grid, w, h, row, col, Wall) else l.grid;
    var guess := if c == '*' then Put(l.guess, w, h, row, col, Wall) else l.guess;
    Layers(frames, grid, guess)
  }

  /** Placing from letter k on is placing its letter, then the rest from the next cell. */
  lemma PlaceStep(letters: seq<char>, k: int, w: int, h: int, row: int, col: int, l: Layers, row': int, col': int)
    requires 0 <= k < |letters| && IsFrameLetter(letters[k])
    requires IsRect(l.frames, w, h) && IsRect(l.grid, w, h) && IsRect(l.guess, w, h)
    requires if col + 1 >= w then row' == row + 1 && col' == 0 else row' == row && col' == col + 1
    ensures Place(letters[k..], w, h, row, col, l) == Place(letters[k + 1..], w, h, row', col', PlaceLetter(letters[k], w, h, row, col, l))
  {
    assert letters[k..][1..] == letters[k + 1..];
  }

  /** Placing fails when letter k is not a frame letter. */
  lemma PlaceStops(letters: seq<char>, k: int, w: int, h: int, row: int, col: int, l: Layers)
    requires 0 <= k < |letters| && !IsFrameLetter(letters[k])
    requires IsRect(l.frames, w, h) && IsRect(l.grid, w, h) && IsRect(l.guess, w, h)
    ensures Place(letters[k..], w, h, row, col, l) == None
  {
    assert letters[k..][0] == letters[k];
  }

  /** n clue digits followed by ',': the decoded clues and the text after the comma. */
  function Field(s: seq<char>, n: int): Option<(seq<int>, seq<char>)>
    requires 0 <= n
  {
    if |s| < n + 1 || s[n] != ',' then None
    else Some((seq(n, i requires 0 <= i < n => RuneToCount(s[i])), s[n + 1..]))
  }

  /** The dimensions a text starts with, and the text after the ':'. */
  datatype Header = Header(width: nat, height: nat, rest: seq<char>)

  /**
    "WxH:" at the front of a text; None where the decoder reports failure (no 'x'
    or no ':') or would crash (the ':' before the 'x', a negative dimension).
  */
  function ParseHeader(s: seq<char>): Option<Header> {
    var xPos := IndexOf(s, 'x');
    var colonPos := IndexOf(s, ':');
    if xPos == -1 || colonPos == -1 || colonPos < xPos then None
    else
      var width := Atoi(s[..xPos]);
      var height := Atoi(s[xPos + 1..colonPos]);
      if width < 0 || height < 0 then None
      else Some(Header(width, height, s[colonPos + 1..]))
  }

  /** The four clue vectors, and the text after them. */
  datatype Clues = Clues(colPos: seq<int>, rowPos: seq<int>, colNeg: seq<int>, rowNeg: seq<int>, rest: seq<char>)

  /** The four comma-ended clue fields of a w x h game; None if one is too short or not ended by ','. */
  function ParseClues(s: seq<char>, w: nat, h: nat): Option<Clues> {
    var f1 := Field(s, w);
    if f1.None? then None
    else
      var f2 := Field(f1.value.1, h);
      if f2.None? then None
      else
        var f3 := Field(f2.value.1, w);
        if f3.None? then None
        else
          var f4 := Field(f3.value.1, h);
          if f4.None? then None
          else Some(Clues(f1.value.0, f2.value.0, f3.value.0, f4.value.0, f4.value.1))
  }

  /** The game a text decodes to, or None where the decoder fails or would crash. */
  function Parse(s: seq<char>): Option<State> {
    var header := ParseHeader(s);
    if header.None? then None
    else ParseBody(header.value.rest, header.value.width, header.value.height)
  }

  /** The w x h game the text after the header decodes to: clue fields, then frame letters. */
  function ParseBody(rest: seq<char>, w: nat, h: nat): Option<State> {
    var clues := ParseClues(rest, w, h);
    if clues.None? then None
    else
      var placed := Place(clues.value.rest, w, h, 0, 0, Layers(Blank(w, h), Blank(w, h), Blank(w, h)));
      if placed.None? then None
      else
        var c := clues.value;
        Some(State(w, h, placed.value.frames, placed.value.grid, placed.value.guess, c.colPos, c.rowPos, c.colNeg, c.rowNeg))
  }

  // ---------------------------------------------------------------------------
  // Serialize and Deserialize

  /** The text form of a valid game; ("", false) for a game Valid rejects. */
  method Serialize(game: Game) returns (serial: seq<char>, valid: bool)
    requires game.WellFormed()
    ensures valid == ValidSpec(game.Snapshot())
    ensures serial == if valid then Render(game.Snapshot()) else []
  {
    var ok := game.Valid();
    if !ok {
      return [], false;
    }
    var w, h := game.grid.width, game.grid.height;
    serial := Itoa(w) + ['x'] + Itoa(h) + [':'];
    serial := AppendClues(serial, game.colPos);
    serial := serial + [','];
    serial := AppendClues(serial, game.rowPos);
    serial := serial + [','];
    serial := AppendClues(serial, game.colNeg);
    serial := serial + [','];
    serial := AppendClues(serial, game.rowNeg);
    serial := serial + [','];
    serial, valid := AppendLetters(serial, game.frames);
    assert forall i, j :: InBounds(w, h, i, j) ==> FrameOk(game.frames.cells, w, h, i, j);
  }

  /** Appends one clue digit per entry of clues. */
  method AppendClues(prefix: seq<char>, clues: seq<int>) returns (serial: seq<char>)
    ensures serial == prefix + Digits(clues)
  {
    serial := prefix;
    var i := 0;
    while i < |clues|
      invariant 0 <= i <= |clues|
      invariant serial == prefix + Digits(clues[..i])
    {
      serial := serial + [CountToRune(clues[i])];
      i := i + 1;
    }
    assert clues[..|clues|] == clues;
  }

  /** Appends the frame letter of every cell, row-major; valid is false if a cell holds no frame. */
  method AppendLetters(prefix: seq<char>, f: Board) returns (serial: seq<char>, valid: bool)
    requires f.Valid()
    ensures serial == prefix + Letters(f.cells, f.width, f.height, 0, 0)
    ensures valid == forall i, j :: InBounds(f.width, f.height, i, j) ==> Letter(f.cells[i][j]) != '!'
  {
    var w, h := f.width, f.height;
    serial, valid := prefix, true;
    var row := 0;
    while row < h
      invariant 0 <= row <= h
      invariant serial + Letters(f.cells, w, h, row, 0) == prefix + Letters(f.cells, w, h, 0, 0)
      invariant valid == forall i, j :: 0 <= i < row && 0 <= j < w ==> Letter(f.cells[i][j]) != '!'
    {
      var col := 0;
      while col < w
        invariant 0 <= col <= w
        invariant serial + Letters(f.cells, w, h, row, col) == prefix + Letters(f.cells, w, h, 0, 0)
        invariant valid == ((forall i, j :: 0 <= i < row && 0 <= j < w ==> Letter(f.cells[i][j]) != '!') &&
                            forall j :: 0 <= j < col ==> Letter(f.cells[row][j]) != '!')
      {
        var letter := Letter(f.Get(row, col));
        assert Letters(f.cells, w, h, row, col) == [letter] + Letters(f.cells, w, h, row, col + 1);
        serial := serial + [letter];
        if letter == '!' {
          valid := false;
        }
        col := col + 1;
      }
      assert Letters(f.cells, w, h, row, w) == Letters(f.cells, w, h, row + 1, 0);
      row := row + 1;
    }
  }

  /** Reads n clue digits and the ',' after them; ok is false where the field is too short or not ended by ','. */
  method ReadField(s: seq<char>, n: int) returns (clues: seq<int>, rest: seq<char>, ok: bool)
    requires 0 <= n
    ensures ok <==> Field(s, n).Some?
    ensures ok ==> (clues, rest) == Field(s, n).value
  {
    clues := seq(n, _ => 0);
    rest := s;
    if |s| < n {
      return clues, rest, false;
    }
    var i := 0;
    while i < n
      invariant 0 <= i <= n && |clues| == n
      invariant forall j :: 0 <= j < i ==> clues[j] == RuneToCount(s[j])
    {
      clues := clues[i := RuneToCount(s[i])];
      i := i + 1;
    }
    rest := s[n..];
    if |rest| == 0 || rest[0] != ',' {
      return clues, rest, false;
    }
    rest := rest[1..];
    assert rest == s[n + 1..];
    assert clues == seq(n, i requires 0 <= i < n => RuneToCount(s[i]));
    ok := true;
  }

  /**
    Decodes a text into a fresh game. On success the game is exactly what Parse
    describes; on failure only its well-formedness is promised.
  */
  method Deserialize(s: seq<char>) returns (game: Game, ok: bool)
    ensures fresh(game) && fresh(game.frames) && fresh(game.grid) && fresh(game.guess)
    ensures game.WellFormed()
    ensures ok <==> Parse(s).Some?
    ensures ok ==> game.Snapshot() == Parse(s).value
  {
    var xPos := IndexOf(s, 'x');
    var colonPos := IndexOf(s, ':');
    if xPos == -1 || colonPos == -1 || colonPos < xPos {
      game := new Game.Make(0, 0);
      return game, false;
    }
    var width := Atoi(s[..xPos]);
    var height := Atoi(s[xPos + 1..colonPos]);
    if width < 0 || height < 0 {
      game := new Game.Make(0, 0);
      return game, false;
    }
    assert ParseHeader(s) == Some(Header(width, height, s[colonPos + 1..]));
    game, ok := Load(s[colonPos + 1..], width, height);
  }

  /** The part of Deserialize after the header: a fresh w x h game, its clues, then its frames. */
  method Load(rest: seq<char>, width: nat, height: nat) returns (game: Game, ok: bool)
    ensures fresh(game) && fresh(game.frames) && fresh(game.grid) && fresh(game.guess)
    ensures game.WellFormed()
    ensures ok <==> ParseBody(rest, width, height).Some?
    ensures ok ==> game.Snapshot() == ParseBody(rest, width, height).value
  {
    game := new Game.Make(width, height);
    var colPos, rowPos, colNeg, rowNeg, letters;
    ok, colPos, rowPos, colNeg, rowNeg, letters := ReadClues(rest, width, height);
    if !ok {
      return;
    }
    game.colPos, game.rowPos, game.colNeg, game.rowNeg := colPos, rowPos, colNeg, rowNeg;
    ghost var blank := Layers(game.frames.cells, game.grid.cells, game.guess.cells);
    assert blank == Layers(Blank(width, height), Blank(width, height), Blank(width, height));
    ok := PlaceFrames(game, letters);
    if ok {
      ghost var placed := Layers(game.frames.cells, game.grid.cells, game.guess.cells);
      assert Place(letters, width, height, 0, 0, blank) == Some(placed);
      ghost var snap := game.Snapshot();
      assert snap.width == width && snap.height == height;
      assert snap.frames == placed.frames && snap.grid == placed.grid && snap.guess == placed.guess;
      assert snap.colPos == colPos && snap.rowPos == rowPos && snap.colNeg == colNeg && snap.rowNeg == rowNeg;
    }
  }

  /** The four clue fields of Deserialize, in order; ok is false as soon as one is malformed. */
  method ReadClues(s: seq<char>, w: nat, h: nat)
    returns (ok: bool, colPos: seq<int>, rowPos: seq<int>, colNeg: seq<int>, rowNeg: seq<int>, rest: seq<char>)
    ensures ok <==> ParseClues(s, w, h).Some?
    ensures ok ==> ParseClues(s, w, h).value == Clues(colPos, rowPos, colNeg, rowNeg, rest)
    ensures ok ==> |colPos| == w && |colNeg| == w && |rowPos| == h && |rowNeg| == h
  {
    rowPos, colNeg, rowNeg := [], [], [];
    colPos, rest, ok := ReadField(s, w);
    if !ok {
      return;
    }
    rowPos, rest, ok := ReadField(rest, h);
    if !ok {
      return;
    }
    colNeg, rest, ok := ReadField(rest, w);
    if !ok {
      return;
    }
    rowNeg, rest, ok := ReadField(rest, h);
  }

  /** One pass of the frame-letter loop of Deserialize: writes the letter's symbol at (row, col), or fails. */
  method PlaceLetterAt(game: Game, c: char, row: int, col: int) returns (ok: bool)
    requires game.WellFormed()
    modifies game.frames, game.grid, game.guess
    ensures game.WellFormed()
    ensures ok <==> IsFrameLetter(c)
    ensures ok ==> Layers(game.frames.cells, game.grid.cells, game.guess.cells) ==
                   PlaceLetter(c, game.frames.width, game.frames.height, row, col,
                               old(Layers(game.frames.cells, game.grid.cells, game.guess.cells)))
  {
    ok := true;
    if c == 'L' {
      game.frames.Set(row, col, Left);
    } else if c == 'R' {
      game.frames.Set(row, col, Right);
    } else if c == 'T' {
      game.frames.Set(row, col, Up);
    } else if c == 'B' {
      game.frames.Set(row, col, Down);
    } else if c == '*' {
      game.frames.Set(row, col, Wall);
      game.grid.Set(row, col, Wall);
      game.guess.Set(row, col, Wall);
    } else {
      game.frames.Set(row, col, Empty);
      ok := false;
    }
  }

  /** The frame-letter loop of Deserialize. */
  method PlaceFrames(game: Game, letters: seq<char>) returns (ok: bool)
    requires game.WellFormed()
    modifies game.frames, game.grid, game.guess
    ensures game.WellFormed() && unchanged(game)
    ensures var placed := Place(letters, game.frames.width, game.frames.height, 0, 0,
                                Layers(old(game.frames.cells), old(game.grid.cells), old(game.guess.cells)));
            (ok <==> placed.Some?) &&
            (ok ==> Layers(game.frames.cells, game.grid.cells, game.guess.cells) == placed.value)
  {
    var w, h := game.frames.width, game.frames.height;
    ghost var goal := Place(letters, w, h, 0, 0, Layers(game.frames.cells, game.grid.cells, game.guess.cells));
    var row, col := 0, 0;
    var k := 0;
    while k < |letters|
      invariant 0 <= k <= |letters| && game.WellFormed() && w == game.frames.width && h == game.frames.height
      invariant Place(letters[k..], w, h, row, col, Layers(game.frames.cells, game.grid.cells, game.guess.cells)) == goal
    {
      ghost var before := Layers(game.frames.cells, game.grid.cells, game.guess.cells);
      ok := PlaceLetterAt(game, letters[k], row, col);
      if !ok {
        PlaceStops(letters, k, w, h, row, col, before);
        return;
      }
      var row', col' := row, col + 1;
      if col' >= w {
        row', col' := row + 1, 0;
      }
      PlaceStep(letters, k, w, h, row, col, before, row', col');
      row, col := row', col';
      k := k + 1;
    }
    return true;
  }

  // ---------------------------------------------------------------------------
  // Round trips

  /** Cell (i, j) comes at or after (row, col) in row-major order. */
  predicate AtOrAfter(i: int, j: int, row: int, col: int) {
    i > row || (i == row && j >= col)
  }

  /** What the decoder leaves in grid and guess for a cell with frame symbol f. */
  function WallOrEmpty(f: char): char {
    if f == Wall then Wall else Empty
  }

  /** f with every cell that is not a wall made Empty. */
  function WallsOf(f: Grid, w: int, h: int): (g: Grid)
    requires IsRect(f, w, h)
    ensures IsRect(g, w, h)
    ensures forall i, j :: InBounds(w, h, i, j) ==> g[i][j] == WallOrEmpty(f[i][j])
  {
    seq(h, i requires 0 <= i < h => seq(w, j requires 0 <= j < w => WallOrEmpty(f[i][j])))
  }

  /** The layers hold f and its walls before (row, col), and Empty grid and guess cells from there on. */
  ghost predicate PlacedUpTo(f: Grid, w: int, h: int, row: int, col: int, l: Layers)
    requires IsRect(f, w, h) && IsRect(l.frames, w, h) && IsRect(l.grid, w, h) && IsRect(l.guess, w, h)
  {
    forall i, j :: InBounds(w, h, i, j) ==>
      if AtOrAfter(i, j, row, col) then l.grid[i][j] == Empty && l.guess[i][j] == Empty
      else l.frames[i][j] == f[i][j] && l.grid[i][j] == WallOrEmpty(f[i][j]) && l.guess[i][j] == WallOrEmpty(f[i][j])
  }

  /** Placing the letter of cell (row, col) extends PlacedUpTo by that cell. */
  lemma PlaceOne(f: Grid, w: int, h: int, row: int, col: int, l: Layers, row': int, col': int)
    requires IsRect(f, w, h) && IsRect(l.frames, w, h) && IsRect(l.grid, w, h) && IsRect(l.guess, w, h)
    requires InBounds(w, h, row, col) && IsFrameLetter(Letter(f[row][col]))
    requires PlacedUpTo(f, w, h, row, col, l)
    requires if col + 1 >= w then row' == row + 1 && col' == 0 else row' == row && col' == col + 1
    ensures PlacedUpTo(f, w, h, row', col', PlaceLetter(Letter(f[row][col]), w, h, row, col, l))
  {
    var c := Letter(f[row][col]);
    assert FrameSymbol(c) == f[row][col];
  }

  /** Layers that hold all of f and its walls are f and its walls. */
  lemma PlacedAll(f: Grid, w: int, h: int, l: Layers)
    requires IsRect(f, w, h) && IsRect(l.frames, w, h) && IsRect(l.grid, w, h) && IsRect(l.guess, w, h)
    requires 0 <= w && PlacedUpTo(f, w, h, h, 0, l)
    ensures l == Layers(f, WallsOf(f, w, h), WallsOf(f, w, h))
  {
    GridExtensionality(l.frames, f, w, h);
    GridExtensionality(l.grid, WallsOf(f, w, h), w, h);
    GridExtensionality(l.guess, WallsOf(f, w, h), w, h);
  }

  /**
    Placing the letters of f from (row, col) on, over layers that hold f before
    (row, col), rebuilds f and its walls exactly.
  */
  lemma {:induction false} PlaceLetters(f: Grid, w: int, h: int, row: int, col: int, l: Layers)
    requires IsRect(f, w, h) && IsRect(l.frames, w, h) && IsRect(l.grid, w, h) && IsRect(l.guess, w, h)
    requires w > 0 && 0 <= row <= h && 0 <= col < w && (row == h ==> col == 0)
    requires forall i, j :: InBounds(w, h, i, j) ==> IsFrameLetter(Letter(f[i][j]))
    requires PlacedUpTo(f, w, h, row, col, l)
    ensures Place(Letters(f, w, h, row, col), w, h, row, col, l) == Some(Layers(f, WallsOf(f, w, h), WallsOf(f, w, h)))
    decreases h - row, w - col
  {
    if row == h {
      assert Letters(f, w, h, row, col) == [];
      PlacedAll(f, w, h, l);
    } else {
      var c := Letter(f[row][col]);
      var letters := Letters(f, w, h, row, col);
      var row' := if col + 1 >= w then row + 1 else row;
      var col' := if col + 1 >= w then 0 else col + 1;
      var tail := Letters(f, w, h, row, col + 1);
      assert letters == [c] + tail;
      assert tail == Letters(f, w, h, row', col');
      assert letters[0..] == letters && letters[1..] == tail;
      var next := PlaceLetter(c, w, h, row, col, l);
      PlaceOne(f, w, h, row, col, l, row', col');
      PlaceStep(letters, 0, w, h, row, col, l, row', col');
      PlaceLetters(f, w, h, row', col', next);
    }
  }

  /** Decoding n clue digits rendered from clues in 0..61 gives the clues back. */
  lemma FieldDigits(clues: seq<int>, rest: seq<char>)
    requires forall i :: 0 <= i < |clues| ==> 0 <= clues[i] <= 61
    ensures Field(Digits(clues) + [','] + rest, |clues|) == Some((clues, rest))
  {
    var s := Digits(clues) + [','] + rest;
    var n := |clues|;
    assert s[n] == ',';
    assert s[n + 1..] == rest;
    assert forall i :: 0 <= i < n ==> RuneToCount(s[i]) == clues[i];
    assert seq(n, i requires 0 <= i < n => RuneToCount(s[i])) == clues;
  }

  /** Clues the base-62 digits can carry. */
  ghost predicate CluesInRange(s: State) {
    (forall i :: 0 <= i < |s.colPos| ==> 0 <= s.colPos[i] <= 61) &&
    (forall i :: 0 <= i < |s.rowPos| ==> 0 <= s.rowPos[i] <= 61) &&
    (forall i :: 0 <= i < |s.colNeg| ==> 0 <= s.colNeg[i] <= 61) &&
    (forall i :: 0 <= i < |s.rowNeg| ==> 0 <= s.rowNeg[i] <= 61)
  }

  /** The first c in s is at k when s[k] is c and no earlier entry is. */
  lemma IndexOfAt(s: seq<char>, c: char, k: int)
    requires 0 <= k < |s| && s[k] == c
    requires forall j :: 0 <= j < k ==> s[j] != c
    ensures IndexOf(s, c) == k
  {
  }

  /** The header Serialize writes decodes to the dimensions and the text after it. */
  lemma HeaderRoundTrip(w: nat, h: nat, rest: seq<char>)
    ensures ParseHeader(Itoa(w) + ['x'] + Itoa(h) + [':'] + rest) == Some(Header(w, h, rest))
  {
    AtoiItoa(w);
    AtoiItoa(h);
    HeaderSplit(Itoa(w), Itoa(h), rest);
  }

  /** Two digit strings joined by 'x' and ended by ':' split at those two marks. */
  lemma HeaderSplit(wd: seq<char>, hd: seq<char>, rest: seq<char>)
    requires AllDecimal(wd) && AllDecimal(hd)
    requires Atoi(wd) >= 0 && Atoi(hd) >= 0
    ensures ParseHeader(wd + ['x'] + hd + [':'] + rest) == Some(Header(Atoi(wd), Atoi(hd), rest))
  {
    var text := wd + ['x'] + hd + [':'] + rest;
    var p := |wd| + 1 + |hd|;
    assert text[..|wd|] == wd;
    assert text[|wd| + 1..p] == hd;
    assert text[p + 1..] == rest;
    forall j | 0 <= j < p
      ensures text[j] != 'x' || j == |wd|
      ensures text[j] != ':'
    {
      if j < |wd| {
        assert text[j] == wd[j];
      } else if j > |wd| {
        assert text[j] == hd[j - |wd| - 1];
      }
    }
    IndexOfAt(text, 'x', |wd|);
    IndexOfAt(text, ':', p);
  }

  /** The clue fields Serialize writes decode to the clues and the text after them. */
  lemma CluesRoundTrip(s: State, rest: seq<char>)
    requires Shaped(s) && CluesInRange(s)
    ensures ParseClues(Digits(s.colPos) + [','] + Digits(s.rowPos) + [','] + Digits(s.colNeg) + [','] +
                       Digits(s.rowNeg) + [','] + rest, s.width, s.height) ==
            Some(Clues(s.colPos, s.rowPos, s.colNeg, s.rowNeg, rest))
  {
    var r3 := Digits(s.rowNeg) + [','] + rest;
    var r2 := Digits(s.colNeg) + [','] + r3;
    var r1 := Digits(s.rowPos) + [','] + r2;
    assert Digits(s.colPos) + [','] + Digits(s.rowPos) + [','] + Digits(s.colNeg) + [','] +
           Digits(s.rowNeg) + [','] + rest == Digits(s.colPos) + [','] + r1;
    FieldDigits(s.colPos, r1);
    FieldDigits(s.rowPos, r2);
    FieldDigits(s.colNeg, r3);
    FieldDigits(s.rowNeg, rest);
  }

  /** The game a serialized text decodes to: its frames and clues, walls in grid and guess. */
  function Loaded(s: State): (l: State)
    requires Shaped(s)
    ensures Shaped(l)
  {
    State(s.width, s.height, s.frames, WallsOf(s.frames, s.width, s.height), WallsOf(s.frames, s.width, s.height),
          s.colPos, s.rowPos, s.colNeg, s.rowNeg)
  }

  /**
    Deserializing what Serialize writes for a non-empty game whose cells all hold a
    frame symbol and whose clues are in 0..61 gives back its dimensions, frames and
    clues, with the walls copied into grid and guess.
  */
  lemma ParseRender(s: State)
    requires Shaped(s) && s.width > 0 && CluesInRange(s)
    requires forall i, j :: InBounds(s.width, s.height, i, j) ==> IsFrameLetter(Letter(s.frames[i][j]))
    ensures Parse(Render(s)) == Some(Loaded(s))
  {
    var w, h := s.width, s.height;
    var letters := Letters(s.frames, w, h, 0, 0);
    var clues := Digits(s.colPos) + [','] + Digits(s.rowPos) + [','] + Digits(s.colNeg) + [','] + Digits(s.rowNeg) + [','];
    RenderSplit(s, clues, letters);
    HeaderRoundTrip(w, h, clues + letters);
    CluesRoundTrip(s, letters);
    var blank := Blank(w, h);
    BlankPlaced(s.frames, w, h);
    PlaceLetters(s.frames, w, h, 0, 0, Layers(blank, blank, blank));
    ParseParts(Render(s), w, h, clues + letters, Clues(s.colPos, s.rowPos, s.colNeg, s.rowNeg, letters));
  }

  /** Three blank layers hold none of f yet. */
  lemma BlankPlaced(f: Grid, w: nat, h: nat)
    requires IsRect(f, w, h)
    ensures PlacedUpTo(f, w, h, 0, 0, Layers(Blank(w, h), Blank(w, h), Blank(w, h)))
  {
  }

  /** Parse succeeds with the pieces its header, clue and frame stages decode. */
  lemma ParseParts(text: seq<char>, w: nat, h: nat, rest: seq<char>, c: Clues)
    requires ParseHeader(text) == Some(Header(w, h, rest))
    requires ParseClues(rest, w, h) == Some(c)
    ensures var placed := Place(c.rest, w, h, 0, 0, Layers(Blank(w, h), Blank(w, h), Blank(w, h)));
      Parse(text) == if placed.None? then None
                     else Some(State(w, h, placed.value.frames, placed.value.grid, placed.value.guess,
                                     c.colPos, c.rowPos, c.colNeg, c.rowNeg))
  {
  }

  /** Render is the header, then the clue fields, then the frame letters. */
  lemma RenderSplit(s: State, clues: seq<char>, letters: seq<char>)
    requires Shaped(s) && letters == Letters(s.frames, s.width, s.height, 0, 0)
    requires clues == Digits(s.colPos) + [','] + Digits(s.rowPos) + [','] + Digits(s.colNeg) + [','] + Digits(s.rowNeg) + [',']
    ensures Render(s) == Itoa(s.width) + ['x'] + Itoa(s.height) + [':'] + (clues + letters)
    ensures clues + letters == Digits(s.colPos) + [','] + Digits(s.rowPos) + [','] + Digits(s.colNeg) + [','] +
                               Digits(s.rowNeg) + [','] + letters
  {
  }

  /** A game loaded from complete frames passes Valid: its grid holds only walls and Empty cells. */
  lemma LoadedValid(s: State)
    requires Shaped(s) && ValidSpec(s)
    ensures ValidSpec(Loaded(s))
  {
    var l := Loaded(s);
    forall i, j | InBounds(s.width, s.height, i, j)
      ensures PolarityOk(l.frames, l.grid, l.width, l.height, i, j)
    {
      if l.frames[i][j] == Up || l.frames[i][j] == Left {
        PartnerSymmetric(l.frames, l.width, l.height, i, j);
      }
    }
  }

  /**
    The decoded text of a valid game is a valid game that serializes to the same
    text, so Serialize, Deserialize, Serialize reproduces the first text.
  */
  lemma SerializeRoundTrip(s: State)
    requires Shaped(s) && ValidSpec(s) && CluesInRange(s)
    ensures Parse(Render(s)) == Some(Loaded(s))
    ensures ValidSpec(Loaded(s)) && Render(Loaded(s)) == Render(s)
  {
    FramesHaveLetters(s);
    ParseRender(s);
    LoadedValid(s);
    RenderLoaded(s);
  }

  /** Every cell of complete frames has a frame letter. */
  lemma FramesHaveLetters(s: State)
    requires Shaped(s) && ValidSpec(s)
    ensures forall i, j :: InBounds(s.width, s.height, i, j) ==> IsFrameLetter(Letter(s.frames[i][j]))
  {
    forall i, j | InBounds(s.width, s.height, i, j)
      ensures IsFrameLetter(Letter(s.frames[i][j]))
    {
      assert FrameOk(s.frames, s.width, s.height, i, j);
    }
  }

  /** Serialize reads only the dimensions, the clues and the frames. */
  lemma RenderLoaded(s: State)
    requires Shaped(s)
    ensures Render(Loaded(s)) == Render(s)
  {
  }

  /** Texts without an 'x' or without a ':' are rejected. */
  lemma ParseNeedsSeparators(s: seq<char>)
    requires 'x' !in s || ':' !in s
    ensures Parse(s) == None
  {
  }

  /** The decoder's examples of failure: an empty text has no separators. */
  lemma RejectsEmpty()
    ensures Parse("") == None
  {
  }

  /** The decoder's examples of failure: after one column digit "1x2:110101TB" has no ','. */
  lemma RejectsMissingComma()
    ensures Parse("1x2:110101TB") == None
  {
    var rest := "110101TB";
    assert Itoa(1) == "1" && Itoa(2) == "2";
    assert "1x2:110101TB" == Itoa(1) + ['x'] + Itoa(2) + [':'] + rest;
    HeaderRoundTrip(1, 2, rest);
    ParseCluesCommas(rest, 1, 2);
    assert rest[1] != ',';
  }

  /**
    The clue section of a w x h game is well formed exactly when the four
    commas stand where the field lengths put them.
  */
  lemma ParseCluesCommas(s: seq<char>, w: nat, h: nat)
    ensures ParseClues(s, w, h).Some? <==>
      |s| > 2 * w + 2 * h + 3 && s[w] == ',' && s[w + 1 + h] == ',' &&
      s[2 * w + h + 2] == ',' && s[2 * w + 2 * h + 3] == ','
    ensures ParseClues(s, w, h).Some? ==> ParseClues(s, w, h).value.rest == s[2 * w + 2 * h + 4..]
  {
    if |s| > w && s[w] == ',' {
      var r1 := s[w + 1..];
      if |r1| > h && r1[h] == ',' {
        var r2 := r1[h + 1..];
        assert r2 == s[w + h + 2..];
        if |r2| > w && r2[w] == ',' {
          var r3 := r2[w + 1..];
          assert r3 == s[2 * w + h + 3..];
        }
      }
    }
  }

  /** The decoder's examples of failure: in "5x2:11011,22,1101,22,..." the column-negative field is one digit short. */
  lemma RejectsShortField(s: seq<char>)
    requires s == "5x2:" + "11011,22,1101,22," + "LRTLRLRBLR"
    ensures Parse(s) == None
  {
    var head: seq<char> := "5x2:";
    assert s[..4] == head;
    assert s[0] == head[0] && s[1] == head[1] && s[2] == head[2] && s[3] == head[3];
    IndexOfAt(s, 'x', 1);
    IndexOfAt(s, ':', 3);
    assert s[..1] == ['5'] && s[2..3] == ['2'];
    assert Decimal(['5']) == 5 by { assert ['5'][..0] == []; }
    assert Decimal(['2']) == 2 by { assert ['2'][..0] == []; }
    assert ParseHeader(s) == Some(Header(5, 2, s[4..]));
    ParseCluesCommas(s[4..], 5, 2);
    assert s[4..][14] == '2';
  }
}

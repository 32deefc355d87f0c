/**
  The worked games of the backtracking and solver cases are the games the
  decoder loads from their puzzle texts.
*/
module CaseTexts {
  import opened Common
  import opened Boards
  import opened Magnets
  import opened Codec
  import opened BacktrackCases
  import opened BacktrackTable
  import opened SolverCases

  /** A game whose text is text, whose frames are all letters and whose grid and guess hold only its walls is what text decodes to. */
  lemma Loads(s: State, text: seq<char>)
    requires Shaped(s) && s.width > 0 && CluesInRange(s)
    requires forall i, j :: InBounds(s.width, s.height, i, j) ==> IsFrameLetter(Letter(s.frames[i][j]))
    requires Render(s) == text
    requires s.grid == WallsOf(s.frames, s.width, s.height) && s.guess == s.grid
    ensures Parse(text) == Some(s)
  {
    ParseRender(s);
  }

  /** The text of a game, piece by piece. */
  lemma Rendered(s: State, text: seq<char>, w: seq<char>, h: seq<char>, cp: seq<char>, rp: seq<char>, cn: seq<char>, rn: seq<char>, l: seq<char>)
    requires Shaped(s)
    requires Itoa(s.width) == w && Itoa(s.height) == h
    requires Digits(s.colPos) == cp && Digits(s.rowPos) == rp && Digits(s.colNeg) == cn && Digits(s.rowNeg) == rn
    requires Letters(s.frames, s.width, s.height, 0, 0) == l
    requires text == w + "x" + h + ":" + cp + "," + rp + "," + cn + "," + rn + "," + l
    ensures Render(s) == text
  {
  }

  /** "1x2:1,10,1,01,TB" decodes to Tall. */
  lemma TallText()
    ensures Parse("1x2:1,10,1,01,TB") == Some(Tall())
  {
    TallRendered();
    TallLoaded();
    Loads(Tall(), "1x2:1,10,1,01,TB");
  }

  /** The text Serialize writes for Tall. */
  lemma TallRendered()
    ensures Render(Tall()) == "1x2:1,10,1,01,TB"
  {
    TallPieces();
    TallLetters();
    TallSpelled();
    Rendered(Tall(), "1x2:1,10,1,01,TB", "1", "2", "1", "10", "1", "01", "TB");
  }

  /** Its text cut at the separators. */
  lemma TallSpelled()
    ensures "1x2:1,10,1,01,TB" == "1" + "x" + "2" + ":" + "1" + "," + "10" + "," + "1" + "," + "01" + "," + "TB"
  {
  }

  /** Its dimensions and clue fields as text. */
  lemma TallPieces()
    ensures Itoa(1) == "1" && Itoa(2) == "2"
    ensures Digits([1]) == "1" && Digits([1, 0]) == "10" && Digits([0, 1]) == "01"
  {
  }

  /** Its frame letters, row by row. */
  lemma TallLetters()
    ensures Letters(Tall().frames, 1, 2, 0, 0) == "TB"
  {
  }

  /** Its clues are digits, its frames letters, and its grid and guess hold just its walls. */
  lemma TallLoaded()
    ensures var s := Tall(); CluesInRange(s) && s.grid == WallsOf(s.frames, s.width, s.height) && s.guess == s.grid
    ensures var s := Tall(); forall i, j :: InBounds(s.width, s.height, i, j) ==> IsFrameLetter(Letter(s.frames[i][j]))
  {
    var g := WallsOf(Tall().frames, 1, 2);
    assert g[0] == [Empty] && g[1] == [Empty];
  }

  /** "3x2:011,02,101,11,LRTLRB" decodes to Overcounted. */
  lemma OvercountedText()
    ensures Parse("3x2:011,02,101,11,LRTLRB") == Some(Overcounted())
  {
    OvercountedRendered();
    OvercountedLoaded();
    Loads(Overcounted(), "3x2:011,02,101,11,LRTLRB");
  }

  /** The text Serialize writes for Overcounted. */
  lemma OvercountedRendered()
    ensures Render(Overcounted()) == "3x2:011,02,101,11,LRTLRB"
  {
    OvercountedPieces();
    OvercountedLetters();
    OvercountedSpelled();
    Rendered(Overcounted(), "3x2:011,02,101,11,LRTLRB", "3", "2", "011", "02", "101", "11", "LRTLRB");
  }

  /** Its text cut at the separators. */
  lemma OvercountedSpelled()
    ensures "3x2:011,02,101,11,LRTLRB" == "3" + "x" + "2" + ":" + "011" + "," + "02" + "," + "101" + "," + "11" + "," + "LRTLRB"
  {
  }

  /** Its dimensions and clue fields as text. */
  lemma OvercountedPieces()
    ensures Itoa(2) == "2" && Itoa(3) == "3"
    ensures Digits([0, 1, 1]) == "011" && Digits([0, 2]) == "02" && Digits([1, 0, 1]) == "101" && Digits([1, 1]) == "11"
  {
  }

  /** Its frame letters, row by row. */
  lemma OvercountedLetters()
    ensures Letters(Overcounted().frames, 3, 2, 0, 0) == "LRTLRB"
  {
  }

  /** Its clues are digits, its frames letters, and its grid and guess hold just its walls. */
  lemma OvercountedLoaded()
    ensures var s := Overcounted(); CluesInRange(s) && s.grid == WallsOf(s.frames, s.width, s.height) && s.guess == s.grid
    ensures var s := Overcounted(); forall i, j :: InBounds(s.width, s.height, i, j) ==> IsFrameLetter(Letter(s.frames[i][j]))
  {
    var g := WallsOf(Overcounted().frames, 3, 2);
    assert g[0] == [Empty, Empty, Empty] && g[1] == [Empty, Empty, Empty];
  }

  /** "2x2:11,00,11,00,TTBB" decodes to Blocked. */
  lemma BlockedText()
    ensures Parse("2x2:11,00,11,00,TTBB") == Some(Blocked())
  {
    BlockedRendered();
    BlockedLoaded();
    Loads(Blocked(), "2x2:11,00,11,00,TTBB");
  }

  /** The text Serialize writes for Blocked. */
  lemma BlockedRendered()
    ensures Render(Blocked()) == "2x2:11,00,11,00,TTBB"
  {
    BlockedPieces();
    BlockedLetters();
    BlockedSpelled();
    Rendered(Blocked(), "2x2:11,00,11,00,TTBB", "2", "2", "11", "00", "11", "00", "TTBB");
  }

  /** Its text cut at the separators. */
  lemma BlockedSpelled()
    ensures "2x2:11,00,11,00,TTBB" == "2" + "x" + "2" + ":" + "11" + "," + "00" + "," + "11" + "," + "00" + "," + "TTBB"
  {
  }

  /** Its dimensions and clue fields as text. */
  lemma BlockedPieces()
    ensures Itoa(2) == "2"
    ensures Digits([1, 1]) == "11" && Digits([0, 0]) == "00"
  {
  }

  /** Its frame letters, row by row. */
  lemma BlockedLetters()
    ensures Letters(Blocked().frames, 2, 2, 0, 0) == "TTBB"
  {
  }

  /** Its clues are digits, its frames letters, and its grid and guess hold just its walls. */
  lemma BlockedLoaded()
    ensures var s := Blocked(); CluesInRange(s) && s.grid == WallsOf(s.frames, s.width, s.height) && s.guess == s.grid
    ensures var s := Blocked(); forall i, j :: InBounds(s.width, s.height, i, j) ==> IsFrameLetter(Letter(s.frames[i][j]))
  {
    var g := WallsOf(Blocked().frames, 2, 2);
    assert g[0] == [Empty, Empty] && g[1] == [Empty, Empty];
  }

  /** "1x3:1,100,1,010,TB*" decodes to Capped, the wall copied into its grid and guess. */
  lemma CappedText()
    ensures Parse("1x3:1,100,1,010,TB*") == Some(Capped())
  {
    CappedRendered();
    CappedLoaded();
    Loads(Capped(), "1x3:1,100,1,010,TB*");
  }

  /** The text Serialize writes for Capped. */
  lemma CappedRendered()
    ensures Render(Capped()) == "1x3:1,100,1,010,TB*"
  {
    CappedPieces();
    CappedLetters();
    CappedSpelled();
    Rendered(Capped(), "1x3:1,100,1,010,TB*", "1", "3", "1", "100", "1", "010", "TB*");
  }

  /** Its text cut at the separators. */
  lemma CappedSpelled()
    ensures "1x3:1,100,1,010,TB*" == "1" + "x" + "3" + ":" + "1" + "," + "100" + "," + "1" + "," + "010" + "," + "TB*"
  {
  }

  /** Its dimensions and clue fields as text. */
  lemma CappedPieces()
    ensures Itoa(1) == "1" && Itoa(3) == "3"
    ensures Digits([1]) == "1" && Digits([1, 0, 0]) == "100" && Digits([0, 1, 0]) == "010"
  {
  }

  /** Its frame letters, row by row. */
  lemma CappedLetters()
    ensures Letters(Capped().frames, 1, 3, 0, 0) == "TB*"
  {
  }

  /** Its clues are digits, its frames letters, and its grid and guess hold just its walls. */
  lemma CappedLoaded()
    ensures var s := Capped(); CluesInRange(s) && s.grid == WallsOf(s.frames, s.width, s.height) && s.guess == s.grid
    ensures var s := Capped(); forall i, j :: InBounds(s.width, s.height, i, j) ==> IsFrameLetter(Letter(s.frames[i][j]))
  {
    var g := WallsOf(Capped().frames, 1, 3);
    assert g[0] == [Empty] && g[1] == [Empty] && g[2] == [Wall];
  }

  /** "2x2:11,11,11,11,TTBB" decodes to Twin. */
  lemma TwinText()
    ensures Parse("2x2:11,11,11,11,TTBB") == Some(Twin())
  {
    TwinRendered();
    TwinLoaded();
    Loads(Twin(), "2x2:11,11,11,11,TTBB");
  }

  /** The text Serialize writes for Twin. */
  lemma TwinRendered()
    ensures Render(Twin()) == "2x2:11,11,11,11,TTBB"
  {
    TwinPieces();
    TwinLetters();
    TwinSpelled();
    Rendered(Twin(), "2x2:11,11,11,11,TTBB", "2", "2", "11", "11", "11", "11", "TTBB");
  }

  /** Its text cut at the separators. */
  lemma TwinSpelled()
    ensures "2x2:11,11,11,11,TTBB" == "2" + "x" + "2" + ":" + "11" + "," + "11" + "," + "11" + "," + "11" + "," + "TTBB"
  {
  }

  /** Its dimensions and clue fields as text. */
  lemma TwinPieces()
    ensures Itoa(2) == "2"
    ensures Digits([1, 1]) == "11"
  {
  }

  /** Its frame letters, row by row. */
  lemma TwinLetters()
    ensures Letters(Twin().frames, 2, 2, 0, 0) == "TTBB"
  {
  }

  /** Its clues are digits, its frames letters, and its grid and guess hold just its walls. */
  lemma TwinLoaded()
    ensures var s := Twin(); CluesInRange(s) && s.grid == WallsOf(s.frames, s.width, s.height) && s.guess == s.grid
    ensures var s := Twin(); forall i, j :: InBounds(s.width, s.height, i, j) ==> IsFrameLetter(Letter(s.frames[i][j]))
  {
    var g := WallsOf(Twin().frames, 2, 2);
    assert g[0] == [Empty, Empty] && g[1] == [Empty, Empty];
  }

  /** "3x2:010,10,010,01,*TT*BB" decodes to Walled, the walls copied into its grid and guess. */
  lemma WalledText()
    ensures Parse("3x2:010,10,010,01,*TT*BB") == Some(Walled())
  {
    WalledRendered();
    WalledLoaded();
    Loads(Walled(), "3x2:010,10,010,01,*TT*BB");
  }

  /** The text Serialize writes for Walled. */
  lemma WalledRendered()
    ensures Render(Walled()) == "3x2:010,10,010,01,*TT*BB"
  {
    WalledPieces();
    WalledLetters();
    WalledSpelled();
    Rendered(Walled(), "3x2:010,10,010,01,*TT*BB", "3", "2", "010", "10", "010", "01", "*TT*BB");
  }

  /** Its text cut at the separators. */
  lemma WalledSpelled()
    ensures "3x2:010,10,010,01,*TT*BB" == "3" + "x" + "2" + ":" + "010" + "," + "10" + "," + "010" + "," + "01" + "," + "*TT*BB"
  {
  }

  /** Its dimensions and clue fields as text. */
  lemma WalledPieces()
    ensures Itoa(2) == "2" && Itoa(3) == "3"
    ensures Digits([0, 1, 0]) == "010" && Digits([1, 0]) == "10" && Digits([0, 1]) == "01"
  {
  }

  /** Its frame letters, row by row. */
  lemma WalledLetters()
    ensures Letters(Walled().frames, 3, 2, 0, 0) == "*TT*BB"
  {
  }

  /** Its clues are digits, its frames letters, and its grid and guess hold just its walls. */
  lemma WalledLoaded()
    ensures var s := Walled(); CluesInRange(s) && s.grid == WallsOf(s.frames, s.width, s.height) && s.guess == s.grid
    ensures var s := Walled(); forall i, j :: InBounds(s.width, s.height, i, j) ==> IsFrameLetter(Letter(s.frames[i][j]))
  {
    var g := WallsOf(Walled().frames, 3, 2);
    assert g[0] == [Wall, Empty, Empty] && g[1] == [Wall, Empty, Empty];
  }
}

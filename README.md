# Magnets: a verified model of the solving core

Magnets is a logic puzzle played on a rectangular grid. The grid is cut into
dominoes called frames. Each frame holds either a magnet (a `+` pole cell and a
`-` pole cell) or a neutral pair (`#` `#`). A cell that belongs to no domino is
a wall. Clues give the number of `+` and `-` cells in every row and column.
Two orthogonally adjacent cells may not hold the same pole.

This project models the Go packages that hold and solve such puzzles:

- `common`: the cell symbols and `Negate` (module `Common`, `common.dfy`).
- `board`: a rectangular board of symbols with reads, writes, counts,
  enumeration of cells, flood fill and equality. `Board` is a class whose
  `cells` field the methods update (module `Boards`, `board.dfy`).
- `magnets`: the `Game`, made of three boards (frames, the hidden grid and the
  player's guess) and four clue vectors. It also has board validation, the
  solved test, domino writes and the frame enumeration (module `Magnets`,
  `magnets.dfy`).
- `magnets/serialize.go`: the text format
  `WxH:colPos,rowPos,colNeg,rowNeg,frameLetters` with base-62 clue digits
  (module `Codec`, `serialize.dfy`).
- `magnets/backtrackSolver.go`: the exhaustive counter used to decide whether
  a puzzle has one solution (modules `Backtrack`, `BacktrackCount`,
  `BacktrackCases` and `BacktrackTable`; `CaseTexts` decodes the worked
  puzzles' texts).
- `solver/cbs.go`: the possibility-set matrix (CBS), with its `dirty` flag and
  its counting and validation helpers (module `Cbs`).
- `solver/solver.go`: the constraint-propagation rules (just-one, satisfied,
  resolve-neighbours, need-all) and the 1000-round `Solve` driver (modules
  `Solver`, `SolverSound` and `SolverCases`).

Every loop of the source except the one in `Board.Cells` (see "## Left out")
is a Dafny method with loop invariants. Each method
is proved against a pure function of the old state. For example,
`Solver.Solve` ends with exactly the guess that `Solver.SolveSpec` computes,
and `Codec.Deserialize` builds exactly the game that `Codec.Parse` describes.
The lemmas then state what those functions promise:

- the codec round-trips;
- the backtracking counter restores the guess;
- the corrected backtracking counter counts every solution once, so its count is
  one exactly when the solution is unique;
- every rule keeps the possibility matrix consistent with the guess;
- the corrected rules never discard the answer of a puzzle.

Three places where the code, read line by line, does not do what its comments
and design evidently intend are listed under "## Findings". Each has a concrete
counterexample and a corrected definition with its property proved.

Where the prose design and the code disagree, the model follows the code:

- The backtracking counter checks only the row limits of the clues, not the
  column limits. Its neighbour check looks only above and to the left of the
  head cell.
- `Solve` runs exactly 1000 rounds in the order just-one, satisfied,
  resolve-neighbours, double-single, need-all. It does not stop at a fixpoint,
  and it does not consult `dirty`.
- need-all removes `#` from every cell of the line, not only from the undecided
  cells. A decided `#` cell can therefore end with an empty set, so a decided
  cell's set is not always exactly its value: `Cbs.Agrees` states only that the
  set holds nothing but that value (a subset, not equality).
- `solver.go`'s `new` keeps any already-decided guess symbol as a singleton set.
  `cbs.go`'s `new` gives walls `{wall}` and reports other decided cells as
  errors.

## Model

| member | source | states |
|---|---|---|
| Common.Negate | common/common.go:19-37 | swaps `+`/`-` and the opposite orientations (each result differs from its input and is of the same kind); every other symbol maps to itself |
| Common.NegateInvolution | common/common.go:19-37 | negating twice gives back the symbol |
| Common.NegateInjective | common/common.go:19-37 | two symbols have the same negation exactly when they are equal |
| Boards.Put | board/board.go:112-117 | writing a cell keeps the board rectangular |
| Boards.AtPut | board/board.go:105-117 | a bounds-checked read after a write gives the written symbol at that cell (when it is on the board) and the old symbol everywhere else |
| Boards.GridExtensionality | board/board.go:139-152 | two boards of one size that agree on every cell are equal |
| Boards.Blank | board/board.go:23-39 | a new board is `width` x `height` and every cell is Empty |
| Boards.CountIsCardinality | board/board.go:83-91 | the count of a symbol in a line is the number of positions holding it |
| Boards.CountAppend | board/board.go:83-103 | counts add over concatenated lines |
| Boards.CountUpdate | board/board.go:83-117 | writing one cell changes a count by at most the old and the new symbol |
| Boards.CountPrefix | board/board.go:83-103 | the count over a prefix grows by one exactly when the next entry is the symbol |
| Boards.Column | board/board.go:95-103 | a column has one entry per row and that row's symbol at the column |
| Boards.RowCountPut | board/board.go:83-91 | after a write, a row count changes only in the written row, by the old and new symbol |
| Boards.ColCountPut | board/board.go:95-103 | after a write, a column count changes only in the written column, by the old and new symbol |
| Boards.RowCellsMembers | board/board.go:50-70 | a row's enumeration from `col` holds a cell exactly when it is in that row, at or after `col`, and admitted by the filter |
| Boards.RowCellsOrdered | board/board.go:50-70 | a row's enumeration stays in the row and goes left to right |
| Boards.RowCellsLength | board/board.go:50-70 | unfiltered, a row's enumeration from `col` has one entry per cell from `col` to the row's end |
| Boards.RowCellsAllStep | board/board.go:50-70 | unfiltered, a row's enumeration yields the cell at `col`, then the rest of the row |
| Boards.CellsFromFacts | board/board.go:50-70 | the enumeration from `row` on lists exactly the admitted cells of those rows, in row-major order, `(h - row) * w` of them when unfiltered |
| Boards.CellsEnumeration | board/board.go:50-70 | the enumeration holds exactly the admitted cells, in row-major order; unfiltered it holds `w * h` distinct cells |
| Boards.RowCellsAllAt | board/board.go:50-70 | the i-th cell of an unfiltered row enumeration is `(row, col + i)` |
| Boards.CellsAllDistinct | board/board.go:50-70 | the unfiltered enumeration is strictly increasing, so no cell appears twice |
| Boards.TotalPut | board/board.go:112-137 | writing a cell changes a symbol's board-wide count by the old and the new symbol only |
| Boards.FillStep | board/board.go:119-137 | writing the negation of a pole into an Empty neighbour keeps the board a flood-fill extension of the original |
| Boards.FillOne | board/board.go:127-133 | filling an Empty neighbour with the opposite pole keeps the cell's pole, keeps the grid an extension of the original, and uses up exactly one Empty cell |
| Boards.Board.New | board/board.go:23-39 | the new board has the requested dimensions and every cell is Empty |
| Boards.Board.Get | board/board.go:105-110 | reads the cell on the board, and Border off it |
| Boards.Board.Set | board/board.go:112-117 | the new cells are the old cells with one cell written, and nothing is written off the board |
| Boards.Board.Cells | board/board.go:50-70 | a coordinate is listed exactly when it is on the board and its symbol passes the filter; unfiltered there are `width * height` of them |
| Boards.Board.CountRow | board/board.go:83-91 | returns the number of cells in the row that hold the symbol |
| Boards.Board.CountCol | board/board.go:95-103 | returns the number of cells in the column that hold the symbol |
| Boards.Board.Equal | board/board.go:139-152 | true exactly when both boards have the same width, height and cells |
| Boards.Board.FloodFill | board/board.go:119-137 | the result extends the original (only Empty cells change, each to the negation of a neighbouring pole), and no pole has an Empty neighbour left |
| Boards.Board.FillPass | board/board.go:121-136 | one sweep either fills at least one Empty cell or changes nothing, and then every cell is settled |
| Boards.Board.FillRow | board/board.go:124-135 | one row of the sweep keeps the grid an extension of the original and never adds Empty cells; when it reports a change one fewer is left, and otherwise nothing changed and every cell of the row is settled |
| Boards.Board.FillAround | board/board.go:123-135 | at one cell, either some Empty neighbour is filled or nothing changes and the cell is settled |
| Boards.Board.FillNeighbour | board/board.go:127-133 | fills one Empty neighbour of a pole with its negation, or changes nothing when that neighbour is already filled |
| Magnets.Offset | magnets/magnets.go:161-185 | every orientation points to one of the four adjacent offsets |
| Magnets.OffsetNegate | magnets/magnets.go:161-185 | opposite orientations point in opposite directions |
| Magnets.PartnerSymmetric | magnets/magnets.go:65-86 | in complete frames, a domino cell's partner is a distinct cell on the board with the negated orientation, and its partner is the first cell |
| Magnets.CountPartition | magnets/magnets.go:108-130 | in a line of legal symbols, the counts of `+`, `-`, `#`, wall and Empty add up to the line's length |
| Magnets.CellCount | magnets/magnets.go:54-61 | a board with positive sides has more than one cell exactly when one side exceeds 1 |
| Magnets.Game.Snapshot | magnets/magnets.go:22-36 | the game's three boards and clue vectors, as one value of consistent shape |
| Magnets.Game.Make | magnets/magnets.go:348-361 | three new blank boards of the requested size and all-zero clue vectors |
| Magnets.Game.GetFrame | magnets/magnets.go:156-158 | the frame symbol on the board, and Border off it |
| Magnets.Game.GetFrameEnd | magnets/magnets.go:161-185 | `(-1, -1)` for a wall; one row down for Up, one row up for Down, one column right for Left, one column left for Right |
| Magnets.Game.Frames | magnets/magnets.go:190-192 | lists exactly the cells whose frame is Up or Left, i.e. the head of each domino |
| Magnets.Game.SetDomino | magnets/magnets.go:136-153 | writes the symbol into the cell, and its negation into the partner unless the cell is a wall; no other cell changes |
| Magnets.Game.CountRow | magnets/magnets.go:378-389 | the row's clue for `+` and `-`; for `#`, width minus both pole clues; otherwise the grid's count |
| Magnets.Game.CountCol | magnets/magnets.go:392-403 | the column's clue for `+` and `-`; for `#`, height minus both pole clues; otherwise the grid's count |
| Magnets.Game.Valid | magnets/magnets.go:52-133 | true exactly when the board has at least two cells, the frames are complete, every grid symbol is legal, every domino's halves agree and no two adjacent cells share a pole |
| Magnets.Game.CheckFrames | magnets/magnets.go:65-86 | true exactly when every non-wall frame cell points to a partner that points back |
| Magnets.Game.CheckGridSymbols | magnets/magnets.go:89-105 | true exactly when every grid cell holds a legal symbol |
| Magnets.Game.CheckPolarities | magnets/magnets.go:89-105 | true exactly when every grid cell and its partner hold a symbol and its negation |
| Magnets.Game.CheckApart | magnets/magnets.go:108-130 | true exactly when no grid pole has an adjacent cell holding the same pole |
| Magnets.Game.Solved | magnets/magnets.go:325-345 | true exactly when every row and column of the guess has as many `+` and `-` as its clues |
| Magnets.NeutralCountRow | magnets/magnets.go:378-389 | when the grid meets the pole clues, the `#` count the game reports is the row's `#`, wall and Empty cells together |
| Magnets.NeutralCountCol | magnets/magnets.go:392-403 | the same for a column |
| Magnets.DominoWrite | magnets/magnets.go:136-153 | writing a domino puts the symbol and its negation into the two halves, makes both halves agree, and leaves every other cell alone |
| Codec.CountToRune | magnets/serialize.go:61-83 | negative counts give `-`, counts above 61 give `!`, and every count from 0 to 61 gives a clue digit that decodes back to it |
| Codec.RuneToCount | magnets/serialize.go:86-109 | characters outside `'0'..'z'` give -1, clue digits give 0..61, and decimal digits give their value |
| Codec.ClueDigitRoundTrip | magnets/serialize.go:61-109 | encoding the count of any clue digit gives back that digit |
| Codec.IndexOf | magnets/serialize.go:176-184 | the first position of the character, or -1 when it does not occur |
| Codec.Itoa | magnets/serialize.go:121 | the decimal text of a size is non-empty, all digits, and has no leading zero |
| Codec.AtoiItoa | magnets/serialize.go:121-187 | parsing the printed decimal of a size gives that size back |
| Codec.FrameSymbol | magnets/serialize.go:235-255 | each frame letter decodes to the symbol that encodes back to it |
| Codec.Digits | magnets/serialize.go:123-148 | one clue digit per clue, in order |
| Codec.Place | magnets/serialize.go:232-263 | placing letters succeeds exactly when every letter is one of `LRTB*`, and keeps all three boards rectangular |
| Codec.Serialize | magnets/serialize.go:112-171 | `valid` is the board's validity; when valid the text is the rendering of the game, otherwise it is empty |
| Codec.AppendClues | magnets/serialize.go:123-149 | appends one digit per clue |
| Codec.AppendLetters | magnets/serialize.go:151-168 | appends the frame letters row-major; valid exactly when no frame cell encodes as `!` |
| Codec.ReadField | magnets/serialize.go:193-200 | reads n clue digits and a comma; fails exactly when the field is short or not ended by a comma |
| Codec.Deserialize | magnets/serialize.go:175-264 | `ok` exactly when the text parses, and then the game is exactly the parsed game |
| Codec.Load | magnets/serialize.go:187-264 | after the header: `ok` exactly when the clues and letters parse, and then the fresh game is exactly the parsed body |
| Codec.PlaceLetterAt | magnets/serialize.go:235-260 | `ok` exactly when the character is a frame letter, and then the three boards are the old ones with that letter placed |
| Codec.ReadClues | magnets/serialize.go:192-230 | reads the four clue fields, of lengths w, h, w and h; fails exactly when the parser fails |
| Codec.PlaceFrames | magnets/serialize.go:232-263 | succeeds exactly when every letter is valid, and then the three boards are the placed ones |
| Codec.WallsOf | magnets/serialize.go:245-248 | the board holding Wall where the frames have a wall and Empty elsewhere |
| Codec.PlaceOne | magnets/serialize.go:235-260 | placing one letter writes its frame symbol, plus Wall into the grid and the guess for `*`, and moves on in row-major order |
| Codec.PlaceLetters | magnets/serialize.go:232-263 | placing the rendered letters rebuilds the frames, and walls into the grid and the guess |
| Codec.PlaceLetter | magnets/serialize.go:235-260 | placing one letter keeps all three boards `w` by `h` |
| Codec.PlaceStep | magnets/serialize.go:232-263 | placing from letter `k` on is placing that letter, then the rest from the next cell in row-major order |
| Codec.PlaceStops | magnets/serialize.go:248-254 | placing fails as soon as a letter is not a frame letter |
| Codec.PlacedAll | magnets/serialize.go:232-263 | boards that hold every frame of `f` and its walls are exactly `f` and its walls |
| Codec.BlankPlaced | magnets/serialize.go:187-188 | three blank boards hold none of `f` yet |
| Codec.FieldDigits | magnets/serialize.go:193-200 | reading a rendered field gives back its clues and the text after it |
| Codec.HeaderRoundTrip | magnets/serialize.go:121-187 | parsing a rendered `WxH:` header gives back the width, height and rest |
| Codec.IndexOfAt | magnets/serialize.go:176-184 | the first index of `c` is `k` when `s[k]` is `c` and no earlier entry is |
| Codec.HeaderSplit | magnets/serialize.go:175-186 | two decimal numbers joined by `x` and ended by `:` parse back to those numbers and the rest of the text |
| Codec.ParseParts | magnets/serialize.go:175-264 | parsing succeeds with exactly the game its header, clue and frame stages build, and fails when placing fails |
| Codec.RenderSplit | magnets/serialize.go:112-171 | the text is the header, then the four comma-ended clue fields, then the frame letters |
| Codec.CluesRoundTrip | magnets/serialize.go:123-149 | parsing the four rendered clue fields gives back the four clue vectors |
| Codec.Loaded | magnets/serialize.go:175-264 | the game a rendering loads back into: same frames and clues, with walls in the grid and the guess |
| Codec.ParseRender | magnets/serialize.go:112-264 | parsing the rendering of a game whose frames all have letters and whose clues fit a digit gives back the loaded game |
| Codec.LoadedValid | magnets/serialize.go:112-264 | a valid game loads back into a valid game |
| Codec.SerializeRoundTrip | magnets/serialize.go:112-264 | for a valid game with clues of at most 61: deserialising the serialisation succeeds, the result is valid and it serialises to the same text |
| Codec.FramesHaveLetters | magnets/serialize.go:151-168 | a valid game's frames all have letters, so serialisation never emits `!` |
| Codec.RenderLoaded | magnets/serialize.go:112-171 | the loaded game renders to the same text |
| Codec.ParseNeedsSeparators | magnets/serialize.go:176-184 | text without an `x` or a `:` is rejected |
| Codec.RejectsEmpty | magnets/serialize.go:176-179 | the empty text is rejected |
| Codec.RejectsMissingComma | magnets/serialize.go:196-199 | `1x2:110101TB` (no commas) is rejected |
| Codec.ParseCluesCommas | magnets/serialize.go:192-230 | the clue fields parse exactly when the four commas stand at positions w, w+1+h, 2w+h+2 and 2w+2h+3; the rest follows the last one |
| Codec.RejectsShortField | magnets/serialize.go:212-219 | a 5x2 text whose column `-` field is one digit short is rejected |
| Backtrack.Scan | magnets/backtrackSolver.go:64-79 | the next domino head at or after `(row, col)` in row-major order, with no head skipped; a leaf when there is none |
| Backtrack.Blanked | magnets/backtrackSolver.go:26-31 | blanking a head keeps the guess rectangular |
| Backtrack.TrySet | magnets/backtrackSolver.go:34-58 | a tentative write keeps the guess rectangular |
| Backtrack.Search | magnets/backtrackSolver.go:61-98 | the solution count and final guess of the search from `(row, col)` keep the board's shape |
| Backtrack.Branch | magnets/backtrackSolver.go:84-94 | one tried symbol at a head keeps the board's shape |
| Backtrack.ExceedsRowLimitsOf | magnets/backtrackSolver.go:9-23 | true exactly when the row holds more `+`, more `-`, or more `#` and walls than its clues allow |
| Backtrack.BlankCell | magnets/backtrackSolver.go:26-31 | the guess becomes Empty at the head and its partner |
| Backtrack.SetCell | magnets/backtrackSolver.go:34-58 | the result and the new guess are those of the tentative write: refused for a same pole above or left, undone when a row limit is exceeded |
| Backtrack.NextStop | magnets/backtrackSolver.go:64-79 | finds the same next head or leaf as the scan |
| Backtrack.CountSolutions | magnets/backtrackSolver.go:61-98 | returns the count, and leaves the guess, that the search computes |
| Backtrack.TryBranch | magnets/backtrackSolver.go:84-94 | tries one symbol at the head and recurses on success, as the search's branch does |
| Backtrack.SingleSolution | magnets/backtrackSolver.go:101-103 | true exactly when the search counts one solution |
| Backtrack.TrySetWritesDomino | magnets/backtrackSolver.go:34-58 | a tentative write changes no cell other than the head and its partner |
| Backtrack.BranchResets | magnets/backtrackSolver.go:84-97 | after a branch, each cell other than the domino is either unchanged or is a later domino cell now Empty |
| Backtrack.SearchResets | magnets/backtrackSolver.go:61-98 | the search changes no cell it never visits, and leaves each visited cell Empty |
| Backtrack.GuessRestored | magnets/backtrackSolver.go:61-98 | when the cells still to visit start Empty, the search leaves the guess exactly as it found it |
| Backtrack.IntendedSound | magnets/backtrackSolver.go:61-98 | with the corrected leaf test, a positive count means the puzzle has a solution |
| Backtrack.SolutionIgnoresGuess | magnets/backtrackSolver.go:61-98 | whether a grid solves the puzzle does not depend on the current guess |
| Backtrack.BranchSound | magnets/backtrackSolver.go:84-94 | with the corrected leaf test, a branch that counts something has a solution behind it |
| BacktrackCount.IntendedComplete | magnets/backtrackSolver.go:61-98 | with the corrected leaf test, the count from `(row, col)` is at least the size of any set of solutions that agree with the guess outside the cells the search writes: no solution is missed |
| BacktrackCount.BranchComplete | magnets/backtrackSolver.go:84-94 | the branch trying `v` at a head counts at least every such solution holding `v` there |
| BacktrackCount.IntendedCounted | magnets/backtrackSolver.go:61-98 | on a guess whose cells still to visit are Empty, the corrected count equals the size of a set of distinct solutions that agree with the guess: no leaf is counted twice or without a solution |
| BacktrackCount.LeafCounted | magnets/backtrackSolver.go:68-72 | at a leaf the corrected count is one exactly when the guess itself is a solution, and that guess agrees with itself |
| BacktrackCount.HeadCounted | magnets/backtrackSolver.go:83-97 | at a head the three branches count disjoint sets of solutions, told apart by the value at the head, whose sizes add up to the count |
| BacktrackCount.BranchCounted | magnets/backtrackSolver.go:84-94 | the leaves a branch trying `v` counts are that many distinct solutions holding `v` at the head |
| BacktrackCount.SingleIffUnique | magnets/backtrackSolver.go:100-103 | from a guess whose cells still to visit are Empty, the corrected count is one exactly when a solution agreeing with the guess exists and no two such solutions differ |
| BacktrackCount.CountedOnce | magnets/backtrackSolver.go:100-103 | a corrected count of one names a solution, and it is the only one |
| BacktrackCount.UniqueCounted | magnets/backtrackSolver.go:100-103 | a solution that is the only one is counted exactly once |
| BacktrackCount.SameWhenOnce | magnets/backtrackSolver.go:100-103 | with a corrected count of one, two solutions agreeing with the guess are the same grid |
| BacktrackCount.StartPending | magnets/serialize.go:245-248 | the guess a deserialised puzzle starts with (walls at wall frames, Empty elsewhere) is the one the counting lemmas expect, and the search from the top-left cell writes exactly the cells that are not walls |
| BacktrackCount.PlaceStands | magnets/backtrackSolver.go:34-58 | writing a solution's value at a head is neither refused by the pole test nor undone by the row limits |
| BacktrackCount.PoleTestPasses | magnets/backtrackSolver.go:38-48 | the pole test above and left of a head reads only cells holding the solution's values, none of them the same pole |
| BacktrackCount.WithinRowLimits | magnets/backtrackSolver.go:9-23 | a row holding only a solution's values and Empty cells is within every row limit |
| BacktrackCount.CountBelow | board/board.go:83-91 | blanking cells never raises the count of a symbol other than Empty |
| BacktrackCount.TrySetStands | magnets/backtrackSolver.go:34-58 | a write that stands puts `v` at the head and its negation at the partner, and changes nothing else |
| BacktrackCount.BranchKeepsBeside | magnets/backtrackSolver.go:84-97 | with the later cells Empty, a branch leaves every cell away from the head and its partner as it was |
| BacktrackCount.TouchedNext | magnets/backtrackSolver.go:83-97 | a search from a head writes the head, its partner and what the search from the next cell writes |
| BacktrackCount.TouchedFromHead | magnets/backtrackSolver.go:64-79 | the search from a cell writes the same cells as the search from the head the scan stops at |
| BacktrackCount.NothingTouched | magnets/backtrackSolver.go:68-72 | a search that finds no head writes nothing |
| BacktrackCases.Tall | magnets/serialize.go:175-264 | the 1x2 puzzle `1x2:1,10,1,01,TB` as deserialised |
| BacktrackCases.TallCount | magnets/backtrackSolver.go:61-103 | that puzzle's one solution is counted exactly once |
| BacktrackCases.TallPositive | magnets/backtrackSolver.go:84-86 | `+` at the head leads to the one counted leaf |
| BacktrackCases.TallLeaf | magnets/backtrackSolver.go:68-72 | the filled guess passes the leaf test |
| BacktrackCases.TallValid | magnets/magnets.go:52-133 | with `+` over `-` the game passes the validity test as written |
| BacktrackCases.TallFrames | magnets/magnets.go:65-86 | the frames `T` over `B` pair up into one domino |
| BacktrackCases.TallSolved | magnets/magnets.go:325-345 | `+` over `-` meets every clue of the puzzle |
| BacktrackCases.TallNegative | magnets/backtrackSolver.go:88-90 | `-` at the head exceeds the row limits and counts nothing |
| BacktrackCases.TallNeutral | magnets/backtrackSolver.go:92-94 | `#` at the head exceeds the row limits and counts nothing |
| BacktrackCases.Overcounted | magnets/serialize.go:175-264 | the puzzle `3x2:011,02,101,11,LRTLRB` as deserialised |
| BacktrackCases.OvercountedUnsolvable | magnets/magnets.go:52-133 | no grid solves that puzzle |
| BacktrackCases.FirstHeadPoles | magnets/backtrackSolver.go:84-90 | a pole at the first head counts nothing and leaves the guess blank |
| BacktrackCases.FirstHeadNeutral | magnets/backtrackSolver.go:92-94 | `#` at the first head continues the search at the second head |
| BacktrackCases.SecondHeadPositive | magnets/backtrackSolver.go:84-86 | `+` at the second head counts nothing |
| BacktrackCases.SecondHeadNegative | magnets/backtrackSolver.go:88-90 | `-` at the second head continues at the third head |
| BacktrackCases.ThirdHeadPositive | magnets/backtrackSolver.go:84-86 | `+` at the third head leaves the guess with row 1 as `+-+` |
| BacktrackCases.ThirdHeadNegative | magnets/backtrackSolver.go:88-90 | `-` at the third head is counted |
| BacktrackCases.OvercountedLeaf | magnets/backtrackSolver.go:68-72 | the guess `##-/-++` passes the as-written leaf test |
| BacktrackCases.OvercountedValid | magnets/magnets.go:52-133 | Valid holds whatever the guess is, because it reads the blank grid |
| BacktrackCases.OvercountedFrames | magnets/magnets.go:65-86 | the puzzle's frames are complete |
| BacktrackCases.BlankGridValid | magnets/magnets.go:52-133 | with complete frames and a blank grid, Valid holds |
| BacktrackCases.OvercountedSolved | magnets/magnets.go:325-345 | the guess `##-/-++` meets every clue |
| BacktrackCases.OvercountedCounts | magnets/backtrackSolver.go:61-98 | as written, the counter counts at least one solution of a puzzle that has none |
| BacktrackCases.SecondLevel | magnets/backtrackSolver.go:61-98 | the search from the second head counts at least one |
| BacktrackCases.ThirdLevel | magnets/backtrackSolver.go:61-98 | the search from the third head counts at least one |
| BacktrackCases.OvercountedIntended | magnets/backtrackSolver.go:61-98 | with the corrected leaf test the same puzzle counts zero |
| BacktrackTable.Blocked | magnets/serialize.go:175-264 | the game `2x2:11,00,11,00,TTBB` deserialises to |
| BacktrackTable.Capped | magnets/serialize.go:175-264 | the game `1x3:1,100,1,010,TB*` deserialises to, with the wall copied into the grid and the guess |
| BacktrackTable.Twin | magnets/serialize.go:175-264 | the game `2x2:11,11,11,11,TTBB` deserialises to |
| CaseTexts.TallText | magnets/serialize.go:175-264 | the text `1x2:1,10,1,01,TB` decodes to exactly `BacktrackCases.Tall` |
| CaseTexts.OvercountedText | magnets/serialize.go:175-264 | the text `3x2:011,02,101,11,LRTLRB` decodes to exactly `BacktrackCases.Overcounted` |
| CaseTexts.BlockedText | magnets/serialize.go:175-264 | the text `2x2:11,00,11,00,TTBB` decodes to exactly `BacktrackTable.Blocked` |
| CaseTexts.CappedText | magnets/serialize.go:175-264 | the text `1x3:1,100,1,010,TB*` decodes to exactly `BacktrackTable.Capped`, its wall copied into the grid and the guess |
| CaseTexts.TwinText | magnets/serialize.go:175-264 | the text `2x2:11,11,11,11,TTBB` decodes to exactly `BacktrackTable.Twin` |
| CaseTexts.WalledText | magnets/serialize.go:175-264 | the text `3x2:010,10,010,01,*TT*BB` decodes to exactly `SolverCases.Walled`, its walls copied into the grid and the guess |
| BacktrackTable.StackedComplete | magnets/magnets.go:65-86 | the frames `TTBB` pair up into two vertical dominoes |
| BacktrackTable.StackedCell | magnets/magnets.go:65-86 | each cell of `TTBB` has its partner in the other row of its column |
| BacktrackTable.BlockedCount | magnets/backtrackSolver_test.go:15 | the search as written counts 0 solutions of `2x2:11,00,11,00,TTBB`, the expected count |
| BacktrackTable.BlockedFirstPole | magnets/backtrackSolver.go:52-55 | a pole at the first head goes over row 0's pole clue of 0: refused, and the guess is blank again |
| BacktrackTable.BlockedFirstNeutral | magnets/backtrackSolver.go:91-93 | `#` at the first head stands and the search goes on from the next cell |
| BacktrackTable.BlockedSecond | magnets/backtrackSolver.go:61-98 | from the second head the search counts nothing |
| BacktrackTable.BlockedSecondPole | magnets/backtrackSolver.go:52-55 | a pole at the second head goes over row 0's pole clue: refused, and the guess is as before |
| BacktrackTable.BlockedSecondNeutral | magnets/backtrackSolver.go:68-72 | `#` at the second head reaches the all-`#` leaf, which misses column 0's clue and is not counted |
| BacktrackTable.CappedCount | magnets/backtrackSolver_test.go:17 | the search as written counts 1 solution of `1x3:1,100,1,010,TB*`, the expected count |
| BacktrackTable.CappedPositive | magnets/backtrackSolver.go:83-85 | `+` at the head stands and reaches a counted leaf |
| BacktrackTable.CappedLeaf | magnets/backtrackSolver.go:68-72 | `+` over `-` over the wall passes the leaf test |
| BacktrackTable.CappedValid | magnets/magnets.go:52-133 | the game with its wall in the grid passes Valid |
| BacktrackTable.CappedSolved | magnets/magnets.go:325-345 | `+` over `-` over the wall meets every clue |
| BacktrackTable.CappedNegative | magnets/backtrackSolver.go:87-89 | `-` at the head goes over row 0's `-` clue: refused, and only the wall is left |
| BacktrackTable.CappedNeutral | magnets/backtrackSolver.go:91-93 | `#` at the head goes over row 0's room for `#` cells, which is none: refused |
| BacktrackTable.CountOne | board/board.go:83-91 | the count over one cell is 1 exactly when the cell holds the symbol |
| BacktrackTable.TwinCount | magnets/backtrackSolver_test.go:18 | the search as written counts 2 solutions of `2x2:11,11,11,11,TTBB`, the expected count |
| BacktrackTable.TwinFirstPositive | magnets/backtrackSolver.go:83-85 | `+` at the first head leads to one counted leaf, and the guess is restored to that head's domino |
| BacktrackTable.TwinFirstNegative | magnets/backtrackSolver.go:87-89 | `-` at the first head leads to one counted leaf, and the guess is restored to that head's domino |
| BacktrackTable.TwinFirstNeutral | magnets/backtrackSolver.go:91-93 | `#` at the first head goes over row 0's room for `#` cells: nothing counted |
| BacktrackTable.TwinRowFits | magnets/backtrackSolver.go:9-23 | a row holding one pole and one Empty cell is within every row limit |
| BacktrackTable.TwinAfterPositive | magnets/backtrackSolver.go:61-98 | with `+` at (0, 0), the search from (0, 1) counts one leaf and leaves the guess as it found it |
| BacktrackTable.TwinAfterNegative | magnets/backtrackSolver.go:61-98 | with `-` at (0, 0), the search from (0, 1) counts one leaf and leaves the guess as it found it |
| BacktrackTable.TwinSecondRefused | magnets/backtrackSolver.go:38-44 | a pole at (0, 1) beside the same pole at (0, 0) is refused with no write |
| BacktrackTable.TwinSecondBlanked | magnets/backtrackSolver.go:26-30 | blanking the second domino once it is Empty again leaves the guess unchanged |
| BacktrackTable.TwinSecondPole | magnets/backtrackSolver.go:83-89 | the pole opposite the first head's stands at (0, 1) and completes a counted leaf |
| BacktrackTable.TwinLeaf | magnets/backtrackSolver.go:68-72 | both solutions pass the leaf test |
| BacktrackTable.TwinSecondNeutral | magnets/backtrackSolver.go:91-93 | `#` at (0, 1) goes over row 0's room for `#` cells: refused and blanked |
| Cbs.Assign | solver/cbs.go:74-78 | replaces one cell's possibility set and no other |
| Cbs.Remove | solver/cbs.go:83-89 | removes one symbol from one cell's set and changes no other set |
| Cbs.SetsColumn | solver/cbs.go:121-129 | a column of the matrix, one set per row |
| Cbs.Initial | solver/cbs.go:31-60 | walls start as `{wall}`, Empty cells as `{+, -, #}`, and other decided cells with no possibility |
| Cbs.FindFault | solver/cbs.go:161-170 | reports the first faulty cell from `(row, col)` on in row-major order, or none, and no earlier cell is faulty |
| Cbs.ValidationPasses | solver/cbs.go:156-193 | validation passes exactly when the board is valid and the matrix is consistent with the guess |
| Cbs.InitialConsistent | solver/cbs.go:31-60 | the initial matrix is consistent with the guess |
| Cbs.Commit | solver/cbs.go:65-79 | committing a frame writes the symbol and its negation into the two halves of the guess, makes both sets singletons, and leaves every other cell and set alone |
| Cbs.PartnerElsewhere | magnets/magnets.go:161-185 | a domino's partner is a different cell |
| Cbs.ChangesIffGuessDiffers | solver/cbs.go:68-70 | the frame commit sets `dirty` exactly when it changes the guess |
| Cbs.CommitConsistent | solver/cbs.go:65-79 | committing an expected symbol keeps the matrix consistent |
| Cbs.RowNeedsOf | solver/cbs.go:93-97 | the row clue minus the guess's count |
| Cbs.ColNeedsOf | solver/cbs.go:101-105 | the column clue minus the guess's count |
| Cbs.NeedsMetIffSolved | magnets/magnets.go:325-345 | the guess is solved exactly when no row or column still needs a `+` or a `-` |
| Cbs.Holding | solver/cbs.go:109-117 | the number of sets in a line that admit the symbol, at most the line's length |
| Cbs.OpenAtMostHolding | solver/cbs.go:109-153 | the undecided cells admitting a symbol are at most all the cells admitting it, which are at most the line's length |
| Cbs.CBS.View | solver/cbs.go:24 | the matrix together with the game, as one value of matching shape |
| Cbs.CBS.New | solver/cbs.go:31-60 | the matrix starts as the initial sets and is not dirty |
| Cbs.CBS.Legacy | solver/solver.go:12-40 | the matrix starts as the older `new`'s sets: every decided symbol as a singleton |
| Cbs.CBS.SetFrame | solver/cbs.go:65-79 | the game and matrix become the commit of the old ones; `dirty` is set exactly when the guess changed |
| Cbs.CBS.UnsetPossibility | solver/cbs.go:83-89 | the symbol is removed from the one set; `dirty` is set exactly when it was there; nothing changes when it was not |
| Cbs.CBS.Delete | solver/solver.go:157-162 | the plain `delete` need-all does: the symbol leaves the one set and `dirty` is left as it was |
| Cbs.CBS.RowSpaceTotal | solver/cbs.go:109-117 | counts the row's sets that admit the symbol, decided cells included |
| Cbs.CBS.ColSpaceTotal | solver/cbs.go:121-129 | counts the column's sets that admit the symbol, decided cells included |
| Cbs.CBS.RowSpaceRemaining | solver/cbs.go:133-141 | counts the row's undecided cells whose set admits the symbol |
| Cbs.CBS.ColSpaceRemaining | solver/cbs.go:145-153 | counts the column's undecided cells whose set admits the symbol |
| Cbs.CBS.Validate | solver/cbs.go:156-193 | returns exactly the validation result: invalid board, an extraneous possibility at the first decided cell, an unexpected symbol, or none |
| Cbs.CBS.FirstFault | solver/cbs.go:161-190 | finds the same first faulty cell as the specification |
| Cbs.LegacyInitial | solver/solver.go:12-40 | Empty cells start as `{+, -, #}` and every decided cell as the singleton of its symbol |
| Cbs.LegacyInitialConsistent | solver/solver.go:12-40 | those sets are consistent with a guess of legal symbols |
| Solver.ReadyDomino | solver/solver.go:42-51 | in a ready state every non-wall cell is a domino half that can be committed |
| Solver.CommitKeeps | solver/solver.go:42-51 | committing a pole or `#` keeps the state ready, consistent and within the expected symbols |
| Solver.ShrinkKeeps | solver/solver.go:214-242 | shrinking sets without touching the guess keeps those invariants |
| Solver.Only | solver/solver.go:62-65 | the one element of a singleton set |
| Solver.JustOneFrom | solver/solver.go:54-71 | the just-one sweep keeps the state ready and the guess consistent |
| Solver.CommitDecides | solver/solver.go:42-51 | after a commit the committed cell and every decided cell are decided |
| Solver.CommitElsewhere | solver/solver.go:42-51 | a commit leaves every still-undecided set alone |
| Solver.JustOneCommit | solver/solver.go:54-71 | an undecided singleton is a domino half, and committing it is the sweep's next step |
| Solver.StaysDecided | solver/solver.go:54-71 | the sweep never undoes a decided cell |
| Solver.StaysDecidedAfterCommit | solver/solver.go:54-71 | the same, after a commit at the current cell |
| Solver.JustOneDecides | solver/solver.go:54-71 | every undecided cell with one possibility at or after the start is decided by the sweep |
| Solver.Mirror | solver/solver.go:221-225 | the symbols whose negation this end rules out |
| Solver.FramePassFrom | solver/solver.go:215-227 | the frame half of resolve-neighbours only shrinks sets and keeps the state ready |
| Solver.PoleAt | solver/solver.go:235-240 | the symbol, when it is a pole |
| Solver.NeighbourPoles | solver/solver.go:230-241 | exactly the poles in the guess at the first n adjacent offsets |
| Solver.AdjacencyFrom | solver/solver.go:230-241 | from the start on, every set loses the poles its neighbours hold in the guess; earlier sets are unchanged |
| Solver.ResolveNeighbors | solver/solver.go:214-242 | resolve-neighbours only shrinks sets and keeps the state ready |
| Solver.NoPoleBesideItself | solver/solver.go:230-241 | after resolve-neighbours no cell admits a pole its neighbour holds |
| Solver.LineOf | solver/solver.go:105-130 | a row or column of a board, in order |
| Solver.LineSets | solver/solver.go:85-103 | a row or column of the matrix, in order |
| Solver.FillLine | solver/solver.go:110-114 | committing every cell of a line that admits the category keeps the state ready and consistent |
| Solver.SatisfiedLine | solver/solver.go:109-114 | the satisfied rule on one line keeps the state ready and consistent |
| Solver.SatisfiedFrom | solver/solver.go:108-125 | the rule over the remaining rows or columns keeps the state ready and consistent |
| Solver.SatisfiedPass | solver/solver.go:107-126 | the rule over all rows and then all columns keeps the state ready and consistent |
| Solver.Satisfied | solver/solver.go:105-130 | the rule for `+`, `-` and `#` keeps the state ready and consistent |
| Solver.LinePaired | solver/solver.go:144-154 | in complete frames, every lead half in a line is followed by its trail half, and every trail half by a lead half |
| Solver.Unit | solver/solver.go:144-154 | each line position supplies at most one frame to need-all |
| Solver.Provides | solver/solver.go:140-156 | need-all's supply over the first n positions is at most n |
| Solver.DropFrom | solver/solver.go:157-162 | striking `#` from the rest of a line only shrinks sets and keeps the state ready; as written it leaves no `#` in any cell from `i` on |
| Solver.NeedAllLine | solver/solver.go:137-162 | need-all on one line only shrinks sets and keeps the state ready |
| Solver.NeedAllFrom | solver/solver.go:136-188 | need-all over the remaining rows or columns only shrinks sets |
| Solver.NeedAllPass | solver/solver.go:136-188 | need-all for one polarity over all rows and columns only shrinks sets |
| Solver.NeedAll | solver/solver.go:134-190 | need-all for both polarities only shrinks sets and keeps the state ready |
| Solver.Round | solver/solver.go:260-268 | one round (just-one, satisfied, resolve-neighbours, need-all) keeps the state ready and consistent |
| Solver.Rounds | solver/solver.go:260-268 | any number of rounds keep the state ready and consistent |
| Solver.RoundsStep | solver/solver.go:260-268 | `m + 1` rounds are one round followed by `m` rounds |
| Solver.LegacyReady | solver/solver.go:12-40 | the older `new` gives a ready state for every start `Solve` accepts |
| Solver.SolveSpec | solver/solver.go:258-269 | the 1000 rounds never change frames, grid or clues |
| Solver.RoundsConsistent | solver/solver.go:258-269 | the matrix stays consistent with the guess through every round |
| Solver.SolveConsistent | solver/solver.go:258-269 | Solve's final matrix is consistent with the guess |
| Solver.SetFrame | solver/solver.go:42-51 | the game and matrix become the commit of the old ones |
| Solver.JustOneCBS | solver/solver.go:54-71 | the game and matrix become the just-one sweep of the old ones |
| Solver.JustOneRow | solver/solver.go:55-70 | one row of the sweep: the state after it is the sweep from the next row of the state before it |
| Solver.JustOneAt | solver/solver.go:55-70 | one cell's step of the sweep |
| Solver.FillLineCBS | solver/solver.go:110-114 | the game and matrix become the line fill of the old ones |
| Solver.FillAt | solver/solver.go:111-113 | one cell's step of the line fill |
| Solver.FillCommit | solver/solver.go:111-113 | a cell admitting the category is a domino half, and committing it is the fill's next step |
| Solver.SatisfiedLineCBS | solver/solver.go:109-114 | the game and matrix become the satisfied rule on that line |
| Solver.SatisfiedPassCBS | solver/solver.go:107-126 | the game and matrix become the satisfied rule for one category |
| Solver.SatisfiedCBS | solver/solver.go:105-130 | the game and matrix become the satisfied rule for all three categories |
| Solver.ResolveNeighborsCBS | solver/solver.go:214-242 | the matrix becomes resolve-neighbours of the old one; the guess is untouched |
| Solver.FramePassCBS | solver/solver.go:215-227 | the matrix becomes the frame half of the rule |
| Solver.FramePassRow | solver/solver.go:215-227 | one row of the frame half: the state after it is the frame half from the next row of the state before it |
| Solver.AdjacencyCBS | solver/solver.go:230-241 | the matrix becomes the adjacency half of the rule |
| Solver.AdjacencyRow | solver/solver.go:230-241 | one row of the adjacency half: the state after it is the adjacency half from the next row of the state before it |
| Solver.FrameAt | solver/solver.go:216-226 | one cell's step of the frame half |
| Solver.StrikeMirror | solver/solver.go:216-226 | the partner's set loses the opposite of every polarity missing from the cell's set, and nothing else |
| Solver.AdjacentAt | solver/solver.go:231-240 | one cell's step of the adjacency half |
| Solver.StrikeNeighbourPoles | solver/solver.go:232-239 | the set minus the poles its neighbours hold |
| Solver.AdjacencyStep | solver/solver.go:231-240 | one adjacency step assigns that difference to the cell and continues |
| Solver.ProvidesCBS | solver/solver.go:140-156 | the frames of a line are paired, and the loop's count is need-all's supply |
| Solver.UnitAt | solver/solver.go:144-154 | what one cell of the line adds to the supply |
| Solver.ProvidesNext | solver/solver.go:144-154 | the supply over `i + 1` cells is the supply over `i` cells plus cell `i`'s share |
| Solver.NeedAllLineCBS | solver/solver.go:137-162 | the matrix becomes need-all on that line |
| Solver.DropLineCBS | solver/solver.go:157-162 | the matrix becomes the strike of `#` from that line |
| Solver.DropStep | solver/solver.go:159-161 | one cell's strike removes `#` from it and continues |
| Solver.NeedAllPassCBS | solver/solver.go:136-188 | the matrix becomes need-all for one polarity |
| Solver.NeedAllCBS | solver/solver.go:134-190 | the matrix becomes need-all for both polarities |
| Solver.Solve | solver/solver.go:258-269 | the final game is exactly the one the 1000 rounds of the specification produce |
| Solver.RoundCBS | solver/solver.go:260-268 | one round of the driver is the specification's round |
| SolverSound.AnswerSame | solver/solver.go:258-269 | an answer stays an answer when only the guess and sets change |
| SolverSound.AnswerPartner | magnets/magnets.go:89-105 | in an answer the partner of a domino cell holds its negation |
| SolverSound.ExtendsShrink | solver/solver.go:214-242 | shrinking sets keeps an answer open when every answer symbol is still admitted |
| SolverSound.CommitSound | solver/solver.go:42-51 | committing a cell to its answer symbol keeps the answer open |
| SolverSound.JustOneSound | solver/solver.go:54-71 | the just-one sweep keeps every open answer open |
| SolverSound.JustOneStep | solver/solver.go:54-71 | the sweep stops past the board, wraps at a row's end, and passes over a cell it does not commit |
| SolverSound.JustOneSoundAtCommit | solver/solver.go:54-71 | the same, at a cell the sweep commits |
| SolverSound.FrameStepSound | solver/solver.go:216-226 | one frame step keeps every open answer open |
| SolverSound.FramePassSound | solver/solver.go:215-227 | the frame half keeps every open answer open |
| SolverSound.FramePassWrapSound | solver/solver.go:215-227 | the same, at a row's end |
| SolverSound.FramePassCellSound | solver/solver.go:215-227 | the same, at a cell of the board |
| SolverSound.FramePassStep | solver/solver.go:215-227 | the frame half stops past the board and wraps at a row's end |
| SolverSound.FrameNextSound | solver/solver.go:216-226 | one cell's step of the frame half keeps every open answer open |
| SolverSound.NotNeighbourPole | solver/solver.go:230-241 | an answer symbol is never a pole that a neighbour holds |
| SolverSound.NotBeside | solver/solver.go:230-241 | the same, for one neighbour |
| SolverSound.AnswerApart | magnets/magnets.go:108-130 | no two adjacent cells of an answer share a pole |
| SolverSound.PolesApart | magnets/magnets.go:108-130 | a neighbour decided in agreement with an answer never holds the pole of the answer's cell |
| SolverSound.AdjacentsBack | magnets/magnets.go:108-130 | adjacency is symmetric for the same-pole rule |
| SolverSound.ResolveNeighborsSound | solver/solver.go:214-242 | resolve-neighbours keeps every open answer open |
| SolverSound.CountMatch | board/board.go:83-103 | lines that match position by position have equal counts |
| SolverSound.LineSlack | solver/solver.go:109-114 | what a line still needs is at most what its sets admit; when equal, every admitting cell holds the category |
| SolverSound.LineFacts | solver/solver.go:105-130 | along a line, every answer cell of the category is admitted, and every decided cell of it is in the answer |
| SolverSound.AnswerLineClues | magnets/magnets.go:325-345 | an answer's line meets its pole clues |
| SolverSound.AnswerLineSymbols | magnets/magnets.go:52-133 | an answer's line holds legal decided symbols, walls exactly where the frames have walls |
| SolverSound.NeutralsInLine | magnets/magnets.go:378-389 | an answer line's `#` count is its length minus its poles and its walls |
| SolverSound.NeededInAnswer | solver/solver.go:73-77 | the corrected need of a line is the answer's count minus the guess's count |
| SolverSound.FillLineSound | solver/solver.go:110-114 | the line fill keeps an answer open while the need is met |
| SolverSound.FillLineStep | solver/solver.go:110-114 | the fill stops past the line's end and passes over a cell that cannot hold the polarity |
| SolverSound.FillNextSound | solver/solver.go:111-113 | one cell's step of the fill keeps the answer open, and the later cells that can hold the polarity still hold it in the answer |
| SolverSound.FillStepSound | solver/solver.go:111-113 | after a commit of the fill, the later cells that can hold the polarity still hold it in the answer |
| SolverSound.SatisfiedLineSound | solver/solver.go:109-114 | the corrected satisfied rule on a line keeps every open answer open |
| SolverSound.SatisfiedFromSound | solver/solver.go:108-125 | the same, over the remaining lines |
| SolverSound.SatisfiedFromStep | solver/solver.go:108-125 | the rule from line `k` on is the rule on line `k`, then from line `k + 1` on |
| SolverSound.SatisfiedSound | solver/solver.go:105-130 | the corrected satisfied rule keeps every open answer open |
| SolverSound.Singletons | solver/solver.go:140-156 | the singleton sets of a line |
| SolverSound.DominoCount | solver/solver.go:140-156 | on decided cells where no frame holds two of the category, need-all's supply is the count of the category |
| SolverSound.UnitOrder | solver/solver.go:144-154 | each frame's supply is ordered: guess, then answer, then sets |
| SolverSound.SlackBounds | solver/solver.go:140-156 | the supply gap of every position is between zero and the whole slack |
| SolverSound.ProvidingPoles | solver/solver.go:157-162 | when the need equals the supply, every providing cell holds a pole in the answer |
| SolverSound.ZeroSlack | solver/solver.go:157-162 | when the need equals the supply, the supply counts nothing the answer does not need |
| SolverSound.ProvidingEvery | solver/solver.go:157-162 | with no excess supply anywhere along the line, every providing cell holds a pole in the answer |
| SolverSound.ProvidingPole | solver/solver.go:157-162 | the same, for one providing cell |
| SolverSound.AnswerLinePoles | solver/solver.go:144-154 | in an answer both halves of a lead frame are poles or neither is |
| SolverSound.DropFromSound | solver/solver.go:157-162 | striking `#` only from providing cells keeps the answer open |
| SolverSound.DropNext | solver/solver.go:159-161 | one step of the strike only shrinks sets |
| SolverSound.DropFromNext | solver/solver.go:159-161 | an open answer after the rest of the strike is open after the whole strike |
| SolverSound.DropStepSound | solver/solver.go:159-161 | striking `#` from a providing cell keeps the answer open |
| SolverSound.NeedAllLineSound | solver/solver.go:137-162 | corrected need-all on a line keeps every open answer open |
| SolverSound.NeedAllFromSound | solver/solver.go:136-188 | the same, over the remaining lines |
| SolverSound.NeedAllFromStep | solver/solver.go:136-188 | the corrected rule from line `k` on is the rule on line `k`, then from line `k + 1` on |
| SolverSound.NeedAllSound | solver/solver.go:134-190 | corrected need-all keeps every open answer open |
| SolverSound.RoundSound | solver/solver.go:260-268 | a corrected round keeps every open answer open |
| SolverSound.RoundsSound | solver/solver.go:260-268 | any number of corrected rounds keep every open answer open |
| SolverSound.StartSound | solver/solver.go:12-40 | the starting sets keep open every answer that agrees with the starting guess |
| SolverSound.SolveSound | solver/solver.go:258-269 | the corrected Solve never decides a cell against an answer that agrees with the starting guess |
| SolverCases.Excluded | solver/solver.go:12-40 | an answer whose symbol a set lost is no longer open |
| SolverCases.Walled | magnets/serialize.go:175-264 | the puzzle `3x2:010,10,010,01,*TT*BB` as deserialised |
| SolverCases.WalledFrames | magnets/magnets.go:65-86 | its frames are complete |
| SolverCases.WalledIsAnswer | magnets/magnets.go:52-133 | `+#/-#` beside the walls answers it |
| SolverCases.WalledValid | magnets/magnets.go:52-133 | that answer is a valid board |
| SolverCases.WalledSolved | magnets/magnets.go:325-345 | that answer meets every clue |
| SolverCases.WalledReady | solver/solver.go:12-40 | Solve can start on the puzzle |
| SolverCases.WalledStart | solver/solver.go:12-40 | the starting sets keep the answer open |
| SolverCases.WalledSatisfiedAsWritten | solver/solver.go:109-114 | as written, the satisfied rule for `#` commits cell (0,1) to `#` and loses the answer |
| SolverCases.WalledNeed | solver/solver.go:73-103 | row 0 needs two `#`, and two sets admit `#` |
| SolverCases.WalledRowNeed | magnets/magnets.go:378-389 | the `#` clue of row 0 counts the wall |
| SolverCases.WalledFill | solver/solver.go:110-114 | the line fill commits cell (0,1) to `#` |
| SolverCases.FillNeutral | solver/solver.go:110-114 | a `#` cell stays `#` through the fill, and a cell ahead that admits `#` becomes `#` |
| SolverCases.NeutralCommit | solver/solver.go:111-113 | committing `#` at one cell of the line keeps that condition for the cells after it |
| SolverCases.WalledSatisfiedIntended | solver/solver.go:109-114 | with the corrected need, row 0 needs one `#` and the rule keeps the answer |
| SolverCases.Needy | solver/solver.go:134-190 | a 3x2 puzzle state partway through solving |
| SolverCases.NeedyValid | magnets/magnets.go:52-133 | its answer is a valid board |
| SolverCases.NeedyPolarities | magnets/magnets.go:89-105 | its answer's domino halves agree |
| SolverCases.NeedyApart | magnets/magnets.go:108-130 | its answer has no same poles side by side |
| SolverCases.NeedyIsAnswer | magnets/magnets.go:52-133 | `-+#/+-#` answers it |
| SolverCases.NeedyComplete | magnets/magnets.go:89-105 | the answer has no wall and a polarity in every cell, as the frames ask |
| SolverCases.NeedySolved | magnets/magnets.go:325-345 | that answer meets every clue |
| SolverCases.NeedyExtends | solver/solver.go:134-190 | the state keeps that answer open |
| SolverCases.NeedyReady | solver/solver.go:134-190 | the state is ready for the rules |
| SolverCases.NeedyCell | solver/solver.go:134-190 | each cell is a domino half, admits only its expected symbols and its answer, and agrees with the guess |
| SolverCases.NeedyAsWritten | solver/solver.go:137-162 | as written, need-all for `+` on row 0 strikes `#` from cell (0,2) and loses the answer |
| SolverCases.NeedySetup | solver/solver.go:137-162 | row 0 is on the board, paired, and its need equals its supply |
| SolverCases.NeedyBalance | solver/solver.go:137-156 | row 0 needs as many `+` as it supplies |
| SolverCases.StrikesEveryNeutral | solver/solver.go:157-162 | as written, when need equals supply, `#` is struck from every cell of the line, so an answer with `#` at a non-wall cell of it is lost |
| SolverCases.NeedyNeed | solver/solver.go:73-77 | row 0 needs one `+` |
| SolverCases.NeedyProvides | solver/solver.go:140-156 | row 0 supplies one `+` frame, and cell (0,2) does not provide |
| SolverCases.NeedyIntended | solver/solver.go:137-162 | corrected need-all on row 0 keeps the answer |

## Left out

- Printing: `Print`, the error messages of both `new` functions, and `validateCBS`, which only prints. `validateCBS` therefore has no effect in `Solve`'s round.
- `doubleSingleCBS` has an empty body in the source, so the round does nothing there.
- `Board.Cells` runs a goroutine that sends on a channel. It is modelled as a function that gives the row-major sequence of the coordinates it sends, so its nested loop is not a method with loop invariants, and the interleaving of the goroutine with its reader is not captured.
- The package-level `dirty` flag of `solver/cbs.go` is a field of the `CBS` class.
- Random puzzle generation (`magnets/new.go`, `placeFrames`, `placePieces`, `setFrameMagnet`, `New`) is not part of this model. The command-line driver (`magnets.go`) and the older copy of the codec in `magnets/magnets.go` are not part of this model either.
- Go panics are not modelled as panics. An out-of-range slice, a negative size or a short text becomes a `None` parse result. A precondition of the source (a ready state for `Solve`) becomes a `requires`.
- Text is modelled as a sequence of `char`, the Go rune. The byte/rune difference between `s[:width]` slicing and `range s` does not arise for the ASCII formats the codec reads.
- Codec.Deserialize: on failure the partly filled game the source returns is not described; only its shape is stated.
- Solver.Solve: requires complete frames and a Wall in the guess at every wall frame, as `Deserialize` produces. The source does not check this, and on other boards it fails in different ways, none of them modelled. At an Empty frame `GetFrameEnd` panics (magnets/magnets.go:180). At a wall frame `setFrame` indexes row `-1` of the matrix and panics (solver/cbs.go:74-78). A partner off the board is an index panic too. Only a domino whose partner lies on the board but is wrongly paired gets a value written into a cell that is not its partner.
- Solver.JustOneFrom, Solver.Satisfied, Solver.ResolveNeighbors and Solver.NeedAll: each one's own contract states only the invariants it keeps (readiness, consistency, shrinking sets). The soundness of the corrected rules is proved separately in `SolverSound`. The as-written rules are shown unsound by the cases in `SolverCases`.
- SolverCases.WalledSatisfiedAsWritten and SolverCases.NeedyAsWritten: each shows the fault on one call of the rule. For the walled puzzle that call is `Solve`'s first satisfied pass for `#`. For the needy state it is a state partway through solving. That `Solve`'s 1000 rounds reach these calls is not proved.
- The counter's table of expected counts (magnets/backtrackSolver_test.go:15-31) is proved for its first four rows only (`BacktrackCases.TallCount`, `BacktrackTable.BlockedCount`, `BacktrackTable.CappedCount`, `BacktrackTable.TwinCount`). The 3x2, 5x2 and larger puzzles are not unfolded, because every step of the search on a concrete board is a separate proof and those boards have too many branches to prove within the verifier's limits.
- `Solve` runs exactly 1000 rounds, as the source does. Convergence, and whether the puzzle ends up solved, are not stated.

## Findings

| source | as written | input that shows it | evidently intended | confidence | as-written member | corrected member |
|---|---|---|---|---|---|---|
| magnets/backtrackSolver.go:68-72 | the leaf test is `game.Valid() && game.Solved()`; `Valid` reads the hidden grid (blank for a deserialised puzzle), not the guess, and `setCell` checks only the neighbours above and left of the head | `3x2:011,02,101,11,LRTLRB` has no solution, yet the guess `##-/-++` (two `+` side by side) is counted | count a leaf only when the guess itself is a valid board that meets the clues | not executed | BacktrackCases.OvercountedCounts | BacktrackCount.SingleIffUnique |
| solver/solver.go:109 with magnets/magnets.go:385-387 | the satisfied rule compares the `#` need `width - (pos + neg) - has` with the `#` possibilities; the need counts wall cells, which never become `#` | `3x2:010,10,010,01,*TT*BB`: row 0 needs 2 `#` by the formula and exactly 2 sets admit `#`, so cell (0,1) is committed to `#`, but the answer has `+` there | subtract the row's walls from the `#` need | not executed | SolverCases.WalledSatisfiedAsWritten | SolverSound.SatisfiedSound |
| solver/solver.go:157-162 | when a line's pole need equals the pole-capable frames, `#` is deleted from every cell of the line | the `Needy` state: row 0 needs one `+`, only its left frame can provide one, and `#` is struck from cell (0,2), whose answer is `#` | strike `#` only from the cells of the frames that provide a pole | not executed | SolverCases.NeedyAsWritten | SolverSound.NeedAllSound |

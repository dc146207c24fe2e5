# Sudoku engine, AI hint and game store — a Dafny model

This project models the core of a browser Sudoku game:

- the board engine: the Fisher–Yates `shuffle`, `isSafe`, the randomised
  backtracking `solve`, `generateSolved`, `countSolutions`,
  `generatePuzzle`, `computeConflicts` and `constraintScore`;
- the AI hint `nextAIMove`, with its unit and peer tables and
  `computeCandidates`;
- the game store, with the actions `newGame`, `setActive`, `inputDigit`,
  `clearCell` and `setDifficulty`;
- what the game hook derives for the screen: `counts`, `moveIndex` and
  `formatTime`.

A board is a sequence of 81 integers in row-major order. A blank is 0 and a
digit is 1..9. The interface stores cells as the texts "" and "1".."9".
Module `Text` proves that the conversion is a bijection between the two
forms, so comparing texts and comparing numbers agree.

`Math.random()` is a stream `rng: nat -> nat` read from a cursor, and every
consumer returns the advanced cursor. `Date.now()` is a parameter `now`.

Modules, one file each (`board.dfy` also holds `Options`, `text.dfy` also
holds `Decimal`):

| module | models |
|---|---|
| Geometry | `row`/`col`/`rowId`/`colId`/`boxId`, and the `rows`, `cols`, `boxes` and `peers` tables |
| Board | the Sudoku rules: the blank count, consistency, a solved grid, the tests' `isPerm19` |
| Decimal, Text | `String(n)`, `Number(s)`, `padStart(2, "0")`, and the cell texts |
| Solver | `shuffle`, `isSafe`, `solve`, `generateSolved`, `countSolutions` |
| Generator | the difficulty presets, `targetClues`, `generatePuzzle` |
| Buckets | the insertion-ordered `Map<key, number[]>` used by the two scans |
| Conflicts | `computeConflicts` |
| Score | `constraintScore` |
| Candidates | `computeCandidates` |
| AI | `nextAIMove` and its stages |
| Store | the store class `SudokuStore` |
| View | `counts`, `moveIndex`, `formatTime` |

## Model

| member | source | states |
|---|---|---|
| Geometry.RowId | src/lib/sudoku-helpers.ts:248-252 | the row lies in 0..8 and the cell lies inside that row's range of indices; the same as `row` at 31 |
| Geometry.ColId | src/lib/sudoku-helpers.ts:254-258 | the column lies in 0..8, and row*9 + column gives back the cell; the same as `col` at 37 |
| Geometry.BoxId | src/lib/sudoku-helpers.ts:241-246 | the box lies in 0..8 and equals (row/3)*3 + column/3 |
| Geometry.SameBoxByThirds | src/lib/sudoku-helpers.ts:245-246 | two cells share a box exactly when their rows and their columns fall in the same thirds |
| Geometry.RowsMembers | src/lib/sudoku-ai.ts:30 | the row table r holds exactly the cells whose row is r |
| Geometry.ColsMembers | src/lib/sudoku-ai.ts:31 | the column table c holds exactly the cells whose column is c |
| Geometry.BoxesMembers | src/lib/sudoku-ai.ts:32-39 | the box table b holds exactly the cells whose `boxId` is b |
| Geometry.BoxEntry | src/lib/sudoku-ai.ts:32-39 | every entry of the box table b is a cell whose `boxId` is b |
| Geometry.BoxPosition | src/lib/sudoku-ai.ts:32-39 | a cell of box b stands in the box table at position (row mod 3)*3 + column mod 3 |
| Geometry.UnitsWellFormed | src/lib/sudoku-ai.ts:30-39 | each table entry has 9 distinct cells, and every cell lies in the row, column and box named by its ids |
| Geometry.UnitWellFormed | src/lib/sudoku-helpers.ts:202-222 | each of the 27 groups has 9 distinct cells |
| Geometry.InCommonUnit | src/lib/sudoku-helpers.ts:202-222 | two cells of one group share a row, a column or a box |
| Geometry.CommonUnit | src/lib/sudoku-helpers.ts:202-222 | two cells that share a row, column or box have a group holding both |
| Geometry.SharedUnit | src/lib/sudoku-helpers.ts:202-222 | two cells share one of the 27 groups if and only if they share a row, column or box |
| Geometry.PeerAtIsPeer | src/lib/sudoku-ai.ts:44-51 | every entry of `peers[i]` is a peer of i |
| Geometry.PeerAt | src/lib/sudoku-ai.ts:44-51 | entry k of `peers[i]` is the cell whose row and column are those of the k-th peer in set order |
| Geometry.PeersDiffer | src/lib/sudoku-ai.ts:44-51 | the entries of `peers[i]` are pairwise different (set semantics) |
| Geometry.PeerFound | src/lib/sudoku-ai.ts:44-51 | every peer of i appears in `peers[i]` |
| Geometry.PeersSpec | src/lib/sudoku-ai.ts:41-51 | `peers[i]` has 20 distinct entries, never contains i, and holds j if and only if j is a peer of i |
| Board.Occurrences | src/lib/sudoku-helpers.ts:179 | the count of x in s is at most the length of s |
| Board.OccurrencesUpdate | src/lib/sudoku-helpers.ts:176-179 | writing y at position i moves exactly one occurrence from s[i] to y |
| Board.OccurrencesNone | src/lib/sudoku-helpers.ts:78-79 | x has no occurrence if and only if no position holds x |
| Board.IndexOf | src/lib/sudoku-helpers.ts:78 | `indexOf` returns -1 exactly when the value is absent, and otherwise its first position |
| Board.PlaceKeepsConsistent | src/lib/sudoku-helpers.ts:81-82 | placing a digit `isSafe` accepts into a blank keeps a consistent board consistent |
| Board.SolvedUnit | tests/sudoku.spec.ts:23-45 | in a solved grid each of the 27 units is a permutation of 1..9 |
| Board.SolvedUnits | tests/sudoku.spec.ts:33-46 | a solved grid passes the test's row, column and box `isPerm19` checks |
| Board.ValueInUnit | src/lib/sudoku-ai.ts:30-39 | a cell of a unit holds the value found at its position in that unit |
| Board.PeersDifferInUnit | tests/sudoku.spec.ts:23-31 | two peers hold different values when their common unit is a permutation |
| Board.UnitsSolved | tests/sudoku.spec.ts:86-93 | a grid whose 27 units are permutations of 1..9 is solved |
| Board.SolvedIffUnitsArePermutations | tests/sudoku.spec.ts:33-46 | a grid is solved if and only if all 27 units are permutations of 1..9 |
| Board.DistinctCard | tests/sudoku.spec.ts:24-28 | a sequence without repeats has as many elements as positions |
| Board.Perm19Covers | tests/sudoku.spec.ts:23-31 | nine distinct values in 1..9 include every digit (pigeonhole) |
| Decimal.NatToString | src/lib/sudoku-helpers.ts:184-186 | `String(n)` is a non-empty digit string, with no leading zero unless n is 0, and one digit exactly when n < 10 |
| Decimal.ParseNatToString | src/lib/sudoku-helpers.ts:184-186 | reading back the digits of `String(n)` gives n |
| Decimal.PadStart2 | src/hooks/use-sudoku.ts:14-15 | the result is at least two characters long, ends with the input, and is preceded only by '0's |
| Decimal.ParseLeadingZeros | src/hooks/use-sudoku.ts:14-15 | leading zeros do not change the number a digit string denotes |
| Text.ToText | src/lib/sudoku-helpers.ts:184 | the text is "" exactly for 0, and a valid cell text for 0..9 |
| Text.ValueRoundTrip | src/lib/sudoku-helpers.ts:184-186 | `Number(String(v))` is v for every non-negative cell value |
| Text.TextRoundTrip | src/lib/sudoku-ai.ts:68 | a cell text read as a number lies in 0..9 and renders back to the same text |
| Text.TextEquality | src/lib/sudoku-ai.ts:94 | two cell texts are equal if and only if their numbers are |
| Solver.Range | src/lib/sudoku-helpers.ts:11 | `range(n)` has length n and holds k at position k |
| Solver.Shuffle | src/lib/sudoku-helpers.ts:18-25 | the shuffled copy is a permutation (equal multiset) of the input |
| Solver.ShuffleDigits | src/lib/sudoku-helpers.ts:80 | shuffling [1..9] gives a permutation of 1..9 and uses 8 draws |
| Solver.ShuffleOfDigitsIsPerm19 | src/lib/sudoku-helpers.ts:18-25 | a sequence with the multiset of 1..9 is nine distinct digits |
| Solver.OnceInDistinct | src/lib/sudoku-helpers.ts:18-25 | in a sequence without repeats each value occurs at most once |
| Solver.IsSafe | src/lib/sudoku-helpers.ts:48-68 | returns true if and only if val occurs nowhere in i's row, column or box |
| Solver.SafeCovers | src/lib/sudoku-helpers.ts:54-66 | the row, column and box scans together reach every cell sharing a unit with i |
| Solver.Solve | src/lib/sudoku-helpers.ts:77-88 | on success the board has no blank and keeps every given digit; on failure the board is restored; digits and consistency are preserved |
| Solver.TryPlace | src/lib/sudoku-helpers.ts:81-85 | one placement, a recursive solve, and an undo on failure, with the same guarantees as `solve` |
| Solver.SeedsConsistent | src/lib/sudoku-helpers.ts:97-107 | three diagonal boxes filled with permutations of 1..9 form a consistent board of digits |
| Solver.SeedPairDiffers | src/lib/sudoku-helpers.ts:97-107 | two peers that both received seeded digits received different ones |
| Solver.SeedBox | src/lib/sudoku-helpers.ts:100-106 | box b of the diagonal receives nums in row-major order, and no other cell changes |
| Solver.DiagonalAt | src/lib/sudoku-helpers.ts:101-106 | the cell the loops visit at (r, c) lies on diagonal box b at offset r*3 + c |
| Solver.DiagonalOffsetUnique | src/lib/sudoku-helpers.ts:101-106 | two cells of one diagonal box at the same offset are the same cell |
| Solver.SeedDiagonal | src/lib/sudoku-helpers.ts:97-107 | a fresh 81-cell board whose diagonal boxes hold three permutations of 1..9 and whose other cells are blank |
| Solver.GenerateSolved | src/lib/sudoku-helpers.ts:96-110 | the grid has 81 cells of digits and is consistent; a grid with no blank is solved |
| Solver.CountFromBounds | src/lib/sudoku-helpers.ts:120-139 | the counter never decreases, and never passes a limit it started below |
| Solver.CountSolutionsRange | src/lib/sudoku-helpers.ts:120-139 | the count lies in [0, limit], or is 0 when limit <= 0 |
| Solver.CountFullBoard | src/lib/sudoku-helpers.ts:124-127 | `countSolutions` returns 1 on a board with no blank, for any limit of at least 1 |
| Solver.Backtrack | src/lib/sudoku-helpers.ts:122-137 | the board is restored and the counter equals the search function `CountFrom` |
| Solver.CountSolutions | src/lib/sudoku-helpers.ts:120-140 | the board is restored, the result equals `CountFrom`, and it lies in [0, limit] |
| Generator.PresetsOrdered | src/lib/sudoku-helpers.ts:164-168 | each range is non-empty within 17..80, and harder presets ask for strictly fewer clues |
| Generator.TargetClues | src/lib/sudoku-helpers.ts:169-171 | the target lies in the preset's range, and a small draw selects min + draw |
| Generator.TargetCluesCoversRange | src/lib/sudoku-helpers.ts:170-171 | every value of the range is the target for some draw |
| Generator.ClueCount | src/lib/sudoku-helpers.ts:179 | the clue count lies between 0 and the board length |
| Generator.ClueCountComplete | src/lib/sudoku-helpers.ts:179 | a board with no blank has a clue in every cell |
| Generator.SubBoardConsistent | src/lib/sudoku-helpers.ts:174-178 | blanking cells of a consistent board keeps it consistent |
| Generator.ShuffleCells | src/lib/sudoku-helpers.ts:172 | the shuffled order has 81 entries, each a cell, and visits every cell |
| Generator.TryRemove | src/lib/sudoku-helpers.ts:174-178 | the removal is kept if and only if `countSolutions(copy, 2)` returns 1 on the board with the clue blanked; a kept removal blanks exactly that cell, a refused one leaves the board unchanged |
| Generator.ThinStep | src/lib/sudoku-helpers.ts:173-180 | one pass of the removal loop keeps the puzzle a blanking of the solution on which `countSolutions(puzzle, 2)` returns 1 once changed, and lowers the clue count by one exactly when it removes a clue |
| Generator.TriedStep | src/lib/sudoku-helpers.ts:173-178 | after a pass over a clue, every cell visited so far is blank or was kept because blanking it in a board between the puzzle and the solution did not give a count of 1 |
| Generator.CarveStep | src/lib/sudoku-helpers.ts:173-180 | a pass over a clue, kept exactly when the count is 1, moves the loop state on by one cell and lowers the clue count by the removal |
| Generator.TriedSkip | src/lib/sudoku-helpers.ts:175 | a cell that is already blank is skipped and counts as visited |
| Generator.TriedAll | src/lib/sudoku-helpers.ts:172-181 | once every cell of the shuffled order is visited, every clue left was refused for a reason |
| Generator.Carve | src/lib/sudoku-helpers.ts:173-181 | the removal loop keeps the puzzle a blanking of the solution, and on a full solution it ends with at least the target clues: exactly the target, or only clues whose removal was refused |
| Generator.GeneratePuzzle | src/lib/sudoku-helpers.ts:161-188 | three arrays of 81 entries; fixed exactly where the puzzle has a digit; the puzzle keeps the solution's digits; both boards are consistent; the drawn target lies in the preset's range; for a full solution, the solution is solved, `countSolutions(puzzle, 2)` returns 1, and the puzzle has at least the target clues: exactly the target, or only clues whose removal was refused; all of this together is `GeneratedFor(g, diff, target)` |
| Buckets.Find | src/lib/sudoku-helpers.ts:229 | -1 exactly when no entry has the key, and otherwise the first entry with it |
| Buckets.Push | src/lib/sudoku-helpers.ts:229-230 | a new key is appended at the end; an existing key keeps its place; no key is reordered |
| Buckets.PushGet | src/lib/sudoku-ai.ts:117-118 | pushing appends x to the list of its key and leaves every other list unchanged |
| Buckets.PushKeeps | src/lib/sudoku-ai.ts:117-118 | one entry per key and no empty list are preserved by a push |
| Buckets.GetEntry | src/lib/sudoku-ai.ts:121 | iterating the map yields, for each key, the list `get` returns |
| Buckets.GetFound | src/lib/sudoku-helpers.ts:232 | a key with a non-empty list has an entry holding that list |
| Conflicts.Positions | src/lib/sudoku-helpers.ts:226-231 | the list of a digit holds exactly the group cells carrying that digit |
| Conflicts.BoxGroupIsBox | src/lib/sudoku-helpers.ts:208-222 | the box group listed from `br * 27 + bc * 3` is box br*3+bc |
| Conflicts.BuildGroups | src/lib/sudoku-helpers.ts:202-222 | the 27 groups are the rows, then the columns, then the boxes |
| Conflicts.ScanGroup | src/lib/sudoku-helpers.ts:225-231 | the map lists, for every digit, its cells in group order; blanks are skipped |
| Conflicts.ScanStep | src/lib/sudoku-helpers.ts:226-231 | one more group cell: a blank leaves the map as it was, a digit is appended to its own list only |
| Conflicts.PositionsDistinct | src/lib/sudoku-helpers.ts:226-231 | a digit's list never repeats a cell of a group with distinct cells |
| Conflicts.TwoPositions | src/lib/sudoku-helpers.ts:232-233 | a list longer than one holds two distinct cells with the same digit |
| Conflicts.EntriesUnionIsGroupConflicts | src/lib/sudoku-helpers.ts:224-236 | a group adds exactly its cells whose digit occurs there again |
| Conflicts.ReportGroup | src/lib/sudoku-helpers.ts:232-235 | every cell of every list longer than one, and nothing else, joins `bad` |
| Conflicts.UnionIncludes | src/lib/sudoku-helpers.ts:224-236 | a cell reported by a scanned group stays in the result after all later groups |
| Conflicts.UnionSound | src/lib/sudoku-helpers.ts:224-236 | every reported cell is in conflict with a peer |
| Conflicts.UnionComplete | src/lib/sudoku-helpers.ts:224-236 | every cell in conflict with a peer is reported |
| Conflicts.UnionIsConflictSet | src/lib/sudoku-helpers.ts:224-238 | after the 27 groups, the result is exactly the set of cells in conflict |
| Conflicts.ComputeConflicts | src/lib/sudoku-helpers.ts:199-239 | returns exactly the non-blank cells whose digit a peer also holds |
| Conflicts.NoConflictsIffConsistent | tests/sudoku.spec.ts:95-96 | the conflict set is empty if and only if the board is consistent |
| Conflicts.ConflictsComeInPairs | src/lib/sudoku-helpers.ts:233-234 | a conflicting cell is non-blank and shares its digit with a conflicting peer |
| Conflicts.EmptyBoardNoConflicts | tests/sudoku.spec.ts:51-54 | the empty board has no conflict |
| Conflicts.RowDuplicateConflicts | tests/sudoku.spec.ts:56-62 | two 1s at cells 0 and 1 give exactly the conflict set {0, 1} |
| Score.NonBlank | src/lib/sudoku-helpers.ts:274 | the count of filled cells lies between 0 and the length |
| Score.ConstraintScore | src/lib/sudoku-helpers.ts:268-285 | the score is the sum of the filled cells of the row, of the column and of the box |
| Score.CountRow | src/lib/sudoku-helpers.ts:274 | the row loop adds the number of filled cells of row r to the running score |
| Score.CountCol | src/lib/sudoku-helpers.ts:275 | the column loop adds the number of filled cells of column c to the running score |
| Score.CountBox | src/lib/sudoku-helpers.ts:277-283 | the nested box loops add the number of filled cells of the box of i to the running score |
| Score.CountBoxRow | src/lib/sudoku-helpers.ts:281-283 | one pass of the inner box loop adds the number of filled cells in row rr of the box |
| Score.BoxStep | src/lib/sudoku-helpers.ts:281-283 | the box cell visited at (rr, cc) is entry rr*3 + cc of the box unit, so each step adds one exactly when it is filled |
| Score.RowStep | src/lib/sudoku-helpers.ts:274 | each step of the row loop adds one exactly when the visited cell of row r is filled |
| Score.ColStep | src/lib/sudoku-helpers.ts:275 | each step of the column loop adds one exactly when the visited cell of column c is filled |
| Score.ScoreBounds | src/lib/sudoku-helpers.ts:260-267 | the score lies in 0..27, and is at most 24 for a blank cell |
| Score.CompleteBoardScore | src/lib/sudoku-helpers.ts:268-285 | on a board with no blank every cell scores 27 |
| Score.FillingRowRaisesScore | src/lib/sudoku-helpers.ts:260-262 | filling a blank of the cell's row strictly raises the score |
| Score.RowGainsOne | src/lib/sudoku-helpers.ts:274 | filling a blank of row r adds exactly one to the row count |
| Score.MonotoneNonBlank | src/lib/sudoku-helpers.ts:274-283 | filling a blank never lowers the count of any unit |
| Candidates.UsedByPeers | src/lib/sudoku-ai.ts:67-68 | the digits collected from `peers[i]` are exactly those some peer of i holds |
| Candidates.ComputeCandidates | src/lib/sudoku-ai.ts:60-74 | for each cell: the empty set if it is filled, otherwise the digits 1..9 held by no peer |
| Candidates.FreeCandidates | src/lib/sudoku-ai.ts:66-70 | for a blank cell, the digits 1..9 not collected from its peers are exactly its candidates |
| Candidates.FreeDigits | src/lib/sudoku-ai.ts:69 | the digits 1..9 missing from the peers' digits are the candidates of a blank cell |
| Candidates.UsedByStep | src/lib/sudoku-ai.ts:67 | looking at one more peer adds its digit when it holds one |
| Candidates.FreeStep | src/lib/sudoku-ai.ts:69 | looking at one more digit d adds it exactly when no peer uses it |
| Candidates.CandidatesAreDigits | src/lib/sudoku-ai.ts:63-70 | candidates are digits 1..9, and only blank cells have any |
| Candidates.CandidateIffSafe | src/lib/sudoku-ai.ts:67-70 | for a blank cell, d is a candidate if and only if `isSafe` accepts d there |
| Candidates.SolutionIsCandidate | src/lib/sudoku-ai.ts:60-74 | when the filled cells agree with a solved grid, a blank keeps its solution digit as a candidate |
| Candidates.PeerDigitNotCandidate | src/lib/sudoku-ai.ts:68-70 | a digit a peer holds is never a candidate |
| Candidates.CandidatesShrink | src/lib/sudoku-ai.ts:60-74 | filling a cell never adds a candidate anywhere, and removes its digit from its peers |
| AI.FindWrong | src/lib/sudoku-ai.ts:91-97 | None if and only if no non-clue cell holds a wrong digit; otherwise the lowest such cell |
| AI.SmallestCandidate | src/lib/sudoku-ai.ts:105 | the first element of a candidate set, which is its least element |
| AI.FindNakedSingle | src/lib/sudoku-ai.ts:101-108 | None if and only if no open cell has exactly one candidate; otherwise the lowest such cell and its only candidate |
| AI.Holders | src/lib/sudoku-ai.ts:114-120 | the cells listed for v are exactly the open cells of the unit with v as a candidate |
| AI.UnitHolders | src/lib/sudoku-ai.ts:112-163 | the same for unit t of the row, column and box tables |
| AI.AddCandidates | src/lib/sudoku-ai.ts:116-119 | i joins the list of each of its candidates, and no other list changes |
| AI.FirstSingle | src/lib/sudoku-ai.ts:121-126 | the first map entry, in insertion order, whose list has one cell: every earlier entry has a list of another length; None if and only if no digit has a one-cell list |
| AI.ScanUnit | src/lib/sudoku-ai.ts:112-127 | a found (cell, digit) is a hidden single of unit t: the digit's only open holder there; None if and only if no digit has a single holder in t |
| AI.ListedStep | src/lib/sudoku-ai.ts:114-120 | after one more cell of the unit, the map still lists, for every digit, exactly its open holders among the cells seen, in unit order: a clue or filled cell changes nothing |
| AI.ScanUnits | src/lib/sudoku-ai.ts:110-163 | a found move is a hidden single of the first of the nine units that has one (the units before it have none); None means there is no hidden single in them |
| AI.FirstHiddenAt | src/lib/sudoku-ai.ts:112-127 | a hidden single of unit t with none in the units before it is the first hidden single of the range |
| AI.NoHiddenSingleStep | src/lib/sudoku-ai.ts:112-127 | a unit scanned without a hidden single extends the range of units that have none |
| AI.HiddenSingleCell | src/lib/sudoku-ai.ts:115-124 | a hidden single's cell is open and in the unit, and its digit is a candidate there |
| AI.MostConstrainedCell | src/lib/sudoku-ai.ts:165-174 | -1 if and only if no open cell exists; otherwise an open cell of maximal score, the lowest one among ties |
| AI.Priority | src/lib/sudoku-ai.ts:168-169 | the rank of a cell is -1 exactly when it is not open, and at least -1 otherwise |
| AI.FirstMaxStep | src/lib/sudoku-ai.ts:170-173 | a new rank takes over the best position exactly when it beats the best score so far (strict, so ties keep the first) |
| AI.RankedStep | src/lib/sudoku-ai.ts:168-170 | appending the next cell's rank keeps the rank list faithful to `Priority` |
| AI.FirstMaxIsBest | src/lib/sudoku-ai.ts:165-174 | the first maximum of the ranks is -1 exactly when no cell is open, and otherwise the first open cell of highest score |
| AI.NextAIMove | src/lib/sudoku-ai.ts:76-180 | null if and only if every non-clue cell holds its solution digit; otherwise a move justified by its stage, in the source's order: the lowest wrong entry, corrected; else, on an open cell, the lowest naked single; else a hidden single of the first row, then column, then box unit that has one; else the solution digit at the lowest open cell of highest score. For a solved grid that the clues agree with, the move places the solution digit on a cell that lacks it |
| AI.Deduce | src/lib/sudoku-ai.ts:99-179 | with no wrong entry: null if and only if no cell is open; otherwise a move of stages 1-5 justified by its stage, placing the solution digit when the solution is a solved grid the clues agree with |
| AI.HiddenMove | src/lib/sudoku-ai.ts:110-163 | a hidden-single move targets an open cell and, for a solved grid, places the solution digit |
| AI.NoWrongKeepsDigits | src/lib/sudoku-ai.ts:91-97 | after stage 0 finds nothing, every filled cell holds its solution digit |
| AI.NakedSingleIsSolution | src/lib/sudoku-ai.ts:101-108 | a naked single's only candidate is the solution digit |
| AI.CandidateNotOnPeer | src/lib/sudoku-ai.ts:67-70 | no peer of a cell holds one of its candidates |
| AI.HiddenSingleIsSolution | src/lib/sudoku-ai.ts:110-163 | a hidden single's digit is the solution digit of its cell |
| AI.Mismatches | src/lib/sudoku-ai.ts:76-80 | the mismatch count lies between 0 and the length, and is 0 if and only if the board equals the solution |
| AI.MoveRemovesMismatch | src/lib/sudoku-ai.ts:76-80 | writing the solution digit into a differing cell removes exactly one mismatch |
| AI.NoMoveIffSolution | src/lib/sudoku-ai.ts:76-80 | with agreeing clues and a solved grid, the null result happens if and only if the board is the solution |
| AI.MoveProgress | src/lib/sudoku-ai.ts:76-80 | a move keeps the clues agreeing and removes one mismatch, so at most 81 moves reach the solution |
| Store.SudokuStore.constructor | src/hooks/use-sudoku-store.ts:90-98 | the initial state: an empty board, no clues, no errors, no focus, "easy", no game |
| Store.SudokuStore.NewGame | src/hooks/use-sudoku-store.ts:100-114 | difficulty d or the stored one; the stored cells, clue mask and solution are a triple `GeneratedFor` that difficulty and the drawn target: the target lies in the preset's range, clues sit exactly at the puzzle's digits and agree with the solution, and for a full solution the grid is solved, `countSolutions(cells, 2)` returns 1 and the board keeps exactly the target of clues or only clues whose removal was refused; no conflict; timer started at now; completion, focus and errors reset |
| Store.SudokuStore.SetActive | src/hooks/use-sudoku-store.ts:116 | only `active` changes |
| Store.SudokuStore.InputDigit | src/hooks/use-sudoku-store.ts:118-139 | for v in 0..9 (0 for the "" the grid sends): a clue is ignored; otherwise only cell i changes, errors are the new conflict set, and the completion time is set exactly when the board is full, conflict-free, not yet completed and started (otherwise null, so a blank input always clears it); a newly set completion means a solved grid |
| Store.SudokuStore.ClearCell | src/hooks/use-sudoku-store.ts:141-147 | cell i becomes blank with no clue guard, errors are recomputed, and nothing else changes |
| Store.SudokuStore.SetDifficulty | src/hooks/use-sudoku-store.ts:149 | only `difficulty` changes |
| Store.NoBlank | src/hooks/use-sudoku-store.ts:130 | `every(x => x !== "")` is true if and only if no cell is blank |
| Store.CompletionIsSolved | src/hooks/use-sudoku-store.ts:129-136 | a board of digits is full and conflict-free if and only if it is a solved grid |
| View.Counts | src/hooks/use-sudoku.ts:7-11 | ten counters: counts[0] is 0 and counts[d] is the number of cells holding d |
| View.DigitsAddUp | src/hooks/use-sudoku.ts:8-10 | on a board of digits, the counts of 1..9 add up to the filled cells |
| View.CountsSum | src/hooks/use-sudoku.ts:7-11 | counts[1..9] add up to the number of filled cells, so at most the board size |
| View.MoveIndex | src/hooks/use-sudoku.ts:18-28 | the result is a cell; up/down keep the column and step the row, clamped to 0..8; left/right keep the row and step the column, clamped |
| View.MoveAtEdge | src/hooks/use-sudoku.ts:23-26 | at the edge in the direction of travel the index is unchanged |
| View.MoveBack | src/hooks/use-sudoku.ts:18-28 | away from that edge, the opposite step undoes a step |
| View.FormatTime | src/hooks/use-sudoku.ts:12-17 | for ms >= 0 the text has at least five characters with ':' third from the end |
| View.FormatTimeReadsBack | src/hooks/use-sudoku.ts:12-17 | for ms >= 0 the text is mm ":" ss, with mm at least two digits reading as the whole minutes and ss exactly two digits reading as the seconds past the minute |
| View.ClockText | src/hooks/use-sudoku.ts:12-17 | minutes and seconds below 100 joined by a colon split back into a minutes field and a two-digit seconds field |
| View.ClockField | src/hooks/use-sudoku.ts:14-15 | a padded field has at least two digits, exactly two below 100, and reads back as its number |

## Left out

- Randomness: `Math.random()` becomes the stream `rng` with a cursor. The draw `rng(k) % (i + 1)` stands for `Math.floor(Math.random() * (i + 1))`. Distribution and fairness are not modelled.
- Solver.GenerateSolved: does not prove that `solve` always completes the seeded board. That needs a completion of every diagonal seed; the source also ignores `solve`'s result. The puzzle and store guarantees that depend on a full grid are stated under `Complete(solution) ==>`.
- Solver.CountSolutions: states the board restoration, the equality with the search function `CountFrom`, and the range [0, limit]. It does not state that the count is min(limit, number of completions).
- Generator.GeneratePuzzle: when the loop runs through the whole order, a clue that is left is only known to have been refused on the board of its own pass, which has at least the final puzzle's clues. That removing it from the final puzzle would be refused too follows only once `countSolutions` is tied to the number of completions, which Solver.CountSolutions does not state.
- Generator.GeneratePuzzle: cells are numbers. The final `String(v)` / `""` mapping is the bijection of module `Text`. Because `solution` is built with `String(v)`, a grid left incomplete would show "0" in the source.
- Score.ScoreBounds: the source comment promises 0..26, but a filled cell of a full board scores 27. The lemma states 0..27, and at most 24 for a blank cell, which is the only kind the AI scores.
- AI.ScanUnit: iterating a candidate set visits its digits in insertion order, which is increasing here because the set is built for d = 1..9. The contract states which (cell, digit) pairs are hidden singles but not which one is returned when a unit has several.
- AI.NextAIMove: cells are numbers and the returned digit is a number; the source returns its text. Module `Text` relates the two forms.
- Store: `Date.now()` is the parameter `now`. Persistence of the difficulty through localStorage, the `toSet` coercion of stored JSON, and the zustand `set`/`get` plumbing are not modelled.
- The React components, the AI auto-solve loop in `sudoku-solve-with-ai.tsx`, keyboard focus handling, and the `cn` and `uuid` helpers are not part of this model. `formatTime` is modelled once, from the hook.
- The running time of the exponential backtracking is not modelled.

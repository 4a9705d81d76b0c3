# Sudoku engines, modelled in Dafny

This project models the two Sudoku engines of the repository. Both work on a grid of 81 cells numbered 0..80 in row-major order.

- **`solver.py`, the candidate-string engine.** The grid is a list of 81 strings, one per cell, listing the characters still possible there.
  - `legal_candidate` tests whether a value occurs in a cell's row, column or 3x3 box.
  - `build_candidates` sets up the candidate strings.
  - `eliminate` deletes illegal candidates in rounds until a round deletes nothing.
  - `gen_guesses` picks the cell to branch on.
  - `find_solutions` is a recursive backtracking search that collects, without duplicates, the solutions its search reaches.
  - `verify` checks a finished grid.
- **`newsolver.py`, the object-based propagator.** A `Puzzle` owns 81 `Field`s. Each field has a value (a digit or the blank `' '`) and a set of candidates.
  - `row`, `column`, `cell` and `zoneValues` query a cell's zones.
  - `zoneCheck` is the hidden-single test.
  - `zoneClear` strikes a digit from every field of a cell's zones.
  - `Field.solve` assigns naked singles and `Field.elim2` assigns hidden singles.
  - `solvePuzzle` repeats rounds of both until a round assigns nothing.

The Dafny modules:

- **`Zones`** (`zones.dfy`) holds the index arithmetic both engines share: the row slice `i - i%9 .. +9`, the column slice `i%9::9` and the box top-left formula. It proves which cells each slice lists: exactly the nine cells of the zone, each once, at a known slot.
- **`Solver`** (`solver.dfy`) models `solver.py`.
  - `Eliminate` and `Verify` are methods that update an `array<string>` in place, as `solver.py` updates its list.
  - `BuildCandidates`, `GenGuesses`, `FindSolutions` and `Solve` are methods over `seq<string>` values. The `copy.deepcopy` of `solver.py` is a value copy.
  - `FindSolutions` terminates on the total candidate length.
- **`NewSolver`** (`newsolver.dfy`) models `newsolver.py`.
  - A `Field` is a record. The class `Puzzle` holds them in an `array<Field>`.
  - The per-field operations `Field.solve` and `Field.elim2` reach back to their puzzle through `self.puzzle`. They become the `Puzzle` methods `SolveField(i)` and `Elim2(i)`, which take the field's index.
  - The failure that `Field.solve` raises when no candidate is left (`raise 'Bug!'`) is the outcome `Contradiction`.
  - Each loop of `solvePuzzle` is a method: `SolvePass` runs `Field.solve` over every field, and `Elim2Pass` runs `Field.elim2` over every field.
  - Beyond what each operation states, the model proves that the propagation is sound. A field is assigned only the digit that every completed grid keeping the givens puts there. And `solvePuzzle` never fails while such a grid exists.

## Model

| member | source | states |
|---|---|---|
| Zones.TopLeftIsBoxCorner | solver.py:21 | the box top-left formula gives cell 27*(r/3)+3*(c/3) for row r and column c, and all three 3-wide box slices from it stay inside the grid (the same formula is at newsolver.py:36) |
| Zones.MemberInZone | solver.py:15-24 | the k-th entry of each of the zone listings of solver.py and newsolver.py is a cell of that zone, and it is that zone's cell number k |
| Zones.MemberOnto | solver.py:15-24 | every cell of the zone is the entry of the listing at its own position |
| Zones.ColumnSlice | solver.py:18 | the slice `p[pos%9::9]` has nine entries, the column of pos from top to bottom |
| Zones.BoxSliceEntries | solver.py:22-24 | the three 3-wide box slices joined have nine entries, entry k being the cell 9*(k/3) + k%3 past the top-left corner |
| Zones.SliceBounds | solver.py:15-24 | the row slice and the three box slices lie inside the 81 cells |
| Zones.ZoneSliceLists | solver.py:15-24 | the row slice, the column slice and the three box slices joined list exactly the nine cells of pos's row, column and box |
| Zones.ListedValues | solver.py:15-24 | x is in a zone listing exactly when some cell of that zone holds x |
| Solver.LegalCandidate | solver.py:13-26 | legal_candidate as the five slice membership tests in the order of solver.py; since the slices include pos itself, a legal x is never pos's own entry (its full meaning is Solver.LegalCandidateMeaning) |
| Solver.Remove | solver.py:50 | `replace(digit, '')` leaves exactly the other characters, and it shortens the entry when the digit occurred |
| Solver.KeptFromRemove | solver.py:50 | deleting a digit from an entry keeps it a deletion of the original entry: no character is added and the order is kept |
| Solver.TotalLengthUpdate | solver.py:50 | replacing one entry changes the total candidate length by the change in that entry's length |
| Solver.LegalCandidateMeaning | solver.py:13-26 | legal_candidate(p, pos, x) is true exactly when no cell of pos's row, column or box, pos included, holds x |
| Solver.LegalDigitsAt | solver.py:32-35 | the string built for a blank cell lists, in strictly ascending order, exactly the digits legal_candidate accepts there |
| Solver.BuildCandidates | solver.py:28-40 | 81 entries; a given keeps its entry; a blank gets, in ascending order, exactly the digits legal_candidate accepts at its position |
| Solver.EliminateAt | solver.py:47-53 | the pass over one cell changes only that cell and only by deleting characters; every deleted character is one legal_candidate rejects there on the grid as it stood; a cell whose candidates are all legal is left alone; at least one candidate stays when they are distinct; nothing is deleted only when every candidate is legal |
| Solver.EliminateRound | solver.py:45-53 | one round of eliminate only deletes characters, leaves entries of length at most 1 alone and keeps a candidate in distinct entries; every deleted candidate is rejected by legal_candidate at its cell in the resulting grid; every finished grid narrowing the input still narrows the result; a round with deletions lowers the total candidate length, a round on a grid at its fixpoint deletes nothing, and a round without deletions changes nothing and finds every candidate of every open entry legal |
| Solver.RemovalSound | solver.py:49-50 | deleting from an entry only digits legal_candidate rejects keeps every finished grid that narrowed the grid |
| Solver.RejectedStays | solver.py:49 | a digit legal_candidate rejects stays rejected while the fixed entries are unchanged, since the cell holding it has a single candidate |
| Solver.Eliminate | solver.py:42-55 | every entry is a deletion of its old value, entries of length at most 1 are untouched, an entry of two or more distinct candidates keeps at least one; every deleted candidate is rejected by legal_candidate at its cell in the result; every finished grid narrowing the input still narrows the result; a grid already at its fixpoint comes back unchanged, and on exit every entry of several candidates holds only legal ones |
| Solver.Verify | solver.py:119-129 | true exactly when every entry is one non-blank character and no two distinct cells sharing a zone hold equal entries; the grid is the same on return |
| Solver.IndexOf | solver.py:78 | `list.index` gives the first position holding the entry |
| Solver.GenGuesses | solver.py:68-89 | there is no branch cell exactly when every entry has length 1 or at least 9; otherwise it branches on the first cell of least length below 9, among the cells the scan reaches before a length-2 cell stops it; the k-th guess is the input with that cell fixed to its k-th candidate, so an empty branch cell also gives no guesses |
| Solver.NarrowsTrans | solver.py:95-105 | grids that only narrow the candidates of the grid they came from narrow the candidates at every level of the search |
| Solver.Settle | solver.py:98-99 | eliminate on a copy of the guess gives a grid that only narrows the guess, has no entry longer than the guess's, is no larger in total and keeps every finished grid narrowing the guess; verify on it is true exactly when it is a finished grid |
| Solver.AppendNew | solver.py:103-105 | the merge keeps ret as a prefix, ends holding exactly the grids of ret and sols, and holds none twice when ret held none twice |
| Solver.FindSolutions | solver.py:91-106 | every returned grid is a finished grid that only narrows the candidates it was searched from, and no grid is returned twice; with no branch cell nothing is returned; when every entry has fewer than nine characters and the `guess == puzzle` test skips no guess, every finished grid other than the candidates that narrows them is returned |
| Solver.GuessFor | solver.py:72-87 | a finished grid other than the candidates that narrows candidates whose entries all have fewer than nine characters leaves a branch cell, and it narrows the guess that fixes that cell to the grid's own digit |
| Solver.SolvedNarrowEq | solver.py:98-100 | a finished grid that narrows another finished grid is that grid, so the grid found on a solved branch is the only one below it |
| Solver.Solve | solver.py:108-117 | every grid solve reports is a finished grid that keeps every given and puts a legal digit in every blank, and no grid is reported twice; when every cell is one character and every blank cell rejects some digit, every finished grid that completes the puzzle is reported |
| Solver.FewerDigits | solver.py:30-35 | build_candidates lists fewer than nine digits for a blank cell where legal_candidate rejects some digit |
| Solver.BuiltNotAGuess | solver.py:95-97 | on a puzzle of one-character cells, the first `guess == puzzle` test of find_solutions skips no guess of the eliminated candidates |
| Solver.CompletesNarrows | solver.py:28-40 | every finished grid that completes the puzzle narrows the candidates build_candidates makes from it (the converse of NarrowedCandidatesComplete) |
| Solver.NarrowedCandidatesComplete | solver.py:108-115 | a finished grid that only narrows the candidates build_candidates made keeps every given and puts a legal digit in every blank |
| NewSolver.NewField | newsolver.py:86-92 | a field keeps its index and value; a blank one starts with all nine digits as candidates, a given one with none |
| NewSolver.Initial | newsolver.py:16-19 | the fields built from the puzzle text are well formed: field k sits at position k and candidates are digits, none for an assigned field |
| NewSolver.Puzzle.constructor | newsolver.py:16-19 | the puzzle holds field k = Field(k, buf[k]) for each of the 81 cells |
| NewSolver.Puzzle.Row | newsolver.py:26-28 | nine fields, exactly the fields of index's row, in slot order |
| NewSolver.Puzzle.Column | newsolver.py:30-32 | nine fields, exactly the fields of index's column, top to bottom |
| NewSolver.Puzzle.Cell | newsolver.py:34-40 | nine fields, exactly the fields of index's 3x3 box, row by row |
| NewSolver.ZoneValuesAgree | newsolver.py:42-45 | the values gathered from the box, row and column listings are exactly the assigned values of the other fields sharing a zone with pos |
| NewSolver.Puzzle.ZoneValues | newsolver.py:42-45 | zoneValues(pos) is the set of assigned values of the fields other than pos in pos's row, column and box |
| NewSolver.OtherCandidates | newsolver.py:51-53 | the loop's union holds ch exactly when some blank field of the listing other than pos has ch as a candidate |
| NewSolver.ClaimedMeaning | newsolver.py:47-68 | some other blank field of a zone listing claims ch exactly when ch is not free of claims in that zone |
| NewSolver.Puzzle.ZoneCheck | newsolver.py:47-68 | true exactly when, in pos's box, row or column, no blank field other than pos has ch as a candidate |
| NewSolver.Puzzle.DiscardAll | newsolver.py:71-72 | ch is discarded from the candidates of every field of one zone and nowhere else |
| NewSolver.ClearedInThree | newsolver.py:70-76 | discarding in the box, then the row, then the column discards in every field sharing any zone with pos |
| NewSolver.ClearedMeaning | newsolver.py:70-76 | after zoneClear no field of pos's zones, pos included, has ch as a candidate; every value and every field outside those zones is unchanged |
| NewSolver.Puzzle.ZoneClear | newsolver.py:70-76 | the fields become the cleared fields: ch discarded in every field sharing a zone with pos, nothing else changed |
| NewSolver.ClearedShrinks | newsolver.py:70-76 | zoneClear only discards candidates |
| NewSolver.AssignShrinks | newsolver.py:108-110 | assigning a field, emptying its candidates and clearing the digit from its zones only shrinks candidate sets |
| NewSolver.SolveStepShrinks | newsolver.py:115-130 | Field.solve only shrinks candidate sets |
| NewSolver.SolveStepKeeps | newsolver.py:115-130 | Field.solve keeps the fields well formed, only ever turns a blank into a digit, and removes exactly as many blanks as it reports solved |
| NewSolver.SolveStepOutcome | newsolver.py:115-130 | Field.solve assigns exactly when the field is blank and one candidate survives the zone values, the assigned digit is that survivor, and it fails exactly when none survives |
| NewSolver.SolveStepNarrows | newsolver.py:115-130 | a Field.solve that assigns nothing changes no value and no other field, and leaves the field with two or more candidates, none a zone value |
| NewSolver.Puzzle.SolveField | newsolver.py:115-130 | Field.solve on field i: the outcome and the new fields are those of SolveStep |
| NewSolver.Puzzle.Elim2 | newsolver.py:100-113 | on an assigned field nothing changes; otherwise either no candidate is a hidden single and nothing changes, or it assigned a candidate that is a hidden single, emptied its candidates and cleared it from its zones; at most one field is assigned |
| NewSolver.SolveStepAtRest | newsolver.py:116-130 | Field.solve on a field it has already narrowed (assigned, or two or more candidates and none a zone value) assigns nothing and changes nothing |
| NewSolver.SolveRunStops | newsolver.py:127-129 | once Field.solve has failed on some field, the run over the later fields leaves the outcome as it was |
| NewSolver.SolveRunNext | newsolver.py:136-137 | a run over fields 0..n-1 that has not failed, followed by Field.solve on field n, is the run over fields 0..n; a failure there is the outcome of the whole pass |
| NewSolver.Puzzle.SolvePass | newsolver.py:136-137 | the count, the failure flag and the new fields are exactly those of SolveRun: Field.solve on fields 0..80 in index order, stopping at the first failure; every blank that Field.solve fills takes a digit and candidate sets only shrink; with no failure and nothing assigned, every blank field has two or more candidates, none a zone value; it fails only when no completed grid is allowed, and it keeps every allowed grid; on fields that Field.solve has already narrowed it changes nothing and counts nothing |
| NewSolver.Puzzle.Elim2Pass | newsolver.py:140-141 | the fields pass through 82 states, each reached from the one before by one Field.elim2 step (as Elim2 states it) on fields 0..80 in index order; every assigned field counts once and candidate sets only shrink; with nothing assigned, no field has a hidden single; when no field has a hidden single to begin with, it changes nothing and counts nothing; consistent fields stay consistent and every allowed completed grid stays allowed |
| NewSolver.SolvePuzzle | newsolver.py:132-147 | givens are kept, blanks only become digits and candidate sets only shrink from the fresh puzzle's; on normal exit a whole round assigns nothing; for any completed grid that keeps the givens the run does not fail and the final fields still allow that grid |
| NewSolver.InitialAllows | newsolver.py:16-19 | a fresh puzzle allows every completed grid that keeps its givens |
| NewSolver.SolutionDigitFree | newsolver.py:121-122 | the digit an allowed completed grid puts at a cell is never among that cell's zone values |
| NewSolver.SolveStepSound | newsolver.py:115-130 | on fields that allow a completed grid, Field.solve does not fail, it keeps the grid allowed, and a field it assigns gets the grid's digit |
| NewSolver.AssignAllows | newsolver.py:123-125 | assigning a blank field the grid's digit and clearing that digit from its zones keeps the grid allowed |
| NewSolver.AssignConsistentAt | newsolver.py:108-110 | a field that was consistent stays consistent after another field's assignment and its zoneClear: as a blank field it keeps no candidate that is a value of its zones |
| NewSolver.SolveStepConsistent | newsolver.py:120-126 | when the fields before i were consistent and Field.solve on i succeeds, fields 0..i are consistent afterwards: none keeps a candidate that is a value of its zones |
| NewSolver.ZoneDigitsCount | newsolver.py:47-49 | the first n cells of a zone of a completed grid hold n different digits; a fact about completed grids that newsolver.py does not state, which supports HiddenSingleSound's reading of zoneCheck and does not model these lines |
| NewSolver.ZoneHoldsEveryDigit | newsolver.py:47-49 | every row, column and box of a completed grid holds every digit; a fact about completed grids that newsolver.py does not state, which supports HiddenSingleSound's reading of zoneCheck and does not model these lines |
| NewSolver.OthersAvoid | newsolver.py:47-68 | when zoneCheck's test holds for a zone, no other cell of that zone holds ch in an allowed completed grid |
| NewSolver.HiddenSingleSound | newsolver.py:106-108 | on consistent fields, the hidden single Field.elim2 assigns is the digit every allowed completed grid puts there |
| NewSolver.HiddenAssignKeeps | newsolver.py:106-112 | assigning a hidden single keeps the fields consistent and keeps every allowed completed grid allowed |
| NewSolver.SolveStepKeepsGrids | newsolver.py:115-130 | Field.solve does not fail and keeps every allowed completed grid allowed |
| NewSolver.P1ZoneValuesAt0 | newsolver.py:207 | on the test puzzle P1, zoneValues(0) is {8, 6, 9, 2} |
| NewSolver.P1ZoneValuesAt27 | newsolver.py:213 | on the test puzzle P1, zoneValues(27) is {3, 5} |
| NewSolver.P1ZoneCheckAt2 | newsolver.py:221-223 | on the test puzzle P1, zoneCheck(2, c) is false for 1, 2 and 5 |

## Left out

- File and command-line plumbing is not modelled: `readPuzzle`, `runTop95`, `main` and the `unittest` runner, in both files.
- `runTop95` in `solver.py` (line 150) passes `list(line.replace('.',' '))` to `solve`. That list keeps the line's trailing newline as an 82nd element, while Solver.Solve and Solver.BuildCandidates take exactly 81 cells. The newline only enters the column slice of column 0 in `legal_candidate`, where no digit matches it. It also makes the first `guess == puzzle` test of `find_solutions` fail, which an 81-cell puzzle never passes either: a guess holds no `' '`. So the 82nd element changes no result.
- Output is not modelled: `print_candidates`, `printme`, `pretty` and every `print` statement.
- Solver.Solve: returns the grids that `solve` prints instead of printing them, including the single grid when elimination alone solves the puzzle.
- Solver.Solve: states that every completion of the puzzle is reported only when every cell is one character and every blank cell rejects some digit. Without that, a blank cell can get all nine candidates, and `gen_guesses` never branches on it (see Solver.GenGuesses below). The all-blank grid is such a case: `solve` reports no grid for it.
- `pdb.set_trace()` and `raise 'Bug!'` in `Field.solve` become the outcome `Contradiction`, which stops `SolvePuzzle`.
- `newsolver.verify` is not modelled. It calls a `legal_candidate` that `newsolver.py` does not define, and it does not blank the cell it checks.
- `Field.solved` is not modelled. Nothing calls it.
- `Puzzle.__iter__` appears only as the index order of the two passes.
- NewSolver.Puzzle.Elim2: Python's set iteration order in `elim2` is unspecified. The model tries the candidates in an arbitrary order (`:|`). It also states only that the assigned digit is some hidden single, not which one a given interpreter would pick.
- The reference `Field.puzzle` from a field back to its puzzle is replaced by `Puzzle` methods that take the field's index. Aliasing between a field and its puzzle is therefore not modelled.
- The unused variable `x1` in `find_solutions` and the unused copy `foo` in `Field.solve` are not modelled.
- Of the `testZoneValues` instances, only cells 0 and 27 are modelled. Cells 1, 2, 3, 4, 8, 40, 45, 79 and 80 are not.
- The commented-out `zoneCheck` tests are not modelled.
- Solver.Eliminate: the lower bound of one remaining candidate is stated only for entries whose characters are distinct. With a repeated character, `replace` deletes every copy, so the entry can become empty. Entries that `build_candidates` produces are always distinct.
- Solver.GenGuesses: follows `gen_guesses` as written. `pos_len` starts at 9 and the comparison is strict, so a cell with nine candidates is never chosen. A grid whose open cells all have nine candidates therefore gets no guesses.
- Solver.FindSolutions: states that every finished grid narrowing the candidates is found only when every entry has fewer than nine characters and the `guess == puzzle` test skips no guess. An open entry with nine candidates can stop the search, by the `gen_guesses` behaviour above.
- Both engines' zone listings are modelled with the slice arithmetic of `solver.py` and `newsolver.py`. Python list slicing beyond the 81 cells never occurs and is not modelled.

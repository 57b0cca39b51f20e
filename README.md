# Sudoku constraint propagation, modelled in Dafny

This models the solver of the repository. The solver reads a 9×9 puzzle and fills
unknown cells one at a time until nothing more can be deduced. The repository holds
two generations of it:

- **Current**: `sudoku.h` with `main.c`.
- **Legacy**: `sudoku/sudoku.h` with `sudoku/main.c`.

One `Engine` class models both. Its constant `variant` selects the generation.

The state is the one the C globals hold:

- `puzzle`: a 9×9 `array2<int>`. A cell holds 0 when unknown, else its digit.
- `possibilities`: a 9×9×9 `array3<int>`. Slot `i` of a cell holds `i + 1` while digit `i + 1`
  is still a candidate, and 0 once it has been eliminated.
- `desperate`: decides whether the box tests take part.
- `error_factor`: the number of desperate retries.
- `last_found_square`: the cell filled last.

Each method on the engine is proved against a pure specification written as functions:

- `Grid`: the board, rows, columns and boxes, and repeat-freedom.
- `Candidates`: the slot table, and what it means for it to shrink.
- `Deduction`: the two deduction passes and the guess.
  - The naked-single scan of `iterate_diagram`, with the eliminations of `is_valid_move`.
  - The hidden-single search of the uniquity tests.
  - The two-candidate guess of `selective_brute_force`.

The methods write the arrays in place, and the class's ghost fields `grid` and `cand` mirror
them. On top of that specification, lemmas prove the following:

- every step fills exactly one unknown cell, or leaves the grid as it was;
- filled cells never change;
- a slot that has become 0 never comes back;
- every slot is always 0 or `i + 1`;
- a filled cell's only non-zero slot is its own value;
- after a pass that finds nothing, every candidate kept by an unknown cell passes the row and column tests, and the box test too when the Current engine ran desperate;
- the naked single a scan commits passed those same tests, so committing it keeps every row and column repeat-free;
- a hidden single is reported exactly when one unknown cell is the only one in its region listing a digit;
- the guess picks the first unknown cell with two candidates and commits one of them.

Module `Solver` holds the drivers: the symbol table of the loader, and the goto-driven loops of `main.c`
(Current) and `sudoku/main.c` (Legacy). Both loops are proved to end. Each time they jump back to
`update_answer_log`, a step has just filled an unknown cell. At a desperate retry the flag goes
from 0 to 1, or, in Legacy, a slot has been lost. A finished run leaves:

- a grid that extends the loaded one;
- a slot table that only shrank from the initial one;
- for Current, an error factor between its start and its start plus the number of unknown cells;
- a state in which no deduction of that generation applies any more.

## Model

| member | source | states |
|---|---|---|
| `Engine.CountsMatch` | sudoku.h:327-341 | A digit tally over a list of cells, kept for each digit, is at most 1 everywhere exactly when no non-zero digit repeats among those cells. |
| `Engine.Engine.constructor` | sudoku.h:26-48 | The zero-initialised globals: every cell unknown, `desperate` and `error_factor` 0, `last_found_square` at (-1, -1). |
| `Engine.Engine.CountsVerdict` | sudoku.h:337-340 | Returns 1 exactly when no count exceeds 1, else 0. |
| `Engine.Engine.HorizontalTest` | sudoku.h:327-341 | Returns 1 exactly when row y has no repeated digit, else 0; unknown cells are ignored. |
| `Engine.Engine.VerticalTest` | sudoku.h:342-356 | Returns 1 exactly when column x has no repeated digit, else 0. |
| `Engine.Engine.SubGridTest` | sudoku.h:357-378 | Returns 1 exactly when the box containing (x, y), aligned down to a multiple of 3, has no repeated digit. |
| `Engine.Engine.IsValidSudoku` | sudoku.h:79-99 | 0 exactly when some row or column repeats a digit; -1 exactly when rows and columns are fine but some box repeats; 1 exactly when every row, column and box is repeat-free (the same shape holds at sudoku/sudoku.h:71-91). |
| `Engine.Engine.RowsTest` | sudoku.h:83-85 | True exactly when every row passes `horizontal_test`. |
| `Engine.Engine.ColumnsTest` | sudoku.h:86-88 | True exactly when every column passes `vertical_test`. |
| `Engine.Engine.FilledBoxesTest` | sudoku.h:90-96 | True exactly when the box of every filled cell is repeat-free (unknown cells are skipped). |
| `Engine.Engine.FilledBoxesInRow` | sudoku.h:91-96 | True exactly when, for every filled cell in row y, `sub_grid_test` passes. |
| `Grid.FilledBoxesCoverAll` | sudoku.h:89-97 | Testing only the boxes of filled cells accepts exactly the grids whose nine boxes are all repeat-free. |
| `Engine.Engine.UnsolvedSudoku` | sudoku.h:101-114 | Returns 1 exactly when some cell is 0, else 0. |
| `Engine.Engine.CountUnknownSquares` | sudoku.h:116-126 | Returns the number of cells holding 0. |
| `Grid.UnknownsPositive` | sudoku.h:103-104 | The count of unknown cells is positive exactly when some cell is unknown, so the DEBUG and non-DEBUG bodies of `unsolved_Sudoku` agree. |
| `Grid.PlaceFillsOne` | sudoku.h:116-126 | Writing a non-zero digit into an unknown cell lowers the unknown count by exactly one. |
| `Engine.Engine.ExtractPossibility` | sudoku.h:161-177 | Returns the value in the first non-zero slot, which is that slot's index plus 1, when one exists; the error stop happens exactly when every slot is 0 (also sudoku/sudoku.h:138-154). |
| `Engine.Engine.MarkAllPossible` | sudoku.h:139-140 | Sets slot i of one cell to i + 1 and leaves every other cell's slots alone. |
| `Engine.Engine.CollapseSlots` | sudoku.h:150-152 | Leaves one cell with slot v - 1 holding v and every other slot 0; other cells are untouched. |
| `Engine.Engine.InitializePossibilities` | sudoku.h:128-155 | The new slot table is the initial table of the loaded grid; the grid and the flags are unchanged. |
| `Candidates.InitialFacts` | sudoku.h:128-155 | In the initial table every slot is 0 or i + 1, an unknown cell lists every digit, and a given cell with value v lists v alone. |
| `Engine.Engine.IsValidMove` | sudoku.h:235-270 | The slot `test - 1` is zeroed exactly when it was non-zero and placing `test` repeats a digit in the row, the column, or (when desperate) the box; it returns 1 exactly when the slot was non-zero and the tests pass; the grid is restored. For Legacy, a failure also sets `desperate` to 0 (sudoku/sudoku.h:242-246). |
| `Engine.Engine.CellTests` | sudoku.h:251-262 | 1 exactly when the row and column of (x, y) are repeat-free and, when desperate, so is its box. |
| `Engine.Engine.EliminateSquare` | sudoku.h:191-192 | Running `is_valid_move` for tests 9 down to 1 leaves the cell's slots and the flag as the elimination function describes. |
| `Deduction.EliminateSurvivors` | sudoku.h:191-192 | A slot that survives elimination was non-zero before, and its digit passes every test enforced at that point. |
| `Deduction.EliminateComplete` | sudoku.h:191-192 | A slot that was non-zero and whose digit passes every enforced test survives. |
| `Deduction.EliminateKeeps` | sudoku.h:191-192 | Elimination only zeroes slots, touches none above the tests run, and keeps the 0-or-i+1 form. |
| `Deduction.EliminateFlagFacts` | sudoku/sudoku.h:242-246 | The flag is unchanged, or (Legacy only) it became 0 and the cell lost a slot; a Legacy pass that stays desperate removed nothing. |
| `Deduction.EliminateSound` | sudoku.h:191-192 | Every slot that survives elimination passes the row and column tests, and the box test as well when the Current engine is desperate. |
| `Deduction.EnforcedStays` | sudoku.h:235-270 | Eliminating one cell never changes which tests the Current engine enforces; in Legacy only the row and column tests are guaranteed either way. |
| `Engine.Engine.CountOptions` | sudoku.h:193-195 | Returns the number of non-zero slots of the cell. |
| `Engine.Engine.IterateDiagram` | sudoku.h:179-213 | Returns 1 exactly when the row-major scan finds an unknown cell left with one candidate; then that cell gets its digit and becomes `last_found_square`; the slot table and flag become those of the scan, and otherwise the grid is unchanged. The error stop of `extract_possibility` is never reached from here (same at sudoku/sudoku.h:156-190). |
| `Engine.Engine.ScanSquare` | sudoku.h:189-211 | One cell of the scan: it either stops the scan here with its single digit written, or the rest of the scan from the next cell gives the same result. |
| `Deduction.ScanShrinks` | sudoku.h:179-213 | A scan only zeroes slots and keeps every slot 0 or i + 1. |
| `Deduction.ScanKeeps` | sudoku.h:189-190 | A scan never changes the slots of a filled cell or of a cell before its start. |
| `Deduction.ScanFlag` | sudoku/sudoku.h:243 | A scan leaves `desperate` as it was, or, in Legacy, clears it and some slot was lost. |
| `Deduction.ScanFound` | sudoku.h:196-205 | A cell the scan stops at is an unknown cell whose only remaining candidate passes the row and column tests (and the box test when the Current engine scans desperate), and its slots are exactly that singleton. |
| `Deduction.ScanFirst` | sudoku.h:183-212 | The scan stops at the first cell in row-major order with a single candidate; with no stop, no unknown cell has exactly one. |
| `Deduction.ScanAfter` | sudoku.h:196-205 | The cell found is not before the start and every cell after it keeps its slots untouched. |
| `Deduction.ScanClearsDesperate` | sudoku/sudoku.h:243 | In Legacy, when the scan starts desperate with no naked single present, any cell it finds was made single by a failed test, so the flag is 0 afterwards. |
| `Deduction.SingleOptionIsSingleton` | sudoku.h:196-198 | A cell in 0-or-i+1 form with one option is the singleton of its value. |
| `Deduction.FullScanSound` | sudoku.h:179-213 | After a full scan that finds nothing, every candidate listed by an unknown cell passes the row and column tests, and the box test too when the Current engine scanned desperate. |
| `Deduction.PassingPlacementKeepsLines` | sudoku.h:235-270 | Placing a digit that passes the row and column tests into a grid whose lines are repeat-free keeps them repeat-free. |
| `Deduction.ScanCommitKeepsLines` | sudoku.h:196-205 | The digit a scan commits keeps every row and column of a line-valid grid repeat-free. |
| `Engine.Engine.CountDigit` | sudoku.h:332-336 | One step of the counting loops of the line and box tests: after cell k the counts are the occurrences of each digit among the first k + 1 cells of the region (the same step serves the column and box loops). |
| `Engine.Engine.CountBoxRow` | sudoku.h:369-373 | The inner loop of `sub_grid_test`: after box row i the counts are the occurrences of each digit among the box's first (i + 1)·3 cells. |
| `Engine.Engine.WriteSquare` | sudoku.h:245 | A write into `puzzle` changes exactly that cell of the grid, and nothing else of the state. |
| `Engine.Engine.ClearSlot` | sudoku.h:267 | Zeroing one slot of `possibilities` changes exactly that slot of the table, and nothing else of the state. |
| `Engine.Engine.RowCounts` | sudoku.h:384-386 | Count i is the number of cells of row y whose slot i holds i + 1. |
| `Engine.Engine.RowLister` | sudoku.h:398 | Returns the first cell of the row listing digit i + 1. |
| `Engine.Engine.RowSearch` | sudoku.h:392-409 | Finds the hidden single of row y, the lowest digit first, or reports none. |
| `Engine.Engine.RowTry` | sudoku.h:396-407 | One digit of the row search: a hit, or the search goes on with the same result from the next digit. |
| `Engine.Engine.HorizontalUniquityTest` | sudoku.h:379-410 | Returns 1 exactly when row y has a hidden single. It commits that digit, collapses that cell's slots to its singleton and records the cell; on 0 nothing changes (also sudoku/sudoku.h:360-391). |
| `Engine.Engine.ColumnCounts` | sudoku.h:416-418 | Count i is the number of cells of column x whose slot i holds i + 1. |
| `Engine.Engine.ColumnLister` | sudoku.h:430 | Returns the first cell of the column listing digit i + 1. |
| `Engine.Engine.ColumnSearch` | sudoku.h:424-441 | Finds the hidden single of column x, the lowest digit first, or reports none. |
| `Engine.Engine.ColumnTry` | sudoku.h:428-439 | One digit of the column search: a hit, or the same result from the next digit. |
| `Engine.Engine.VerticalUniquityTest` | sudoku.h:411-442 | Returns 1 exactly when column x has a hidden single, and commits it as above; on 0 nothing changes (also sudoku/sudoku.h:392-423). |
| `Engine.Engine.BoxCounts` | sudoku.h:456-462 | Count d is the number of cells of the box whose slot d holds d + 1. |
| `Engine.Engine.CountCell` | sudoku.h:458-462 | Adding one cell's listings to the counts. |
| `Engine.Engine.FindBoxLister` | sudoku.h:472-475 | Returns the first cell of the box, in the order of the nested loops, that lists the digit. |
| `Engine.Engine.FindInBoxRow` | sudoku.h:473-475 | One row of the lister search within the box. |
| `Engine.Engine.BoxUniquityTest` | sudoku.h:443-490 | Aligns the box coordinates to `3 * (x mod 3), 3 * (y mod 3)`. Returns 1 exactly when that box has a hidden single, and commits it; on 0 nothing changes. |
| `Engine.Engine.BoxSearch` | sudoku.h:468-489 | Finds the hidden single of an aligned box, or reports none. |
| `Engine.Engine.BoxTry` | sudoku.h:470-488 | One digit of the box search. |
| `Engine.Engine.BoxUniquityAt` | sudoku.h:456-490 | `box_uniquity_test` after the alignment. |
| `Engine.Engine.CommitSquare` | sudoku.h:401-406 | Writing digit t into an unknown cell that lists it: the cell gets t, its slots collapse to t alone, and it becomes `last_found_square`. |
| `Engine.Engine.CommitHidden` | sudoku.h:477-486 | Committing a hidden single of a region gives the state the specification's commit describes. |
| `Deduction.CommitFacts` | sudoku.h:401-406 | A commit fills one unknown cell and only shrinks the slot table. It keeps every cell's value a digit, every filled cell listing its value alone, and every slot 0 or i + 1. |
| `Deduction.HiddenHere` | sudoku.h:396-407 | Digit i + 1 is reported for a region exactly when a single cell lists it and that cell is unknown; otherwise the search moves to the next digit. |
| `Deduction.HiddenFromIsLeast` | sudoku.h:392-409 | The reported hidden single is the lowest hidden digit of the region; reporting none means the region has no hidden single. |
| `Engine.Engine.IterateDiagramUniquity` | sudoku.h:215-233 | The state becomes what committing the first hit in the plan gives: rows 0..8, then columns 0..8, then boxes only when desperate. It returns 1 exactly when there was a hit. In Legacy the plan is rows 8..0 then columns 8..0 with no boxes, and a hit sets `desperate` to 0 (sudoku/sudoku.h:192-209). |
| `Engine.Engine.RowStep` | sudoku.h:219-221 | One row of the plan: a hit there is committed, or nothing changes. |
| `Engine.Engine.ColumnStep` | sudoku.h:222-224 | One column of the plan. |
| `Engine.Engine.BoxStep` | sudoku.h:228-231 | One box of the plan. |
| `Engine.Engine.CurrentRows` | sudoku.h:219-221 | The row phase: the first hit among the rows is committed, or no row has one and nothing changes. |
| `Engine.Engine.CurrentColumns` | sudoku.h:222-224 | The column phase, after a row phase without hits. |
| `Engine.Engine.CurrentBoxes` | sudoku.h:226-232 | The box phase, entered only when desperate. |
| `Engine.Engine.LegacyRows` | sudoku/sudoku.h:196-198 | The Legacy row phase, scanning rows 8 down to 0. |
| `Engine.Engine.LegacyColumns` | sudoku/sudoku.h:199-201 | The Legacy column phase, scanning columns 8 down to 0. |
| `Deduction.Plan` | sudoku.h:215-233 | The regions in search order: 18 rows and columns, or 27 with the boxes when Current and desperate. |
| `Deduction.PlanCovers` | sudoku.h:215-233 | Every row and column is in the plan; the nine boxes are in it exactly for Current when desperate. |
| `Deduction.RowOutcome` | sudoku.h:219-221 | The row's position in the plan depends on the generation: y in Current, 8 - y in Legacy. At that position sits that row's hidden single. |
| `Deduction.UniquityHit` | sudoku.h:215-233 | A reported hit is an unknown cell that lists its digit and is the only cell listing that digit in some region of the plan. |
| `Deduction.UniquityMiss` | sudoku.h:215-233 | When nothing is reported, no region of the plan has a hidden single. |
| `Deduction.PlanHit` | sudoku.h:215-233 | The first hit of any plan is a hidden single of one of its regions. |
| `Engine.Engine.FindPair` | sudoku.h:497-511 | Finds the first unknown cell in row-major order with exactly two candidates, or reports none. |
| `Engine.Engine.PairInRow` | sudoku.h:498-510 | One row of that search. |
| `Deduction.FirstPairFacts` | sudoku.h:497-511 | The cell found is unknown, has two candidates and no earlier unknown cell has two; none found means no unknown cell has two. |
| `Engine.Engine.FirstSlot` | sudoku.h:525-526 | Returns the lowest non-zero slot of the cell. |
| `Engine.Engine.LastSlot` | sudoku.h:534-535 | Returns the highest non-zero slot of the cell. |
| `Deduction.GuessFacts` | sudoku.h:518-539 | A two-candidate cell has exactly two non-zero slots, lo < hi. The coin picks lo + 1 or hi + 1, and that slot holds the digit picked. |
| `Deduction.GuessedFacts` | sudoku.h:492-540 | The guess, when there is one, is at the first unknown two-candidate cell, with the lower or the higher candidate as the coin says; no guess means no such cell. |
| `Engine.Engine.SelectiveBruteForce` | sudoku.h:492-540 | Returns 1 exactly when a two-candidate cell exists. Then the chosen digit is written, the cell's other slot is zeroed, and the cell becomes `last_found_square`. Otherwise nothing changes. |
| `Solver.OutMapShape` | sudoku.h:49-57 | The symbol table has 64 entries and its first nine are '1'..'9' in order. |
| `Solver.SymbolIndex` | main.c:36-38 | The first position below 9 holding the symbol, scanning from i, or 9 when none does. |
| `Solver.DigitOfMeaning` | main.c:36-39 | A loaded cell holds 0..9. A digit d comes only from symbol `out_map[d - 1]`, and any other character loads as 0 (also sudoku/main.c:34-37). |
| `Solver.DigitOfSymbol` | main.c:36-39 | The symbol of digit d loads back as d. |
| `Solver.MapChar` | main.c:36-39 | The symbol search returns the digit of the character. |
| `Solver.Load` | main.c:25-55 | Every cell (x, y) gets the digit of the character read for it; slots and flags are unchanged. |
| `Solver.EvolvesTransitive` | main.c:76-91 | Two steps that keep filled cells, only zero slots and keep filled cells' slots singleton compose into one that does. |
| `Solver.ScanFillsOne` | main.c:80-81 | A scan that stops fills exactly one unknown cell, only shrinks the slots, and keeps filled cells coherent with their slots. |
| `Solver.ScanStalls` | main.c:80-82 | A scan that does not stop leaves no naked single and shrinks the slots. When it changes the flag, the run is Legacy, the flag is now 0 and a slot was lost. |
| `Solver.CommitFillsOne` | main.c:82-83 | Committing a listed digit into an unknown cell fills exactly one cell and evolves the state. |
| `Solver.UniquityFillsOne` | main.c:82-83 | A successful `iterate_diagram_uniquity` fills exactly one cell and evolves the state. |
| `Solver.GuessFillsOne` | main.c:89-91 | A successful guess fills exactly one cell and evolves the state. |
| `Solver.Toggle` | main.c:85 | `desperate ^= unsolved` as 0/1 arithmetic: the result is 1 exactly when the two differ. |
| `Solver.ClearDesperate` | main.c:78 | `desperate = 0`, nothing else changes. |
| `Solver.Stall` | main.c:84-86 | The flag is toggled by the unsolved bit and the error factor grows by the new flag. |
| `Solver.Deduce` | main.c:80-83 | The two deduction steps on values: the scan's naked single if it stops, else the first hidden single of the region tests on the table the scan left. Either one unknown cell is filled, or the grid is unchanged with no naked or hidden single left; the state evolves either way. |
| `Solver.Propagate` | main.c:80-83 | The two deduction passes leave exactly the state, flag and verdict that `Deduce` gives. With r = 1, one cell is filled (Legacy clears a flag that was 0 or had no naked single to find). With r = 0, the grid is unchanged, no naked or hidden single is left and the slots only shrank. |
| `Solver.CurrentRound` | main.c:78-91 | One turn of the Current loop. A deduction that commits is applied as `Deduce` gives it and the flag is reset. The guess happens only after a stall with the flag already up and the grid unsolved, with no naked or hidden single left; it commits what `Guessed` picks on the table the deductions left, and resets the flag. Otherwise the grid is unchanged: the flag is raised with 1 added to the error factor, or the loop stops, stuck or solved. |
| `Solver.LegacyRound` | sudoku/main.c:73-83 | One turn of the Legacy loop: the state is the one `Deduce` gives. It fills a cell, or retries desperate with fewer slots or with the flag just raised; stopping leaves the flag at 0 with nothing left to deduce. |
| `Solver.Boot` | sudoku.h:26-48 | A fresh engine holding the loaded grid with the zeroed globals. |
| `Solver.CurrentLoop` | main.c:76-91 | The Current loop ends. The state only evolves, and at the end no naked single, hidden single or two-candidate cell is left, unless the grid is solved. The error factor grows by at most the number of unknown cells. |
| `Solver.RunCurrent` | main.c:58-91 | An invalid puzzle is rejected with verdict 0 or -1, matching the validity tests, and the state is untouched. Otherwise the unknown count is recorded and the loop's guarantees hold from the initial table: cells extended, slots shrunk, filled cells coherent. |
| `Solver.LegacyLoop` | sudoku/main.c:73-83 | The Legacy loop ends. The state only evolves, the flag ends at 0, and no naked single and no row or column hidden single is left unless the grid is solved. |
| `Solver.RunLegacy` | sudoku/main.c:56-83 | The same as the Current run, for the Legacy driver and its loop. |

## Left out

- File and console I/O are not modelled: `fopen`, `fgetc`, EOF handling, the skipping of every other character and of the rest of each line, and `fclose`. The loader takes a 9×9 array of characters, one per cell, already separated from the file.
- `show_puzzle_status`, `log_puzzle_status` and `clear_puzzle_log` are not modelled; they only print or write the answer log. Each jump to `update_answer_log` is still a point where the proofs track the state.
- The timing (`clock`, `CLOCKS_PER_SEC`) and the printed floating-point "skepticism ratio" are output only and are left out.
- `srand(time(NULL))` is left out. `rand() & 1` becomes the parameter `coin`, a function from the round number to a bool: round k of the loop passes `coin(k)` to the guess, whether or not that round reaches it.
- The `DEBUG` build is not modelled. Its extra `error_freeze` calls sit in `iterate_diagram`, `is_valid_move` and the uniquity tests; the model follows the non-DEBUG build, where `extract_possibility` returns the slot's value.
- `error_freeze` becomes the `Frozen` outcome of `ExtractPossibility`. The call in `iterate_diagram` is proved never to produce it. Its console wait is I/O.
- `JIGSAW_SUDOKU` and the compiler macros (`INLINE`, `NOINLINE`) are left out; the model is the ordinary 9×9 build.
- C `int` overflow is not modelled; the model's integers are unbounded. The digit tallies count cells of one region and the unknown count counts cells of the grid, so they stay at most 9 and 81. The Current error factor is proved to grow by at most the number of unknown cells. The Legacy error factor is not bounded by the model (see `Solver.LegacyLoop` below).
- In `selective_brute_force`, `option1` and `option2` are computed but never used, and a diagnostic line is printed. Neither is modelled.
- `Engine.Engine.IsValidMove` requires the cell to be unknown. The source enforces this only in the DEBUG build, and `iterate_diagram` only calls it on unknown cells.
- `Engine.Engine.SelectiveBruteForce` zeroes the cell's other slot through `CollapseSlots`. This gives the same slots as the source's loops above or below the chosen index, because every slot is 0 or i + 1 and exactly two are non-zero.
- The Legacy table ends in '-' and '/' instead of '=' and '$'. Only its first nine entries are ever read in a 9×9 build, and those are the same.
- `unsolved_Sudoku` has no definition in `sudoku/sudoku.h`, yet `sudoku/main.c` calls it. The Legacy driver uses the `sudoku.h` definition, which holds 1 exactly when some cell is unknown.
- `Solver.RunCurrent` does not relate the final grid to a real solution. The deductions are sound only in the sense of `Deduction.FullScanSound` and `Deduction.ScanCommitKeepsLines` (each kept or committed candidate passes the enforced tests).
- `Solver.LegacyLoop` does not bound the error factor from above; the Legacy flag can be raised again after each lost slot.

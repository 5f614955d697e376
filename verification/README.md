# Sudoku engine model

A Dafny model of the puzzle engine of a variable-size Sudoku game: the
`Sudoku` class of `sudoku.py`. With box size `n`, the grid is `n*n` by `n*n`
cells and the alphabet has `n*n` symbols. The engine:

- builds a solved grid from a closed-form band pattern (`ordered_grid`). It
  can also shuffle the alphabet and swap rows or columns inside one band
  (`randomize_grid`).
- picks the fixed cells and blanks the others (`randomize_fixed_cells`,
  `clear_non_fixed_cells`).
- applies edits at the cursor (`replace`).
- rebuilds the conflict mask (`find_matching_*`,
  `get_invalid_coords_for_cell`, `check_grid_validity`).
- decides the win and double-win flags (`grid_is_full`, `check_for_win`).
- solves the puzzle with an iterative chronological backtracker
  (`find_free_cells`, `solve`). This uses the row, column and box checks
  (`check_*_validity`).

Modules:

- `Arith` (arith.dfy): index arithmetic, used for the band pattern and the
  termination measure of the solver.
- `Grids` (grid.dfy): cells (`Sym(c)` or `Blank`), positions `Pos(x, y)`
  (x is the column, y the row, as in the engine's `(x, y)` tuples), regions,
  conflicts, solved grids and row-major order.
- `Validity` (validity.dfy): the three region checks and the conflict-mask
  rebuild.
- `Generation` (generation.dfy): the band pattern and the in-band swaps.
  Every random choice is a parameter: the shuffled alphabet, the list of
  swaps, and the sampled fixed cells.
- `Sessions` (session.dfy): the engine's state as an immutable `Session`
  value. Every operation returns a new value.
- `Solver` (solver.dfy): `find_free_cells` and `solve`. The candidate loop is
  a recursive function, and the outer loop is a `while` loop. The loop's
  invariant is over the free-cell index and the last-tried vector. Its
  termination measure is a lexicographic rank over that vector.
- `Livelock` (livelock.dfy): a concrete 4-by-4 puzzle on which the outer
  loop, as written, never ends (see Findings).

Where the configuration errors one would expect and the code disagree, the
model follows the code:

- The code accepts `n = 0` (an empty grid) and has no configuration error.
- A fraction outside [0, 1] is rejected only when the truncated sample size
  falls outside 0 .. n^4, because only then does `random.sample` refuse it.
- `check_for_win` never clears `double_win` while the grid stays a win: a
  call on a full, valid grid that differs from the original keeps the flag.
  `replace` cannot reach that state from a double win. Changing one cell of
  a solved grid either leaves it not full (a blank or a character outside
  the alphabet) or repeats a symbol in the cell's row, so the win ends. The
  sticky branch matters only when `check_for_win` is called on its own.

`solve` stores the last-tried symbol and finds it again with `list.index`.
The model stores its position in the alphabet instead, which is the same
thing on a duplicate-free alphabet. The model's `Solve` requires every free
cell to be blank on entry; the code has no such requirement (see Left out).

## Model

| member | source | states |
|---|---|---|
| Sessions.NewSession | sudoku.py:8-21 | The box size is n, and the grid, fixed mask and original grid start empty. The alphabet is the prefix of the given symbols of length min(n*n, available). The mask is n*n by n*n and all clear. The grid is valid, neither win flag is set, and the cursor is at (0, 0). |
| Generation.Strands | sudoku.py:24 | Strand s holds n symbols, and its k-th is alphabet symbol s*n + k. |
| Generation.BandGrid | sudoku.py:26-30 | The grid is n*n by n*n, and row i, column j holds the alphabet symbol at strand (i mod n + j div n) mod n, offset (i div n + j mod n) mod n, read from the alphabet itself rather than from the strand list. |
| Generation.BandIndexInjective | sudoku.py:29-30 | Within any row, column or box, two cells that draw the same alphabet index are the same cell. |
| Generation.BandGridIsSolution | sudoku.py:23-31 | Over a duplicate-free alphabet of n*n symbols, the band pattern puts every symbol exactly once in every row, every column and every box. |
| Sessions.OrderedGrid | sudoku.py:23-31 | It fails (AlphabetTooShort) exactly when the alphabet is shorter than n*n. Otherwise only the grid changes, and over a duplicate-free alphabet the new grid is a solved puzzle. |
| Generation.ShufflePreservesAlphabet | sudoku.py:35-36 | A shuffle of a duplicate-free alphabet is duplicate-free, has the same length and holds the same symbols. |
| Generation.ApplySwap | sudoku.py:46-53 | The grid stays n*n by n*n. Each cell of the result holds what its source cell held: the same cell with its row index (for a row swap) or column index exchanged between band*n + a and band*n + b, and every other cell stays in place. |
| Generation.SwapTwiceRestores | sudoku.py:49-53 | Applying the same in-band swap twice gives back the grid it started from. |
| Generation.SwapPreservesSolution | sudoku.py:46-53 | Swapping two distinct rows, or two distinct columns, inside one band keeps a solved grid solved. |
| Generation.ApplySwaps | sudoku.py:45-53 | The swap loop keeps the grid n*n by n*n, and a grid solved over any alphabet stays solved over it after any list of in-band swaps, applied in order. |
| Generation.RandomizedGrid | sudoku.py:35-53 | The grid built from the shuffled alphabet and then swapped is n*n by n*n, and it is a solved puzzle over the shuffled alphabet whenever that alphabet is duplicate-free. |
| Generation.RandomizedGridIsSolution | sudoku.py:33-55 | Whatever the shuffle and the in-band swaps, the generated grid has every alphabet symbol exactly once in each row, column and box. |
| Sessions.RandomizeGrid | sudoku.py:33-55 | It fails exactly when the alphabet is too short (AlphabetTooShort, checked first because the grid is built before the swaps) or the box size is 1 (NoTwoIndicesToSwap: the single swap cannot draw two indices from range(1)). Otherwise only the grid changes, and over a duplicate-free alphabet the grid is a solved puzzle. |
| Validity.ScanForRepeat | sudoku.py:187-193 | The used-symbols scan answers true exactly when no alphabet symbol repeats among the listed cells and none is already in the used set. |
| Validity.RegionCells | sudoku.py:206-208 | A region's cells are exactly the in-grid positions that pass its membership test, listed in row-major order. |
| Validity.CheckRowValidity | sudoku.py:186-193 | For a row index inside the grid: true iff no alphabet symbol occurs twice in row y. Blanks and characters outside the alphabet are ignored. |
| Validity.CheckColumnValidity | sudoku.py:195-202 | For a column index inside the grid: true iff no alphabet symbol occurs twice in column x. |
| Validity.CheckBoxValidity | sudoku.py:204-213 | True iff no alphabet symbol occurs twice among the cells (i, j) with i / n == y / n and j / n == x / n. |
| Validity.FindMatchingInRow | sudoku.py:233-241 | Returns exactly the other cells of row y that hold the same non-blank character as (x, y). |
| Validity.FindMatchingInColumn | sudoku.py:243-251 | Returns exactly the other cells of column x that hold the same non-blank character as (x, y). |
| Validity.FindMatchingInBox | sudoku.py:253-263 | Returns exactly the other cells of the box of (x, y) that hold the same non-blank character. |
| Validity.Partners | sudoku.py:215-218 | The union of the three matches is exactly the set of cells in conflict with (x, y). It is empty exactly when (x, y) has no conflict. |
| Validity.InvalidCoordsForCell | sudoku.py:215-221 | The result holds (x, y) exactly when (x, y) has a conflict, and any other cell exactly when that cell conflicts with (x, y). |
| Validity.MaskOf | sudoku.py:228-230 | A fresh w-by-w mask, starting all clear, in which exactly the given coordinates are marked. |
| Validity.InvalidCoordsMeaning | sudoku.py:225-227 | The union over all cells of their invalid coordinates is exactly the set of cells that have a conflict. |
| Validity.CheckGridValidity | sudoku.py:223-231 | A cell is marked exactly when another cell in its row, column or box holds the same non-blank character. The grid is valid exactly when nothing conflicts. The mask depends on the grid alone. |
| Validity.GridValidIffAllChecksPass | sudoku.py:223-231 | On a grid of blanks and alphabet symbols, the rebuilt flag is true exactly when every row, column and box passes its region check. |
| Sessions.Recheck | sudoku.py:223-231 | Only the mask and the flag change. The mask flags exactly the conflicting cells, and the flag is true exactly when no cell conflicts. |
| Sessions.RecheckIdempotent | sudoku.py:223-231 | Two rechecks with no edit in between give the same session as one. |
| Sessions.ClearNonFixedCells | sudoku.py:273-277 | Every fixed cell keeps its content, and every other cell becomes blank. |
| Sessions.ClearingKeepsNoConflict | sudoku.py:273-277 | Blanking cells of a conflict-free grid leaves it conflict-free. |
| Sessions.Trunc | sudoku.py:177 | Python's `int()` on a number: rounding toward zero, from below for non-negative values and from above for negative ones. |
| Sessions.FixedCountInRange | sudoku.py:177 | A fraction in [0, 1] gives a sample size between 0 and n^4, which `random.sample` accepts. |
| Sessions.RandomizeFixedCells | sudoku.py:172-184 | It fails exactly when the truncated sample size is negative or above n^4. On success exactly the chosen cells (int(n^4 * fraction) of them) are fixed, and `original` is the grid before clearing. Fixed cells keep their values, every other cell is blank, and nothing else changes. |
| Sessions.SetupGivesConsistentPuzzle | sudoku.py:172-184 | Setup fails exactly at box size 1. Otherwise, after construction, randomize_grid and randomize_fixed_cells on a duplicate-free alphabet, `original` is a solved grid. The puzzle holds only blanks and symbols. The all-clear mask and the flag still describe it, and there is no win. |
| Sessions.SymbolCountBound | sudoku.py:280 | Over rows of width w, the symbol count is at most rows * w. It equals rows * w exactly when every row is all symbols. |
| Sessions.GridIsFull | sudoku.py:279-281 | The symbol count equals n^4 exactly when every cell holds an alphabet symbol. |
| Sessions.CheckForWin | sudoku.py:283-289 | Win is set iff the grid is full and the flag is valid. A double win implies a win, and a win on the original grid sets it. A new double win needs the grid to equal the original, and a win on any other grid keeps the old double-win flag. Nothing else changes. |
| Sessions.Replace | sudoku.py:164-170 | On a fixed cursor cell nothing changes. Otherwise exactly the cursor cell takes the new value, and the fixed mask, original grid, alphabet and cursor are unchanged. Without the check nothing else changes. With it, the mask and flag describe the new grid, and win holds iff the grid is full and conflict-free. A double win implies a win, is set when the winning grid is the original, and otherwise keeps its old value. |
| Sessions.ReplaceRoundTrip | sudoku.py:164-170 | Typing a symbol into a blank free cell and then blanking it restores the grid, the mask and the flag, and leaves neither a win nor a double win. |
| Sessions.EditingSolutionEndsWin | sudoku.py:164-170 | On a solved grid, a checked edit that changes a free cell leaves neither a win nor a double win: a non-symbol makes the grid not full, and another symbol repeats one in the cell's row. |
| Solver.FindFreeCells | sudoku.py:81-87 | Exactly the cells not marked fixed, in strictly increasing row-major order. |
| Solver.Fits | sudoku.py:111-125 | The three checks after a write pass exactly when the row, column and box of the cell are valid. |
| Solver.TryCandidates | sudoku.py:101-128 | Starting from the resume position, the candidate loop places the first symbol whose row, column and box checks pass, and every earlier one failed. When none passes, the cell ends blank, or untouched when no candidate was left. |
| Solver.AcceptsIgnoresCell | sudoku.py:109-124 | Whether a candidate passes does not depend on what the cell held before, so blanking a rejected candidate loses nothing. |
| Solver.Step | sudoku.py:99-133 | The corrected pass at the current free cell moves forward exactly when some candidate from the resume point on passes the checks. It then writes the first such candidate there, records its position, and changes no other cell or record. Otherwise it blanks the cell, resets its record to 0, and moves back. |
| Solver.StepAsWritten | sudoku.py:99-133 | When some candidate fits, the source's pass does what the corrected one does. When none fits, it moves back exactly when a candidate was left to try or the cell was already blank; otherwise it moves forward with the grid and every record unchanged. |
| Solver.StepKeepsInv | sudoku.py:95-133 | One pass of the outer loop keeps the invariant: every cell before the index holds a symbol whose regions are valid, later cells are blank, every free cell shows its last-tried symbol, and fixed cells are unchanged. Each pass raises a bounded rank, and a step back leaves the cell blank. |
| Solver.StepsAgree | sudoku.py:129-133 | The step as written and the corrected step agree unless the cell had already tried the last symbol. |
| Solver.RunSearch | sudoku.py:95-133 | The outer loop terminates, with the index either past the last free cell or before the first, and the invariant holding. |
| Solver.SolvedKeepsNoConflict | sudoku.py:96-98 | When every free cell is settled, a conflict-free puzzle of blanks and symbols becomes a conflict-free grid. |
| Solver.UnsolvableRestores | sudoku.py:129-131 | Stepping back past the first free cell leaves the grid exactly as it started. |
| Solver.Solve | sudoku.py:89-134 | Fixed cells are never written. Solved means every free cell holds a symbol whose row, column and box are valid, and the grid is full and conflict-free when the puzzle was. Unsolvable restores the grid. The cursor ends on a free cell or where it was. The win flags follow check_for_win: win iff full with the stored flag valid, double win on the original grid, the old double-win flag kept on any other winning grid. |
| Livelock.ExampleFreeCells | sudoku.py:81-87 | On the 4-by-4 example the free cells are (1, 0), (1, 2) and (0, 3), in that order. |
| Livelock.AsWrittenSolveCycles | sudoku.py:129-133 | On the example, the loop as written goes from the state after its first pass to the state after its second and back, with the index always inside the free-cell list. |
| Livelock.CorrectedSolveStops | sudoku.py:129-133 | On the same example, the corrected step blanks the first free cell and leaves the list, giving back the start grid. |

## Left out

- The presentation layer (`pyglet_app.py`), the label handles in `self.cells`, the `print` calls and the unused `time` import. These are display code with no effect on the engine's state.
- `random.shuffle`, `random.choice` and `random.sample` become parameters: the shuffled alphabet, the swap list and the chosen fixed set.
- The swap count of `randomize_grid` is left out. Its default handling turns any explicit count into `None`, which cannot be iterated. The model takes the swap list itself, of any length.
- `get_symbols_in_box`, `get_symbols_in_row`, `get_symbols_in_column` and `get_candidates` are left out. Nothing live calls them, and the box range in `get_symbols_in_box` is wrong. The commented-out recursive solver is left out as well.
- Floating-point rounding in `int(num ** 4 * fraction)`: the product is taken over exact reals, then truncated.
- The source's blank character `' '` is modelled as `Blank`: every operation that writes a blank writes `Blank`, and a caller passing `' '` to `replace` is modelled as passing `Blank`. `Sym(' ')` arises only from an alphabet that contains `' '` (see the next line).
- Sessions.NewSession: does not model an alphabet that contains `' '`. The code would then count blanks as symbols: two blanks in a row, column or box fail the checks at sudoku.py:189, 198 and 209, and `grid_is_full` (sudoku.py:280) counts blank cells as filled. The model keeps `Blank` apart from every symbol.
- Sessions.NewSession: the box size is a `nat`, so a negative `num` is not modelled. The code accepts one, builds an empty strand list (sudoku.py:24 and 37), and raises IndexError at sudoku.py:30 or 43 on the first cell.
- `initialize_invalid_chars` is modelled by `Validity.MaskOf` with no marks. Its row lists are built by mutation, which the model replaces with a fresh value.
- Sessions.RandomizeFixedCells: models only the first call (empty fixed mask). A second call appends rows the engine never reads and takes the already cleared grid as `original`.
- Solver.Solve: stops with `Unsolvable` when the index drops below 0. The code has no guard there, and Python would read index -1 as the last free cell.
- Solver.Solve: requires every free cell to be blank on entry. The code has no such requirement and can be called after the player has filled cells; a pre-filled free cell later in the list would then take part in the checks of earlier cells, which the model does not describe.
- Solver.Solve: stores alphabet positions rather than symbols. With a repeated alphabet symbol, `list.index` would resume after its first occurrence instead.
- Solver.Solve: does not prove completeness. `Unsolvable` is not shown to imply that no solution exists.
- Solver.Solve: the outer loop is the corrected one (see Findings). The loop as written is modelled by `Solver.StepAsWritten` and does not always terminate.

## Findings

| source | as written | input that shows it | evidently intended | confidence | as-written member | corrected member |
|---|---|---|---|---|---|---|
| sudoku.py:129-133 | After the candidate loop, the search steps back only when the current cell is blank. A cell resumed after the last alphabet symbol runs no candidate and keeps that symbol, so the search steps forward again. | n = 2, alphabet "1234", rows `3 _ 2 1`, `1 2 3 4`, `4 _ 1 3`, `_ 3 4 2`. The first pass puts 4 at (1, 0); nothing fits at (1, 2), so the search steps back; (1, 0) has no candidate left but is not blank, so the search steps forward to (1, 2) again, forever. These givens have no completion: row 2 forces (1, 2) to be 2, but column 1 already holds 2 at (1, 1). So `randomize_fixed_cells` never produces this puzzle, which reaches the cycle through the unsolvable path. Whether a puzzle that setup can produce reaches the same state is not shown. | When no candidate is placed, blank the cell, reset its marker and step back, whatever it held. | not executed | Livelock.AsWrittenSolveCycles | Livelock.CorrectedSolveStops |

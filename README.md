# Sudoku backtracking solver — Dafny model

This project models the `SudokuSolver` class of a small Python Sudoku solver
(`main.py`). The model covers its two parts.

- **The constraint checker.** `check_sequence`, `check_row`, `check_column`,
  `check_block`, `check_one_cell`, `check_field` and `is_complete` become
  functions over a board value, a `seq<seq<int>>` in which 0 is an empty cell.
  `check_field` is the exception: it is a scanning loop, so it is a method.
- **The backtracking search `solve`.** It works in place on the solver's
  9x9 `array2<int>`. It finds the first empty cell in row-major order and writes
  1..9 there in ascending order. After each write it re-validates the whole grid
  and, if the grid is still valid, recurses. A digit that leads nowhere is erased again (written back to 0).
  After nine failures the call gives up and returns false.

Files:
- `grid.dfy` (module `SudokuGrid`): the board. It has single-cell update, the
  count of empty cells (the recursion measure) and "h is a completion of g".
- `checker.dfy` (module `SudokuChecker`): the checker functions. Each is
  characterised by the Sudoku rule: no two peer cells hold the same nonzero digit.
- `solver.dfy` (module `SudokuSolving`): the class `SudokuSolver`. It holds the
  `array2<int>` and a ghost `board` giving the array's contents, the constructor,
  `CheckField`, `Place` (one cell write) and `Solve`. `check_field` does not change
  the grid, so `CheckField` reads it once and runs its two loops as `ScanField` on
  that board value. The two outer `for` loops of
  `solve` only look for the first 0 and then run the digit loop, whose `return`
  always leaves the call. `FirstEmpty` models that scan as its own read-only
  method, and `Solve` calls it before the digit loop.
- `scenarios.dfy` (module `SudokuScenarios`): callers that rely only on
  `Solve`'s contract. They cover the empty grid, a row holding two 9s, a grid that
  is already solved, and a complete but invalid grid.

The numpy operations are modelled by what they mean. `sequence[sequence != 0]`
becomes `NonZeros`. `len(np.unique(...))` becomes the size of the set of
values. The block slice becomes the nine block cells read row by row. Grid size 9
and block size 3 are constants, matching the code's hard-coded loops and `// 3`.

On a complete grid `solve` does no validation. main.py:48-49 returns `True` for
any grid without a 0, even one that repeats a digit. The model follows the code.
`Solve` promises validity only when the starting grid had an empty cell, and
`SolveCompleteInvalidGrid` shows a grid of all 1s being accepted.

## Model

| member | source | states |
|---|---|---|
| SudokuChecker.NonZeros | main.py:20 | the masked sequence holds a value exactly when the input holds it and it is nonzero, and is no longer than the input |
| SudokuChecker.NonZerosMultiset | main.py:20 | the mask keeps every nonzero value as many times as the input holds it and drops every 0 |
| SudokuChecker.ElementsDistinct | main.py:21 | the unique-value count equals the length exactly when no value repeats |
| SudokuChecker.NonZerosDistinct | main.py:20-21 | the nonzero entries are repetition-free exactly when no two positions hold the same nonzero value |
| SudokuChecker.CheckSequence | main.py:19-21 | true exactly when the nonzero entries are pairwise distinct; any number of zeros, and the empty sequence, are allowed |
| SudokuChecker.Row | main.py:31 | the row slice holds the nine cells of row r in order |
| SudokuChecker.Column | main.py:34 | the column slice holds the nine cells of column c, top to bottom |
| SudokuChecker.CheckRow | main.py:30-31 | true exactly when no two cells of row r hold the same nonzero value |
| SudokuChecker.CheckColumn | main.py:33-34 | true exactly when no two cells of column c hold the same nonzero value |
| SudokuChecker.Block | main.py:39-41 | the flattened block of (r, c) has nine entries, and each cell of that 3x3 block sits at position 3 * (i % 3) + j % 3, so its cells appear row by row |
| SudokuChecker.BlockEntry | main.py:36-41 | every position of the block sequence comes from a cell of the 3x3 block with origin (r/3*3, c/3*3) |
| SudokuChecker.BlockIndexInjective | main.py:39-41 | distinct cells of a block occupy distinct positions of the flattened block |
| SudokuChecker.BlockSequenceMeaning | main.py:36-42 | the flattened block has no repeated nonzero value exactly when no two distinct block cells hold the same nonzero value |
| SudokuChecker.CheckBlock | main.py:36-42 | true exactly when no two cells of the block containing (r, c) hold the same nonzero value |
| SudokuChecker.CheckBlockSameBlock | main.py:36-42 | all cells of one block give the same check_block answer |
| SudokuChecker.CheckOneCell | main.py:23-28 | true exactly when the row of r, the column of c and the block of (r, c) are all clash-free |
| SudokuChecker.FieldValidMeaning | main.py:62-67 | check_one_cell at all 81 cells holds exactly when no two peer cells (same row, column or block) hold the same nonzero value |
| SudokuChecker.FieldValidNoConflict | main.py:62-67 | if check_one_cell holds at every cell, no two peer cells hold the same nonzero value |
| SudokuChecker.PeerDiffers | main.py:23-28 | a nonzero cell that passes check_one_cell differs from every cell sharing its row, column or block |
| SudokuChecker.NoConflictFieldValid | main.py:62-67 | a board with no two equal nonzero peers passes check_one_cell at every cell |
| SudokuChecker.NoConflictCell | main.py:23-28 | on a board with no two equal nonzero peers, check_one_cell holds at any one cell |
| SudokuChecker.FieldValidUnits | main.py:62-67 | check_one_cell at all 81 cells holds exactly when every row check, every column check and every block check passes |
| SudokuChecker.FieldValidAgrees | main.py:56 | a board whose given cells agree with a valid board is itself valid, so an invalid placement cannot be rescued by later placements |
| SudokuChecker.IsComplete | main.py:44-45 | the count of zero cells is 0 exactly when no cell holds 0 |
| SudokuGrid.Update | main.py:55 | a single-cell write changes cell (i, j) to v and leaves every other cell as it was |
| SudokuGrid.ZeroCountNone | main.py:45 | a board has zero count 0 exactly when no cell is empty |
| SudokuGrid.CountZerosWrite | main.py:53-55 | writing a nonzero value into an empty entry lowers that sequence's empty count by one |
| SudokuGrid.ZeroCountUpdate | main.py:53-57 | writing a digit into an empty cell lowers the board's number of empty cells by one: the recursion's termination measure |
| SudokuSolving.Contents | main.py:15 | the board read from the array has 9 rows of 9 cells, each equal to the array element |
| SudokuSolving.SudokuSolver.Snapshot | main.py:15 | reading the grid yields the modelled board |
| SudokuSolving.SudokuSolver.constructor | main.py:9-17 | without a grid the solver holds a fresh all-zero 9x9 grid; with one it holds that very array |
| SudokuSolving.ScanField | main.py:62-67 | the row-major scan with early exit returns true exactly when check_one_cell holds at every cell |
| SudokuSolving.SudokuSolver.CheckField | main.py:62-67 | check_field on the solver's grid returns true exactly when check_one_cell holds at every cell of its current contents |
| SudokuSolving.SudokuSolver.Place | main.py:55 | the write `field[i, j] = v` changes only that cell |
| SudokuSolving.SudokuSolver.FirstEmpty | main.py:51-53 | on a grid that is not complete, the scan stops at a cell holding 0 such that every earlier cell in row-major order is nonzero |
| SudokuSolving.SudokuSolver.Solve | main.py:47-60 | a complete grid is accepted unchanged; on failure the grid equals its value on entry; on success the given cells are unchanged, every empty cell holds 1..9 and, if some cell was empty, the grid is valid; failure means no valid completion exists; terminates on the number of empty cells |
| SudokuSolving.NoSolutionExhausted | main.py:54-60 | once all nine digits are ruled out at an empty cell, no completion of the grid is valid |
| SudokuSolving.DigitFails | main.py:55-59 | a digit whose placement fails check_field, or leaves an unsolvable grid, starts no valid completion |
| SudokuSolving.CompletionStep | main.py:57-58 | a completion of the grid with one more digit placed completes the original grid |
| SudokuSolving.CompletionRefines | main.py:55-57 | a completion of the grid that holds v at (i, j) is a completion of the grid with v placed there |
| SudokuSolving.CompletionOfComplete | main.py:48-49 | a complete grid is a completion of itself |
| SudokuSolving.UpdateUndone | main.py:59 | erasing the tried digit restores the grid as it was before the write |
| SudokuScenarios.PatternValid | main.py:62-67 | the shifted-rows board is complete and passes check_field |
| SudokuScenarios.SolveEmptyGrid | main.py:47-60 | solving the all-zero grid succeeds with a complete grid that passes check_field |
| SudokuScenarios.TwoNinesHasNoValidCompletion | main.py:30-31 | no completion of a grid whose first row holds two 9s passes check_field |
| SudokuScenarios.SolveTwoNines | main.py:51-60 | solving a grid whose first row holds two 9s fails and leaves the grid unchanged |
| SudokuScenarios.SolveCompleteGrid | main.py:47-49 | solving an already solved grid succeeds without changing it |
| SudokuScenarios.SolveCompleteInvalidGrid | main.py:47-49 | a complete grid is accepted even when it breaks the rule (a grid of all 1s) |

## Left out

- `load` (main.py:69-75) reads a `;`-delimited text file. File I/O and text parsing are not modelled. A caller supplies the grid as an `array2<int>` to the constructor.
- `main` (main.py:78-87) prints the result and is the entry point. Printing is not modelled.
- The `n_rows`/`n_columns` parameters of `__init__` (main.py:9-17) are not modelled. The grid is fixed at 9x9 with 3x3 blocks, as the search loops and the block arithmetic assume.
- SudokuSolving.SudokuSolver.constructor requires a given array to be 9x9, because the code's fixed loops and slices assume that shape. Another shape leads to index errors or wrong checks, which are not modelled.
- The unused `random` import (main.py:1) is not modelled.
- Numpy internals (`np.unique`, boolean masks, slicing, allocation) are modelled by their meaning, not as library calls.
- Determinism of the search is not stated as a separate property. Dafny methods here are deterministic, and the contract of a single call is what is proved.
- SudokuSolving.SudokuSolver.Solve: its contract does not say WHICH solution is found (the first in row-major, ascending-digit search order). It promises only that the result is a completion of the input, valid whenever the input had an empty cell.
- Intermediate states during the search (each cell holds 0..9 while digits are tried) are not stated. Only the final state of each call is specified.

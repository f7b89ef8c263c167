# Backtracking Sudoku solver, modelled in Dafny

The repository contains two Sudoku solvers that share one algorithm.

- `SudokuSolver` (`sudoku.py`) solves a 9x9 grid in place. It logs every placement and every backtrack in `steps`, so that the search can be animated afterwards.
- `InteractiveSudokuSolver` (`sudoku2.py`) is a matplotlib application. It runs the same search on a copy of its grid and keeps, in `solution_states`, a snapshot of the grid after every placement and every backtrack. The user can then step back and forth through those snapshots.

The search is depth-first. It takes the first empty cell (0) in row-major order and tries the digits 1 to 9 there in ascending order. It skips a digit that already occurs in the cell's row, column or 3x3 box. For an allowed digit it writes the digit, records the step and recurses. If the recursion fails, it clears the cell, records a backtrack and moves on to the next digit. A grid without an empty cell is solved.

The model has four modules:

- `Grid` (`grid.dfy`): the grid as a value (`Board`, nine rows of nine integers) and the Sudoku rule. It also holds the first-empty-cell scan and the number of empty cells, which is the measure that makes the search terminate. A 9x9 `array2<int>` is tied to the value it holds through `Contents`. `IsValid`, `FindEmpty` and `Write` operate on such an array, as the Python methods operate on the numpy array.
- `Backtracking` (`search.dfy`): the search as a pure function. `Search` returns an `Outcome`: success, the grid it leaves and the trace of `Place`/`Backtrack` events. Everything proved about the search is stated about this function, for every input grid (under the hypotheses each lemma states). `Search` and its digit loop `TryDigits` are ghost functions: they are the specification that the executable methods `Solve` and `SolveAlgorithm` are proved against.
- `Sudoku` (`sudoku.dfy`): class `SudokuSolver`. Its `Solve` method is the recursive, in-place `solve` with its digit loop. It is proved to return, leave and log exactly what `Search` returns, leaves and traces.
- `InteractiveSudoku` (`sudoku2.dfy`): class `InteractiveSudokuSolver`. `SolveAlgorithm` is proved against `Search` in the same way, with one snapshot record per trace event. The class also models the non-drawing part of `start_solving`, `show_state`, `previous_state`, `next_state`, `reset_puzzle` and `load_example`.

The two logs differ in one detail, and the model follows the code here:
- `solve` logs a backtrack as `(row, col, 0, False)`. It keeps the value written into the cell, 0, not the digit it withdraws (`sudoku.py:65`).
- `solve_algorithm` keeps the digit in its backtrack record (`sudoku2.py:245-251`).

## Model

| member | source | states |
|---|---|---|
| Grid.IsValid | sudoku.py:16-30 | true exactly when num occurs in no cell of the row, the column or the 3x3 box of (row, col), i.e. when the Sudoku rule allows num there; `is_valid` of `sudoku2.py` (lines 186-200) is the same check on the grid passed in |
| Grid.FindEmpty | sudoku.py:32-38 | returns the first cell holding 0 in row-major order; every earlier cell is non-zero; None exactly when no cell is empty; `find_empty` of `sudoku2.py` (lines 202-208) is the same scan on the grid passed in |
| Grid.FirstEmptyUnique | sudoku.py:34-37 | a cell that is empty while every cell before it is filled is the one the scan returns |
| Grid.Write | sudoku.py:54 | writing a value into the array changes the grid it holds in that one cell only |
| Grid.NewArray | sudoku2.py:270 | the copy is a fresh array holding the same cells |
| Grid.SetUndo | sudoku.py:64 | writing a cell's previous value back after writing another value restores the grid |
| Grid.ZeroCountFill | sudoku.py:54-60 | filling an empty cell with a non-zero digit leaves exactly one empty cell fewer, so each recursive call has fewer empty cells |
| Grid.ZeroCountBound | sudoku.py:40-67 | a grid has at most 81 empty cells, so the recursion is at most 81 calls deep |
| Grid.PlaceKeepsConsistent | sudoku.py:52-54 | placing a digit the rule allows into an empty cell keeps a conflict-free grid conflict-free |
| Grid.SolutionDigitAllowed | sudoku.py:51-52 | at each empty cell, any solution of the puzzle holds a digit 1..9 that the rule allows in the puzzle |
| Backtracking.Search | sudoku.py:40-67 | the outcome of `solve` on a grid: a well-formed grid, and a failed search gives back the input grid unchanged |
| Backtracking.TryDigits | sudoku.py:51-67 | the outcome of the digit loop at an empty cell from a given digit on: a well-formed grid, and on failure the grid the loop started from |
| Backtracking.Turn | sudoku.py:52-65 | one allowed digit's turn records its placement first, and succeeds exactly when the search below it or the later digits succeed |
| Backtracking.BacktrackRestores | sudoku.py:63-65 | after a failed recursion, clearing the cell gives back exactly the grid the digit loop started from |
| Backtracking.DigitStep | sudoku.py:51-65 | one pass of the digit loop: a rejected digit is skipped; an allowed one either ends the search with the result below it, or adds its placement, the events below it and its backtrack to the trace so far |
| Backtracking.DigitsExhausted | sudoku.py:67 | when all nine digits are tried, the search fails with the grid unchanged and the trace recorded so far |
| Backtracking.SearchReplays | sudoku.py:40-67 | replaying the trace on the input grid (write the digit for a placement, 0 for a backtrack) gives the grid the search leaves |
| Backtracking.SearchOnEmptyCells | sudoku.py:42-65 | every event is at a cell that was empty in the input, so the clues are never overwritten |
| Backtracking.SearchFills | sudoku.py:44-46 | on success no cell is empty and every clue of the input is kept |
| Backtracking.SearchKeepsConsistent | sudoku.py:52-54 | from conflict-free clues holding digits 0..9, a successful search ends in a conflict-free grid of digits |
| Backtracking.SearchSound | sudoku.py:40-67 | from conflict-free clues, a successful search returns a full, conflict-free grid that extends the puzzle |
| Backtracking.SearchComplete | sudoku.py:51-67 | if any solution extends the puzzle, the search succeeds |
| Backtracking.SearchCorrect | sudoku.py:40-67 | for conflict-free clues the search succeeds if and only if the puzzle has a solution, and on success it returns one |
| Backtracking.SearchLegal | sudoku.py:52-65 | at each point of the replay, a placement writes an allowed digit 1..9 into an empty cell, and a backtrack clears a cell holding its own digit |
| Backtracking.SearchPairs | sudoku.py:57-65 | placements and backtracks nest like brackets on the same cell and digit; a failed search closes all of its placements, and a successful one leaves as many placements open as its input has empty cells |
| Backtracking.SearchCounts | sudoku.py:57-65 | the trace has as many backtracks as placements on failure, and as many plus the number of empty cells on success |
| Backtracking.SearchEnds | sudoku.py:42-67 | a successful search records nothing exactly when the grid was full; a non-empty trace ends with a placement on success and with a backtrack on failure |
| Backtracking.SearchOrder | sudoku.py:42-57 | the first event is a placement at the first empty cell; the digits placed there are the allowed digits in ascending order, all of them on failure and a leading run of them on success |
| Sudoku.StepsOf | sudoku.py:57-65 | the `steps` tuples for a trace: one per event, in order, with the event's cell, the value it writes (the digit, or 0 for a backtrack) and True exactly for a placement |
| Sudoku.ReplayStepsOf | sudoku.py:54-65 | writing each logged step's value into its cell, in order, gives the same grid as replaying the events they log |
| Sudoku.CountStepsOf | sudoku.py:57-65 | the log has one step flagged True per placement and one flagged False per backtrack |
| Sudoku.SolveSteps | sudoku.py:40-67 | the steps one call logs replay to the grid it leaves, lie on cells empty in its input, carry 0 when they are backtracks, are empty for a full grid, and on failure hold as many backtracks as placements |
| Sudoku.SudokuSolver.constructor | sudoku.py:8-11 | the working grid and the original are two separate arrays holding the puzzle, and the log is empty |
| Sudoku.SudokuSolver.Solve | sudoku.py:40-67 | the result, the grid left in place and the steps appended are those of the search of the grid it started from; the original copy is untouched |
| Sudoku.SudokuSolver.SolveAndVisualize | sudoku.py:126-129 | the log is cleared, then it holds exactly the steps of the search |
| InteractiveSudoku.Records | sudoku2.py:224-251 | the `solution_states` entries for a trace: exactly one per event (what each carries is stated by RecordsEvents, RecordsChain and RecordsLast) |
| InteractiveSudoku.RecordsEvents | sudoku2.py:224-251 | the records carry the trace's events, in order, each with its cell, digit and action |
| InteractiveSudoku.RecordsLast | sudoku2.py:228 | the last snapshot is the grid the whole trace replays to |
| InteractiveSudoku.SnapshotsStep | sudoku2.py:224-251 | a place record shows its digit in its cell and a backtrack record shows 0 there; each snapshot differs from the one before it (the input grid for the first) in the record's own cell at most |
| InteractiveSudoku.SolveRecords | sudoku2.py:210-253 | the records of one call carry the trace; the last snapshot is the grid left behind, and on success it is a solution extending conflict-free clues, recorded by a place record; a full grid records nothing; on failure every place record is closed by a matching backtrack |
| InteractiveSudoku.InteractiveSudokuSolver.constructor | sudoku2.py:8-15 | both grids are empty, there are no records, the index is -1, nothing is selected, and the solver is neither solving nor solved |
| InteractiveSudoku.InteractiveSudokuSolver.SolveAlgorithm | sudoku2.py:210-253 | the result and the grid left in the array are those of the search of the grid it started from, and it appends exactly one snapshot record per event of that search |
| InteractiveSudoku.InteractiveSudokuSolver.SolveCopy | sudoku2.py:270 | solving a copy of the grid appends the records of its search; on success the last record, if any, shows the solution |
| InteractiveSudoku.InteractiveSudokuSolver.ShowLast | sudoku2.py:276-278 | when there is a record, the last one is shown, its cell is selected and it becomes current; otherwise nothing changes |
| InteractiveSudoku.InteractiveSudokuSolver.StartSolving | sudoku2.py:255-283 | unless a solve is running or done: the original is set to the grid, the records become those of the search of the grid, solved is the search's result, and solving ends false; on success with records the last one, the solution, is shown and its cell selected; otherwise the grid and the selection are untouched and the index stays -1 |
| InteractiveSudoku.InteractiveSudokuSolver.ShowState | sudoku2.py:285-307 | a valid index loads a fresh copy of its snapshot into the grid, selects its cell and becomes current; any other index changes nothing |
| InteractiveSudoku.InteractiveSudokuSolver.PreviousState | sudoku2.py:309-311 | after a successful solve, shows the record before the current one (its snapshot in the grid, its cell selected) unless the first is shown; the records, the original, the flags are kept; otherwise nothing changes |
| InteractiveSudoku.InteractiveSudokuSolver.NextState | sudoku2.py:313-315 | after a successful solve, shows the record after the current one (its snapshot in the grid, its cell selected) unless the last is shown; the records, the original, the flags are kept; otherwise nothing changes |
| InteractiveSudoku.InteractiveSudokuSolver.ResetPuzzle | sudoku2.py:317-325 | both grids are fresh and empty, there are no records, the index is -1, nothing is selected, and the solver is neither solving nor solved |
| InteractiveSudoku.InteractiveSudokuSolver.LoadExample | sudoku2.py:334-351 | a reset, then the grid holds the example puzzle while the original stays empty |

## Left out

- Drawing and animation (`visualize_solution`, `draw_grid`, `FuncAnimation` in `sudoku.py`; `draw_grid`, `update_status`, and the rectangle and title of `show_state` in `sudoku2.py`) are not modelled. They change no state the model tracks.
- The widgets and the mouse handler of `sudoku2.py` are not modelled: the buttons, the mouse-click handler `on_click` with its pixel-to-cell mapping, `place_number` and `clear_selection`. In the model `selectedCell` is set only by `ShowState`, `ResetPuzzle` and the constructor.
- Timing, printing and `plt.pause` are left out. They do not affect the state the model tracks.
- `start_solving` calls `plt.pause` between setting `solving` and starting the search, which lets other UI events run. The model treats `StartSolving` as one uninterrupted step.
- numpy and `copy.deepcopy` are modelled only by what they do here. The grids are `array2<int>` objects, and a snapshot in `solution_states` is an immutable grid value, so later writes cannot alias it.
- The entries of `solution_states` are dictionaries with keys `grid`, `row`, `col`, `num` and `action`. They are modelled as the `State` datatype, and the action strings `'place'` and `'backtrack'` as the `Action` datatype.
- numpy's fixed-width integers are not modelled. The solver only writes 0..9, so no overflow can occur.
- The `__main__` block of `sudoku.py` only builds a solver on a fixed puzzle and calls `solve_and_visualize`, so it is not modelled separately. The same puzzle is `InteractiveSudoku.Example`.
- Grid cells are unrestricted integers, as in the source. Soundness (`SearchSound`, `SearchCorrect`) assumes clues of 0..9 without conflicts, because for other clues the source's notion of a solution is not defined.

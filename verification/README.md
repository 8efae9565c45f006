# Sudoku engine — a verified Dafny model

This project models the puzzle engine of a small Python Sudoku program. The
engine appears twice: in the console program `Sudoku_Optimized.py` and in the
Tk program `Suduko_GUI.py`. The model covers these parts:

- **placement checker and candidate set** (`valid_move_check`, `valid_moves`):
  a value may go in a cell when its row, column and 3×3 box do not hold it;
- **empty-cell selectors**: the first 0 in row-major order (`find_empty_cell`),
  and the most-constrained empty cell (`heuristic_find_empty_cell`). The latter
  has the fewest candidates, and ties go to the earliest cell, because
  Python's sort is stable;
- **backtracking solver** (`sudoku_solver`, `SudokuSolver.solve_sudoku`):
  - it fills the first empty cell of the board in place with each legal value
    1..9 in turn, recursing after each;
  - it resets the cell to 0 after each failed try;
  - the root-branch solver (`dynamic_parallel_sudoku_solver`) is modelled with
    its branches run one after another;
- **generator** (`generate_board`):
  - `fill_board` reads a Latin-square pattern through band-preserving row and
    column shuffles and a symbol shuffle;
  - a regeneration loop keeps the board once the solver accepts it;
  - `remove_numbers` clears `side*side*difficulty//10` distinct random cells.

Boards that the source changes in place are `array2<int>`. The value of a
board at one moment is a `Grid` (`seq<seq<int>>`, 0 for an empty cell), read
off an array by `Grids.Cells`. The checker, the selectors and the solvers are
fixed to 9×9 with 3×3 boxes, as the source hard-codes them. The filled board
is generic in `base`, with `side == base * base`.

Randomness is modelled as parameters:
- the shuffles of one `fill_board` call are a `Latin.Draw`;
- the indices drawn by `random.sample` are a sequence;
- each comes with the precondition that `random.sample` guarantees. A shuffle
  is a permutation. The drawn indices are distinct and in range, and there are
  `k` of them with `0 <= k <= squares`.

Modules:
- `Arith`: digit and modular-arithmetic lemmas;
- `Grids`: boards, positions, snapshots, copies, single-cell writes;
- `Rules`: the checker, the candidate set, and what a completion and a solution are;
- `Selectors`: the two empty-cell selectors;
- `Solver`: the backtracking solver and the root-branch solver;
- `Latin`: `fill_board`;
- `Generator`: `remove_numbers` and `generate_board`;
- `SudokuGui`: the GUI's solver class and generator.

Central notions:
- `Rules.IsCompletion(s, g)`: `g` has the shape of `s`, keeps every non-zero
  cell of `s`, and puts a value 1..9 that clashes with no row, column or box
  peer of the final board into every empty cell of `s`;
- `Rules.Solvable(s)`: some completion of `s` exists;
- `Rules.IsSolution(g)`: a full 9×9 board with no clash.

## Model

| member | source | states |
|---|---|---|
| Rules.ValidMoveCheck | Sudoku_Optimized.py:5-16 | true exactly when no cell of the row, the column or the 3×3 box starting at `(3*(r//3), 3*(c//3))` holds `num` |
| Rules.ValidMoves | Sudoku_Optimized.py:43-53 | `v` is a candidate exactly when `1 <= v <= 9` and the checker accepts `v` at the cell |
| Selectors.FindEmptyCell | Sudoku_Optimized.py:100-105 | no cell exactly when the board has no 0; otherwise a cell that holds 0, with every cell before it in row-major order non-zero (also the scan nested in both solvers, Sudoku_Optimized.py lines 56-61 and Suduko_GUI.py lines 15-20, on a 9×9 board) |
| Selectors.EmptyCellsFrom | Sudoku_Optimized.py:36 | the list comprehension holds exactly the empty cells, each on the board, in strictly increasing row-major order |
| Selectors.NoEmptyCellsIffFull | Sudoku_Optimized.py:36-38 | the comprehension finds no empty cell exactly when no cell of the board holds 0, so `None` is returned exactly for a full board |
| Selectors.FirstMinIndex | Sudoku_Optimized.py:40-41 | the head of a stable sort: an index of a least key with every earlier key strictly greater |
| Selectors.CandidateCount | Sudoku_Optimized.py:40 | the sort key `len(valid_moves(board, pos))`, the function being that expression; it is at most 9 and is 0 exactly when the checker accepts none of 1..9 at the cell |
| Selectors.HeuristicFindEmptyCell | Sudoku_Optimized.py:35-41 | no cell exactly when the board has no 0; otherwise an empty cell whose candidate count is at most that of every empty cell and strictly below that of every empty cell before it |
| Selectors.FirstMinIsMostConstrained | Sudoku_Optimized.py:40-41 | the first least key of the scan-ordered empty cells is a most-constrained cell, earliest among ties |
| Rules.FullIsCompletion | Sudoku_Optimized.py:63-66 | a board without an empty cell is its own completion |
| Rules.PlacementSound | Sudoku_Optimized.py:70-75 | a legal value placed at an empty cell, followed by a completion of the result, completes the original board |
| Rules.IllegalNeverCompletes | Sudoku_Optimized.py:70-71 | a value the checker refuses at an empty cell is not that cell's value in any completion, so skipping it loses no solution |
| Rules.CompletionThroughPlacement | Sudoku_Optimized.py:72-77 | every completion passes through the placement of its own value at the chosen cell, so a failed recursion excludes that value |
| Rules.CompletionIsSolution | Sudoku_Optimized.py:70-75 | when the givens are in 0..9 and do not clash, a completion is a full solved board |
| Grids.SetCell | Sudoku_Optimized.py:72 | writing `board[row][col] = v` changes the board to the placement of `v` at that cell and nothing else |
| Grids.PlaceUndone | Sudoku_Optimized.py:77 | writing the old 0 back over a tentative value restores the board exactly |
| Grids.CopyBoard | Sudoku_Optimized.py:133 | `[row[:] for row in board]` (also Sudoku_Optimized.py line 25 and Suduko_GUI.py line 151): a fresh board, not aliased with the original, with the same dimensions and the same cells |
| Grids.PlaceShrinksZeros | Sudoku_Optimized.py:72-74 | placing a non-zero value at an empty cell removes exactly that cell from the set of empty cells (the recursion's termination measure) |
| Solver.SudokuSolver | Sudoku_Optimized.py:55-79 | returns true and leaves a full board unchanged; on success the board is a completion of the input; on failure the board equals the input and the input has no completion |
| Solver.FailedTryExcludes | Sudoku_Optimized.py:74-77 | after the search below `board[p] = v` fails, no completion has `v` at `p` |
| Solver.IllegalExcludes | Sudoku_Optimized.py:71 | a refused value is not the value of the cell in any completion |
| Solver.NoValueLeft | Sudoku_Optimized.py:79 | when every value 1..9 at the empty cell is excluded, the board is not solvable |
| Solver.SolveBranch | Sudoku_Optimized.py:24-27 | a copied board with `num` at the empty cell is solved exactly when some completion of the board has `num` there |
| Solver.SubmitBranch | Sudoku_Optimized.py:23-27 | a branch is started exactly when there is an empty cell and the checker allows `num` at the most-constrained one; a started branch answers whether some completion has `num` there |
| Solver.DynamicParallelSudokuSolver | Sudoku_Optimized.py:18-33 | true exactly when the board has an empty cell and is solvable (false on a full board, since no branch is started); the caller's board is not written |
| Latin.BandOrderIsPermutation | Sudoku_Optimized.py:116-118 | the row (column) order is a permutation of `0..side-1` in which each block of `base` positions lies inside one band |
| Latin.BandOrder | Sudoku_Optimized.py:116-118 | the list `[g * base + r for g in bands for r in within[g]]` itself (entry `k` built by `Latin.BandEntry` from band `k // base` and offset `k % base`; the GUI's copy is Suduko_GUI.py lines 133-136); it has `side` entries, and `Latin.BandOrderIsPermutation` proves it a band-preserving permutation |
| Latin.Pattern | Sudoku_Optimized.py:112 | the pattern value is an index into the symbol shuffle, in `0..side-1` |
| Latin.FillBoard | Sudoku_Optimized.py:108-121 | the filled board is `side` by `side` |
| Latin.FillBoardRows | Sudoku_Optimized.py:108-121 | every row of the filled board holds each of `1..side` exactly once |
| Latin.FillBoardColumns | Sudoku_Optimized.py:108-121 | every column of the filled board holds each of `1..side` exactly once |
| Latin.FillBoardBoxes | Sudoku_Optimized.py:108-121 | every `base` by `base` box of the filled board holds each of `1..side` exactly once |
| Latin.FillBoardIsLatin | Suduko_GUI.py:121-139 | every row, column and box of the GUI's filled board holds each of `1..side` exactly once |
| Generator.FillBoardFull | Sudoku_Optimized.py:130-135 | the filled board holds no 0, so the solver call in the regeneration loop accepts it at once |
| Generator.FillBoardIsSolution | Sudoku_Optimized.py:130-135 | for the standard board (`base == 3`) the filled board is a Sudoku solution |
| Generator.LatinIsSolution | Sudoku_Optimized.py:108-121 | a 9×9 board whose rows, columns and boxes each hold 1..9 once has no clash |
| Generator.RemoveCells | Sudoku_Optimized.py:123-127 | the puzzle has the board's shape and each cell is either cleared or kept |
| Generator.EmptyCount | Sudoku_Optimized.py:124-125 | `squares * difficulty // 10` itself; the result is the floor of the tenth (`10*k <= squares*difficulty < 10*k + 10`), and for a difficulty in 0..10 it lies in `0..squares` |
| Generator.IndexNamesCell | Sudoku_Optimized.py:127 | index `p` names cell `(i, j)` exactly when `p == side*i + j`, i.e. `i == p // side` and `j == p % side` |
| Generator.RemoveNumbers | Sudoku_Optimized.py:123-127 | the loop clears exactly the cells named by the drawn indices and keeps every other cell (the GUI's copy, Suduko_GUI.py lines 141-145, is the same loop) |
| Generator.SampleCellsCount | Sudoku_Optimized.py:126-127 | distinct indices name distinct cells: there are as many drawn cells as drawn indices |
| Generator.EmptyCellWasDrawn | Sudoku_Optimized.py:126-127 | every empty cell of a puzzle cut from a full board was drawn |
| Generator.DrawnCellIsEmpty | Sudoku_Optimized.py:126-127 | every drawn cell of the puzzle is empty |
| Generator.RemovedCellsAreSample | Sudoku_Optimized.py:123-127 | the empty cells of a puzzle cut from a full board are exactly the drawn cells |
| Generator.RemovedCount | Sudoku_Optimized.py:123-127 | the puzzle has exactly `side*side*difficulty//10` empty cells |
| Generator.SolutionCompletesPuzzle | Sudoku_Optimized.py:139-141 | the solved board completes the puzzle, so the returned puzzle is solvable and `solved_board` solves it |
| Generator.GeneratedPuzzle | Sudoku_Optimized.py:139-141 | the puzzle cut from the filled board has `side*side*difficulty//10` empty cells, and for `base == 3` the filled board is a solution that completes it |
| Generator.SolveFilledCopy | Sudoku_Optimized.py:132-137 | the loop of copy-and-solve leaves a fresh copy equal to the full board after exactly one pass |
| Generator.GenerateBoard | Sudoku_Optimized.py:107-141 | the solved board is the filled board and the regeneration loop runs once; the puzzle is the solved board with the drawn cells cleared; it has `side*side*difficulty//10` empty cells; for `base == 3` the solved board is a solution completing the puzzle |
| SudokuGui.ValidMoveCheck | Suduko_GUI.py:41-56 | the loop of identical tests returns the single row, column and box test of the engine's checker |
| SudokuGui.SolveSudoku | Suduko_GUI.py:14-38 | returns true and leaves a full board unchanged; on success the board is a completion of the input; on failure the board equals the input and the input has no completion |
| SudokuGui.GenerateBoard | Suduko_GUI.py:120-159 | with the class's solver: the regeneration loop runs once; the solved board is the filled board and a solution; the puzzle is it with the drawn cells cleared, has `81*difficulty//10` empty cells and is completed by the solved board |

## Left out

- The Tk user interface (`SudokuGUI.__init__`, `create_widgets`, `check_entries`, entry highlighting and the timed `solve_sudoku` button handler): widget state, dialogs and timers.
- `display_board`: text output whose separator width comes from floating-point arithmetic.
- `measure_solver_performance`, `user_input` and the `__main__` blocks: console I/O and clock reads.
- The distribution of `random.sample`: the shuffles and the drawn indices are parameters that satisfy only what `random.sample` guarantees.
- The redraw `board = fill_board()` in the regeneration loop's `else` branch: it would need a fresh draw. The model proves that the branch is never taken, because the solver accepts the full board on the first pass.
- `int(board_size ** 0.5)`: `base` is a parameter and `board_size == base * base`. Board sizes that are not perfect squares are not modelled; there `fill_board` builds a board of another size than `remove_numbers` indexes.
- The checker, the selectors and the solvers on boards other than 9×9: the source hard-codes 3×3 boxes and values 1..9. The generator's solver call is modelled for any `base`, because on a full board it returns before looking at a box.
- SudokuGui.GenerateBoard: modelled for `board_size == 9` only. The GUI always passes 9, and its solver scans a fixed 9×9 area.
- Solver.DynamicParallelSudokuSolver: the thread pool and `max_workers` are not modelled. The branches run one after another, and the result is the same because it only asks whether any branch succeeded.
- Solver.SudokuSolver: states that the board found is a completion, not which one. The search order makes it the first completion in row-major, ascending-value order.
- SudokuGui.SolveSudoku: same as Solver.SudokuSolver, it does not state which completion is found.
- Python raising on bad input is not modelled as an error path: `random.sample` with a negative or too large count (the console program reads `difficulty` without checking it), and positions off the board. The preconditions exclude those inputs.

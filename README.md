# Sudoku backtracking solver, modelled in Dafny

This project models the `Grid` class of `Solver.py`, a 9×9 Sudoku solver. It
searches the board as an explicit cursor state machine, as follows:

- `grid` is a 9×9 integer matrix, with 0 for a blank cell.
- `boolgrid` marks the cells the puzzle gave.
- The cursor `(r, c, val)` is the cell being worked on and the next value to try there.
- `solve` takes one step:
  - it skips a given cell;
  - it writes a value that fits and moves forward;
  - it moves on to the next value;
  - after 9, it backtracks with `back`.
- `back` clears cells while it steps backwards over given cells and cells holding 9.
- `solvehelper` repeats `solve` until one of two things happens:
  - the cursor passes the last cell, and the filled grid is returned;
  - it runs off the first cell, and the puzzle "cannot be solved".

The model has three modules:

- `Board` (board.dfy): the board as 81 integers in row-major order. It defines the
  row, column and box of a cell and `GenSquare`. It also defines what "free",
  "complete", "solution" and "completion" mean.
- `Search` (search.dfy): the search as a relation over pure values.
  - `Step` is one call of `solve`.
  - `Retreat` is one call of `back`.
  - `Backtrack` computes a call of `back` the way the code does it.
  - `Live` is the invariant of every reachable state.
  - A base-10 rank of the state grows with every step, so the search ends.
  - `Below` describes the boards the search has already passed over. No
    completion of the puzzle is ever among them.
- `Solver` (solver.dfy): the class `Grid`.
  - It keeps the two `array2` fields of the source, so `solve` and `back` update
    `grid` in place.
  - Ghost fields mirror the arrays as sequences: `cells` for `grid`, `mask` for
    `boolgrid`, and `givens` for the puzzle as it was handed in.
  - Each method is proved against the `Search` relation.

The main results are the contracts of `Solver.Grid.SolveHelper`:

- A returned grid is complete and keeps every given.
- In that grid, no open cell repeats a value in its row, column or box.
- It is the first such board in row-major order over the open cells.
- When the givens do not already clash with each other, it is a solution.
- "Cannot be solved" is reported only when the puzzle has no completion, and
  hence no solution. The grid is then back to the puzzle.
- Termination is proved too: the loop's `decreases` is the remaining rank.

The code never compares two given cells with each other. A fully given board
whose givens clash, such as 81 ones, is a completion in this sense and is
returned as it is (`Board.ClashingGivensComplete`). So the model claims a
solution only when the givens are consistent (`Board.Consistent`).

## Model

| member | source | states |
|---|---|---|
| Solver.Grid.constructor | Solver.py:8-10 | The grid is the puzzle itself, not a copy. `boolgrid[r, c]` holds exactly when the puzzle's entry at (r, c) is nonzero. The ghost board and the givens both equal the puzzle. |
| Board.GenSquare | Solver.py:20-27 | Returns three rows and three columns, each an index on the board. |
| Board.GenSquareThirds | Solver.py:20-27 | The rows are `3*(row/3)` to `3*(row/3)+2`, and the columns are the same for `col`. |
| Board.GenSquareContains | Solver.py:20-27 | The rows returned include `row`, and the columns include `col`. |
| Board.GenSquareIsBox | Solver.py:20-27 | (r, c) lies in the rows and columns returned for (row, col) if and only if it is in the same 3×3 box. |
| Board.TakenAt | Solver.py:38-49 | A value read in the row, column or box of a cell is not free for that cell. |
| Board.FreeWhenScanned | Solver.py:38-49 | A value missing from the row and column of a cell, and from every cell the box lists, is free for that cell. |
| Solver.Grid.TryValue | Solver.py:38-49 | The result is true if and only if `val` appears nowhere in the cell's row, column or box. The method modifies nothing. |
| Search.Forward | Solver.py:82-85 | The candidate value resets to 1. The row-major index grows by exactly one and the column stays on the board. From (8, 8) the cursor reaches row 9. |
| Solver.Grid.Solve | Solver.py:61-72 | Takes exactly one `Step`. A given cell is unchanged and the cursor moves forward. A fitting value is written into that cell alone. A rejected value below 9 moves on to `val + 1` and leaves the board unchanged. A rejected 9 backtracks. |
| Solver.Grid.Put | Solver.py:103-104 | Writing into an open cell changes that cell alone. The given cells and the mirror of the grid stay intact. |
| Solver.Grid.Back | Solver.py:95-112 | The new board and the cursor are those that `Backtrack` computes from the old board. |
| Search.BacktrackRetreats | Solver.py:95-112 | What `back` computes is a `Retreat`, as follows. It resumes at the last open cell `j` before the cursor that does not hold 9, with that cell's value plus one. Every open cell between `j` and the cursor holds 9. Only open cells from `j` to the cursor change, and they become 0. If `j` does not exist, the cursor becomes (-1, 8) after every open cell up to the cursor is cleared. |
| Search.RetreatOff | Solver.py:98-104 | Backtracking from cell (0, 0) clears that cell and leaves the board. |
| Search.RetreatStop | Solver.py:107-109 | When the previous cell is open and holds less than 9, both cells are cleared and the cursor resumes there with the next value. |
| Search.RetreatPast | Solver.py:105-112 | When the previous cell is given or holds 9, backtracking from the cursor means clearing both cells and backtracking from the previous cell. |
| Search.StartIsLive | Solver.py:120-121 | The start state is live: the puzzle itself, at cell (0, 0), with value 1. |
| Search.StepKeepsLive | Solver.py:61-72 | A step from a live state keeps four things. Given cells keep their values. Open cells before the cursor hold digits. Open cells from the cursor onward hold 0. No open cell clashes with another cell. A step that leaves the board restores the puzzle. |
| Search.LiveDigits | Solver.py:122-126 | In a live state, the rank vector is made of digits and the remaining distance is positive. |
| Search.StepProgress | Solver.py:122-126 | Each step from a live state strictly lowers the remaining distance, which never goes below 0. So the loop ends. |
| Search.FinishedIsCompletion | Solver.py:122-127 | A live state whose cursor reaches row 9 holds a completion of the puzzle. |
| Search.NothingBelowStart | Solver.py:120-121 | At the start state, no completion has been passed over. |
| Search.RejectedClashes | Solver.py:66-70 | A complete board that agrees with the search before the cursor, and holds a rejected value at the cursor, breaks a Sudoku rule. |
| Search.PastNines | Solver.py:105-112 | When `back` steps over open cells that hold 9, it passes over no completion. |
| Search.ExhaustedIsBelow | Solver.py:69-70 | Once 9 is rejected at the cursor, every completion that agrees with the board through the backtrack point has been passed over. |
| Search.StepSkipsNoCompletion | Solver.py:122-126 | A step passes over no completion. A step that runs off the board happens only once every completion has been passed over. |
| Solver.Grid.SolveHelper | Solver.py:120-127 | The result is `Solved` with the grid, which is a completion of the puzzle and the first one in row-major order. It is a solution when the givens are consistent. Or the result is `Unsolvable`, only when no completion and no solution exists, with the grid back to the puzzle. |
| Board.SolutionIsCompletion | Solver.py:123-124 | Every solution is a completion, so "cannot be solved" rules out solutions too. |
| Board.ClashingGivensComplete | Solver.py:120-127 | The all-ones puzzle, with every cell given, is a completion although its givens clash, so the search never rejects it. |
| Board.CompletionIsSolution | Solver.py:127 | When the givens are consistent, a completion is a solution. |
| Board.SolvableIsConsistent | Solver.py:120-127 | A puzzle with a solution has consistent givens. |
| Board.FilledPuzzleIsOnlySolution | Solver.py:120-127 | A puzzle that is already a valid full board is its own only solution. |
| Board.LexOrdered | Solver.py:120-127 | Two boards that differ at an open cell are ordered one way or the other. |
| Board.CompletionsOrdered | Solver.py:120-127 | Two distinct completions of a puzzle are ordered one way or the other. |

## Left out

- The `__main__` block (Solver.py:129-145) is console input, parsing and printing. The constructor instead requires a 9×9 matrix with entries 0..9.
- numpy negative indexing: called at (0, 0), `back` computes row -1 and goes on to read and write `grid[-1, 8]`, which is row 8. The model stops there with the cursor (-1, 8, 1), which the driver reports as "cannot be solved". Every cell the source would touch past that point is an open cell after the cursor, which already holds 0, or a given cell, which it does not write. So the outcome is the same.
- `np.matrix` and `astype(bool)`: modelled only as `boolgrid[r, c] == (grid[r, c] != 0)` at construction.
- The string "Cannot be solved": modelled as the `Unsolvable` variant of `Outcome`.
- Solver.Grid.SolveHelper: it requires that the grid still holds the puzzle, as it does straight after construction. It is not proved for a grid that an earlier run has already changed.
- Solver.Grid.SolveHelper: the `c < 0` half of the exit test can never hold in the model, because the cursor's column always stays on the board.
- Conflicting givens: the code does not detect them, so the model's solution claim is conditional on `Board.Consistent`.

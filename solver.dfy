/**
 * The solver object: a 9x9 grid of integers (0 for a blank cell) that the
 * search fills in place, and the mask of the cells the puzzle gave.
 *
 * Every method here is proved against the state machine of module Search:
 * Solve performs exactly one Step, Back performs exactly one Retreat, and
 * SolveHelper runs Steps from cell (0, 0) until the cursor leaves the board.
 */
module Solver {
  import opened Board
  import opened Search

  /** What the driver reports: the (filled) grid, or that the puzzle cannot be solved. */
  datatype Outcome = Solved(board: array2<int>) | Unsolvable

  class Grid {
    var grid: array2<int>
    var boolgrid: array2<bool>
    /** The contents of `grid`, row by row. */
    ghost var cells: seq<int>
    /** The given cells, as boolgrid marks them. */
    ghost var mask: seq<bool>
    /** The puzzle as it was handed to the constructor. */
    ghost var givens: seq<int>

    /**
     * Both arrays are 9x9, `cells` is the grid's contents and `mask` is
     * boolgrid, row by row; `mask` marks the given cells of the puzzle and
     * those still hold the puzzle's values.
     */
    ghost predicate Valid()
      reads this, grid, boolgrid
    {
      grid.Length0 == 9 && grid.Length1 == 9 && boolgrid.Length0 == 9 && boolgrid.Length1 == 9 &&
      Puzzle(mask, givens) && |cells| == Cells &&
      (forall r, c :: 0 <= r < 9 && 0 <= c < 9 ==> grid[r, c] == cells[Index(r, c)]) &&
      (forall r, c :: 0 <= r < 9 && 0 <= c < 9 ==> boolgrid[r, c] == mask[Index(r, c)]) &&
      (forall i :: 0 <= i < Cells && mask[i] ==> cells[i] == givens[i])
    }

    /**
     * Wraps the puzzle `g` (not a copy: the search fills `g` itself) and marks
     * its nonzero cells as given.
     */
    constructor (g: array2<int>)
      requires g.Length0 == 9 && g.Length1 == 9
      requires forall r, c :: 0 <= r < 9 && 0 <= c < 9 ==> 0 <= g[r, c] <= 9
      ensures Valid() && grid == g && fresh(boolgrid)
      ensures cells == givens && forall r, c :: 0 <= r < 9 && 0 <= c < 9 ==> givens[Index(r, c)] == g[r, c]
      ensures forall r, c :: 0 <= r < 9 && 0 <= c < 9 ==> boolgrid[r, c] == (g[r, c] != 0)
    {
      grid := g;
      boolgrid := new bool[9, 9]((r, c) requires 0 <= r < 9 && 0 <= c < 9 reads g => g[r, c] != 0);
      ghost var b := seq(Cells, i requires 0 <= i < Cells reads g => g[i / 9, i % 9]);
      forall r, c | 0 <= r < 9 && 0 <= c < 9
        ensures b[Index(r, c)] == g[r, c]
      {
        IndexCell(r, c);
      }
      cells, givens := b, b;
      mask := seq(Cells, i requires 0 <= i < Cells => b[i] != 0);
    }

    /**
     * Whether `val` may go into cell (row, col): it occurs nowhere in the
     * cell's row, column or 3x3 box. Reads the grid and changes nothing.
     */
    method TryValue(row: int, col: int, val: int) returns (ok: bool)
      requires Valid() && 0 <= row < 9 && 0 <= col < 9
      ensures ok == Free(cells, Index(row, col), val)
    {
      var rc := GenSquare(row, col);
      var rows, cols := rc.0, rc.1;
      for n := 0 to 9
        invariant forall m :: 0 <= m < n ==> cells[Index(m, col)] != val && cells[Index(row, m)] != val
      {
        if val == grid[n, col] {
          TakenAt(cells, row, col, n, col);
          return false;
        }
        if val == grid[row, n] {
          TakenAt(cells, row, col, row, n);
          return false;
        }
      }
      for x := 0 to 3
        invariant forall x', y' :: 0 <= x' < x && 0 <= y' < 3 ==> grid[rows[x'], cols[y']] != val
      {
        for y := 0 to 3
          invariant forall x', y' :: 0 <= x' < x && 0 <= y' < 3 ==> grid[rows[x'], cols[y']] != val
          invariant forall y' :: 0 <= y' < y ==> grid[rows[x], cols[y']] != val
        {
          if val == grid[rows[x], cols[y]] {
            GenSquareIsBox(row, col, rows[x], cols[y]);
            TakenAt(cells, row, col, rows[x], cols[y]);
            return false;
          }
        }
      }
      forall x, y | 0 <= x < 3 && 0 <= y < 3
        ensures cells[Index(rows[x], cols[y])] != val
      {
      }
      FreeWhenScanned(cells, row, col, rows, cols, val);
      return true;
    }

    /**
     * One step of the search at cell (r, c) with candidate `val`: skip a given
     * cell, write a value that fits and move on, try the next value, or
     * backtrack once 9 has been tried.
     */
    method Solve(r: int, c: int, val: int) returns (next: Cursor)
      requires Valid() && 0 <= r < 9 && 0 <= c < 9
      modifies grid, this`cells
      ensures Valid()
      ensures Step(mask, old(cells), r, c, val, cells, next)
    {
      if !boolgrid[r, c] {
        var ok := TryValue(r, c, val);
        if ok {
          grid[r, c] := val;
          cells := cells[Index(r, c) := val];
          next := Forward(r, c);
        } else if val < 9 {
          next := Cursor(r, c, val + 1);
        } else {
          ghost var b := cells;
          next := Back(r, c);
          BacktrackRetreats(mask, b, r, c);
        }
      } else {
        next := Forward(r, c);
      }
    }

    /** Writes `x` into the open cell (r, c). */
    method Put(r: int, c: int, x: int)
      requires Valid() && 0 <= r < 9 && 0 <= c < 9 && !boolgrid[r, c]
      modifies grid, this`cells
      ensures Valid() && cells == old(cells)[Index(r, c) := x]
    {
      grid[r, c] := x;
      cells := cells[Index(r, c) := x];
    }

    /**
     * Backtracking from cell (r, c): clear it (unless given), then step back
     * over given cells and over cells holding 9, clearing the latter, until an
     * open cell holding less than 9 is found; clear that one too and resume
     * there with the next value. Stepping back from cell (0, 0) gives the
     * cursor (-1, 8), whose negative row the driver reports as "cannot be
     * solved".
     */
    method Back(r: int, c: int) returns (next: Cursor)
      requires Valid() && 0 <= r < 9 && 0 <= c < 9
      modifies grid, this`cells
      decreases Index(r, c)
      ensures Valid()
      ensures (cells, next) == Backtrack(mask, old(cells), r, c)
    {
      var lastr, lastc;
      if c != 0 {
        lastr, lastc := r, c - 1;
      } else {
        lastr, lastc := r - 1, 8;
      }
      if lastr < 0 {
        // Python would read and write row -1, that is row 8, from here on;
        // the model stops at the position just before cell (0, 0).
        if !boolgrid[r, c] {
          Put(r, c, 0);
        }
        return Cursor(-1, 8, 1);
      }
      var lastval := grid[lastr, lastc];
      if !boolgrid[r, c] {
        Put(r, c, 0);
      }
      if boolgrid[lastr, lastc] {
        next := Back(lastr, lastc);
      } else if lastval != 9 {
        Put(lastr, lastc, 0);
        next := Cursor(lastr, lastc, lastval + 1);
      } else {
        Put(lastr, lastc, 0);
        next := Back(lastr, lastc);
      }
    }

    /**
     * The driver: starting at cell (0, 0) with value 1, take search steps
     * until the cursor passes the last cell (the grid is returned, filled) or
     * runs off the first one (the puzzle cannot be solved).
     *
     * A returned grid is the first completion of the puzzle in row-major
     * order, and a solution when the givens are consistent; "cannot be solved"
     * is reported only when the puzzle has no completion (so no solution), and
     * then the grid is back to the puzzle.
     */
    method SolveHelper() returns (result: Outcome)
      requires Valid() && cells == givens
      modifies grid, this`cells
      ensures Valid()
      ensures result.Solved? ==> result.board == grid && Completion(cells, mask, givens)
      ensures result.Solved? ==> forall s :: Completion(s, mask, givens) && s != cells ==> LexBefore(cells, s, mask)
      ensures result.Solved? && Consistent(givens) ==> IsSolution(cells, givens)
      ensures result.Unsolvable? ==> cells == givens && forall s :: !Completion(s, mask, givens)
      ensures result.Unsolvable? ==> forall s :: !IsSolution(s, givens)
    {
      var r, c, val := 0, 0, 1;
      StartIsLive(mask, givens);
      forall s | Completion(s, mask, givens)
        ensures !Below(s, mask, cells, r, c, val)
      {
        NothingBelowStart(mask, givens, s);
      }
      while r < 9 && c < 9
        invariant Valid()
        invariant 0 <= c < 9
        invariant r >= 0 ==> Live(mask, givens, cells, r, c, val)
        invariant r < 0 ==> cells == givens
        invariant forall s :: Completion(s, mask, givens) ==> r >= 0 && !Below(s, mask, cells, r, c, val)
        decreases Remaining(mask, cells, r, c, val)
      {
        if r < 0 || c < 0 {
          forall s | IsSolution(s, givens)
            ensures false
          {
            SolutionIsCompletion(s, mask, givens);
          }
          return Unsolvable;
        }
        ghost var b := cells;
        var next := Solve(r, c, val);
        StepKeepsLive(mask, givens, b, r, c, val, cells, next);
        StepProgress(mask, givens, b, r, c, val, cells, next);
        forall s | Completion(s, mask, givens)
          ensures next.row >= 0 && !Below(s, mask, cells, next.row, next.col, next.val)
        {
          StepSkipsNoCompletion(mask, givens, b, r, c, val, cells, next, s);
        }
        r, c, val := next.row, next.col, next.val;
      }
      FinishedIsCompletion(mask, givens, cells, r, c, val);
      forall s | Completion(s, mask, givens) && s != cells
        ensures LexBefore(cells, s, mask)
      {
        CompletionsOrdered(s, cells, mask, givens);
      }
      if Consistent(givens) {
        CompletionIsSolution(cells, mask, givens);
      }
      return Solved(grid);
    }
  }
}

/**
 * Geometry and constraints of a 9x9 Sudoku board.
 *
 * A board is a sequence of 81 integers in row-major order: cell `i` lies in
 * row `i / 9` and column `i % 9`, and 0 stands for a blank cell.
 */
module Board {

  /** Number of cells on the board. */
  const Cells := 81

  /** Row-major position of cell (r, c): 0..80 on the board, and 81 for (9, 0), just past its end. */
  function Index(r: int, c: int): (i: int) { 9 * r + c }

  function Row(i: int): (r: int) { i / 9 }
  function Col(i: int): (c: int) { i % 9 }

  /** Index of the 3x3 box holding cell `i`, numbered 0..8 row by row. */
  function Box(i: int): (x: int) { 3 * (Row(i) / 3) + Col(i) / 3 }

  /** Cells `i` and `j` share a row, a column or a box. */
  predicate SameUnit(i: int, j: int) {
    Row(i) == Row(j) || Col(i) == Col(j) || Box(i) == Box(j)
  }

  /** The three rows and the three columns of the box enclosing (row, col). */
  function GenSquare(row: int, col: int): (rc: (seq<int>, seq<int>))
    requires 0 <= row < 9 && 0 <= col < 9
    ensures |rc.0| == 3 && |rc.1| == 3
    ensures forall i :: 0 <= i < 3 ==> 0 <= rc.0[i] < 9 && 0 <= rc.1[i] < 9
  {
    var rows := if row < 3 then [0, 1, 2] else if row < 6 then [3, 4, 5] else [6, 7, 8];
    var cols := if col < 3 then [0, 1, 2] else if col < 6 then [3, 4, 5] else [6, 7, 8];
    (rows, cols)
  }

  /** The rows and columns GenSquare returns span exactly the box of (row, col). */
  lemma GenSquareIsBox(row: int, col: int, r: int, c: int)
    requires 0 <= row < 9 && 0 <= col < 9 && 0 <= r < 9 && 0 <= c < 9
    ensures (r in GenSquare(row, col).0 && c in GenSquare(row, col).1)
        <==> Box(Index(r, c)) == Box(Index(row, col))
  {
    IndexCell(r, c);
    IndexCell(row, col);
    GenSquareThirds(row, col);
    assert Box(Index(r, c)) == 3 * (r / 3) + c / 3;
    assert Box(Index(row, col)) == 3 * (row / 3) + col / 3;
    assert 0 <= c / 3 < 3 && 0 <= col / 3 < 3;
    InTriple(r, row);
    InTriple(c, col);
  }

  /** The rows and columns GenSquare returns for (row, col) include `row` and `col`. */
  lemma GenSquareContains(row: int, col: int)
    requires 0 <= row < 9 && 0 <= col < 9
    ensures row in GenSquare(row, col).0 && col in GenSquare(row, col).1
  {
    GenSquareIsBox(row, col, row, col);
  }

  /** GenSquare lists the three rows and the three columns of the third that contains (row, col). */
  lemma GenSquareThirds(row: int, col: int)
    requires 0 <= row < 9 && 0 <= col < 9
    ensures GenSquare(row, col).0 == [3 * (row / 3), 3 * (row / 3) + 1, 3 * (row / 3) + 2]
    ensures GenSquare(row, col).1 == [3 * (col / 3), 3 * (col / 3) + 1, 3 * (col / 3) + 2]
  {
  }

  /** `x` is among the three indices GenSquare lists for `y` exactly when both lie in the same third. */
  lemma InTriple(x: int, y: int)
    requires 0 <= x < 9 && 0 <= y < 9
    ensures x in [3 * (y / 3), 3 * (y / 3) + 1, 3 * (y / 3) + 2] <==> x / 3 == y / 3
  {
    var t := [3 * (y / 3), 3 * (y / 3) + 1, 3 * (y / 3) + 2];
    if x / 3 == y / 3 {
      assert t[x % 3] == x;
    }
    if x in t {
      var i :| 0 <= i < 3 && t[i] == x;
      assert x == 3 * (y / 3) + i;
    }
  }

  /** Every cell `j` of the box of (row, col) is listed by GenSquare, at positions `x` and `y`. */
  lemma GenSquareLists(row: int, col: int, j: int) returns (x: int, y: int)
    requires 0 <= row < 9 && 0 <= col < 9 && 0 <= j < Cells
    requires Box(j) == Box(Index(row, col))
    ensures 0 <= x < 3 && 0 <= y < 3
    ensures GenSquare(row, col).0[x] == Row(j) && GenSquare(row, col).1[y] == Col(j)
  {
    CellIndex(j);
    var r, c := Row(j), Col(j);
    GenSquareIsBox(row, col, r, c);
    GenSquareThirds(row, col);
    InTriple(r, row);
    InTriple(c, col);
    x := r - 3 * (row / 3);
    y := c - 3 * (col / 3);
  }

  /** Cell (r, c) sits at position Index(r, c), whose row is r and whose column is c. */
  lemma IndexCell(r: int, c: int)
    requires 0 <= r < 9 && 0 <= c < 9
    ensures 0 <= Index(r, c) < Cells && Row(Index(r, c)) == r && Col(Index(r, c)) == c
  {
  }

  /** Position `i` is cell (Row(i), Col(i)). */
  lemma CellIndex(i: int)
    requires 0 <= i < Cells
    ensures 0 <= Row(i) < 9 && 0 <= Col(i) < 9 && Index(Row(i), Col(i)) == i
  {
  }

  /** Value `v` occurs in no cell of the row, column or box of cell `k`. */
  predicate Free(b: seq<int>, k: int, v: int)
    requires |b| == Cells
  {
    forall j :: 0 <= j < Cells && SameUnit(j, k) ==> b[j] != v
  }

  /**
   * No cell the puzzle leaves open (`!mask[i]`) that holds a value shares a
   * row, column or box with another cell holding the same value.
   */
  predicate NoClash(b: seq<int>, mask: seq<bool>)
    requires |b| == Cells && |mask| == Cells
  {
    forall i, j :: 0 <= i < Cells && 0 <= j < Cells && i != j && !mask[i] && b[i] != 0 && SameUnit(i, j)
      ==> b[i] != b[j]
  }

  /** Every entry of a puzzle is 0 (blank) or a digit. */
  predicate WellFormed(givens: seq<int>) {
    |givens| == Cells && forall i :: 0 <= i < Cells ==> 0 <= givens[i] <= 9
  }

  /** The fixed-cell mask of a puzzle: the cells it gives. */
  predicate IsMaskOf(mask: seq<bool>, givens: seq<int>) {
    |mask| == Cells && |givens| == Cells &&
    forall i :: 0 <= i < Cells ==> mask[i] == (givens[i] != 0)
  }

  /** The given cells already violate no Sudoku rule among themselves. */
  predicate Consistent(givens: seq<int>)
    requires |givens| == Cells
  {
    forall i, j :: 0 <= i < Cells && 0 <= j < Cells && i != j && givens[i] != 0 && SameUnit(i, j)
      ==> givens[i] != givens[j]
  }

  /** Every cell holds a digit 1..9. */
  predicate Complete(s: seq<int>) {
    |s| == Cells && forall i :: 0 <= i < Cells ==> 1 <= s[i] <= 9
  }

  /** `s` keeps every given value of the puzzle. */
  predicate AgreesWith(s: seq<int>, givens: seq<int>)
    requires |s| == Cells && |givens| == Cells
  {
    forall i :: 0 <= i < Cells && givens[i] != 0 ==> s[i] == givens[i]
  }

  /** A solved Sudoku for the puzzle: complete, keeps the givens, no row, column or box repeats. */
  predicate IsSolution(s: seq<int>, givens: seq<int>)
    requires |givens| == Cells
  {
    Complete(s) && AgreesWith(s, givens) &&
    forall i, j :: 0 <= i < Cells && 0 <= j < Cells && i != j && SameUnit(i, j) ==> s[i] != s[j]
  }

  /**
   * What the search looks for: a complete board that keeps the fixed cells
   * and in which no open cell clashes with any other cell. Clashes between two
   * fixed cells are not looked at, since the search never checks them.
   */
  predicate Completion(s: seq<int>, mask: seq<bool>, givens: seq<int>)
    requires |mask| == Cells && |givens| == Cells
  {
    Complete(s) && (forall i :: 0 <= i < Cells && mask[i] ==> s[i] == givens[i]) && NoClash(s, mask)
  }

  /**
   * Clashing givens are never looked at: the puzzle that gives 1 in every
   * cell is its own completion, yet its givens are not consistent.
   */
  lemma ClashingGivensComplete()
    ensures var ones := seq(Cells, i => 1);
      IsMaskOf(seq(Cells, i => true), ones) &&
      Completion(ones, seq(Cells, i => true), ones) && !Consistent(ones)
  {
    var ones := seq(Cells, i => 1);
    assert SameUnit(0, 1);
    assert ones[0] == ones[1];
  }

  /** Every solution of a puzzle is a completion of it. */
  lemma SolutionIsCompletion(s: seq<int>, mask: seq<bool>, givens: seq<int>)
    requires IsMaskOf(mask, givens) && IsSolution(s, givens)
    ensures Completion(s, mask, givens)
  {
  }

  /** With consistent givens, a completion is a solution. */
  lemma CompletionIsSolution(s: seq<int>, mask: seq<bool>, givens: seq<int>)
    requires IsMaskOf(mask, givens) && Consistent(givens) && Completion(s, mask, givens)
    ensures IsSolution(s, givens)
  {
    forall i, j | 0 <= i < Cells && 0 <= j < Cells && i != j && SameUnit(i, j)
      ensures s[i] != s[j]
    {
      if !mask[i] {
      } else if !mask[j] {
        assert SameUnit(j, i);
      } else {
        assert givens[i] != givens[j];
      }
    }
  }

  /** A puzzle that has a solution has consistent givens. */
  lemma SolvableIsConsistent(s: seq<int>, givens: seq<int>)
    requires |givens| == Cells && IsSolution(s, givens)
    ensures Consistent(givens)
  {
    forall i, j | 0 <= i < Cells && 0 <= j < Cells && i != j && givens[i] != 0 && SameUnit(i, j)
      ensures givens[i] != givens[j]
    {
      if givens[j] != 0 {
        assert s[i] != s[j];
      }
    }
  }

  /** A fully and validly filled puzzle is its own one and only solution. */
  lemma FilledPuzzleIsOnlySolution(givens: seq<int>, s: seq<int>)
    requires |givens| == Cells && IsSolution(givens, givens)
    requires IsSolution(s, givens)
    ensures s == givens
  {
  }

  /** `s` and `t` agree on every open cell before `p`. */
  predicate AgreeBefore(s: seq<int>, mask: seq<bool>, t: seq<int>, p: int)
    requires |s| == Cells && |t| == Cells && |mask| == Cells
  {
    forall i :: 0 <= i < p && i < Cells && !mask[i] ==> s[i] == t[i]
  }

  /**
   * `s` comes before `t` in row-major order over the open cells: at the first
   * open cell where the two differ, `s` holds the smaller value.
   */
  predicate LexBefore(s: seq<int>, t: seq<int>, mask: seq<bool>)
    requires |s| == Cells && |t| == Cells && |mask| == Cells
  {
    exists p :: 0 <= p < Cells && !mask[p] && AgreeBefore(s, mask, t, p) && s[p] < t[p]
  }

  /**
   * Two boards that differ at some open cell before `n` are ordered by
   * LexBefore one way or the other.
   */
  lemma {:induction false} LexOrdered(s: seq<int>, t: seq<int>, mask: seq<bool>, n: int)
    requires |s| == Cells && |t| == Cells && |mask| == Cells && 0 <= n <= Cells
    requires exists i :: 0 <= i < n && !mask[i] && s[i] != t[i]
    ensures LexBefore(s, t, mask) || LexBefore(t, s, mask)
  {
    if exists i :: 0 <= i < n - 1 && !mask[i] && s[i] != t[i] {
      LexOrdered(s, t, mask, n - 1);
    } else {
      assert AgreeBefore(s, mask, t, n - 1) && AgreeBefore(t, mask, s, n - 1);
      assert !mask[n - 1] && s[n - 1] != t[n - 1];
    }
  }

  /** Distinct completions of a puzzle are ordered by LexBefore one way or the other. */
  lemma CompletionsOrdered(s: seq<int>, t: seq<int>, mask: seq<bool>, givens: seq<int>)
    requires |mask| == Cells && |givens| == Cells
    requires Completion(s, mask, givens) && Completion(t, mask, givens) && s != t
    ensures LexBefore(s, t, mask) || LexBefore(t, s, mask)
  {
    var i :| 0 <= i < Cells && s[i] != t[i];
    LexOrdered(s, t, mask, Cells);
  }

  /** A value found in the row, the column or the box of (row, col) is not free there. */
  lemma TakenAt(b: seq<int>, row: int, col: int, r: int, c: int)
    requires |b| == Cells && 0 <= row < 9 && 0 <= col < 9 && 0 <= r < 9 && 0 <= c < 9
    requires r == row || c == col || Box(Index(r, c)) == Box(Index(row, col))
    ensures !Free(b, Index(row, col), b[Index(r, c)])
  {
    IndexCell(r, c);
    IndexCell(row, col);
    assert SameUnit(Index(r, c), Index(row, col));
  }

  /**
   * A value absent from the row and the column of (row, col) and from the
   * cells GenSquare lists for it is free there.
   */
  lemma FreeWhenScanned(b: seq<int>, row: int, col: int, rows: seq<int>, cols: seq<int>, val: int)
    requires |b| == Cells && 0 <= row < 9 && 0 <= col < 9
    requires rows == GenSquare(row, col).0 && cols == GenSquare(row, col).1
    requires forall m :: 0 <= m < 9 ==> b[Index(m, col)] != val && b[Index(row, m)] != val
    requires forall x, y :: 0 <= x < 3 && 0 <= y < 3 ==> b[Index(rows[x], cols[y])] != val
    ensures Free(b, Index(row, col), val)
  {
    IndexCell(row, col);
    forall j | 0 <= j < Cells && SameUnit(j, Index(row, col))
      ensures b[j] != val
    {
      CellIndex(j);
      if Row(j) != row && Col(j) != col {
        var x, y := GenSquareLists(row, col, j);
      }
    }
  }
}

/**
 * The backtracking search as a state machine over pure values.
 *
 * The state is a board `b` (81 cells, row-major) and a cursor (r, c, v): the
 * cell being worked on and the next candidate value for it. The cells the
 * puzzle gives are marked in `mask`; `givens` is the puzzle itself.
 *
 * This module states what one step of the search does (Step), the invariant
 * every reachable state keeps (Live), a rank that grows with every step (so
 * the search ends) and the fact that no completion of the puzzle is ever
 * skipped (Below).
 */
module Search {
  import opened Board

  /** A search cursor as the solver passes it around: a cell and the next candidate value for it. */
  datatype Cursor = Cursor(row: int, col: int, val: int)

  /** The next cell in row-major order, with the candidate value reset to 1. */
  function Forward(r: int, c: int): (next: Cursor)
    ensures next.val == 1
    ensures 0 <= c < 9 ==> 0 <= next.col < 9 && Index(next.row, next.col) == Index(r, c) + 1
    ensures 0 <= c < 9 ==> next.row == r || (next.row == r + 1 && next.col == 0)
    ensures r == 8 && c == 8 ==> next.row == 9
  {
    if c != 8 then Cursor(r, c + 1, 1) else Cursor(r + 1, 0, 1)
  }

  /** `b` with every open cell from `lo` to `hi` (both included) set back to 0. */
  function Cleared(b: seq<int>, mask: seq<bool>, lo: int, hi: int): (b': seq<int>)
    requires |b| == Cells && |mask| == Cells
    ensures |b'| == Cells
  {
    seq(Cells, i requires 0 <= i < Cells => if lo <= i <= hi && !mask[i] then 0 else b[i])
  }

  /** Clearing cell `k` alone, when it is open, is writing 0 into it. */
  lemma ClearedOne(b: seq<int>, mask: seq<bool>, k: int)
    requires |b| == Cells && |mask| == Cells && 0 <= k < Cells
    ensures Cleared(b, mask, k, k) == if mask[k] then b else b[k := 0]
  {
  }

  /** Clearing `m` to `hi` and then `lo` to `n`, two ranges that overlap or touch, clears `lo` to `hi`. */
  lemma ClearedJoin(b: seq<int>, mask: seq<bool>, lo: int, m: int, n: int, hi: int)
    requires |b| == Cells && |mask| == Cells
    requires lo <= m <= n + 1 && n <= hi
    ensures Cleared(Cleared(b, mask, m, hi), mask, lo, n) == Cleared(b, mask, lo, hi)
  {
  }

  /**
   * What backtracking from cell `k` does: it retreats to `j`, the last open
   * cell before `k` that does not hold 9, clears every open cell from `j` to
   * `k`, and resumes at `j` with the value after the one `j` held. When every
   * open cell before `k` holds 9 it runs off the start of the board, to
   * (-1, 8), the position just before cell (0, 0), after clearing every open
   * cell up to `k`.
   */
  ghost predicate Retreat(mask: seq<bool>, b: seq<int>, k: int, b': seq<int>, next: Cursor)
    requires |b| == Cells && |mask| == Cells && 0 <= k < Cells
  {
    if next.row < 0 then
      next.row == -1 && next.col == 8 &&
      (forall i :: 0 <= i < k && !mask[i] ==> b[i] == 9) &&
      b' == Cleared(b, mask, 0, k)
    else
      var j := Index(next.row, next.col);
      0 <= next.col < 9 && 0 <= j < k && !mask[j] && b[j] != 9 && next.val == b[j] + 1 &&
      (forall i :: j < i < k && !mask[i] ==> b[i] == 9) &&
      b' == Cleared(b, mask, j, k)
  }

  /** Backtracking from cell (0, 0) clears it and runs off the board. */
  lemma RetreatOff(mask: seq<bool>, b: seq<int>, b': seq<int>)
    requires |b| == Cells && |mask| == Cells && b' == Cleared(b, mask, 0, 0)
    ensures Retreat(mask, b, 0, b', Cursor(-1, 8, 1))
  {
  }

  /**
   * Backtracking from `k` stops at cell `k - 1` when it is open and holds
   * less than 9: both are cleared and the search resumes there.
   */
  lemma RetreatStop(mask: seq<bool>, b: seq<int>, k: int, b': seq<int>, next: Cursor)
    requires |b| == Cells && |mask| == Cells && 1 <= k < Cells
    requires !mask[k - 1] && b[k - 1] != 9
    requires b' == Cleared(Cleared(b, mask, k, k), mask, k - 1, k - 1)
    requires 0 <= next.row && 0 <= next.col < 9 && Index(next.row, next.col) == k - 1 && next.val == b[k - 1] + 1
    ensures Retreat(mask, b, k, b', next)
  {
    ClearedJoin(b, mask, k - 1, k, k - 1, k);
  }

  /**
   * Backtracking from `k` over cell (lr, lc), the one before it, when that
   * cell is given or holds 9, is clearing both cells and backtracking from
   * (lr, lc).
   */
  lemma RetreatPast(mask: seq<bool>, b: seq<int>, k: int, b1: seq<int>, lr: int, lc: int, b': seq<int>, next: Cursor)
    requires |b| == Cells && |mask| == Cells && 1 <= k < Cells && Index(lr, lc) == k - 1
    requires mask[k - 1] || b[k - 1] == 9
    requires b1 == Cleared(Cleared(b, mask, k, k), mask, k - 1, k - 1)
    requires Retreat(mask, b1, Index(lr, lc), b', next)
    ensures Retreat(mask, b, k, b', next)
  {
    ClearedJoin(b, mask, k - 1, k, k - 1, k);
    var lo := if next.row < 0 then 0 else Index(next.row, next.col);
    ClearedJoin(b, mask, lo, k - 1, k - 1, k);
  }

  /**
   * Backtracking from cell (r, c) on board `b`, computed the way the solver
   * does it: clear (r, c) if it is open; then look at the cell before it, and
   * backtrack from there if it is given, stop there (clearing it and moving
   * to its next value) if it is open and holds less than 9, or clear it and
   * backtrack from there if it holds 9. Before cell (0, 0) there is no cell:
   * the cursor becomes (-1, 8).
   */
  function Backtrack(mask: seq<bool>, b: seq<int>, r: int, c: int): (res: (seq<int>, Cursor))
    requires |b| == Cells && |mask| == Cells && 0 <= r < 9 && 0 <= c < 9
    decreases Index(r, c)
  {
    var lastr := if c != 0 then r else r - 1;
    var lastc := if c != 0 then c - 1 else 8;
    var b1 := if mask[Index(r, c)] then b else b[Index(r, c) := 0];
    if lastr < 0 then
      (b1, Cursor(-1, 8, 1))
    else if mask[Index(lastr, lastc)] then
      Backtrack(mask, b1, lastr, lastc)
    else if b[Index(lastr, lastc)] != 9 then
      (b1[Index(lastr, lastc) := 0], Cursor(lastr, lastc, b[Index(lastr, lastc)] + 1))
    else
      Backtrack(mask, b1[Index(lastr, lastc) := 0], lastr, lastc)
  }

  /** What Backtrack computes is a Retreat. */
  lemma {:induction false} BacktrackRetreats(mask: seq<bool>, b: seq<int>, r: int, c: int)
    requires |b| == Cells && |mask| == Cells && 0 <= r < 9 && 0 <= c < 9
    ensures Retreat(mask, b, Index(r, c), Backtrack(mask, b, r, c).0, Backtrack(mask, b, r, c).1)
    decreases Index(r, c)
  {
    var k := Index(r, c);
    var lastr := if c != 0 then r else r - 1;
    var lastc := if c != 0 then c - 1 else 8;
    ClearedOne(b, mask, k);
    var b1 := Cleared(b, mask, k, k);
    if lastr < 0 {
      RetreatOff(mask, b, b1);
    } else {
      var j := Index(lastr, lastc);
      ClearedOne(b1, mask, j);
      var b2 := Cleared(b1, mask, j, j);
      var res := Backtrack(mask, b, r, c);
      if mask[j] {
        BacktrackRetreats(mask, b1, lastr, lastc);
        RetreatPast(mask, b, k, b2, lastr, lastc, res.0, res.1);
      } else if b[j] != 9 {
        RetreatStop(mask, b, k, res.0, res.1);
      } else {
        BacktrackRetreats(mask, b2, lastr, lastc);
        RetreatPast(mask, b, k, b2, lastr, lastc, res.0, res.1);
      }
    }
  }

  /**
   * One step of the search from cursor (r, c, v) on board `b`, giving board
   * `b'` and cursor `next`: a given cell is skipped, a value that fits is
   * written and the cursor moves on, a value that does not fit is replaced by
   * the next one, and when 9 does not fit either the search backtracks.
   */
  ghost predicate Step(mask: seq<bool>, b: seq<int>, r: int, c: int, v: int, b': seq<int>, next: Cursor)
    requires |b| == Cells && |mask| == Cells && 0 <= r < 9 && 0 <= c < 9
  {
    var k := Index(r, c);
    if mask[k] then
      b' == b && next == Forward(r, c)
    else if Free(b, k, v) then
      b' == b[k := v] && next == Forward(r, c)
    else if v < 9 then
      b' == b && next == Cursor(r, c, v + 1)
    else
      Retreat(mask, b, k, b', next)
  }

  /** `mask` marks the given cells of a well-formed puzzle. */
  predicate Puzzle(mask: seq<bool>, givens: seq<int>) {
    WellFormed(givens) && IsMaskOf(mask, givens)
  }

  /**
   * The invariant of the search: the cursor is on the board (or just past
   * its end), the given cells keep their values, every open cell before the
   * cursor holds a digit, every open cell at or after it is blank, and no open
   * cell clashes with another.
   */
  ghost predicate Live(mask: seq<bool>, givens: seq<int>, b: seq<int>, r: int, c: int, v: int) {
    Puzzle(mask, givens) && |b| == Cells &&
    0 <= r <= 9 && 0 <= c < 9 && (r == 9 ==> c == 0) &&
    (Index(r, c) < Cells ==> 1 <= v <= 9) &&
    (forall i :: 0 <= i < Cells ==> 0 <= b[i] <= 9) &&
    (forall i :: 0 <= i < Cells && mask[i] ==> b[i] == givens[i]) &&
    (forall i :: 0 <= i < Index(r, c) && i < Cells && !mask[i] ==> 1 <= b[i] <= 9) &&
    (forall i :: Index(r, c) <= i < Cells && !mask[i] ==> b[i] == 0) &&
    NoClash(b, mask)
  }

  /** The search starts live: on the puzzle itself, at cell (0, 0) with value 1. */
  lemma StartIsLive(mask: seq<bool>, givens: seq<int>)
    requires Puzzle(mask, givens)
    ensures Live(mask, givens, givens, 0, 0, 1)
  {
  }

  /** A live state whose cursor is past the last cell holds a completion of the puzzle. */
  lemma FinishedIsCompletion(mask: seq<bool>, givens: seq<int>, b: seq<int>, r: int, c: int, v: int)
    requires Live(mask, givens, b, r, c, v) && r == 9
    ensures Completion(b, mask, givens)
  {
  }

  /** A step from a live state leads to a live state, or off the board with the puzzle restored. */
  lemma StepKeepsLive(mask: seq<bool>, givens: seq<int>, b: seq<int>, r: int, c: int, v: int, b': seq<int>, next: Cursor)
    requires Live(mask, givens, b, r, c, v) && r < 9
    requires Step(mask, b, r, c, v, b', next)
    ensures next.row >= 0 ==> Live(mask, givens, b', next.row, next.col, next.val)
    ensures next.row < 0 ==> b' == givens
  {
    var k := Index(r, c);
    if mask[k] || !Free(b, k, v) {
      if !mask[k] && v >= 9 {
        var lo := if next.row < 0 then 0 else Index(next.row, next.col);
        assert b' == Cleared(b, mask, lo, k);
        if next.row < 0 {
          assert forall i :: 0 <= i < Cells ==> b'[i] == givens[i];
        }
      }
    } else {
      assert b'[k] == v;
      forall i, j | 0 <= i < Cells && 0 <= j < Cells && i != j && !mask[i] && b'[i] != 0 && SameUnit(i, j)
        ensures b'[i] != b'[j]
      {
        if i == k {
          assert b'[j] == b[j];
        } else if j == k {
          assert SameUnit(k, i);
          assert b'[i] == b[i];
        } else {
          assert b'[i] == b[i] && b'[j] == b[j];
        }
      }
    }
  }

  // ---------------------------------------------------------------------
  // Termination: a base-10 rank of the search state that every step raises.
  // ---------------------------------------------------------------------

  function Pow10(n: nat): (p: nat)
    ensures p >= 1
  {
    if n == 0 then 1 else 10 * Pow10(n - 1)
  }

  /** Digits read as a base-10 numeral, most significant first. */
  function Rank(d: seq<int>): (n: int) {
    if d == [] then 0 else 10 * Rank(d[..|d| - 1]) + d[|d| - 1]
  }

  predicate IsDigits(d: seq<int>) {
    forall i :: 0 <= i < |d| ==> 0 <= d[i] <= 9
  }

  /** A numeral of `n` digits lies in [0, 10^n). */
  lemma {:induction false} RankBounds(d: seq<int>)
    requires IsDigits(d)
    ensures 0 <= Rank(d) < Pow10(|d|)
  {
    if d != [] {
      RankBounds(d[..|d| - 1]);
    }
  }

  /** Numerals of equal length compare like their first differing digit. */
  lemma {:induction false} RankMonotone(a: seq<int>, b: seq<int>, p: nat)
    requires |a| == |b| && IsDigits(a) && IsDigits(b) && p < |a|
    requires forall i :: 0 <= i < p ==> a[i] == b[i]
    requires a[p] < b[p]
    ensures Rank(a) < Rank(b)
  {
    var n := |a| - 1;
    if p == n {
      assert a[..n] == b[..n];
    } else {
      RankMonotone(a[..n], b[..n], p);
    }
  }

  /**
   * The digit vector of a search state, one digit per cell plus one for "past
   * the end": cells after the cursor count 0, given cells and the end marker
   * count 1, open cells before the cursor count their value and the cursor's
   * cell counts the candidate value.
   */
  ghost function Digits(mask: seq<bool>, b: seq<int>, r: int, c: int, v: int): (d: seq<int>)
    requires |b| == Cells && |mask| == Cells
    ensures |d| == Cells + 1
  {
    var k := Index(r, c);
    seq(Cells + 1, i requires 0 <= i <= Cells =>
      if i > k then 0
      else if i == Cells || mask[i] then 1
      else if i == k then v
      else b[i])
  }

  /** How far the search still may go: the failure state counts 0, any live state more. */
  ghost function Remaining(mask: seq<bool>, b: seq<int>, r: int, c: int, v: int): (n: int)
    requires |b| == Cells && |mask| == Cells
  {
    if r < 0 then 0 else Pow10(Cells + 1) - Rank(Digits(mask, b, r, c, v))
  }

  lemma LiveDigits(mask: seq<bool>, givens: seq<int>, b: seq<int>, r: int, c: int, v: int)
    requires Live(mask, givens, b, r, c, v)
    ensures IsDigits(Digits(mask, b, r, c, v))
    ensures Remaining(mask, b, r, c, v) > 0
  {
    RankBounds(Digits(mask, b, r, c, v));
  }

  /** Every step from a live state strictly lowers Remaining, which stays non-negative. */
  lemma StepProgress(mask: seq<bool>, givens: seq<int>, b: seq<int>, r: int, c: int, v: int, b': seq<int>, next: Cursor)
    requires Live(mask, givens, b, r, c, v) && r < 9
    requires Step(mask, b, r, c, v, b', next)
    ensures 0 <= Remaining(mask, b', next.row, next.col, next.val) < Remaining(mask, b, r, c, v)
  {
    LiveDigits(mask, givens, b, r, c, v);
    StepKeepsLive(mask, givens, b, r, c, v, b', next);
    if next.row >= 0 {
      LiveDigits(mask, givens, b', next.row, next.col, next.val);
      var d, d' := Digits(mask, b, r, c, v), Digits(mask, b', next.row, next.col, next.val);
      var k := Index(r, c);
      if mask[k] || Free(b, k, v) {
        assert d'[k + 1] == 1 && d[k + 1] == 0;
        RankMonotone(d, d', k + 1);
      } else if v < 9 {
        RankMonotone(d, d', k);
      } else {
        var j := Index(next.row, next.col);
        assert d'[j] == b[j] + 1 && d[j] == b[j];
        RankMonotone(d, d', j);
      }
    }
  }

  // ---------------------------------------------------------------------
  // Exhaustiveness: the search skips no completion of the puzzle.
  // ---------------------------------------------------------------------

  /**
   * `s` comes before the search state in row-major lexicographic order over
   * the open cells: either it first differs from `b` at an open cell before
   * the cursor and holds the smaller value there, or it agrees with `b`
   * before the cursor and holds less than the candidate value at the
   * cursor's open cell. These are exactly the boards the search has already
   * passed over.
   */
  ghost predicate Below(s: seq<int>, mask: seq<bool>, b: seq<int>, r: int, c: int, v: int)
    requires |b| == Cells && |mask| == Cells
  {
    var k := Index(r, c);
    |s| == Cells &&
    ((exists p :: 0 <= p < k && p < Cells && !mask[p] && AgreeBefore(s, mask, b, p) && s[p] < b[p]) ||
     (0 <= k < Cells && !mask[k] && AgreeBefore(s, mask, b, k) && s[k] < v))
  }

  /** No completion lies below the starting state. */
  lemma NothingBelowStart(mask: seq<bool>, givens: seq<int>, s: seq<int>)
    requires Puzzle(mask, givens) && Completion(s, mask, givens)
    ensures !Below(s, mask, givens, 0, 0, 1)
  {
  }

  /**
   * A board that keeps the givens, agrees with `b` before the cursor's open
   * cell and holds there a value that does not fit on `b` clashes somewhere.
   */
  lemma RejectedClashes(mask: seq<bool>, givens: seq<int>, b: seq<int>, r: int, c: int, v: int, s: seq<int>)
    requires Live(mask, givens, b, r, c, v) && r < 9 && !mask[Index(r, c)]
    requires Complete(s) && (forall i :: 0 <= i < Cells && mask[i] ==> s[i] == givens[i])
    requires AgreeBefore(s, mask, b, Index(r, c)) && !Free(b, Index(r, c), s[Index(r, c)])
    ensures !NoClash(s, mask)
  {
    var k := Index(r, c);
    var j :| 0 <= j < Cells && SameUnit(j, k) && b[j] == s[k];
    assert j != k && s[j] == b[j];
    assert SameUnit(k, j);
  }

  /**
   * Walking forward from `j` over open cells holding 9, a completion that
   * agrees with `b` through `j` either agrees with it up to `k` or first goes
   * below it at some open cell in between.
   */
  lemma {:induction false} PastNines(mask: seq<bool>, b: seq<int>, s: seq<int>, j: int, k: int)
    requires |b| == Cells && |mask| == Cells && Complete(s)
    requires -1 <= j < k <= Cells
    requires AgreeBefore(s, mask, b, j + 1)
    requires forall i :: j < i < k && !mask[i] ==> b[i] == 9
    ensures AgreeBefore(s, mask, b, k) ||
            exists i :: j < i < k && !mask[i] && AgreeBefore(s, mask, b, i) && s[i] < b[i]
  {
    if k > j + 1 {
      PastNines(mask, b, s, j, k - 1);
      if AgreeBefore(s, mask, b, k - 1) && !mask[k - 1] && s[k - 1] < 9 {
        assert s[k - 1] < b[k - 1];
      }
    }
  }

  /**
   * When 9 does not fit at the cursor and every open cell between `j` and the
   * cursor holds 9, every completion agreeing with `b` through `j` has been
   * passed over already.
   */
  lemma ExhaustedIsBelow(mask: seq<bool>, givens: seq<int>, b: seq<int>, r: int, c: int, s: seq<int>, j: int)
    requires Live(mask, givens, b, r, c, 9) && r < 9
    requires !mask[Index(r, c)] && !Free(b, Index(r, c), 9)
    requires Completion(s, mask, givens)
    requires -1 <= j < Index(r, c) && AgreeBefore(s, mask, b, j + 1)
    requires forall i :: j < i < Index(r, c) && !mask[i] ==> b[i] == 9
    ensures Below(s, mask, b, r, c, 9)
  {
    var k := Index(r, c);
    PastNines(mask, b, s, j, k);
    if AgreeBefore(s, mask, b, k) && s[k] == 9 {
      RejectedClashes(mask, givens, b, r, c, 9, s);
    }
  }

  /**
   * A completion below the state after a step was already below the state
   * before it, and a step that runs off the board leaves no completion
   * unvisited.
   */
  lemma StepSkipsNoCompletion(mask: seq<bool>, givens: seq<int>, b: seq<int>, r: int, c: int, v: int, b': seq<int>, next: Cursor, s: seq<int>)
    requires Live(mask, givens, b, r, c, v) && r < 9
    requires Step(mask, b, r, c, v, b', next)
    requires Completion(s, mask, givens)
    ensures next.row < 0 ==> Below(s, mask, b, r, c, v)
    ensures next.row >= 0 && Below(s, mask, b', next.row, next.col, next.val) ==> Below(s, mask, b, r, c, v)
  {
    var k := Index(r, c);
    if mask[k] || Free(b, k, v) {
      assert Index(next.row, next.col) == k + 1;
      if Below(s, mask, b', next.row, next.col, next.val) {
        if p :| 0 <= p < k + 1 && p < Cells && !mask[p] && AgreeBefore(s, mask, b', p) && s[p] < b'[p] {
          assert AgreeBefore(s, mask, b, p);
          if p < k {
            assert b'[p] == b[p];
          }
        }
      }
    } else if v < 9 {
      if Below(s, mask, b', next.row, next.col, next.val) && s[k] == v && AgreeBefore(s, mask, b, k) {
        RejectedClashes(mask, givens, b, r, c, v, s);
      }
    } else if next.row < 0 {
      ExhaustedIsBelow(mask, givens, b, r, c, s, -1);
    } else if Below(s, mask, b', next.row, next.col, next.val) {
      var j := Index(next.row, next.col);
      if p :| 0 <= p < j && !mask[p] && AgreeBefore(s, mask, b', p) && s[p] < b'[p] {
        assert AgreeBefore(s, mask, b, p) && b'[p] == b[p];
      } else {
        assert AgreeBefore(s, mask, b, j);
        if s[j] == b[j] {
          ExhaustedIsBelow(mask, givens, b, r, c, s, j);
        }
      }
    }
  }
}

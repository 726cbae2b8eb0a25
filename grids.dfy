/** The usual optional value: None stands for JavaScript's `null`. */
module Wrappers {
  datatype Option<+T> = None | Some(value: T)
}

/**
 * The 9x9 Sudoku grid as a value, and the rules the game checks on it.
 * A grid is nine rows of nine integers; 0 marks an empty cell.
 */
module Grids {
  import opened Wrappers

  type Grid = seq<seq<int>>

  predicate IsGrid(g: Grid) {
    |g| == 9 && forall r :: 0 <= r < 9 ==> |g[r]| == 9
  }

  predicate IsCell(r: int, c: int) {
    0 <= r < 9 && 0 <= c < 9
  }

  /** Every cell holds 0 (empty) or a digit: what the board's cell texts can show. */
  ghost predicate IsDigitGrid(g: Grid)
    requires IsGrid(g)
  {
    forall r, c :: IsCell(r, c) ==> 0 <= g[r][c] <= 9
  }

  /** The nine rows of nine empty cells the generator starts from. */
  const Empty: Grid := seq(9, _ => seq(9, _ => 0))

  /** First row (or column) of the 3x3 box holding index i: 3 * floor(i / 3). */
  function BoxStart(i: int): int {
    (i / 3) * 3
  }

  predicate SameBox(r: int, c: int, i: int, j: int) {
    BoxStart(r) == BoxStart(i) && BoxStart(c) == BoxStart(j)
  }

  lemma BoxRange(r: int, i: int)
    requires 0 <= r < 9 && 0 <= i < 9
    ensures 0 <= BoxStart(r) && BoxStart(r) + 3 <= 9
    ensures BoxStart(r) == BoxStart(i) <==> BoxStart(r) <= i < BoxStart(r) + 3
  {
  }

  // ---------------------------------------------------------------------
  // The two validity rules of the source.

  ghost predicate InRow(g: Grid, r: int, n: int)
    requires IsGrid(g) && 0 <= r < 9
  {
    exists j :: 0 <= j < 9 && g[r][j] == n
  }

  ghost predicate InCol(g: Grid, c: int, n: int)
    requires IsGrid(g) && 0 <= c < 9
  {
    exists i :: 0 <= i < 9 && g[i][c] == n
  }

  ghost predicate InBox(g: Grid, r: int, c: int, n: int)
    requires IsGrid(g)
  {
    exists i, j :: IsCell(i, j) && SameBox(r, c, i, j) && g[i][j] == n
  }

  /**
   * The solver's rule: n occurs nowhere in row r, column c or the box of (r, c).
   * The cell (r, c) itself is NOT excluded, so a filled cell is never safe for its own value.
   */
  ghost predicate Safe(g: Grid, r: int, c: int, n: int)
    requires IsGrid(g) && IsCell(r, c)
  {
    !InRow(g, r, n) && !InCol(g, c, n) && !InBox(g, r, c, n)
  }

  /** The move rule of the board: like Safe, but each unit skips the cell (r, c) itself. */
  ghost predicate ValidAt(g: Grid, r: int, c: int, n: int)
    requires IsGrid(g) && IsCell(r, c)
  {
    && (forall j :: 0 <= j < 9 && j != c ==> g[r][j] != n)
    && (forall i :: 0 <= i < 9 && i != r ==> g[i][c] != n)
    && (forall i, j :: IsCell(i, j) && SameBox(r, c, i, j) && (i != r || j != c) ==> g[i][j] != n)
  }

  /** The two rules differ exactly in the cell under test. */
  lemma SafeIsValidAtOtherCells(g: Grid, r: int, c: int, n: int)
    requires IsGrid(g) && IsCell(r, c)
    ensures Safe(g, r, c, n) <==> ValidAt(g, r, c, n) && g[r][c] != n
  {
    if ValidAt(g, r, c, n) && g[r][c] != n {
      forall j | 0 <= j < 9 ensures g[r][j] != n { }
      forall i | 0 <= i < 9 ensures g[i][c] != n { }
    }
    if !(g[r][c] != n) {
      assert InRow(g, r, n);
    }
  }

  /** Every filled cell passes the move rule for its own value. */
  ghost predicate Consistent(g: Grid)
    requires IsGrid(g)
  {
    forall r, c :: IsCell(r, c) && g[r][c] != 0 ==> ValidAt(g, r, c, g[r][c])
  }

  ghost predicate Complete(g: Grid)
    requires IsGrid(g)
  {
    forall r, c :: IsCell(r, c) ==> g[r][c] != 0
  }

  /** The board's win condition: no empty cell, and every cell passes the move rule. */
  ghost predicate Won(g: Grid)
    requires IsGrid(g)
  {
    forall r, c :: IsCell(r, c) ==> g[r][c] != 0 && ValidAt(g, r, c, g[r][c])
  }

  lemma WonIsCompleteAndConsistent(g: Grid)
    requires IsGrid(g)
    ensures Won(g) <==> Complete(g) && Consistent(g)
  {
  }

  /** A solved Sudoku: all 81 cells hold digits 1..9 and no unit repeats a digit. */
  ghost predicate IsSolution(g: Grid) {
    IsGrid(g) && Complete(g) && Consistent(g) && forall r, c :: IsCell(r, c) ==> 1 <= g[r][c] <= 9
  }

  /** s keeps every filled cell of g. */
  ghost predicate Extends(g: Grid, s: Grid)
    requires IsGrid(g)
  {
    IsGrid(s) && forall r, c :: IsCell(r, c) && g[r][c] != 0 ==> s[r][c] == g[r][c]
  }

  // ---------------------------------------------------------------------
  // Writing one cell.

  function Set(g: Grid, r: int, c: int, v: int): (s: Grid)
    requires IsGrid(g) && IsCell(r, c)
    ensures IsGrid(s) && s[r][c] == v
    ensures forall i, j :: IsCell(i, j) && (i != r || j != c) ==> s[i][j] == g[i][j]
  {
    g[r := g[r][c := v]]
  }

  /** Two grids with the same 81 cells are the same grid. */
  lemma SameCells(a: Grid, b: Grid)
    requires IsGrid(a) && IsGrid(b)
    requires forall i, j :: IsCell(i, j) ==> a[i][j] == b[i][j]
    ensures a == b
  {
    forall i | 0 <= i < 9 ensures a[i] == b[i] {
      assert forall j :: 0 <= j < 9 ==> a[i][j] == b[i][j];
    }
  }

  /**
   * Placing n in an empty cell where the solver's rule allows it keeps a consistent grid consistent:
   * the invariant behind both the solver and the generator.
   */
  lemma PlaceSafeKeepsConsistent(g: Grid, r: int, c: int, n: int)
    requires IsGrid(g) && IsCell(r, c) && g[r][c] == 0
    requires Safe(g, r, c, n) && Consistent(g)
    ensures Consistent(Set(g, r, c, n))
  {
    var s := Set(g, r, c, n);
    forall i, j | IsCell(i, j) && s[i][j] != 0 ensures ValidAt(s, i, j, s[i][j]) {
      if i == r && j == c {
        assert forall k :: 0 <= k < 9 ==> g[r][k] != n;
        assert forall k :: 0 <= k < 9 ==> g[k][c] != n;
        assert forall a, b :: IsCell(a, b) && SameBox(r, c, a, b) ==> g[a][b] != n;
      } else {
        assert ValidAt(g, i, j, g[i][j]);
        if g[i][j] == n {
          assert !InRow(g, r, n) && !InCol(g, c, n) && !InBox(g, r, c, n);
          assert i != r;
          assert j != c;
          assert !SameBox(r, c, i, j);
        }
      }
    }
  }

  /**
   * Writing a value the move rule accepts keeps a consistent grid consistent, whatever the
   * cell held before: the board's insert never creates a conflict.
   */
  lemma ValidMoveKeepsConsistent(g: Grid, r: int, c: int, n: int)
    requires IsGrid(g) && IsCell(r, c) && n != 0
    requires ValidAt(g, r, c, n) && Consistent(g)
    ensures Consistent(Set(g, r, c, n))
  {
    var s := Set(g, r, c, n);
    forall i, j | IsCell(i, j) && s[i][j] != 0 ensures ValidAt(s, i, j, s[i][j]) {
      if i != r || j != c {
        assert ValidAt(g, i, j, g[i][j]);
        if g[i][j] == n {
          assert i != r;
          assert j != c;
          assert !SameBox(r, c, i, j);
        }
      }
    }
  }

  /** Emptying a cell never creates a conflict. */
  lemma EmptyingKeepsConsistent(g: Grid, r: int, c: int)
    requires IsGrid(g) && IsCell(r, c) && Consistent(g)
    ensures Consistent(Set(g, r, c, 0))
  {
    var s := Set(g, r, c, 0);
    forall i, j | IsCell(i, j) && s[i][j] != 0 ensures ValidAt(s, i, j, s[i][j]) {
      assert ValidAt(g, i, j, g[i][j]);
    }
  }

  /** Emptying any set of cells of a consistent grid leaves a consistent grid. */
  lemma SubgridKeepsConsistent(p: Grid, g: Grid)
    requires IsGrid(p) && IsGrid(g) && Consistent(g)
    requires forall i, j :: IsCell(i, j) ==> p[i][j] == 0 || p[i][j] == g[i][j]
    ensures Consistent(p)
  {
    forall i, j | IsCell(i, j) && p[i][j] != 0 ensures ValidAt(p, i, j, p[i][j]) {
      assert ValidAt(g, i, j, g[i][j]);
    }
  }

  // ---------------------------------------------------------------------
  // Counting empty cells: the measure that makes the backtracking terminate.

  function CountZeros(row: seq<int>): nat {
    if row == [] then 0 else (if row[0] == 0 then 1 else 0) + CountZeros(row[1..])
  }

  function ZeroCount(g: Grid): nat {
    if g == [] then 0 else CountZeros(g[0]) + ZeroCount(g[1..])
  }

  lemma {:induction false} CountZerosUpdate(row: seq<int>, c: int, v: int)
    requires 0 <= c < |row|
    ensures CountZeros(row[c := v]) + (if row[c] == 0 then 1 else 0)
         == CountZeros(row) + (if v == 0 then 1 else 0)
  {
    if c > 0 {
      assert row[c := v][1..] == row[1..][c - 1 := v];
      CountZerosUpdate(row[1..], c - 1, v);
    }
  }

  lemma {:induction false} ZeroCountUpdate(g: Grid, r: int, row: seq<int>)
    requires 0 <= r < |g|
    ensures ZeroCount(g[r := row]) + CountZeros(g[r]) == ZeroCount(g) + CountZeros(row)
  {
    if r > 0 {
      assert g[r := row][1..] == g[1..][r - 1 := row];
      ZeroCountUpdate(g[1..], r - 1, row);
    }
  }

  /** Writing v into cell (r, c) changes the number of empty cells by exactly the cells' emptiness. */
  lemma ZeroCountSet(g: Grid, r: int, c: int, v: int)
    requires IsGrid(g) && IsCell(r, c)
    ensures ZeroCount(Set(g, r, c, v)) + (if g[r][c] == 0 then 1 else 0)
         == ZeroCount(g) + (if v == 0 then 1 else 0)
  {
    CountZerosUpdate(g[r], c, v);
    ZeroCountUpdate(g, r, g[r][c := v]);
  }

  lemma {:induction false} CountZerosNone(row: seq<int>)
    ensures CountZeros(row) == 0 <==> forall j :: 0 <= j < |row| ==> row[j] != 0
  {
    if row != [] {
      CountZerosNone(row[1..]);
      assert forall j :: 1 <= j < |row| ==> row[j] == row[1..][j - 1];
    }
  }

  lemma {:induction false} ZeroCountNone(g: Grid)
    ensures ZeroCount(g) == 0 <==> forall i :: 0 <= i < |g| ==> CountZeros(g[i]) == 0
  {
    if g != [] {
      ZeroCountNone(g[1..]);
      assert forall i :: 1 <= i < |g| ==> g[i] == g[1..][i - 1];
    }
  }

  /** A grid has no empty cell exactly when its empty-cell count is zero. */
  lemma CompleteIffNoZeros(g: Grid)
    requires IsGrid(g)
    ensures Complete(g) <==> ZeroCount(g) == 0
  {
    ZeroCountNone(g);
    forall i | 0 <= i < 9 ensures CountZeros(g[i]) == 0 <==> forall j :: 0 <= j < 9 ==> g[i][j] != 0 {
      CountZerosNone(g[i]);
    }
  }

  // ---------------------------------------------------------------------
  // The row-major scan for the first empty cell.

  predicate RowMajorBefore(i: int, j: int, r: int, c: int) {
    i < r || (i == r && j < c)
  }

  /**
   * The first empty cell at or after (r, c) in row-major order, the order of the
   * solver's nested `for r`, `for c` loops.
   */
  function FirstEmptyFrom(g: Grid, r: int, c: int): (p: Option<(int, int)>)
    requires IsGrid(g) && 0 <= r <= 9 && 0 <= c <= 9
    ensures p.Some? ==> IsCell(p.value.0, p.value.1) && g[p.value.0][p.value.1] == 0
    ensures p.Some? ==> !RowMajorBefore(p.value.0, p.value.1, r, c)
    ensures p.Some? ==> forall i, j ::
      (IsCell(i, j) && !RowMajorBefore(i, j, r, c) && RowMajorBefore(i, j, p.value.0, p.value.1)) ==> g[i][j] != 0
    ensures p.None? ==> forall i, j :: IsCell(i, j) && !RowMajorBefore(i, j, r, c) ==> g[i][j] != 0
    decreases 9 - r, 9 - c
  {
    if r == 9 then None
    else if c == 9 then FirstEmptyFrom(g, r + 1, 0)
    else if g[r][c] == 0 then Some((r, c))
    else FirstEmptyFrom(g, r, c + 1)
  }

  function FirstEmpty(g: Grid): (p: Option<(int, int)>)
    requires IsGrid(g)
    ensures p.None? <==> Complete(g)
    ensures p.Some? ==> IsCell(p.value.0, p.value.1) && g[p.value.0][p.value.1] == 0
    ensures p.Some? ==> forall i, j :: IsCell(i, j) && RowMajorBefore(i, j, p.value.0, p.value.1) ==> g[i][j] != 0
  {
    FirstEmptyFrom(g, 0, 0)
  }

  // ---------------------------------------------------------------------
  // The grid held by a 9x9 array.

  function Cells(a: array2<int>): (g: Grid)
    reads a
    requires a.Length0 == 9 && a.Length1 == 9
    ensures IsGrid(g)
    ensures forall i, j :: IsCell(i, j) ==> g[i][j] == a[i, j]
  {
    seq(9, i requires 0 <= i < 9 reads a => seq(9, j requires 0 <= j < 9 reads a => a[i, j]))
  }
}

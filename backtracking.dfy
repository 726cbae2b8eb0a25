/**
 * The chronological backtracking search shared by the solver and the full-grid generator, as a
 * function of the grid: take the first empty cell in row-major order, try the candidates in the
 * order given, place the first that the solver's rule allows and whose placement can be completed,
 * and report failure when none can.
 */
module Backtracking {
  import opened Wrappers
  import opened Grids

  /** Candidate order used by the solver: 1..9 ascending, at every cell. */
  function Ascending(g: Grid): (order: seq<int>)
    ensures |order| == 9 && forall k :: 0 <= k < 9 ==> order[k] == k + 1
  {
    [1, 2, 3, 4, 5, 6, 7, 8, 9]
  }

  /** Every candidate ever offered is a digit. */
  ghost predicate DigitCandidates(order: Grid -> seq<int>) {
    forall h, n :: n in order(h) ==> 1 <= n <= 9
  }

  /** Every digit is offered at every cell (true of 1..9 and of any shuffle of it). */
  ghost predicate AllDigitsOffered(order: Grid -> seq<int>) {
    forall h, n :: 1 <= n <= 9 ==> n in order(h)
  }

  lemma AscendingOffersAllDigits()
    ensures AllDigitsOffered(Ascending) && DigitCandidates(Ascending)
  {
    forall h, n | 1 <= n <= 9 ensures n in Ascending(h) {
      assert Ascending(h)[n - 1] == n;
    }
  }

  /** A shuffle of 1..9: the nine digits, each once. */
  ghost predicate IsShuffle(p: seq<int>) {
    |p| == 9 && (forall n :: 1 <= n <= 9 ==> n in p) && forall k :: 0 <= k < 9 ==> 1 <= p[k] <= 9
  }

  /** The result of the search from g: Some(completed grid), or None when it backtracks out. */
  ghost function Search(g: Grid, order: Grid -> seq<int>): Option<Grid>
    requires IsGrid(g)
    decreases ZeroCount(g), 1, 0
  {
    match FirstEmpty(g)
    case None => Some(g)
    case Some(p) => TryEach(g, order, p.0, p.1, order(g))
  }

  /** Try the candidates in cands at the empty cell (r, c), first to last. */
  ghost function TryEach(g: Grid, order: Grid -> seq<int>, r: int, c: int, cands: seq<int>): Option<Grid>
    requires IsGrid(g) && IsCell(r, c) && g[r][c] == 0
    decreases ZeroCount(g), 0, |cands|
  {
    if cands == [] then None
    else if Safe(g, r, c, cands[0]) then
      assert g[r][c] == 0 && InRow(g, r, 0);
      ZeroCountSet(g, r, c, cands[0]);
      match Search(Set(g, r, c, cands[0]), order)
      case Some(s) => Some(s)
      case None => TryEach(g, order, r, c, cands[1..])
    else TryEach(g, order, r, c, cands[1..])
  }

  /** What internalSolve computes. */
  ghost function Solution(g: Grid): Option<Grid>
    requires IsGrid(g)
  {
    Search(g, Ascending)
  }

  // ---------------------------------------------------------------------
  // Soundness: a found grid keeps the givens, has no empty cell, and is conflict-free
  // whenever the givens were.

  ghost predicate SoundResult(g: Grid, res: Option<Grid>, order: Grid -> seq<int>)
    requires IsGrid(g)
  {
    res.Some? ==>
      && Extends(g, res.value)
      && Complete(res.value)
      && (Consistent(g) ==> Consistent(res.value))
      && (DigitCandidates(order) ==> forall i, j :: IsCell(i, j) && g[i][j] == 0 ==> 1 <= res.value[i][j] <= 9)
  }

  lemma {:induction false} SearchSound(g: Grid, order: Grid -> seq<int>)
    requires IsGrid(g)
    ensures SoundResult(g, Search(g, order), order)
    decreases ZeroCount(g), 1, 0
  {
    match FirstEmpty(g)
    case None =>
    case Some(p) =>
      TryEachSound(g, order, p.0, p.1, order(g));
  }

  /** One successful placement: what holds of the grid after it carries back to the grid before. */
  lemma StepSound(g: Grid, order: Grid -> seq<int>, r: int, c: int, n: int, s: Grid)
    requires IsGrid(g) && IsCell(r, c) && g[r][c] == 0 && n in order(g)
    requires Safe(g, r, c, n)
    requires SoundResult(Set(g, r, c, n), Some(s), order)
    ensures SoundResult(g, Some(s), order)
  {
    var g' := Set(g, r, c, n);
    assert InRow(g, r, 0);
    assert s[r][c] == n;
    if Consistent(g) {
      PlaceSafeKeepsConsistent(g, r, c, n);
    }
    forall i, j | IsCell(i, j) && g[i][j] != 0 ensures s[i][j] == g[i][j] {
      assert g'[i][j] == g[i][j];
    }
  }

  lemma {:induction false} TryEachSound(g: Grid, order: Grid -> seq<int>, r: int, c: int, cands: seq<int>)
    requires IsGrid(g) && IsCell(r, c) && g[r][c] == 0
    requires forall n :: n in cands ==> n in order(g)
    ensures SoundResult(g, TryEach(g, order, r, c, cands), order)
    decreases ZeroCount(g), 0, |cands|
  {
    if cands != [] {
      var n := cands[0];
      if Safe(g, r, c, n) {
        assert InRow(g, r, 0);
        ZeroCountSet(g, r, c, n);
        var g' := Set(g, r, c, n);
        SearchSound(g', order);
        match Search(g', order)
        case Some(s) =>
          StepSound(g, order, r, c, n, s);
        case None =>
          TryEachSound(g, order, r, c, cands[1..]);
      } else {
        TryEachSound(g, order, r, c, cands[1..]);
      }
    }
  }

  /** A grid without empty cells is its own solution, conflicts or not. */
  lemma FullGridIsItsOwnSolution(g: Grid, order: Grid -> seq<int>)
    requires IsGrid(g) && Complete(g)
    ensures Search(g, order) == Some(g)
  {
  }

  /**
   * When the givens are digits without conflicts, whatever the solver returns is a solved
   * Sudoku that keeps every given.
   */
  lemma SolutionIsSudoku(g: Grid)
    requires IsGrid(g) && IsDigitGrid(g) && Consistent(g)
    requires Solution(g).Some?
    ensures IsSolution(Solution(g).value) && Extends(g, Solution(g).value)
  {
    SearchSound(g, Ascending);
  }

  /**
   * Whatever the givens, a found solution keeps them, fills every empty cell with a digit and
   * so shows only digits when the givens do.
   */
  lemma SolutionKeepsDigits(g: Grid)
    requires IsGrid(g) && IsDigitGrid(g) && Solution(g).Some?
    ensures Extends(g, Solution(g).value) && Complete(Solution(g).value)
    ensures IsDigitGrid(Solution(g).value)
  {
    SearchSound(g, Ascending);
  }

  /** The grid a successful solve leaves behind. */
  ghost function SolvedGrid(g: Grid): (s: Grid)
    requires IsGrid(g) && Solution(g).Some?
    ensures IsGrid(s) && Extends(g, s) && Complete(s)
  {
    SearchSound(g, Ascending);
    Solution(g).value
  }

  // ---------------------------------------------------------------------
  // Completeness: the search is exhaustive, so it fails only when no completion exists.

  /** A solved Sudoku that keeps the givens of g allows its own value at each empty cell of g. */
  lemma SolutionValueIsSafe(g: Grid, s: Grid, r: int, c: int)
    requires IsGrid(g) && IsSolution(s) && Extends(g, s)
    requires IsCell(r, c) && g[r][c] == 0
    ensures Safe(g, r, c, s[r][c])
  {
    var v := s[r][c];
    assert ValidAt(s, r, c, v);
    forall j | 0 <= j < 9 ensures g[r][j] != v {
      if j != c && g[r][j] != 0 { assert s[r][j] == g[r][j]; }
    }
    forall i | 0 <= i < 9 ensures g[i][c] != v {
      if i != r && g[i][c] != 0 { assert s[i][c] == g[i][c]; }
    }
    forall i, j | IsCell(i, j) && SameBox(r, c, i, j) ensures g[i][j] != v {
      if (i != r || j != c) && g[i][j] != 0 { assert s[i][j] == g[i][j]; }
    }
  }

  lemma {:induction false} SearchComplete(g: Grid, order: Grid -> seq<int>, s: Grid)
    requires IsGrid(g) && IsSolution(s) && Extends(g, s)
    requires AllDigitsOffered(order)
    ensures Search(g, order).Some?
    decreases ZeroCount(g), 1, 0
  {
    match FirstEmpty(g)
    case None =>
    case Some(p) =>
      assert s[p.0][p.1] in order(g);
      TryEachComplete(g, order, p.0, p.1, order(g), s);
  }

  lemma {:induction false} TryEachComplete(g: Grid, order: Grid -> seq<int>, r: int, c: int, cands: seq<int>, s: Grid)
    requires IsGrid(g) && IsSolution(s) && Extends(g, s)
    requires AllDigitsOffered(order)
    requires IsCell(r, c) && g[r][c] == 0 && s[r][c] in cands
    ensures TryEach(g, order, r, c, cands).Some?
    decreases ZeroCount(g), 0, |cands|
  {
    var n := cands[0];
    if n == s[r][c] {
      SolutionValueIsSafe(g, s, r, c);
      assert InRow(g, r, 0);
      ZeroCountSet(g, r, c, n);
      SearchComplete(Set(g, r, c, n), order, s);
    } else {
      assert s[r][c] in cands[1..];
      if Safe(g, r, c, n) {
        assert InRow(g, r, 0);
        ZeroCountSet(g, r, c, n);
      }
      TryEachComplete(g, order, r, c, cands[1..], s);
    }
  }

  // ---------------------------------------------------------------------
  // A solved Sudoku exists: the shifted-rows pattern. With completeness this shows that the
  // generator, which starts from the empty grid, always succeeds.

  /** Row r of the pattern is 1..9 rotated left by Shift(r). */
  function Shift(r: int): int {
    3 * (r % 3) + r / 3
  }

  function Pattern(r: int, c: int): int {
    (Shift(r) + c) % 9 + 1
  }

  const Witness: Grid := seq(9, r => seq(9, c => Pattern(r, c)))

  lemma ShiftTable(r: int)
    requires 0 <= r < 9
    ensures r / 3 == BoxStart(r) / 3 && 0 <= r % 3 < 3 && r == 3 * (r / 3) + r % 3
    ensures Shift(r) == 3 * (r % 3) + r / 3 && 0 <= Shift(r) < 9
  {
  }

  lemma Mod9(x: int)
    requires 0 <= x < 18
    ensures x % 9 == if x < 9 then x else x - 9
  {
  }

  lemma PatternRows(r: int, c: int, j: int)
    requires IsCell(r, c) && 0 <= j < 9 && j != c
    ensures Pattern(r, c) != Pattern(r, j)
  {
    ShiftTable(r);
    Mod9(Shift(r) + c);
    Mod9(Shift(r) + j);
  }

  lemma PatternCols(r: int, i: int, c: int)
    requires IsCell(r, c) && 0 <= i < 9 && i != r
    ensures Pattern(r, c) != Pattern(i, c)
  {
    ShiftTable(r);
    ShiftTable(i);
    Mod9(Shift(r) + c);
    Mod9(Shift(i) + c);
  }

  lemma PatternBoxes(r: int, c: int, i: int, j: int)
    requires IsCell(r, c) && IsCell(i, j) && SameBox(r, c, i, j) && i != r && j != c
    ensures Pattern(r, c) != Pattern(i, j)
  {
    ShiftTable(r);
    ShiftTable(i);
    ShiftTable(c);
    ShiftTable(j);
    Mod9(Shift(r) + c);
    Mod9(Shift(i) + j);
  }

  lemma WitnessIsSolution()
    ensures IsSolution(Witness)
  {
    forall r, c | IsCell(r, c) ensures ValidAt(Witness, r, c, Witness[r][c]) {
      forall j | 0 <= j < 9 && j != c ensures Witness[r][j] != Witness[r][c] { PatternRows(r, c, j); }
      forall i | 0 <= i < 9 && i != r ensures Witness[i][c] != Witness[r][c] { PatternCols(r, i, c); }
      forall i, j | IsCell(i, j) && SameBox(r, c, i, j) && (i != r || j != c)
        ensures Witness[i][j] != Witness[r][c]
      {
        if i == r { PatternRows(r, c, j); }
        else if j == c { PatternCols(r, i, c); }
        else { PatternBoxes(r, c, i, j); }
      }
    }
  }

  /** From the empty grid the search succeeds for every candidate order offering all digits. */
  lemma EmptyGridIsSolvable(order: Grid -> seq<int>)
    requires AllDigitsOffered(order)
    ensures Search(Empty, order).Some?
  {
    WitnessIsSolution();
    SearchComplete(Empty, order, Witness);
  }
}

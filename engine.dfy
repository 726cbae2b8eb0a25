/**
 * The Sudoku engine of public/sudoku.js: the solver's validity check, the in-place backtracking
 * solver, the randomised full-grid generator and the puzzle carver. Grids live in 9x9 arrays that
 * the algorithms update in place; `Cells` reads such an array as a Grid value.
 */
module Engine {
  import opened Wrappers
  import opened Grids
  import opened Backtracking

  /** Number of random cell picks the carver may make (`let attempts = 200`). */
  const AttemptBudget := 200

  /** Number of cells generatePuzzle tries to empty when called without an argument. */
  const DefaultRemoveCount := 45

  predicate Is9x9(a: array2<int>) {
    a.Length0 == 9 && a.Length1 == 9
  }

  /** isSafeLocal: n occurs nowhere in row r, column c or the box of (r, c), the cell itself included. */
  method IsSafeLocal(g: array2<int>, r: int, c: int, n: int) returns (safe: bool)
    requires Is9x9(g) && IsCell(r, c)
    ensures safe == Safe(Cells(g), r, c, n)
  {
    for i := 0 to 9
      invariant forall k :: 0 <= k < i ==> g[r, k] != n && g[k, c] != n
    {
      if g[r, i] == n || g[i, c] == n {
        assert Cells(g)[r][i] == g[r, i] && Cells(g)[i][c] == g[i, c];
        return false;
      }
    }
    var sr, sc := BoxStart(r), BoxStart(c);
    BoxRange(r, r);
    BoxRange(c, c);
    for i := sr to sr + 3
      invariant forall a, b :: sr <= a < i && sc <= b < sc + 3 ==> g[a, b] != n
    {
      for j := sc to sc + 3
        invariant forall b :: sc <= b < j ==> g[i, b] != n
      {
        if g[i, j] == n {
          BoxRange(r, i);
          BoxRange(c, j);
          assert IsCell(i, j) && SameBox(r, c, i, j) && Cells(g)[i][j] == n;
          return false;
        }
      }
    }
    forall a, b | IsCell(a, b) && SameBox(r, c, a, b) ensures Cells(g)[a][b] != n {
      BoxRange(r, a);
      BoxRange(c, b);
    }
    return true;
  }

  /**
   * The row-major scan that opens internalSolve and fill(): the nested `for r`, `for c` loops stop
   * at the first empty cell, and a grid without one is already solved.
   */
  method FindEmpty(g: array2<int>) returns (empty: Option<(int, int)>)
    requires Is9x9(g)
    ensures empty == FirstEmpty(Cells(g))
  {
    for r := 0 to 9
      invariant FirstEmpty(Cells(g)) == FirstEmptyFrom(Cells(g), r, 0)
    {
      for c := 0 to 9
        invariant FirstEmpty(Cells(g)) == FirstEmptyFrom(Cells(g), r, c)
      {
        if g[r, c] == 0 {
          assert Cells(g)[r][c] == 0;
          return Some((r, c));
        }
      }
    }
    return None;
  }

  /**
   * internalSolve: fills the empty cells of g in place by chronological backtracking. The result
   * and the final grid are those of the search function Solution; on failure every trial
   * placement has been reset, so g is exactly as given.
   */
  method InternalSolve(g: array2<int>) returns (ok: bool)
    requires Is9x9(g)
    modifies g
    ensures ok == Solution(old(Cells(g))).Some?
    ensures Cells(g) == if ok then Solution(old(Cells(g))).value else old(Cells(g))
    decreases ZeroCount(Cells(g)), 1
  {
    ghost var g0 := Cells(g);
    var empty := FindEmpty(g);
    if empty.None? {
      return true;
    }
    var (r, c) := empty.value;
    for n := 1 to 10
      invariant Cells(g) == g0
      invariant Solution(g0) == TryEach(g0, Ascending, r, c, Ascending(g0)[n - 1..])
    {
      ghost var rest := Ascending(g0)[n - 1..];
      assert rest[0] == n && rest[1..] == Ascending(g0)[n..];
      ok := TryCandidate(g, r, c, n);
      if ok {
        return;
      }
    }
    return false;
  }

  /**
   * One pass of internalSolve's candidate loop at the empty cell (r, c): when n is safe there it
   * is placed and the solver recurses; a failed recursion resets the cell to 0.
   */
  method TryCandidate(g: array2<int>, r: int, c: int, n: int) returns (ok: bool)
    requires Is9x9(g) && IsCell(r, c) && g[r, c] == 0
    modifies g
    ensures ok == (Safe(old(Cells(g)), r, c, n) && Search(Set(old(Cells(g)), r, c, n), Ascending).Some?)
    ensures Cells(g) == if ok then Search(Set(old(Cells(g)), r, c, n), Ascending).value else old(Cells(g))
    decreases ZeroCount(Cells(g)), 0
  {
    ghost var g0 := Cells(g);
    var safe := IsSafeLocal(g, r, c, n);
    if !safe {
      return false;
    }
    g[r, c] := n;
    SameCells(Cells(g), Set(g0, r, c, n));
    assert g0[r][c] == 0 && InRow(g0, r, 0);
    ZeroCountSet(g0, r, c, n);
    ok := InternalSolve(g);
    if !ok {
      g[r, c] := 0;
      SameCells(Cells(g), g0);
    }
  }

  /**
   * generateFull's inner fill(): the same backtracking as InternalSolve, but at each empty cell the
   * candidates are tried in the order of a fresh shuffle of 1..9. The random shuffle is modelled as
   * an arbitrary function of the current grid: within one run every call of fill() sees a different
   * grid, so this covers every sequence of shuffles.
   */
  method Fill(g: array2<int>, shuffle: Grid -> seq<int>) returns (ok: bool)
    requires Is9x9(g)
    modifies g
    ensures ok == Search(old(Cells(g)), shuffle).Some?
    ensures Cells(g) == if ok then Search(old(Cells(g)), shuffle).value else old(Cells(g))
    decreases ZeroCount(Cells(g)), 1
  {
    ghost var g0 := Cells(g);
    var empty := FindEmpty(g);
    if empty.None? {
      return true;
    }
    var (r, c) := empty.value;
    var shuffled := shuffle(Cells(g));
    for k := 0 to |shuffled|
      invariant Cells(g) == g0
      invariant Search(g0, shuffle) == TryEach(g0, shuffle, r, c, shuffled[k..])
    {
      assert shuffled[k..][1..] == shuffled[k + 1..];
      ok := TryShuffled(g, shuffle, r, c, shuffled[k]);
      if ok {
        return;
      }
    }
    return false;
  }

  /** One pass of fill()'s candidate loop, as TryCandidate is for internalSolve. */
  method TryShuffled(g: array2<int>, shuffle: Grid -> seq<int>, r: int, c: int, n: int) returns (ok: bool)
    requires Is9x9(g) && IsCell(r, c) && g[r, c] == 0
    modifies g
    ensures ok == (Safe(old(Cells(g)), r, c, n) && Search(Set(old(Cells(g)), r, c, n), shuffle).Some?)
    ensures Cells(g) == if ok then Search(Set(old(Cells(g)), r, c, n), shuffle).value else old(Cells(g))
    decreases ZeroCount(Cells(g)), 0
  {
    ghost var g0 := Cells(g);
    var safe := IsSafeLocal(g, r, c, n);
    if !safe {
      return false;
    }
    g[r, c] := n;
    SameCells(Cells(g), Set(g0, r, c, n));
    assert g0[r][c] == 0 && InRow(g0, r, 0);
    ZeroCountSet(g0, r, c, n);
    ok := Fill(g, shuffle);
    if !ok {
      g[r, c] := 0;
      SameCells(Cells(g), g0);
    }
  }

  /** Shuffles of 1..9 offer every digit and nothing else. */
  lemma ShufflesOfferDigits(shuffle: Grid -> seq<int>)
    requires forall h :: IsShuffle(shuffle(h))
    ensures AllDigitsOffered(shuffle) && DigitCandidates(shuffle)
  {
    forall h, n | n in shuffle(h) ensures 1 <= n <= 9 {
      assert IsShuffle(shuffle(h));
    }
  }

  /**
   * generateFull: fill an empty grid. fill()'s result is ignored, so a failed search would
   * return the empty grid; with real shuffles the search never fails, and the grid is a solved
   * Sudoku.
   */
  method GenerateFull(shuffle: Grid -> seq<int>) returns (grid: array2<int>)
    ensures Is9x9(grid)
    ensures Cells(grid) == if Search(Empty, shuffle).Some? then Search(Empty, shuffle).value else Empty
    ensures (forall h :: IsShuffle(shuffle(h))) ==> IsSolution(Cells(grid))
  {
    grid := new int[9, 9]((_, _) => 0);
    SameCells(Cells(grid), Empty);
    var _ := Fill(grid, shuffle);
    if forall h :: IsShuffle(shuffle(h)) {
      ShuffledSearchSolves(shuffle);
    }
  }

  /** With real shuffles, the search from the empty grid always ends in a solved Sudoku. */
  lemma ShuffledSearchSolves(shuffle: Grid -> seq<int>)
    requires forall h :: IsShuffle(shuffle(h))
    ensures Search(Empty, shuffle).Some? && IsSolution(Search(Empty, shuffle).value)
  {
    ShufflesOfferDigits(shuffle);
    EmptyGridIsSolvable(shuffle);
    SearchSound(Empty, shuffle);
  }

  /** The solved grid generateFull produces from real shuffles. */
  ghost function FullGrid(shuffle: Grid -> seq<int>): (g: Grid)
    requires forall h :: IsShuffle(shuffle(h))
    ensures IsSolution(g) && Search(Empty, shuffle) == Some(g)
  {
    ShuffledSearchSolves(shuffle);
    Search(Empty, shuffle).value
  }

  /**
   * The puzzle a new game starts from: the grid generateFull fills, carved with the first
   * AttemptBudget picks.
   */
  ghost function GeneratedPuzzle(shuffle: Grid -> seq<int>, removeCount: int, picks: seq<(int, int)>): (p: Grid)
    requires forall h :: IsShuffle(shuffle(h))
    requires |picks| >= AttemptBudget && PicksOnBoard(picks)
    ensures IsGrid(p)
  {
    Carved(FullGrid(shuffle), 0, removeCount, picks[..AttemptBudget]).0
  }

  /** The row-by-row copy `g.map(r => r.slice())`. */
  method CopyGrid(src: array2<int>) returns (dst: array2<int>)
    requires Is9x9(src)
    ensures fresh(dst) && Is9x9(dst) && Cells(dst) == Cells(src)
  {
    dst := new int[9, 9];
    for r := 0 to 9
      invariant forall i, j :: 0 <= i < r && 0 <= j < 9 ==> dst[i, j] == src[i, j]
    {
      for c := 0 to 9
        invariant forall i, j :: 0 <= i < r && 0 <= j < 9 ==> dst[i, j] == src[i, j]
        invariant forall j :: 0 <= j < c ==> dst[r, j] == src[r, j]
      {
        dst[r, c] := src[r, c];
      }
    }
    SameCells(Cells(dst), Cells(src));
  }

  /** `g.map(r => r.slice())` on a received grid: fresh rows holding its values, to work on in place. */
  method FromRows(g: Grid) returns (a: array2<int>)
    requires IsGrid(g)
    ensures fresh(a) && Is9x9(a) && Cells(a) == g
  {
    a := new int[9, 9];
    for r := 0 to 9
      invariant forall i, j :: 0 <= i < r && 0 <= j < 9 ==> a[i, j] == g[i][j]
    {
      for c := 0 to 9
        invariant forall i, j :: 0 <= i < r && 0 <= j < 9 ==> a[i, j] == g[i][j]
        invariant forall j :: 0 <= j < c ==> a[r, j] == g[r][j]
      {
        a[r, c] := g[r][c];
      }
    }
    SameCells(Cells(a), g);
  }

  /** The rows of a 9x9 array as a grid value, read cell by cell. */
  method ToRows(a: array2<int>) returns (grid: Grid)
    requires Is9x9(a)
    ensures grid == Cells(a)
  {
    grid := [];
    for r := 0 to 9
      invariant grid == Cells(a)[..r]
    {
      var values := [];
      for c := 0 to 9
        invariant values == Cells(a)[r][..c]
      {
        values := values + [a[r, c]];
      }
      assert values == Cells(a)[r];
      assert Cells(a)[..r + 1] == Cells(a)[..r] + [Cells(a)[r]];
      grid := grid + [values];
    }
  }

  /**
   * One attempt of the carving loop at the picked cell (r, c). An empty cell is skipped and
   * nothing changes; otherwise the cell is emptied and kept empty exactly when a copy of the
   * result is solvable; a rejected removal puts the old value back.
   */
  method TryRemove(puzzle: array2<int>, r: int, c: int) returns (kept: bool)
    requires Is9x9(puzzle) && IsCell(r, c)
    modifies puzzle
    ensures old(puzzle[r, c]) == 0 ==> !kept
    ensures old(puzzle[r, c]) != 0 ==> kept == Solution(Set(old(Cells(puzzle)), r, c, 0)).Some?
    ensures Cells(puzzle) == if kept then Set(old(Cells(puzzle)), r, c, 0) else old(Cells(puzzle))
  {
    ghost var p0 := Cells(puzzle);
    if puzzle[r, c] == 0 {
      return false;
    }
    var backup := puzzle[r, c];
    puzzle[r, c] := 0;
    SameCells(Cells(puzzle), Set(p0, r, c, 0));
    var copy := CopyGrid(puzzle);
    var solvable := InternalSolve(copy);
    if !solvable {
      puzzle[r, c] := backup;
      SameCells(Cells(puzzle), p0);
      kept := false;
    } else {
      kept := true;
    }
  }

  /** A puzzle obtained from a solved Sudoku by emptying cells is always solvable. */
  lemma CarvedGridIsSolvable(full: Grid, p: Grid)
    requires IsSolution(full) && IsGrid(p)
    requires forall i, j :: IsCell(i, j) ==> p[i][j] == 0 || p[i][j] == full[i][j]
    ensures Solution(p).Some?
  {
    SearchComplete(p, Ascending, full);
  }

  /** Every pick names a cell of the board. */
  predicate PicksOnBoard(picks: seq<(int, int)>) {
    forall k :: 0 <= k < |picks| ==> IsCell(picks[k].0, picks[k].1)
  }

  /**
   * What the carving loop does with the picks still to come, from puzzle p with `removed` cells
   * emptied so far: it stops once removeCount cells are empty or the picks run out; a pick that
   * is already empty is passed over; otherwise the cell is emptied, and stays empty exactly when
   * the puzzle without it is still solvable. The result is the final puzzle and count.
   */
  ghost function Carved(p: Grid, removed: nat, removeCount: int, picks: seq<(int, int)>): (res: (Grid, nat))
    requires IsGrid(p) && PicksOnBoard(picks)
    ensures IsGrid(res.0) && removed <= res.1 <= removed + |picks|
    ensures res.1 == removed || res.1 <= removeCount
    decreases |picks|
  {
    if removed >= removeCount || picks == [] then (p, removed)
    else
      var (r, c) := picks[0];
      if p[r][c] != 0 && Solution(Set(p, r, c, 0)).Some? then Carved(Set(p, r, c, 0), removed + 1, removeCount, picks[1..])
      else Carved(p, removed, removeCount, picks[1..])
  }

  /** One attempt of the carver, for a puzzle that has not yet reached removeCount. */
  lemma CarvedStep(p: Grid, removed: nat, removeCount: int, picks: seq<(int, int)>)
    requires IsGrid(p) && PicksOnBoard(picks) && removed < removeCount && picks != []
    ensures var (r, c) := picks[0];
      Carved(p, removed, removeCount, picks)
        == if p[r][c] != 0 && Solution(Set(p, r, c, 0)).Some? then Carved(Set(p, r, c, 0), removed + 1, removeCount, picks[1..])
           else Carved(p, removed, removeCount, picks[1..])
  {
  }

  /** Carving only ever empties cells: every filled cell of the carved puzzle is one of p's. */
  lemma {:induction false} CarvedExtends(p: Grid, removed: nat, removeCount: int, picks: seq<(int, int)>)
    requires IsGrid(p) && PicksOnBoard(picks)
    ensures Extends(Carved(p, removed, removeCount, picks).0, p)
    decreases |picks|
  {
    if removed >= removeCount || picks == [] {
      assert Carved(p, removed, removeCount, picks) == (p, removed);
    } else {
      var (r, c) := picks[0];
      if p[r][c] != 0 && Solution(Set(p, r, c, 0)).Some? {
        var p' := Set(p, r, c, 0);
        assert Carved(p, removed, removeCount, picks) == Carved(p', removed + 1, removeCount, picks[1..]);
        CarvedExtends(p', removed + 1, removeCount, picks[1..]);
      } else {
        assert Carved(p, removed, removeCount, picks) == Carved(p, removed, removeCount, picks[1..]);
        CarvedExtends(p, removed, removeCount, picks[1..]);
      }
    }
  }

  /** Each removal the carver counts empties exactly one more cell. */
  lemma {:induction false} CarvedCount(p: Grid, removed: nat, removeCount: int, picks: seq<(int, int)>)
    requires IsGrid(p) && PicksOnBoard(picks)
    ensures ZeroCount(Carved(p, removed, removeCount, picks).0) + removed == ZeroCount(p) + Carved(p, removed, removeCount, picks).1
    decreases |picks|
  {
    if removed >= removeCount || picks == [] {
      assert Carved(p, removed, removeCount, picks) == (p, removed);
    } else {
      var (r, c) := picks[0];
      if p[r][c] != 0 && Solution(Set(p, r, c, 0)).Some? {
        var p' := Set(p, r, c, 0);
        assert Carved(p, removed, removeCount, picks) == Carved(p', removed + 1, removeCount, picks[1..]);
        ZeroCountSet(p, r, c, 0);
        CarvedCount(p', removed + 1, removeCount, picks[1..]);
      } else {
        assert Carved(p, removed, removeCount, picks) == Carved(p, removed, removeCount, picks[1..]);
        CarvedCount(p, removed, removeCount, picks[1..]);
      }
    }
  }

  /** The carver never leaves an unsolvable puzzle: it either removed nothing or its result is solvable. */
  lemma {:induction false} CarvedSolvable(p: Grid, removed: nat, removeCount: int, picks: seq<(int, int)>)
    requires IsGrid(p) && PicksOnBoard(picks)
    ensures Carved(p, removed, removeCount, picks).0 == p || Solution(Carved(p, removed, removeCount, picks).0).Some?
    decreases |picks|
  {
    if removed >= removeCount || picks == [] {
      assert Carved(p, removed, removeCount, picks) == (p, removed);
    } else {
      var (r, c) := picks[0];
      if p[r][c] != 0 && Solution(Set(p, r, c, 0)).Some? {
        var p' := Set(p, r, c, 0);
        assert Carved(p, removed, removeCount, picks) == Carved(p', removed + 1, removeCount, picks[1..]);
        CarvedSolvable(p', removed + 1, removeCount, picks[1..]);
      } else {
        assert Carved(p, removed, removeCount, picks) == Carved(p, removed, removeCount, picks[1..]);
        CarvedSolvable(p, removed, removeCount, picks[1..]);
      }
    }
  }

  /**
   * The carving loop of generatePuzzle. Picks (the `Math.random` cell choices) are consumed one
   * per attempt, at most AttemptBudget of them; the loop stops once removeCount cells are empty
   * or the budget is spent.
   */
  method Carve(full: array2<int>, removeCount: int, picks: seq<(int, int)>) returns (puzzle: array2<int>, removed: nat)
    requires Is9x9(full)
    requires |picks| >= AttemptBudget && PicksOnBoard(picks)
    ensures Is9x9(puzzle)
    ensures (Cells(puzzle), removed) == Carved(Cells(full), 0, removeCount, picks[..AttemptBudget])
    ensures removed <= AttemptBudget && (removed == 0 || removed <= removeCount)
    ensures forall i, j :: IsCell(i, j) ==> puzzle[i, j] == 0 || puzzle[i, j] == full[i, j]
    ensures ZeroCount(Cells(puzzle)) == ZeroCount(Cells(full)) + removed
    ensures Cells(puzzle) == Cells(full) || Solution(Cells(puzzle)).Some?
    ensures IsSolution(Cells(full)) ==> Solution(Cells(puzzle)).Some?
  {
    puzzle := CopyGrid(full);
    removed := 0;
    var attempts := AttemptBudget;
    while removed < removeCount && attempts > 0
      invariant 0 <= attempts <= AttemptBudget
      invariant fresh(puzzle) && Is9x9(puzzle)
      invariant Carved(Cells(full), 0, removeCount, picks[..AttemptBudget])
             == Carved(Cells(puzzle), removed, removeCount, picks[AttemptBudget - attempts..AttemptBudget])
      decreases attempts
    {
      ghost var rest := picks[AttemptBudget - attempts..AttemptBudget];
      attempts := attempts - 1;
      var (r, c) := picks[AttemptBudget - attempts - 1];
      assert rest[0] == (r, c) && rest[1..] == picks[AttemptBudget - attempts..AttemptBudget];
      ghost var before := Cells(puzzle);
      assert before[r][c] == puzzle[r, c];
      CarvedStep(before, removed, removeCount, rest);
      var kept := TryRemove(puzzle, r, c);
      if kept {
        removed := removed + 1;
      }
    }
    assert picks[AttemptBudget - attempts..AttemptBudget] == [] || removed >= removeCount;
    CarvedExtends(Cells(full), 0, removeCount, picks[..AttemptBudget]);
    CarvedCount(Cells(full), 0, removeCount, picks[..AttemptBudget]);
    CarvedSolvable(Cells(full), 0, removeCount, picks[..AttemptBudget]);
    if IsSolution(Cells(full)) {
      CarvedGridIsSolvable(Cells(full), Cells(puzzle));
    }
  }
}

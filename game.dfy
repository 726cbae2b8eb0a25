/**
 * The board of public/sudoku.js: the module state around the engine. The DOM grid of 81 cells
 * is abstracted to a 9x9 array of the values their texts show (0 for an empty text), the
 * `prefilledMask` to a 9x9 array of booleans, and `selected` to the pair row, col.
 */
module Game {
  import opened Wrappers
  import opened Grids
  import opened Backtracking
  import opened Engine

  /** What insert reports: the cell is fixed, the value breaks the move rule, or it was written. */
  datatype InsertResult = Fixed | Invalid | Inserted(won: bool)

  /**
   * What the carver hands to the board: a solved grid with `removed` cells emptied is a grid of
   * digits without conflicts, still solvable, with exactly `removed` empty cells.
   */
  lemma CarvedPuzzle(full: Grid, p: Grid, removed: nat)
    requires IsSolution(full) && IsGrid(p)
    requires forall i, j :: IsCell(i, j) ==> p[i][j] == 0 || p[i][j] == full[i][j]
    requires ZeroCount(p) == ZeroCount(full) + removed
    ensures IsDigitGrid(p) && Consistent(p) && Solution(p).Some? && ZeroCount(p) == removed
  {
    CompleteIffNoZeros(full);
    SubgridKeepsConsistent(p, full);
    CarvedGridIsSolvable(full, p);
  }

  /**
   * The part of generatePuzzle that builds the puzzle: generate a full grid, carve it, and read
   * the result as rows.
   */
  method MakePuzzle(removeCount: int, shuffle: Grid -> seq<int>, picks: seq<(int, int)>) returns (values: Grid)
    requires forall h :: IsShuffle(shuffle(h))
    requires |picks| >= AttemptBudget && PicksOnBoard(picks)
    ensures values == GeneratedPuzzle(shuffle, removeCount, picks)
    ensures IsGrid(values) && IsDigitGrid(values) && Consistent(values) && Solution(values).Some?
    ensures ZeroCount(values) <= AttemptBudget && (ZeroCount(values) == 0 || ZeroCount(values) <= removeCount)
  {
    var full := GenerateFull(shuffle);
    var puzzle, removed := Carve(full, removeCount, picks);
    CarvedPuzzle(Cells(full), Cells(puzzle), removed);
    values := ToRows(puzzle);
  }

  class Board {
    const cells: array2<int>
    const prefilled: array2<bool>
    var row: int
    var col: int

    ghost predicate Valid()
      reads this, cells
    {
      && Is9x9(cells)
      && prefilled.Length0 == 9 && prefilled.Length1 == 9
      && IsCell(row, col)
      && forall i, j :: IsCell(i, j) ==> 0 <= cells[i, j] <= 9
    }

    /** Exactly the filled cells are prefilled, as after a puzzle is loaded with markPrefilled. */
    ghost predicate GivensPrefilled()
      reads cells, prefilled
      requires Is9x9(cells) && prefilled.Length0 == 9 && prefilled.Length1 == 9
    {
      forall i, j :: IsCell(i, j) ==> prefilled[i, j] == (cells[i, j] != 0)
    }

    /** The grid the cells show. */
    ghost function Values(): (g: Grid)
      reads this, cells
      requires Valid()
      ensures IsGrid(g) && IsDigitGrid(g)
    {
      Cells(cells)
    }

    /** createGrid: 81 empty cells, none prefilled, the selection at the top-left cell. */
    constructor ()
      ensures Valid() && fresh(cells) && fresh(prefilled)
      ensures Values() == Empty && row == 0 && col == 0
      ensures forall i, j :: IsCell(i, j) ==> !prefilled[i, j]
    {
      cells := new int[9, 9]((_, _) => 0);
      prefilled := new bool[9, 9]((_, _) => false);
      row, col := 0, 0;
      new;
      SameCells(Cells(cells), Empty);
    }

    /** selectCell: moves the selection to (r, c); a position without a cell changes nothing. */
    method SelectCell(r: int, c: int)
      requires Valid()
      modifies this
      ensures Valid()
      ensures (row, col) == if IsCell(r, c) then (r, c) else old((row, col))
      ensures Values() == old(Values())
    {
      if !IsCell(r, c) {
        return;
      }
      row, col := r, c;
    }

    /** getGridValues: the rows of the grid, read cell by cell. */
    method GetGridValues() returns (grid: Grid)
      requires Valid()
      ensures grid == Values()
    {
      grid := ToRows(cells);
    }

    /**
     * isValidMove: num does not occur in row r, column c or the box of (r, c), the cell (r, c)
     * itself excepted.
     */
    method IsValidMove(r: int, c: int, num: int) returns (ok: bool)
      requires Valid() && IsCell(r, c)
      ensures ok == ValidAt(Values(), r, c, num)
    {
      for j := 0 to 9
        invariant forall k :: 0 <= k < j && k != c ==> cells[r, k] != num
      {
        if j != c && cells[r, j] == num {
          assert Values()[r][j] == num;
          return false;
        }
      }
      for i := 0 to 9
        invariant forall k :: 0 <= k < i && k != r ==> cells[k, c] != num
      {
        if i != r && cells[i, c] == num {
          assert Values()[i][c] == num;
          return false;
        }
      }
      var sr, sc := BoxStart(r), BoxStart(c);
      BoxRange(r, r);
      BoxRange(c, c);
      for i := sr to sr + 3
        invariant forall a, b :: sr <= a < i && sc <= b < sc + 3 && (a != r || b != c) ==> cells[a, b] != num
      {
        for j := sc to sc + 3
          invariant forall b :: sc <= b < j && (i != r || b != c) ==> cells[i, b] != num
        {
          if !(i == r && j == c) && cells[i, j] == num {
            BoxRange(r, i);
            BoxRange(c, j);
            assert Values()[i][j] == num;
            return false;
          }
        }
      }
      forall a, b | IsCell(a, b) && SameBox(r, c, a, b) && (a != r || b != c) ensures Values()[a][b] != num {
        BoxRange(r, a);
        BoxRange(c, b);
      }
      return true;
    }

    /** isWin: no cell is empty and every cell's value passes the move rule at that cell. */
    method IsWin() returns (won: bool)
      requires Valid()
      ensures won == Won(Values())
      ensures won <==> Complete(Values()) && Consistent(Values())
    {
      ghost var g := Values();
      WonIsCompleteAndConsistent(g);
      for r := 0 to 9
        invariant forall i, j :: 0 <= i < r && 0 <= j < 9 ==> g[i][j] != 0 && ValidAt(g, i, j, g[i][j])
      {
        for c := 0 to 9
          invariant forall i, j :: 0 <= i < r && 0 <= j < 9 ==> g[i][j] != 0 && ValidAt(g, i, j, g[i][j])
          invariant forall j :: 0 <= j < c ==> g[r][j] != 0 && ValidAt(g, r, j, g[r][j])
        {
          assert g[r][c] == cells[r, c];
          if cells[r, c] == 0 {
            return false;
          }
          var ok := IsValidMove(r, c, cells[r, c]);
          if !ok {
            return false;
          }
        }
      }
      return true;
    }

    /**
     * setGridValues: shows values in the cells; with markPrefilled exactly the non-empty cells
     * become prefilled, without it no cell stays prefilled. The selection is re-selected as is.
     */
    method SetGridValues(values: Grid, markPrefilled: bool)
      requires Valid() && IsGrid(values) && IsDigitGrid(values)
      modifies this, cells, prefilled
      ensures Valid() && Values() == values
      ensures forall i, j :: IsCell(i, j) ==> prefilled[i, j] == (markPrefilled && values[i][j] != 0)
      ensures markPrefilled ==> GivensPrefilled()
      ensures row == old(row) && col == old(col)
    {
      for r := 0 to 9
        invariant Valid() && row == old(row) && col == old(col)
        invariant forall i, j :: 0 <= i < r && 0 <= j < 9 ==> cells[i, j] == values[i][j]
        invariant forall i, j :: 0 <= i < r && 0 <= j < 9 ==> prefilled[i, j] == (markPrefilled && values[i][j] != 0)
      {
        for c := 0 to 9
          invariant Valid() && row == old(row) && col == old(col)
          invariant forall i, j :: 0 <= i < r && 0 <= j < 9 ==> cells[i, j] == values[i][j]
          invariant forall i, j :: 0 <= i < r && 0 <= j < 9 ==> prefilled[i, j] == (markPrefilled && values[i][j] != 0)
          invariant forall j :: 0 <= j < c ==> cells[r, j] == values[r][j]
          invariant forall j :: 0 <= j < c ==> prefilled[r, j] == (markPrefilled && values[r][j] != 0)
        {
          cells[r, c] := values[r][c];
          if markPrefilled && values[r][c] != 0 {
            prefilled[r, c] := true;
          } else {
            prefilled[r, c] := false;
          }
        }
      }
      SameCells(Values(), values);
      SelectCell(row, col);
    }

    /**
     * insert: writes n into the selected cell unless the cell is prefilled or n breaks the move
     * rule there; after a write it checks for a win. Prefilled cells never change, and a grid
     * without conflicts stays without conflicts.
     */
    method Insert(n: int) returns (result: InsertResult)
      requires Valid() && 1 <= n <= 9
      modifies cells
      ensures Valid()
      ensures result == if prefilled[row, col] then Fixed
                        else if !ValidAt(old(Values()), row, col, n) then Invalid
                        else Inserted(Won(Values()))
      ensures Values() == if result.Inserted? then Set(old(Values()), row, col, n) else old(Values())
      ensures forall i, j :: IsCell(i, j) && prefilled[i, j] ==> cells[i, j] == old(cells[i, j])
      ensures Consistent(old(Values())) ==> Consistent(Values())
    {
      if prefilled[row, col] {
        return Fixed;
      }
      var ok := IsValidMove(row, col, n);
      if !ok {
        return Invalid;
      }
      ghost var before := Values();
      cells[row, col] := n;
      SameCells(Values(), Set(before, row, col, n));
      if Consistent(before) {
        ValidMoveKeepsConsistent(before, row, col, n);
      }
      var won := IsWin();
      return Inserted(won);
    }

    /** clear: empties the selected cell unless it is prefilled. */
    method Clear() returns (cleared: bool)
      requires Valid()
      modifies cells
      ensures Valid()
      ensures cleared == !prefilled[row, col]
      ensures Values() == if cleared then Set(old(Values()), row, col, 0) else old(Values())
      ensures forall i, j :: IsCell(i, j) && prefilled[i, j] ==> cells[i, j] == old(cells[i, j])
      ensures Consistent(old(Values())) ==> Consistent(Values())
    {
      if prefilled[row, col] {
        return false;
      }
      ghost var before := Values();
      cells[row, col] := 0;
      SameCells(Values(), Set(before, row, col, 0));
      if Consistent(before) {
        EmptyingKeepsConsistent(before, row, col);
      }
      return true;
    }

    /** revealCell: writes val into (r, c), marks it prefilled and selects it. */
    method RevealCell(r: int, c: int, val: int)
      requires Valid() && 0 <= val <= 9
      modifies this, cells, prefilled
      ensures Valid()
      ensures IsCell(r, c) ==> Values() == Set(old(Values()), r, c, val) && prefilled[r, c] && row == r && col == c
      ensures !IsCell(r, c) ==> Values() == old(Values()) && row == old(row) && col == old(col)
      ensures forall i, j :: IsCell(i, j) && (i != r || j != c) ==> prefilled[i, j] == old(prefilled[i, j])
    {
      if !IsCell(r, c) {
        return;
      }
      ghost var before := Values();
      cells[r, c] := val;
      prefilled[r, c] := true;
      SameCells(Values(), Set(before, r, c, val));
      SelectCell(r, c);
    }

    /**
     * generatePuzzle: a full grid from the generator, carved with the given random picks, shown
     * with its filled cells prefilled and the top-left cell selected. The shown puzzle is free of
     * conflicts and solvable, and has at most removeCount empty cells.
     */
    method GeneratePuzzle(removeCount: int, shuffle: Grid -> seq<int>, picks: seq<(int, int)>)
      requires Valid()
      requires forall h :: IsShuffle(shuffle(h))
      requires |picks| >= AttemptBudget && PicksOnBoard(picks)
      modifies this, cells, prefilled
      ensures Valid() && row == 0 && col == 0
      ensures Values() == GeneratedPuzzle(shuffle, removeCount, picks)
      ensures Consistent(Values()) && Solution(Values()).Some?
      ensures ZeroCount(Values()) <= AttemptBudget && (ZeroCount(Values()) == 0 || ZeroCount(Values()) <= removeCount)
      ensures GivensPrefilled()
    {
      var values := MakePuzzle(removeCount, shuffle, picks);
      ShowPuzzle(values);
    }

    /** The end of generatePuzzle: load the puzzle with its filled cells prefilled, select the top-left cell. */
    method ShowPuzzle(values: Grid)
      requires Valid() && IsGrid(values) && IsDigitGrid(values)
      modifies this, cells, prefilled
      ensures Valid() && row == 0 && col == 0
      ensures Values() == values && GivensPrefilled()
    {
      SetGridValues(values, true);
      SelectCell(0, 0);
    }
  }
}

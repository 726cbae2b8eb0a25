/**
 * The controller of public/main.js around the board: the capped undo stack, the solve and hint
 * requests with their round trip through the solver worker, the keyboard handler, and what a
 * voice command does to the board. The page's message listeners run in registration order:
 * `solver.onmessage` (set at start-up) before a hint request's own listener.
 */
module Controls {
  import opened Wrappers
  import opened Grids
  import opened Backtracking
  import opened Engine
  import opened Game
  import opened Worker
  import Voice

  /** Most snapshots the undo stack keeps. */
  const UndoCap := 200

  /** One undo entry: the rows of the grid (values, so copies), the selection, a label (tag) and a time. */
  datatype Snapshot = Snapshot(grid: Grid, row: int, col: int, tag: string, ts: int)

  /** `window.selectedCell || { row: 0, col: 0 }`. */
  function SelectionOrOrigin(sel: Option<(int, int)>): (int, int) {
    if sel.Some? then sel.value else (0, 0)
  }

  /** The newest UndoCap snapshots of a history, oldest first. */
  function Newest(h: seq<Snapshot>): (s: seq<Snapshot>)
    ensures |s| == if |h| < UndoCap then |h| else UndoCap
    ensures s == h[|h| - |s|..]
  {
    if |h| <= UndoCap then h else h[|h| - UndoCap..]
  }

  /** Pushing onto a full stack drops its oldest entry; otherwise nothing is dropped. */
  lemma NewestPush(h: seq<Snapshot>, x: Snapshot)
    ensures Newest(h + [x]) == if |Newest(h)| < UndoCap then Newest(h) + [x] else Newest(h)[1..] + [x]
  {
    if |h| >= UndoCap {
      assert (h + [x])[|h| + 1 - UndoCap..] == h[|h| - UndoCap..][1..] + [x];
    }
  }

  /**
   * The undo stack of main.js. `pushed` is every snapshot ever pushed; the stack holds the
   * newest UndoCap of them, so the oldest go first.
   */
  class UndoStack {
    var entries: seq<Snapshot>
    ghost var pushed: seq<Snapshot>

    ghost predicate Valid()
      reads this
    {
      entries == Newest(pushed)
    }

    constructor ()
      ensures Valid() && entries == [] && pushed == []
    {
      entries := [];
      pushed := [];
    }

    /**
     * pushUndoSnapshot: appends a snapshot of the grid and the selection (the top-left cell when
     * there is none); when that makes more than UndoCap entries, the oldest is dropped.
     */
    method Push(grid: Grid, sel: Option<(int, int)>, tag: string, ts: int)
      requires Valid()
      modifies this
      ensures Valid() && |entries| <= UndoCap
      ensures var (r, c) := SelectionOrOrigin(sel);
        && pushed == old(pushed) + [Snapshot(grid, r, c, tag, ts)]
        && entries == if |old(entries)| < UndoCap then old(entries) + [Snapshot(grid, r, c, tag, ts)]
                      else old(entries)[1..] + [Snapshot(grid, r, c, tag, ts)]
    {
      var (r, c) := SelectionOrOrigin(sel);
      var snapshot := Snapshot(grid, r, c, tag, ts);
      NewestPush(pushed, snapshot);
      entries := entries + [snapshot];
      pushed := pushed + [snapshot];
      if |entries| > UndoCap {
        entries := entries[1..];
      }
    }
  }

  // ---------------------------------------------------------------------
  // Hints

  /** The grid a hint shows: the snapshot with its first empty cell set to the solver's value. */
  function HintGrid(grid: Grid, solved: Grid): Option<Grid>
    requires IsGrid(grid) && IsGrid(solved)
  {
    match FirstEmpty(grid)
    case None => None
    case Some(p) => Some(Set(grid, p.0, p.1, solved[p.0][p.1]))
  }

  /**
   * The placement loop of requestHint: scans the snapshot in row-major order with an `applied`
   * flag and, at the first empty cell, copies the snapshot and sets that one cell to the solved
   * value. Nothing is placed when the snapshot has no empty cell.
   */
  method PlaceHint(grid: Grid, solved: Grid) returns (newVals: Option<Grid>)
    requires IsGrid(grid) && IsGrid(solved)
    ensures newVals == HintGrid(grid, solved)
    ensures newVals.None? <==> Complete(grid)
    ensures newVals.Some? ==> exists r, c ::
      && IsCell(r, c) && grid[r][c] == 0
      && (forall i, j :: IsCell(i, j) && RowMajorBefore(i, j, r, c) ==> grid[i][j] != 0)
      && newVals.value[r][c] == solved[r][c]
      && (forall i, j :: IsCell(i, j) && (i != r || j != c) ==> newVals.value[i][j] == grid[i][j])
  {
    newVals := None;
    var applied := false;
    var r := 0;
    while r < 9 && !applied
      invariant 0 <= r <= 9
      invariant !applied ==> newVals.None? && FirstEmpty(grid) == FirstEmptyFrom(grid, r, 0)
      invariant applied ==> newVals == HintGrid(grid, solved) && newVals.Some?
    {
      var c := 0;
      while c < 9 && !applied
        invariant 0 <= c <= 9
        invariant !applied ==> newVals.None? && FirstEmpty(grid) == FirstEmptyFrom(grid, r, c)
        invariant applied ==> newVals == HintGrid(grid, solved) && newVals.Some?
      {
        var cur := grid[r][c];
        if cur == 0 {
          newVals := Some(grid[r := grid[r][c := solved[r][c]]]);
          applied := true;
        }
        c := c + 1;
      }
      r := r + 1;
    }
    if newVals.Some? {
      var p := FirstEmpty(grid).value;
      assert IsCell(p.0, p.1) && grid[p.0][p.1] == 0;
    }
  }

  /**
   * A hint taken from the solver's answer keeps a conflict-free puzzle conflict-free and solvable,
   * keeps every filled cell, and fills exactly one more cell.
   */
  lemma HintKeepsPuzzleSolvable(grid: Grid)
    requires IsGrid(grid) && IsDigitGrid(grid) && Consistent(grid)
    requires Solution(grid).Some? && !Complete(grid)
    ensures HintGrid(grid, SolvedGrid(grid)).Some?
    ensures var h := HintGrid(grid, SolvedGrid(grid)).value;
      && Extends(grid, h) && Consistent(h) && Solution(h).Some? && ZeroCount(h) + 1 == ZeroCount(grid)
  {
    var s := Solution(grid).value;
    SolutionIsSudoku(grid);
    var p := FirstEmpty(grid).value;
    assert HintGrid(grid, s) == Some(Set(grid, p.0, p.1, s[p.0][p.1]));
    FillOneFromSolution(grid, s, p.0, p.1);
  }

  /** Filling one empty cell of g with its value in a solved Sudoku that keeps g's cells. */
  lemma FillOneFromSolution(g: Grid, s: Grid, r: int, c: int)
    requires IsGrid(g) && IsSolution(s) && Extends(g, s) && IsCell(r, c) && g[r][c] == 0
    ensures var h := Set(g, r, c, s[r][c]);
      && Extends(g, h) && Consistent(h) && Solution(h).Some? && ZeroCount(h) + 1 == ZeroCount(g)
  {
    var h := Set(g, r, c, s[r][c]);
    assert forall i, j :: IsCell(i, j) ==> h[i][j] == 0 || h[i][j] == s[i][j];
    SubgridKeepsConsistent(h, s);
    CarvedGridIsSolvable(s, h);
    ZeroCountSet(g, r, c, s[r][c]);
  }

  /** How the promise of requestHint settles: resolved with `applied`, rejected, or never. */
  datatype HintOutcome = Resolved(applied: bool) | Rejected | Pending

  /**
   * solver.onmessage: a 'solved' reply is shown with no cell prefilled; any other reply leaves
   * the board as it is.
   */
  method OnSolverMessage(board: Board, reply: Option<Reply>)
    requires board.Valid()
    requires reply.Some? && reply.value.Solved? ==> IsGrid(reply.value.grid) && IsDigitGrid(reply.value.grid)
    modifies board, board.cells, board.prefilled
    ensures board.Valid() && board.row == old(board.row) && board.col == old(board.col)
    ensures reply.Some? && reply.value.Solved? ==>
      board.Values() == reply.value.grid && forall i, j :: IsCell(i, j) ==> !board.prefilled[i, j]
    ensures !(reply.Some? && reply.value.Solved?) ==>
      board.Values() == old(board.Values()) && unchanged(board.prefilled)
  {
    if reply.Some? && reply.value.Solved? {
      board.SetGridValues(reply.value.grid, false);
    }
  }

  /**
   * The message listener a hint request installs: on 'solved' or 'hint-solved' it shows the
   * hint grid (no cell prefilled) and resolves with whether a cell was placed; on 'no-solution'
   * it rejects; 'hint-no-solution' and a missing reply leave the promise pending.
   */
  method HintListener(board: Board, grid: Grid, reply: Option<Reply>) returns (outcome: HintOutcome)
    requires board.Valid() && IsGrid(grid) && IsDigitGrid(grid)
    requires reply.Some? && (reply.value.Solved? || reply.value.HintSolved?) ==>
      IsGrid(reply.value.grid) && IsDigitGrid(reply.value.grid)
    modifies board, board.cells, board.prefilled
    ensures board.Valid() && board.row == old(board.row) && board.col == old(board.col)
    ensures reply.Some? && (reply.value.Solved? || reply.value.HintSolved?) ==>
      && outcome == Resolved(!Complete(grid))
      && (HintGrid(grid, reply.value.grid).Some? ==>
            board.Values() == HintGrid(grid, reply.value.grid).value && forall i, j :: IsCell(i, j) ==> !board.prefilled[i, j])
    ensures reply == Some(NoSolution) ==> outcome == Rejected
    ensures reply.None? || reply == Some(HintNoSolution) ==> outcome == Pending
    ensures !(reply.Some? && (reply.value.Solved? || reply.value.HintSolved?) && !Complete(grid)) ==>
      board.Values() == old(board.Values()) && unchanged(board.prefilled)
  {
    if reply.None? {
      return Pending;
    }
    match reply.value
    case Solved(solved) =>
      var newVals := PlaceHint(grid, solved);
      if newVals.Some? {
        board.SetGridValues(newVals.value, false);
      }
      return Resolved(newVals.Some?);
    case HintSolved(solved) =>
      var newVals := PlaceHint(grid, solved);
      if newVals.Some? {
        board.SetGridValues(newVals.value, false);
      }
      return Resolved(newVals.Some?);
    case NoSolution =>
      return Rejected;
    case HintNoSolution =>
      return Pending;
  }

  /**
   * requestHint: snapshot for undo, post the grid as a 'solve' request, and let both listeners
   * see the reply. A solvable grid ends up showing the hint grid (or itself when it was already
   * full) with no cell prefilled; an unsolvable one is left alone and the promise rejects.
   */
  method RequestHint(board: Board, undo: UndoStack, ts: int) returns (outcome: HintOutcome)
    requires board.Valid() && undo.Valid()
    modifies board, board.cells, board.prefilled, undo
    ensures board.Valid() && undo.Valid()
    ensures board.row == old(board.row) && board.col == old(board.col)
    ensures undo.pushed == old(undo.pushed) + [Snapshot(old(board.Values()), old(board.row), old(board.col), "hint:before", ts)]
    ensures Solution(old(board.Values())).None? ==>
      outcome == Rejected && board.Values() == old(board.Values()) && unchanged(board.prefilled)
    ensures Solution(old(board.Values())).Some? ==>
      && outcome == Resolved(!Complete(old(board.Values())))
      && board.Values() == (if Complete(old(board.Values())) then old(board.Values())
                            else HintGrid(old(board.Values()), SolvedGrid(old(board.Values()))).value)
      && forall i, j :: IsCell(i, j) ==> !board.prefilled[i, j]
  {
    var grid := board.GetGridValues();
    undo.Push(grid, Some((board.row, board.col)), "hint:before", ts);
    var reply := OnMessage(Request("solve", Some(grid)));
    if Complete(grid) {
      CompleteGridIsAnsweredUnchanged(grid);
    }
    OnSolverMessage(board, reply);
    outcome := HintListener(board, grid, reply);
  }

  /**
   * The same request with the hint posted as type 'hint' and placed with revealCell, so that the
   * puzzle's prefilled cells stay fixed: only the hinted cell changes, it becomes prefilled and
   * selected, every other mark is kept. A 'hint-no-solution' reply rejects.
   */
  method RequestHintKeepingGivens(board: Board, undo: UndoStack, ts: int) returns (outcome: HintOutcome)
    requires board.Valid() && undo.Valid()
    modifies board, board.cells, board.prefilled, undo
    ensures board.Valid() && undo.Valid()
    ensures undo.pushed == old(undo.pushed) + [Snapshot(old(board.Values()), old(board.row), old(board.col), "hint:before", ts)]
    ensures Solution(old(board.Values())).None? ==>
      outcome == Rejected && board.Values() == old(board.Values()) && unchanged(board.prefilled)
    ensures Solution(old(board.Values())).Some? ==>
      && outcome == Resolved(!Complete(old(board.Values())))
      && board.Values() == (if Complete(old(board.Values())) then old(board.Values())
                            else HintGrid(old(board.Values()), SolvedGrid(old(board.Values()))).value)
    ensures forall i, j :: IsCell(i, j) && old(board.prefilled[i, j]) ==> board.prefilled[i, j]
    ensures forall i, j :: IsCell(i, j) && board.prefilled[i, j] && !old(board.prefilled[i, j]) ==>
      FirstEmpty(old(board.Values())) == Some((i, j))
    ensures Solution(old(board.Values())).Some? && !Complete(old(board.Values())) ==>
      var p := FirstEmpty(old(board.Values())).value;
      board.prefilled[p.0, p.1] && (board.row, board.col) == p
    ensures Solution(old(board.Values())).None? || Complete(old(board.Values())) ==>
      board.row == old(board.row) && board.col == old(board.col)
  {
    var grid := board.GetGridValues();
    undo.Push(grid, Some((board.row, board.col)), "hint:before", ts);
    var reply := OnMessage(Request("hint", Some(grid)));
    OnSolverMessage(board, reply);
    outcome := RevealHint(board, grid, reply);
  }

  /**
   * The corrected hint listener: 'hint-solved' reveals the solver's value at the snapshot's first
   * empty cell (revealCell marks it prefilled and selects it); 'hint-no-solution' rejects.
   */
  method RevealHint(board: Board, grid: Grid, reply: Option<Reply>) returns (outcome: HintOutcome)
    requires board.Valid() && IsGrid(grid) && board.Values() == grid
    requires reply.Some? && reply.value.HintSolved? ==> IsGrid(reply.value.grid) && IsDigitGrid(reply.value.grid)
    requires reply.Some? && reply.value.HintSolved? ==> Extends(grid, reply.value.grid)
    modifies board, board.cells, board.prefilled
    ensures board.Valid()
    ensures reply.Some? && reply.value.HintSolved? ==>
      && outcome == Resolved(!Complete(grid))
      && board.Values() == (if Complete(grid) then grid else HintGrid(grid, reply.value.grid).value)
    ensures reply == Some(HintNoSolution) || reply == Some(NoSolution) ==> outcome == Rejected
    ensures reply.None? ==> outcome == Pending
    ensures !(reply.Some? && reply.value.HintSolved?) ==> board.Values() == grid && unchanged(board.prefilled)
    ensures forall i, j :: IsCell(i, j) && old(board.prefilled[i, j]) ==> board.prefilled[i, j]
    ensures forall i, j :: IsCell(i, j) && board.prefilled[i, j] && !old(board.prefilled[i, j]) ==>
      FirstEmpty(grid) == Some((i, j))
    ensures reply.Some? && reply.value.HintSolved? && !Complete(grid) ==>
      var p := FirstEmpty(grid).value;
      board.prefilled[p.0, p.1] && (board.row, board.col) == p
    ensures !(reply.Some? && reply.value.HintSolved? && !Complete(grid)) ==>
      board.row == old(board.row) && board.col == old(board.col)
  {
    if reply.None? {
      return Pending;
    }
    if !reply.value.HintSolved? {
      return Rejected;
    }
    var solved := reply.value.grid;
    var newVals := PlaceHint(grid, solved);
    if newVals.Some? {
      var p := FirstEmpty(grid).value;
      board.RevealCell(p.0, p.1, solved[p.0][p.1]);
    }
    return Resolved(newVals.Some?);
  }

  // ---------------------------------------------------------------------
  // Solve button and keyboard

  /**
   * solvePuzzle: snapshot for undo, post the grid as a 'solve' request; solver.onmessage shows
   * the solution with no cell prefilled, or leaves the board alone when there is none. When the
   * givens had no conflict the board is then won.
   */
  method SolvePuzzle(board: Board, undo: UndoStack, ts: int)
    requires board.Valid() && undo.Valid()
    modifies board, board.cells, board.prefilled, undo
    ensures board.Valid() && undo.Valid()
    ensures board.row == old(board.row) && board.col == old(board.col)
    ensures undo.pushed == old(undo.pushed) + [Snapshot(old(board.Values()), old(board.row), old(board.col), "solve:before", ts)]
    ensures Solution(old(board.Values())).None? ==> board.Values() == old(board.Values()) && unchanged(board.prefilled)
    ensures Solution(old(board.Values())).Some? ==>
      && board.Values() == Solution(old(board.Values())).value
      && (forall i, j :: IsCell(i, j) ==> !board.prefilled[i, j])
      && (Consistent(old(board.Values())) ==> Won(board.Values()))
  {
    var grid := board.GetGridValues();
    undo.Push(grid, Some((board.row, board.col)), "solve:before", ts);
    var reply := OnMessage(Request("solve", Some(grid)));
    OnSolverMessage(board, reply);
    if Solution(grid).Some? {
      WonIsCompleteAndConsistent(board.Values());
    }
  }

  /** JavaScript's `a <= b` on strings: lexicographic by character code. */
  predicate StrLeq(a: string, b: string)
    decreases |a|
  {
    a == [] || (b != [] && (a[0] < b[0] || (a[0] == b[0] && StrLeq(a[1..], b[1..]))))
  }

  /** The keyboard handler's digit test `e.key >= '1' && e.key <= '9'`. */
  predicate IsDigitKey(key: string) {
    StrLeq("1", key) && StrLeq(key, "9")
  }

  /**
   * The string comparison accepts exactly the keys that start with 1..8, and "9" itself: so any
   * one-character key passes exactly when it is a digit 1..9.
   */
  lemma DigitKeys(key: string)
    ensures IsDigitKey(key) <==> key != "" && '1' <= key[0] && (key[0] < '9' || key == "9")
    ensures |key| == 1 ==> (IsDigitKey(key) <==> '1' <= key[0] <= '9')
  {
    assert "1"[0] == '1' && "1"[1..] == "";
    assert "9"[0] == '9' && "9"[1..] == "";
    if key != "" && key[0] == '9' && |key| > 1 {
      assert !StrLeq(key[1..], "");
    }
    if key != "" && key[0] == '9' && |key| == 1 {
      assert key == "9";
    }
  }

  /**
   * The window keydown handler. Arrow keys move the selection by one, clamped to the board;
   * a digit key pushes an undo snapshot and inserts the digit; Backspace and Delete push a
   * snapshot and clear the selected cell; other keys do nothing. Key values are single
   * characters or named keys, never a digit followed by more characters.
   */
  method OnKeyDown(board: Board, undo: UndoStack, key: string, ts: int)
    requires board.Valid() && undo.Valid()
    requires |key| > 1 ==> !('0' <= key[0] <= '9')
    modifies board, board.cells, undo
    ensures board.Valid() && undo.Valid()
    ensures key in ["ArrowUp", "ArrowDown", "ArrowLeft", "ArrowRight"] ==>
      && board.Values() == old(board.Values()) && undo.pushed == old(undo.pushed)
      && (board.row, board.col) == (
           if key == "ArrowUp" then (Voice.Max(0, old(board.row) - 1), old(board.col))
           else if key == "ArrowDown" then (Voice.Min(8, old(board.row) + 1), old(board.col))
           else if key == "ArrowLeft" then (old(board.row), Voice.Max(0, old(board.col) - 1))
           else (old(board.row), Voice.Min(8, old(board.col) + 1)))
    ensures IsDigitKey(key) ==>
      && |key| == 1 && '1' <= key[0] <= '9'
      && board.row == old(board.row) && board.col == old(board.col)
      && undo.pushed == old(undo.pushed) + [Snapshot(old(board.Values()), board.row, board.col, "keyboard-insert:before", ts)]
      && board.Values() == (
           if !board.prefilled[board.row, board.col] && ValidAt(old(board.Values()), board.row, board.col, Voice.DigitValue(key[0]))
           then Set(old(board.Values()), board.row, board.col, Voice.DigitValue(key[0]))
           else old(board.Values()))
    ensures key == "Backspace" || key == "Delete" ==>
      && board.row == old(board.row) && board.col == old(board.col)
      && undo.pushed == old(undo.pushed) + [Snapshot(old(board.Values()), board.row, board.col, "keyboard-clear:before", ts)]
      && board.Values() == (
           if !board.prefilled[board.row, board.col] then Set(old(board.Values()), board.row, board.col, 0)
           else old(board.Values()))
    ensures !(key in ["ArrowUp", "ArrowDown", "ArrowLeft", "ArrowRight", "Backspace", "Delete"] || IsDigitKey(key)) ==>
      && board.Values() == old(board.Values()) && undo.pushed == old(undo.pushed)
      && board.row == old(board.row) && board.col == old(board.col)
    ensures Consistent(old(board.Values())) ==> Consistent(board.Values())
  {
    DigitKeys(key);
    var (r, c) := (board.row, board.col);
    if key == "ArrowUp" {
      board.SelectCell(Voice.Max(0, r - 1), c);
    } else if key == "ArrowDown" {
      board.SelectCell(Voice.Min(8, r + 1), c);
    } else if key == "ArrowLeft" {
      board.SelectCell(r, Voice.Max(0, c - 1));
    } else if key == "ArrowRight" {
      board.SelectCell(r, Voice.Min(8, c + 1));
    } else if IsDigitKey(key) {
      var grid := board.GetGridValues();
      undo.Push(grid, Some((r, c)), "keyboard-insert:before", ts);
      var _ := board.Insert(Voice.DigitValue(key[0]));
    } else if key == "Backspace" || key == "Delete" {
      var grid := board.GetGridValues();
      undo.Push(grid, Some((r, c)), "keyboard-clear:before", ts);
      var _ := board.Clear();
    }
  }

  // ---------------------------------------------------------------------
  // Voice commands

  /**
   * What handleFinalTranscript does with a classified command: move the selection, clear or
   * fill the selected cell, generate a new puzzle (from the given random shuffles and picks),
   * or click the solve button; an unrecognised transcript changes nothing.
   */
  method PerformCommand(board: Board, undo: UndoStack, cmd: Voice.Command,
                        shuffle: Grid -> seq<int>, picks: seq<(int, int)>, ts: int)
    requires board.Valid() && undo.Valid()
    requires cmd.Place? ==> 1 <= cmd.n <= 9
    requires cmd.NewPuzzle? ==>
      && (forall h :: IsShuffle(shuffle(h)))
      && |picks| >= AttemptBudget
      && PicksOnBoard(picks)
    modifies board, board.cells, board.prefilled, undo
    ensures board.Valid() && undo.Valid()
    ensures cmd.Move? ==>
      && board.Values() == old(board.Values())
      && (board.row, board.col) == (if IsCell(cmd.row, cmd.col) then (cmd.row, cmd.col) else old((board.row, board.col)))
    ensures cmd.ClearCell? ==>
      board.Values() == (if !board.prefilled[board.row, board.col] then Set(old(board.Values()), board.row, board.col, 0)
                         else old(board.Values()))
    ensures cmd.Place? ==>
      board.Values() == (if !board.prefilled[board.row, board.col] && ValidAt(old(board.Values()), board.row, board.col, cmd.n)
                         then Set(old(board.Values()), board.row, board.col, cmd.n) else old(board.Values()))
    ensures cmd.Move? || cmd.ClearCell? || cmd.Place? ==>
      forall i, j :: IsCell(i, j) ==> board.prefilled[i, j] == old(board.prefilled[i, j])
    ensures !cmd.Move? && !cmd.NewPuzzle? ==> board.row == old(board.row) && board.col == old(board.col)
    ensures cmd.NewPuzzle? ==>
      && board.Values() == GeneratedPuzzle(shuffle, DefaultRemoveCount, picks)
      && board.GivensPrefilled()
      && Consistent(board.Values()) && Solution(board.Values()).Some? && board.row == 0 && board.col == 0
    ensures cmd.SolvePuzzle? ==> board.Values() == (if Solution(old(board.Values())).Some? then Solution(old(board.Values())).value else old(board.Values()))
    ensures cmd.SolvePuzzle? ==>
      undo.pushed == old(undo.pushed) + [Snapshot(old(board.Values()), old(board.row), old(board.col), "solve:before", ts)]
    ensures cmd.SolvePuzzle? && Solution(old(board.Values())).Some? ==> forall i, j :: IsCell(i, j) ==> !board.prefilled[i, j]
    ensures cmd.SolvePuzzle? && Solution(old(board.Values())).None? ==> unchanged(board.prefilled)
    ensures !cmd.SolvePuzzle? ==> undo.pushed == old(undo.pushed)
    ensures cmd.Unrecognized? ==> board.Values() == old(board.Values()) && unchanged(board.prefilled) && board.row == old(board.row) && board.col == old(board.col)
  {
    match cmd
    case Move(r, c) =>
      board.SelectCell(r, c);
    case ClearCell =>
      var _ := board.Clear();
    case NewPuzzle =>
      board.GeneratePuzzle(DefaultRemoveCount, shuffle, picks);
    case SolvePuzzle =>
      SolvePuzzle(board, undo, ts);
    case Place(n) =>
      var _ := board.Insert(n);
    case Unrecognized =>
  }
}

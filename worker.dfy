/**
 * public/solver.worker.js: the solver worker's message handler. Its isSafe and solve are the
 * engine's isSafeLocal and internalSolve line for line, so the model runs Engine.IsSafeLocal and
 * Engine.InternalSolve on the worker's copy of the grid. Messaging is a request-to-reply method.
 */
module Worker {
  import opened Wrappers
  import opened Grids
  import opened Backtracking
  import opened Engine

  /**
   * A posted message: "" stands for a missing or empty `type`, None for a missing `grid`. A
   * posted grid arrives as a value (a structured clone of the sender's rows).
   */
  datatype Request = Request(kind: string, grid: Option<Grid>)

  /** The replies the worker posts: 'solved', 'no-solution', 'hint-solved', 'hint-no-solution'. */
  datatype Reply = Solved(grid: Grid) | NoSolution | HintSolved(grid: Grid) | HintNoSolution

  /**
   * onmessage: a message without type or grid is answered 'no-solution' and nothing is solved;
   * otherwise a copy of the grid is solved, and the request type with the outcome selects the
   * reply. A type other than 'solve' or 'hint' is solved but gets no reply. The search runs in
   * place on fresh rows copied from the received grid.
   */
  method OnMessage(msg: Request) returns (reply: Option<Reply>)
    requires msg.grid.Some? ==> IsGrid(msg.grid.value)
    ensures msg.kind == "" || msg.grid.None? ==> reply == Some(NoSolution)
    ensures reply.None? <==> msg.kind !in {"", "solve", "hint"} && msg.grid.Some?
    ensures msg.kind == "solve" && msg.grid.Some? ==>
      reply == Some(if Solution(msg.grid.value).Some? then Solved(Solution(msg.grid.value).value) else NoSolution)
    ensures msg.kind == "hint" && msg.grid.Some? ==>
      reply == Some(if Solution(msg.grid.value).Some? then HintSolved(Solution(msg.grid.value).value) else HintNoSolution)
    ensures reply.Some? && (reply.value.Solved? || reply.value.HintSolved?) ==>
      msg.grid.Some? && Extends(msg.grid.value, reply.value.grid) && Complete(reply.value.grid)
      && (Consistent(msg.grid.value) ==> Consistent(reply.value.grid))
      && (IsDigitGrid(msg.grid.value) ==> IsDigitGrid(reply.value.grid))
  {
    if msg.kind == "" || msg.grid.None? {
      return Some(NoSolution);
    }
    var grid := FromRows(msg.grid.value);
    var ok := InternalSolve(grid);
    SearchSound(msg.grid.value, Ascending);
    if ok && IsDigitGrid(msg.grid.value) {
      SolutionKeepsDigits(msg.grid.value);
    }
    if !ok {
      if msg.kind == "solve" {
        return Some(NoSolution);
      } else if msg.kind == "hint" {
        return Some(HintNoSolution);
      }
      return None;
    }
    var solved := ToRows(grid);
    if msg.kind == "solve" {
      return Some(Solved(solved));
    } else if msg.kind == "hint" {
      return Some(HintSolved(solved));
    }
    return None;
  }

  /** A grid without empty cells is answered with itself, unchanged, even when it has conflicts. */
  lemma CompleteGridIsAnsweredUnchanged(g: Grid)
    requires IsGrid(g) && Complete(g)
    ensures Solution(g) == Some(g)
  {
    FullGridIsItsOwnSolution(g, Ascending);
  }

  /**
   * For digits without conflicts the worker fails only when no solved Sudoku keeps the givens,
   * and what it sends back is one.
   */
  lemma SolvedReplyIsSudoku(g: Grid)
    requires IsGrid(g) && IsDigitGrid(g) && Consistent(g)
    ensures Solution(g).Some? <==> exists s :: IsSolution(s) && Extends(g, s)
    ensures Solution(g).Some? ==> IsSolution(Solution(g).value) && Extends(g, Solution(g).value)
  {
    if Solution(g).Some? {
      SolutionIsSudoku(g);
      assert IsSolution(Solution(g).value) && Extends(g, Solution(g).value);
    } else {
      forall s | IsSolution(s) && Extends(g, s) ensures false {
        AscendingOffersAllDigits();
        SearchComplete(g, Ascending, s);
      }
    }
  }
}

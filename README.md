# Premium Voice Sudoku — a verified Dafny model of its game core

This project models the logic of a browser Sudoku game that can be played by voice.

- **Engine** (`public/sudoku.js`):
  - the two validity rules: `isSafeLocal`, which counts the cell under test, and `isValidMove`, which skips it;
  - the win test;
  - the in-place backtracking solver `internalSolve`;
  - the shuffled generator `generateFull`/`fill`;
  - the puzzle carver of `generatePuzzle`, with its budget of 200 attempts.
- **Board** (`public/sudoku.js`): a value grid, a prefilled mask and a selected cell, changed by `selectCell`, `setGridValues`, `insert`, `clear` and `revealCell`.
- **Solver worker** (`public/solver.worker.js`): it validates a request, solves a copy of the grid, and maps the request type and the outcome to a reply.
- **Voice commands** (`public/voice.js`):
  - the transcript similarity rule and number extraction;
  - the command dispatch, by priority, with its 1200 ms global debounce;
  - the filter a final transcript passes before it is handled.
- **Controller** (`public/main.js`):
  - the undo stack, capped at 200 entries;
  - the solve and hint requests, including the order in which the page's two message listeners see a reply;
  - the arrow, digit and delete key handling;
  - what a voice command does to the board.

## How it is modelled

Files and modules:

- `grids.dfy` (`Grids`): a grid is a value (`seq<seq<int>>`, 0 for an empty cell). It holds the rules as predicates:
  - `Safe`: the solver's rule.
  - `ValidAt`: the board's move rule.
  - `Consistent`, `Complete`, `Won`, `IsSolution`.
  - `FirstEmpty`: the row-major scan both solvers use.
- `backtracking.dfy` (`Backtracking`): the search both solvers perform, as one function `Search(g, order)`. `order` gives the candidate order at each grid: 1..9 ascending for the solver, a shuffle for the generator. This file proves:
  - soundness: a result keeps the givens, fills every cell with a digit, and is conflict-free when the givens are;
  - completeness: the search fails only when no solved Sudoku keeps the givens;
  - that the empty grid can be filled.
- `engine.dfy` (`Engine`): the algorithms themselves, over `array2<int>` updated in place.
  - `IsSafeLocal`, `InternalSolve` and `Fill` are proved equal to `Safe` and `Search`. This covers the resets made while backtracking.
  - `Carve` is the carving loop, with the random picks as an input sequence.
- `game.dfy` (`Game`): the board as a class with a 9x9 value array, a 9x9 prefilled array and the selection.
- `worker.dfy` (`Worker`): the worker's message handler. The worker's `isSafe` and `solve` are the engine's `isSafeLocal` and `internalSolve` line for line, so the model runs the engine methods on the worker's copy of the grid.
- `voice.dfy` (`Voice`): string rules as functions, each with a method carrying the source's loop. The voice module state is a class.
- `controls.dfy` (`Controls`): the main.js handlers, composed from the board and worker methods.

Randomness and time are inputs:

- The random comparator sort in `generateFull` is an arbitrary function from the current grid to a candidate order. Within one run every call of `fill()` sees a different grid, so this covers every sequence of shuffles. The results that need real shuffles assume each one is a permutation of 1..9.
- `Math.random()` cell picks are a sequence of cells.
- `Date.now()` values are integer parameters.

## Model

| member | source | states |
|---|---|---|
| `Grids.SafeIsValidAtOtherCells` | public/sudoku.js:127-134 | The solver's rule and the move rule differ exactly at the cell under test. n is safe at (r, c) iff the move rule accepts n there and the cell does not already hold n. |
| `Grids.WonIsCompleteAndConsistent` | public/sudoku.js:137-141 | The win condition (no empty cell, every value passes the move rule at its own cell) is the same as complete and conflict-free. |
| `Grids.PlaceSafeKeepsConsistent` | public/sudoku.js:213-217 | Placing a safe value in an empty cell keeps a conflict-free grid conflict-free. |
| `Grids.ValidMoveKeepsConsistent` | public/sudoku.js:69-76 | Writing a non-zero value the move rule accepts, whatever the cell held, keeps a conflict-free grid conflict-free. |
| `Grids.EmptyingKeepsConsistent` | public/sudoku.js:83-91 | Emptying a cell never creates a conflict. |
| `Grids.SubgridKeepsConsistent` | public/sudoku.js:157-170 | Emptying any set of cells of a conflict-free grid leaves it conflict-free. |
| `Grids.ZeroCountSet` | public/sudoku.js:160-168 | Writing one cell changes the number of empty cells by exactly its change in emptiness. |
| `Grids.CompleteIffNoZeros` | public/sudoku.js:211-225 | A grid has no empty cell exactly when its empty-cell count is zero. This count is the measure the recursion decreases. |
| `Grids.FirstEmptyFrom` | public/sudoku.js:211-213 | Result: the first empty cell at or after (r, c) in row-major order. Every cell between is filled; None means no empty cell remains from (r, c) on. |
| `Grids.FirstEmpty` | public/sudoku.js:211-213 | None exactly when the grid is complete. Otherwise: an empty cell before which, in row-major order, every cell is filled. |
| `Backtracking.Ascending` | public/sudoku.js:214 | The solver's candidate order is 1..9 ascending. |
| `Backtracking.AscendingOffersAllDigits` | public/sudoku.js:214 | The ascending order offers every digit and nothing else. |
| `Backtracking.Search` | public/sudoku.js:210-226 | The reference definition of the backtracking: at the first empty cell in row-major order, try the candidates `order(g)` in turn. A grid with no empty cell is its own result. |
| `Backtracking.TryEach` | public/sudoku.js:214-221 | The candidate loop at one empty cell. A safe candidate is placed and the search recurses; the first success is the result; when every candidate fails, the search backtracks with None. |
| `Backtracking.Solution` | public/sudoku.js:210-226 | What internalSolve (and the worker's solve) computes: the search with candidates 1..9 ascending. |
| `Backtracking.SearchSound` | public/sudoku.js:210-226 | A grid the search returns keeps every given and has no empty cell. It is conflict-free when the givens are. Each cell that was empty holds a candidate digit. |
| `Backtracking.TryEachSound` | public/sudoku.js:214-221 | The same for the candidate loop at one empty cell. |
| `Backtracking.StepSound` | public/sudoku.js:215-217 | A sound completion after placing a safe candidate is a sound completion of the grid before the placement. |
| `Backtracking.FullGridIsItsOwnSolution` | public/sudoku.js:225 | A grid with no empty cell is returned as it is, conflicts or not. |
| `Backtracking.SolutionIsSudoku` | public/sudoku.js:213-217 | From conflict-free digit givens, a successful solve yields a solved Sudoku that keeps the givens. |
| `Backtracking.SolutionKeepsDigits` | public/sudoku.js:210-226 | A successful solve of a digit grid keeps the givens, leaves no empty cell, and shows only digits. |
| `Backtracking.SolvedGrid` | public/sudoku.js:210-226 | The grid a successful solve leaves behind keeps the givens and has no empty cell. |
| `Backtracking.SolutionValueIsSafe` | public/sudoku.js:202-207 | Let s be a solved Sudoku that keeps g's filled cells. At every empty cell of g, s's value is safe. |
| `Backtracking.SearchComplete` | public/sudoku.js:210-226 | The search is exhaustive. Suppose every digit is offered and some solved Sudoku keeps the givens; then the search succeeds. |
| `Backtracking.TryEachComplete` | public/sudoku.js:214-221 | Suppose the candidate list contains a solved Sudoku's value at the cell; then the candidate loop succeeds. |
| `Backtracking.WitnessIsSolution` | public/sudoku.js:176-200 | A concrete solved Sudoku exists. |
| `Backtracking.EmptyGridIsSolvable` | public/sudoku.js:176-200 | With any candidate order offering every digit, the search from the empty grid succeeds. |
| `Engine.IsSafeLocal` | public/sudoku.js:202-207 | Returns true iff n occurs nowhere in row r, column c or the box at (3*floor(r/3), 3*floor(c/3)). The cell (r, c) itself counts. The same holds for `isSafe` at public/solver.worker.js:11-23. |
| `Engine.InternalSolve` | public/sudoku.js:210-226 | Returns true iff the search finds a completion. On true the array holds that completion, so no empty cell is left and every given is kept. On false the array is exactly as given. The result depends on the grid alone. The same holds for `solve` at public/solver.worker.js:25-41. |
| `Engine.FindEmpty` | public/sudoku.js:211-213 | The solver's nested scan stops at exactly the first empty cell in row-major order, and finds none exactly when the grid is complete. |
| `Engine.TryCandidate` | public/sudoku.js:215-219 | One candidate at the empty cell. The placement succeeds iff n is safe there and the search from the grid with n placed succeeds; the array then holds that search's result. Otherwise the cell is reset and the array is exactly as given. |
| `Engine.Fill` | public/sudoku.js:180-197 | The same contract, with the candidates of each step taken from the shuffle. |
| `Engine.TryShuffled` | public/sudoku.js:186-190 | The same for one shuffled candidate of fill(). |
| `Engine.ShufflesOfferDigits` | public/sudoku.js:184 | Shuffles of 1..9 offer every digit and nothing else. |
| `Engine.GenerateFull` | public/sudoku.js:176-200 | Returns the search result from the empty grid, or the empty grid if the search failed, since fill()'s result is ignored. With real shuffles it is always a solved Sudoku. |
| `Engine.ShuffledSearchSolves` | public/sudoku.js:176-200 | With shuffles of 1..9, the search from the empty grid always succeeds, and its result is a solved Sudoku. |
| `Engine.CopyGrid` | public/sudoku.js:153 | `full.map(r => r.slice())`: fresh rows with the same cells. |
| `Engine.FromRows` | public/solver.worker.js:9 | The worker's `msg.grid.map(r => r.slice())`: fresh rows holding the received values. |
| `Engine.ToRows` | public/sudoku.js:95-106 | The rows read cell by cell equal the array's grid. |
| `Engine.TryRemove` | public/sudoku.js:158-169 | One carving attempt. An already-empty pick changes nothing. Otherwise the cell stays empty iff the grid with it emptied is solvable; a rejected removal puts the old value back. |
| `Engine.CarvedGridIsSolvable` | public/sudoku.js:157-170 | Any grid obtained from a solved Sudoku by emptying cells is solvable. |
| `Engine.Carved` | public/sudoku.js:155-170 | The carving loop as a function of the picks it consumes. It stops once removeCount cells are empty or the picks run out. It skips an already-empty pick, and empties a pick only when the grid stays solvable. The count grows by at most one per pick and exceeds its start only up to removeCount. |
| `Engine.CarvedExtends` | public/sudoku.js:160-169 | Every filled cell of the carved grid is the starting grid's value. |
| `Engine.CarvedCount` | public/sudoku.js:160-168 | The carved grid has exactly as many more empty cells as the count went up. |
| `Engine.CarvedSolvable` | public/sudoku.js:164-168 | The carved grid is the starting grid, or it is solvable: every kept removal was checked by the solver. |
| `Engine.Carve` | public/sudoku.js:151-171 | The puzzle and `removed` are exactly what `Carved` gives for the full grid and the first 200 picks. So: at most 200 attempts, and `removed <= removeCount` whenever something was removed. Every non-empty puzzle cell equals the full grid's cell. The number of empty cells grows by exactly `removed`. From a solved full grid the puzzle is solvable. |
| `Engine.FullGrid` | public/sudoku.js:176-200 | The grid generateFull fills with real shuffles: the search's result from the empty grid, and a solved Sudoku. |
| `Game.CarvedPuzzle` | public/sudoku.js:151-172 | A solved grid with `removed` cells emptied has digits only, no conflict, is solvable, and has exactly `removed` empty cells. |
| `Game.MakePuzzle` | public/sudoku.js:151-171 | The generated puzzle is exactly `GeneratedPuzzle`: the full grid generateFull fills, carved by `Carved` with the first 200 picks. It shows digits, is conflict-free and solvable, and has at most `removeCount` (and at most 200) empty cells. |
| `Game.Board.constructor` | public/sudoku.js:8-34 | createGrid: all cells empty, nothing prefilled, selection at the top-left cell. |
| `Game.Board.SelectCell` | public/sudoku.js:37-51 | The selection moves to (r, c) when that is a cell. Otherwise nothing changes. The cells' values never change. |
| `Game.Board.GetGridValues` | public/sudoku.js:95-106 | Returns the grid the cells show. |
| `Game.Board.IsValidMove` | public/sudoku.js:127-134 | Returns true iff num occurs nowhere in the row, column or box, the cell (row, col) itself excepted. |
| `Game.Board.IsWin` | public/sudoku.js:137-141 | Returns true iff no cell is empty and every value passes isValidMove at its own cell, which is the same as complete and conflict-free. |
| `Game.Board.SetGridValues` | public/sudoku.js:109-124 | The cells show the given values. With markPrefilled exactly the non-empty cells are prefilled (`GivensPrefilled`); without it no cell is. The selection is kept. |
| `Game.Board.Insert` | public/sudoku.js:62-80 | A prefilled cell gives Fixed. A value the move rule rejects gives Invalid; in both cases the grid is unchanged. Otherwise the value is written and the win test is reported. Prefilled cells never change, and a conflict-free grid stays conflict-free. |
| `Game.Board.Clear` | public/sudoku.js:83-92 | Empties the selected cell unless it is prefilled. Prefilled cells never change, and a conflict-free grid stays conflict-free. |
| `Game.Board.RevealCell` | public/sudoku.js:229-236 | For a cell on the board: writes the value, marks that cell prefilled and selects it, keeping every other mark. Off the board: nothing changes. |
| `Game.Board.GeneratePuzzle` | public/sudoku.js:151-174 | The board shows exactly `GeneratedPuzzle` for the shuffles and picks: a conflict-free, solvable puzzle with at most `removeCount` empty cells. Exactly its filled cells are prefilled. The top-left cell is selected. |
| `Game.Board.ShowPuzzle` | public/sudoku.js:172-173 | The board shows the given grid, exactly its filled cells are prefilled, and the top-left cell is selected. |
| `Worker.OnMessage` | public/solver.worker.js:2-53 | A message missing its type or grid gets 'no-solution'. 'solve' gives 'solved' or 'no-solution'; 'hint' gives 'hint-solved' or 'hint-no-solution'; any other type gets no reply. A solved grid keeps the received givens, has no empty cell, and is conflict-free and all digits when the input is. |
| `Worker.CompleteGridIsAnsweredUnchanged` | public/solver.worker.js:26-40 | A grid with no empty cell is solved to itself, unchanged, even with conflicts. |
| `Worker.SolvedReplyIsSudoku` | public/solver.worker.js:43-52 | For conflict-free digit givens, the worker succeeds iff some solved Sudoku keeps the givens, and its answer is one. |
| `Voice.SimilarEnough` | public/voice.js:17-29 | False if either string is empty. True if they are equal or one contains the other. Otherwise the lengths must differ by at most 2, and the mismatches over the shorter length plus the length difference must be at most 2. |
| `Voice.MismatchesSymmetric` | public/voice.js:24 | The positional mismatch count does not depend on argument order. |
| `Voice.SimilarSymmetric` | public/voice.js:17-29 | similarEnough(a, b) == similarEnough(b, a). |
| `Voice.SimilarBounds` | public/voice.js:17-29 | A non-empty transcript is similar to itself. Two transcripts whose lengths differ by more than 2 are similar only if one contains the other. |
| `Voice.FirstStandaloneDigit` | public/voice.js:32-33 | The first index where `\b([1-9])\b` matches: a digit 1-9 with no word character on either side. None if there is none. |
| `Voice.FirstNumberWord` | public/voice.js:34 | The first number word, in declaration order, that occurs anywhere in the text. |
| `Voice.NumberIn` | public/voice.js:31-36 | The extracted number is always in 1..9. |
| `Voice.ParseNumberFromText` | public/voice.js:31-36 | The first standalone digit wins. Without one, the result is present exactly when some number word occurs, and it is the first such word in declaration order. The result is always in 1..9 or absent. |
| `Voice.Classify` | public/voice.js:170-178 | The command a handled transcript yields, first match wins: up, down, left, right (a clamped move of the selection), then clear/delete/remove, then new game/new puzzle/reset, then solve, then a number, otherwise unrecognised. |
| `Voice.MovesStayOnBoard` | public/voice.js:170-173 | A move command keeps the selection on the board and changes only one coordinate, by at most one. |
| `Voice.NumbersComeLast` | public/voice.js:170-178 | A number is placed exactly when no direction, clear, new-game or solve word occurs and a number is found. The number is a digit 1..9. |
| `Voice.BurstActsOnce` | public/voice.js:161-167 | Suppressed calls refresh the timestamp. So a burst of calls, each less than 1200 ms after the previous one, acts only once, however long the burst lasts. |
| `Voice.SuppressedAll` | public/voice.js:162-166 | Calls each less than 1200 ms after a previous call are all suppressed. |
| `Voice.TrimmedSingleWord` | public/voice.js:113 | A trimmed transcript splits into one word exactly when it contains no whitespace. |
| `Voice.VoiceState.constructor` | public/voice.js:7-10 | Initial state: not processing, no last transcript, time stamps unset. |
| `Voice.VoiceState.Admits` | public/voice.js:99-123 | The onresult filter's verdict on a final transcript: non-empty, nothing being processed, not a similar repeat of the last accepted transcript within 2500 ms, and not an ignored single word. |
| `Voice.VoiceState.AcceptFinal` | public/voice.js:97-130 | Accepted iff the transcript is non-empty and no transcript is being processed. It must also not be similar to the last accepted one within 2500 ms. It must not be a single word that is neither a digit, a number word nor a known short command. On acceptance it becomes the last transcript and processing starts; otherwise nothing changes. |
| `Voice.VoiceState.HandleFinalTranscript` | public/voice.js:160-182 | Debounced (a previous call less than 1200 ms ago) gives no command; otherwise the priority classification of the transcript. Either way the call time becomes the last-handled time. |
| `Voice.VoiceState.OnFinalResult` | public/voice.js:97-141 | A final result is filtered, handled and finished within one callback, so processing is never left set. It yields a command exactly when the filter accepts the transcript and the handler is not debounced. The command is the transcript's classification. An accepted transcript becomes the last one, with its time, and the handler's call time becomes the last-handled time, whether or not a command results. A rejected transcript changes none of the three. |
| `Controls.Newest` | public/main.js:35-36 | The newest 200 snapshots of a history, in order: its last min(n, 200) elements. |
| `Controls.NewestPush` | public/main.js:35-36 | A push onto a full stack drops exactly the oldest entry; a push onto a shorter one drops nothing. |
| `Controls.UndoStack.constructor` | public/main.js:22 | The stack starts empty. |
| `Controls.UndoStack.Push` | public/main.js:25-40 | Appends a snapshot of the grid and the selection; with no selection, (0, 0). The stack never exceeds 200 entries and always holds the newest 200 pushed, oldest dropped first. |
| `Controls.HintGrid` | public/main.js:219-231 | The grid a hint shows: the snapshot with its first empty cell, in row-major order, set to the solver's value there. None when the snapshot has no empty cell. |
| `Controls.PlaceHint` | public/main.js:219-236 | Nothing is placed iff the snapshot has no empty cell. Otherwise the result is the snapshot with exactly one cell changed: the first empty cell in row-major order, which gets the solver's value there. |
| `Controls.HintKeepsPuzzleSolvable` | public/main.js:215-230 | A hint from the solver's answer keeps a conflict-free puzzle conflict-free and solvable, keeps its filled cells, and fills exactly one more cell. |
| `Controls.FillOneFromSolution` | public/main.js:224 | Filling one empty cell from a solved Sudoku that keeps the grid's cells keeps it conflict-free and solvable. |
| `Controls.OnSolverMessage` | public/main.js:296-309 | A 'solved' reply is shown with no cell prefilled; any other reply leaves the board alone. |
| `Controls.HintListener` | public/main.js:211-250 | 'solved' or 'hint-solved' shows the hint grid without prefilled marks and resolves with whether a cell was placed. 'no-solution' rejects. 'hint-no-solution' or no reply leaves the promise pending. |
| `Controls.RequestHint` | public/main.js:204-259 | Undo snapshot first. An unsolvable grid rejects and stays as it is. A solvable one resolves with "a cell was empty" and ends up showing the hint grid, or itself when it had no empty cell, with no cell prefilled. |
| `Controls.RequestHintKeepingGivens` | public/main.js:204-259 | Corrected hint. Posts 'hint', reveals the hint cell with revealCell, and rejects on 'hint-no-solution'. The same grid results, but every prefilled mark is kept, and only the hinted cell becomes newly prefilled. When the grid is solvable and has an empty cell, the first empty cell is prefilled and selected; otherwise the selection is kept. |
| `Controls.RevealHint` | public/main.js:211-250 | The corrected listener: on 'hint-solved' only the snapshot's first empty cell changes and becomes prefilled; every earlier mark is kept. When the snapshot had an empty cell, that cell is prefilled and selected; in every other case the selection is kept. |
| `Controls.SolvePuzzle` | public/main.js:191-201 | Undo snapshot, then the board shows the worker's solution with no cell prefilled, or stays as it is when there is none. From conflict-free givens the board is then won. |
| `Controls.DigitKeys` | public/main.js:384 | The string comparison `key >= '1' && key <= '9'` accepts exactly the keys that start with 1..8, and "9". So a one-character key passes iff it is a digit 1..9. |
| `Controls.OnKeyDown` | public/main.js:369-393 | Arrow keys move the selection by one, clamped to 0..8, and change nothing else. A digit key pushes an undo snapshot, then inserts. Backspace or Delete pushes a snapshot, then clears. Other keys change nothing. A conflict-free grid stays conflict-free. |
| `Controls.PerformCommand` | public/voice.js:170-178 | Each voice command's effect on the board:<br>• a move selects the cell;<br>• clear and number commands act like clear and insert;<br>• new game shows `GeneratedPuzzle` with exactly its filled cells prefilled: a conflict-free solvable puzzle, top-left cell selected;<br>• solve first pushes the 'solve:before' undo snapshot, then shows the solution with no cell prefilled, or leaves the board and its marks as they are when there is none;<br>• an unrecognised command changes nothing.<br>Move, clear and number commands keep every prefilled mark; every command but move and new game keeps the selection. |

## Left out

- DOM access, focus, CSS classes, `announce`/`speak` speech output, the loading bar, and message texts. Cells are modelled as the values 0..9 their texts show.
- `Game.Board.SetGridValues`: values must be digits 0..9, which every caller passes; other values, which the page would display as text, are not modelled.
- `Game.Board.RevealCell`: values must be digits 0..9, for the same reason.
- `Controls.OnKeyDown`: requires that a key longer than one character does not start with a digit (browsers never report one). For such a key `parseInt` would insert a multi-digit number that a 0..9 cell cannot hold.
- `Voice.VoiceState.OnFinalResult`: requires that no transcript is being processed. handleFinalTranscript never awaits anything, so the awaiting callback resumes as a microtask before any later recognition event can arrive; the 'dropped because processing active' branch therefore has no state in which to fire. `AcceptFinal` still models that branch.
- The model assumes that the page's modules load. public/main.js:11 imports `announceSelectedCell` from `./voice.js`, which exports no such name: it exports only `initVoice`, `toggleVoice` and `parseNumberFromText`. Loaded as native ES modules, the import fails to link and none of main.js runs: no undo, solve, hint, key or voice handling. A bundler that binds the missing name to `undefined` gives the behaviour modelled here, since every call is written `announceSelectedCell?.()`. The announcement itself is speech output and is not modelled.
- The per-cell keydown listener in createGrid (public/sudoku.js:25-29). It repeats the digit and delete handling for a focused cell before the window handler runs. The repeated insert writes the same value again, and the undo snapshot is then taken after the first insert. The undo stack is never read back, so this is not observable.
- The number pad, the new-game, listen and stop buttons, the welcome and cell announcements, and `initialize`. The pad and the new-game button only combine `pushUndoSnapshot` with `insert`, `clear` or `generatePuzzle`, which are modelled.
- SpeechRecognition and speechSynthesis lifecycle: start, stop, restart timers, and interim-result display.
- Transcripts are taken after `toLowerCase().trim()`; Unicode case mapping is not modelled.
- `Voice.SimilarEnough`, and the functions `Similar` and `Mismatches` it is proved against: a string is a sequence of Unicode characters, while JavaScript's `length` and indexing count UTF-16 code units. For a transcript with a character outside the Basic Multilingual Plane, the lengths and the positional mismatch count differ from the page's.
- `Voice.WordCount`: the words are read over Unicode characters, not UTF-16 code units. A character outside the Basic Multilingual Plane is two code units to the page and one character here. Both count it as part of a word, because no whitespace character lies outside that plane.
- A final transcript split over several recognition results is taken as one string.
- Randomness is an input (shuffles, cell picks), not a distribution. Clocks are parameters.
- Worker messaging is a request-to-reply call; concurrency between page and worker is not modelled. `Worker.Reply` has no 'error' type because the worker never sends one, so the 'error' branches of the page's listeners are unreachable in the model.
- `public/feedback.js`, `public/audio.worker.js`, the animated backgrounds and the neon particle loop of public/main.js are not part of this model.

## Findings

| source | as written | input that shows it | evidently intended | confidence | as-written member | corrected member |
|---|---|---|---|---|---|---|
| public/main.js:225 | A hint is shown with `setGridValues(newVals, false)`, which clears the whole prefilled mask. The request is posted as type 'solve' (line 253), so `solver.onmessage` also shows the full solution with `setGridValues(data.grid, false)` (line 302) first. | With the page loaded (main.js's imports linked, see "## Left out"), generate a puzzle and request a hint. The hint resolves, and no cell is prefilled any more. Select a given and press Backspace: the given is erased. | The puzzle's givens stay fixed after a hint, and only the hinted cell changes. revealCell (public/sudoku.js:229-236) does exactly this but is never called. | medium; not executed | `Controls.RequestHint` (its ensures: after a solvable hint no cell is prefilled) | `Controls.RequestHintKeepingGivens` (every earlier prefilled mark is kept) |

# Sudoku solver service, modelled in Dafny

This project models `SudokuService` from `src/sudokuService.js`, the backtracking engine of a
small Sudoku web app. The model covers:

- the empty grid `EMPTY_GRID`;
- the three built-in example puzzles;
- the row-major scan `findEmpty`;
- the row/column/box check `isSafe`;
- the depth-first search `solveRecursive` and its entry point `solve`.

The search works in place on the caller's 9x9 grid. Each call first appends a deep copy of the
grid to the object's `solvingProcess` list, and the UI replays that list as an animation.

The project has four modules:

- `Grids` (`grid.dfy`)
  - A grid as a value (`Grid = seq<seq<int>>`) and the `Cell` address.
  - `Holds(a, g)`: the `array2<int>` `a` holds the value `g`.
  - `Place`: writing one cell.
  - The count of empty cells, `ZeroCount`, which is the termination measure.
  - `EmptyGrid`.
- `Rules` (`rules.dfy`)
  - Pure definitions of what `findEmpty` and `isSafe` answer: `FirstEmpty` and `Safe`.
  - The notions the search is judged by:
    - `Consistent`: the filled digits are mutually safe;
    - `ValidSolution`;
    - `Extends`: one grid keeps the filled cells of another.
- `Backtracking` (`backtracking.dfy`)
  - A pure specification of one call of `solveRecursive`. `Search(g)` returns the verdict, the
    snapshots the call appends, and the grid it leaves behind.
  - It is built with `Attempts`, the outcome of every digit at the first empty cell, and `Candidates`, the
    `while` loop walking those outcomes in ascending order.
  - The lemmas about the search: how the trace is shaped, what a success leaves behind,
    soundness, completeness, and that the first digit that works is the one kept.
- `Service` (`service.dfy`)
  - The class `SudokuService` with its mutable field `solvingProcess: seq<Grid>`.
  - The loop methods `FindEmpty` and `IsSafe` over the `array2<int>` grid.
  - The recursive method `SolveRecursive`, which writes to and restores the array in place,
    together with the helpers `TryDigits` and `TryDigit`.
  - `Solve` and `GetRandomExample`.

Every method that reads the array also takes a ghost grid value `g` with `requires Holds(grid, g)`.
Its `ensures` are stated about `g` and the pure definitions. `SolveRecursive` and `Solve` promise
three things, each as `Search` gives it:

- the verdict;
- the new array contents;
- the exact snapshots appended.

The `Backtracking` lemmas then carry the properties over to the methods.

Two points of behaviour follow the code as written:

- **In place.** `solve` (`src/sudokuService.js:101`) passes the caller's own grid to
  `solveRecursive`, which fills it in place, so `Solve` modifies `grid`.
- **Given digits are never rechecked.** `isSafe` is called only for the digit about to be written
  (`src/sudokuService.js:88`). A board whose given digits clash is therefore reported solved
  whenever its empty cells can still be filled, not only when it is already full. Take a valid
  solution, copy its (0, 0) digit into (0, 1) and clear (8, 8): the search writes the one digit
  that (8, 8) lacks and succeeds, yet the board is not `Consistent`. So `SearchSolved` promises a
  full grid that keeps the given digits, and validity of the result (`SearchSound`) needs the
  given digits to be mutually safe (`Consistent`). `SolvableConsistent` shows that every board
  with a solution meets that condition, so `SolvableSolved` needs no condition of its own.

## Model

| member | source | states |
|---|---|---|
| Grids.EmptyGrid | src/sudokuService.js:1-2 | A fresh 9x9 array with every cell 0, so 81 empty cells. |
| Grids.Place | src/sudokuService.js:89 | Writing `v` at cell `c` sets that cell and keeps every other cell. |
| Grids.PlaceZeroCount | src/sudokuService.js:88-90 | Writing a non-zero digit into an empty cell leaves exactly one empty cell fewer, so each nested call sees a smaller measure. |
| Grids.ZeroCountBound | src/sudokuService.js:77-83 | A 9x9 grid has at most 81 empty cells, and none exactly when it is full. So calls nest at most 81 deep, and "no empty cell" is what ends a call. |
| Rules.FirstEmptyFrom | src/sudokuService.js:49-54 | The scan from (i, j) on returns an empty cell at or after (i, j) with every cell in between filled, or none when no cell from (i, j) on is empty. |
| Rules.FirstEmpty | src/sudokuService.js:48-55 | `findEmpty`'s answer: the first empty cell in row-major order, every earlier cell being filled, or none exactly when the grid has no empty cell. |
| Rules.BoxStartRange | src/sudokuService.js:63-64 | The box anchor `Math.floor(k / 3) * 3` is 0, 3 or 6 and the box spans k. |
| Rules.SameBox | src/sudokuService.js:63-67 | A row is in the box loop's range for `row` exactly when both have the same box anchor. |
| Rules.SafeIgnoresTarget | src/sudokuService.js:57-73 | `isSafe` never reads the target cell: its value does not change the verdict. |
| Rules.SafeBySees | src/sudokuService.js:57-73 | `isSafe` says true exactly when no cell it compares holds `num`. It compares the same column at other rows, the same row at other columns, and the same box off both lines. |
| Rules.PlaceKeepsConsistent | src/sudokuService.js:87-89 | Writing a digit that `isSafe` accepts into an empty cell of a consistent grid keeps the grid consistent. |
| Rules.SolutionDigitSafe | src/sudokuService.js:57-73 | The digit that a valid solution extending the grid has at a cell passes `isSafe` there. |
| Rules.SolvedGridSafe | src/sudokuService.js:57-73 | On a solved grid `isSafe` accepts a digit 1..9 at a cell exactly when it is the digit the cell holds. Any other digit already appears in the cell's row. |
| Rules.SolvedRowDistinct | src/sudokuService.js:58-61 | The nine digits of a row of a valid solution are pairwise different. |
| Backtracking.Search | src/sudokuService.js:75-97 | One call of `solveRecursive`: a failed call hands back exactly the grid it was given. |
| Backtracking.Attempts | src/sudokuService.js:84-93 | There is one outcome per digit 1..9 at the empty cell. |
| Backtracking.AttemptsAt | src/sudokuService.js:87-90 | A digit's outcome is "rejected" when `isSafe` refuses it. Otherwise it is the nested call on the grid with that digit written, which has one empty cell fewer. |
| Backtracking.Candidates | src/sudokuService.js:85-96 | A failed candidate loop restores the grid it started from. |
| Backtracking.CandidatesStep | src/sudokuService.js:85-95 | One pass of the `while` loop: a rejected digit is skipped, and a successful nested call ends the loop with its result. A failed call adds its snapshots before the next digit is tried. |
| Backtracking.SearchTraceStart | src/sudokuService.js:76 | Every call records at least one snapshot, and the first is the grid on entry, taken before any change. |
| Backtracking.SearchFull | src/sudokuService.js:77-83 | On a grid with no empty cell the call succeeds at once, records that grid once and changes nothing. |
| Backtracking.ExtendsThroughPlace | src/sudokuService.js:89 | A grid that keeps the cells of the grid with `num` written at `c` also keeps the cells of the original grid. |
| Backtracking.SearchSolved | src/sudokuService.js:77-90 | On success: no empty cell is left, every given cell is kept, every written cell holds 1..9, and the last snapshot is the final grid. |
| Backtracking.CandidatesSolved | src/sudokuService.js:85-90 | The same facts for a successful candidate loop. |
| Backtracking.SearchFailed | src/sudokuService.js:85-96 | Every snapshot recorded by a failed call still has an empty cell. |
| Backtracking.CandidatesFailed | src/sudokuService.js:85-96 | The same for a failed candidate loop. |
| Backtracking.SolvedIffLastFull | src/sudokuService.js:99-103 | The trace is never empty, and the search succeeded exactly when its last snapshot has no empty cell. |
| Backtracking.SearchSound | src/sudokuService.js:81-90 | If the given digits are in 0..9 and mutually safe, a success leaves a valid solution that keeps them. |
| Backtracking.CandidatesSound | src/sudokuService.js:85-90 | A successful candidate loop at the first empty cell of a grid with digits in 0..9 and mutually safe givens ends in a valid solution. |
| Backtracking.SearchComplete | src/sudokuService.js:75-97 | If some valid solution keeps the given digits, the search succeeds. |
| Backtracking.CandidatesComplete | src/sudokuService.js:85-96 | The loop succeeds once it starts at or below the solution's digit for the cell. |
| Backtracking.SolvedIffSolvable | src/sudokuService.js:75-103 | On a consistent input, the search succeeds exactly when the puzzle has a solution. Then the final grid is a solution and the last snapshot. |
| Backtracking.SolvableConsistent | src/sudokuService.js:57-73 | A board that some valid solution keeps has only digits 0..9, and each given digit passes `isSafe` at its own cell. |
| Backtracking.SolvableSolved | src/sudokuService.js:75-103 | Every board with a valid solution is solved: the search succeeds, its final grid is a valid solution, and the last snapshot is that grid. |
| Backtracking.UnsolvedUnsolvable | src/sudokuService.js:75-97 | A failed search means no valid solution keeps the given digits. |
| Backtracking.SearchPicksFirst | src/sudokuService.js:85-94 | On success, the digit left at the first empty cell passed `isSafe`, and its nested search produced the final grid. Its snapshots are the last ones of the whole trace. Every smaller digit was refused by `isSafe` or led to a failed nested search. |
| Backtracking.CandidatesRejectsEarlier | src/sudokuService.js:85-95 | Every digit the loop passed over before the kept one was refused or failed. |
| Backtracking.CandidatesPicksFirst | src/sudokuService.js:85-94 | The digit kept by a successful loop is at least the loop's starting digit. It was accepted by `isSafe`, its nested search gives the final grid, and that search's snapshots end the loop's snapshots. |
| Service.SudokuService.constructor | src/sudokuService.js:6-7 | A new service starts with an empty `solvingProcess`. |
| Service.SudokuService.GetRandomExample | src/sudokuService.js:9-46 | Returns one of the three fixed 9x9 puzzles: the one at index floor(random * 3) for the caller's draw `random` in [0, 1). |
| Service.SudokuService.FindEmpty | src/sudokuService.js:48-55 | The nested scan returns exactly `FirstEmpty` of the array's contents and changes nothing. |
| Service.SudokuService.IsSafe | src/sudokuService.js:57-73 | The two loops return exactly `Safe`, and change nothing. |
| Service.SudokuService.Copy | src/sudokuService.js:76 | `grid.map((arr) => arr.slice())` is a value equal to the array's contents, which later writes cannot reach. |
| Service.SudokuService.SolveRecursive | src/sudokuService.js:75-97 | The verdict is `Search`'s verdict, the array ends holding `Search`'s final grid, and `solvingProcess` gains exactly `Search`'s snapshots. |
| Service.SudokuService.TryDigits | src/sudokuService.js:84-96 | The `while` loop over `nums` = [1..9] with `shift` gives `Candidates`' verdict, final grid and snapshots. |
| Service.SudokuService.TryDigit | src/sudokuService.js:87-92 | A digit `isSafe` refuses changes nothing. An accepted digit is written and the nested call made. On failure the cell is reset to 0, so the array holds the entry grid again. |
| Service.SudokuService.Solve | src/sudokuService.js:99-103 | Clears `solvingProcess` and returns it as the trace of `Search` on the caller's grid, which is left holding `Search`'s final grid. The trace starts with the input grid. Its last snapshot is full exactly when the search succeeded. A full input gives the one-entry trace `[input]` and is left unchanged. |

## Left out

- Service.SudokuService.GetRandomExample: the index is the floor of the exact real product
  `random * 3`, not of the product rounded to a double as `src/sudokuService.js:45` computes it.
  The two differ for a few draws just below 1/3 and 2/3. For `random` = 0x1.5555555555555p-1 the
  source picks the example at index 2 and the model the one at index 1. Either way the result is
  one of the three examples.
- `Math.random`: `GetRandomExample` takes the caller's draw `random` in [0, 1) as a parameter
  instead of drawing it, because randomness is outside the model.
- `EMPTY_START_GRID` (`src/sudokuService.js:3-4`) builds rows of array holes that the solver never
  reads. It is a JavaScript artefact and is not modelled.
- The default export of a single service instance (`src/sudokuService.js:106`) is module wiring. A
  caller of the model constructs a `SudokuService` itself.
- `src/storageService.js` (browser `localStorage` and JSON), the React components and the app
  bootstrap are I/O and UI. They are not part of this model.
- Ragged grids: the JavaScript grid is an array of rows of any lengths. The model uses a
  rectangular `array2<int>`, and the searching methods require 9x9, the only shape the app
  creates.
- Non-integer cells: a JavaScript cell may hold any value, and the model's cells are integers.
  Integers of any value are modelled. `SearchSound` states validity only for inputs whose cells are
  in 0..9 (`InRange`), which is what the UI lets a user enter.
- Trace length: the claim that the trace has one entry per call holds by construction of
  `Search`, since each call contributes `[g]` followed by the traces of its nested calls. No
  separate call counter is modelled.
- Determinism: `Solve`'s trace is a function of the input grid (`Search(g).trace`), so equal
  inputs give equal traces. No separate lemma exists for this.
- Code structure: the body of the `while` loop in `solveRecursive` is split into its own methods,
  `TryDigits` (the loop) and `TryDigit` (one pass). They keep the statements and their order
  and change no behaviour.

# Console games and factorials, modelled in Dafny

This project models the computational core of three small Python programs and proves properties about the models:

- The **Minesweeper board engine** of `debugging/mines.py` (module `Mines`, file `mines.dfy`). The class `Minesweeper` keeps:
  - the mine set, as linear indices `y * width + x`;
  - the `height x width` matrix of revealed flags, an `array2<bool>` indexed `revealed[y, x]`;
  - the counter `revealedCells` and the constant `totalCells`.

  Its operations are `count_mines_nearby` (a method with the source's nested loop), `reveal` (a recursive method that flood-fills through the board in place) and `is_won`. A repeated reveal is idempotent. A ghost set `Shown` is the abstract view of the matrix: the invariant `Valid()` ties it to the flags and to the counter, and it excludes every mine. The recursion of `reveal` terminates because the set of unrevealed cells shrinks. The random mine placement is a constructor parameter: any set of the requested size inside `[0, width * height)`.
- The **Tic-Tac-Toe rules** of `debugging/tic.py` (module `TicTacToe`, file `tic.dfy`):
  - `check_winner` and `check_draw` as pure predicates over a board of one-character strings;
  - the move step of the game loop as the method `Game.Move` of a class holding the board and the player to move.

  The predicates are proved against an independent description, the eight lines of the board, and against "no cell is blank".
- The **two factorial functions**:
  - `debugging/factorial_recursive.py` (module `FactorialRecursive`), defined on the naturals;
  - `debugging/factorial.py` (module `Factorial`), which answers 1 for every `n <= 1`.

  The recurrences, the documented examples and positivity are proved, as is the fact that the two functions agree on the naturals.

## Model

| member | source | states |
|---|---|---|
| FactorialRecursive.Factorial | debugging/factorial_recursive.py:41-45 | defined (terminating) for every n >= 0, and every value is at least 1 |
| FactorialRecursive.FactorialIsProduct | debugging/factorial_recursive.py:22-26 | the recursion computes the product of all integers 1..n, as the docstring describes n! |
| FactorialRecursive.Recurrence | debugging/factorial_recursive.py:41-45 | factorial(0) == 1, and factorial(n) == n * factorial(n - 1) for n > 0 |
| FactorialRecursive.DocumentedExamples | debugging/factorial_recursive.py:26-38 | the documented values 0! = 1, 4! = 24 and 5! = 120 |
| FactorialRecursive.AtLeastArgument | debugging/factorial_recursive.py:41-45 | n <= factorial(n) |
| FactorialRecursive.FactorialMonotone | debugging/factorial_recursive.py:41-45 | m <= n implies factorial(m) <= factorial(n) |
| Factorial.Factorial | debugging/factorial.py:5-10 | terminates for every integer, negative ones included, and every value is at least 1 |
| Factorial.AtMostOne | debugging/factorial.py:7-8 | factorial(n) == 1 for every n <= 1, including negative n |
| Factorial.Recurrence | debugging/factorial.py:9-10 | factorial(n) == factorial(n - 1) * n for n > 1 |
| Factorial.AgreesWithRecursive | debugging/factorial.py:5-10 | for every n >= 0 it equals the factorial of factorial_recursive.py, although the two base cases differ |
| TicTacToe.EmptyBoard | debugging/tic.py:77 | the initial board is 3 x 3 and every cell is blank |
| TicTacToe.Count | debugging/tic.py:34 | list.count never exceeds the length of the list |
| TicTacToe.CountIsLength | debugging/tic.py:34 | row.count(v) == len(row) exactly when every entry of the row equals v |
| TicTacToe.RowWinsIff | debugging/tic.py:34 | the row test holds on a 3-cell row exactly when its three cells are equal and not blank |
| TicTacToe.AnyRowWinsUnfolded | debugging/tic.py:33-35 | the row loop finds a winner exactly when one of the three rows passes the row test |
| TicTacToe.RowsWinIff | debugging/tic.py:33-35 | the row loop finds a winner exactly when one of the three row lines is uniform and non-blank |
| TicTacToe.ColumnsWinIff | debugging/tic.py:37-39 | the column loop finds a winner exactly when one of the three column lines is uniform and non-blank |
| TicTacToe.CheckWinnerIff | debugging/tic.py:19-47 | check_winner is true exactly when one of the 8 lines (rows, columns, diagonals 41-45) is uniform and non-blank, and false when none is |
| TicTacToe.EmptyBoardHasNoWinner | debugging/tic.py:77 | check_winner is false on the all-blank initial board |
| TicTacToe.CheckDrawIff | debugging/tic.py:64-67 | check_draw is true exactly when no cell of the board is blank; it does not look at lines |
| TicTacToe.EmptyBoardIsNoDraw | debugging/tic.py:77 | the initial board is not a draw |
| TicTacToe.Mark | debugging/tic.py:93 | the marked board is 3 x 3, holds the mark at the chosen cell and every other cell unchanged |
| TicTacToe.CountAfterUpdate | debugging/tic.py:93 | writing a non-blank mark into a blank cell of a row removes exactly one blank from that row |
| TicTacToe.BlanksOfBoard | debugging/tic.py:64-67 | the blanks of the board are those of its three rows |
| TicTacToe.MarkUsesOneBlank | debugging/tic.py:92-93 | a mark on an empty cell lowers the number of blank cells by one |
| TicTacToe.BlanksAtMostNine | debugging/tic.py:92-93 | a board has at most nine blank cells, so together with MarkUsesOneBlank at most nine moves are accepted |
| TicTacToe.CountZero | debugging/tic.py:65 | a value occurs zero times in a row exactly when it is absent from the row |
| TicTacToe.NoBlanksIsDraw | debugging/tic.py:64-67 | check_draw holds exactly when the board has no blank cell left |
| TicTacToe.Game.constructor | debugging/tic.py:77-78 | the game starts on the empty board with "X" to move |
| TicTacToe.Game.Move | debugging/tic.py:92-104 | an occupied cell leaves the board and the player unchanged (Taken). Otherwise exactly that cell gets the current player's mark, the other 8 are unchanged and one blank is used up. The outcome is Won exactly when check_winner holds afterwards, and Drawn exactly when it does not and check_draw does. Only when the game goes on does the player flip between "X" and "O" |
| Mines.Range | debugging/mines.py:70 | range(n) holds exactly the integers 0 <= i < n |
| Mines.RangeSize | debugging/mines.py:70 | range(n) has n elements |
| Mines.SampleExists | debugging/mines.py:70 | random.sample(range(n), k) has a possible answer, a k-element subset of range(n), exactly when 0 <= k <= n; otherwise it raises ValueError |
| Mines.IndexInRange | debugging/mines.py:123 | the index y * width + x of an on-board cell lies in [0, width * height) |
| Mines.IndexInjective | debugging/mines.py:123 | two on-board cells never share an index |
| Mines.IndexOnto | debugging/mines.py:70 | every index in [0, width * height) is that of an on-board cell |
| Mines.IndicesSize | debugging/mines.py:70 | indexing a set of on-board cells keeps its size |
| Mines.Minesweeper.constructor | debugging/mines.py:55-74 | the mines are the given sample, which has exactly mineCount distinct indices in [0, width * height). Every flag is false, revealed_cells is 0 and total_cells is width * height. The invariant holds |
| Mines.Minesweeper.ScanStep | debugging/mines.py:119-124 | one offset of the nested loop adds one to the count exactly when it is not (0, 0), lies on the board and is a mine |
| Mines.Minesweeper.ScanNextColumn | debugging/mines.py:117-118 | the inner loop over dy ends where the next dx begins |
| Mines.Minesweeper.ScanMatches | debugging/mines.py:116-124 | the running count of the nested loop is the number of mines among the neighbours visited so far |
| Mines.Minesweeper.ScanComplete | debugging/mines.py:116-125 | after all nine offsets the count is the number of mines among the neighbours |
| Mines.Minesweeper.AtMostEightNeighbours | debugging/mines.py:117-122 | a cell has at most 8 on-board neighbours, so at most 8 neighbouring mines |
| Mines.Minesweeper.CountMinesNearby | debugging/mines.py:116-125 | the result is the number of on-board cells at Chebyshev distance exactly 1 whose index is a mine, hence in [0, 8] |
| Mines.Minesweeper.ClearNeighbourIsSafe | debugging/mines.py:148-157 | the cascade only runs from a cell with no neighbouring mine, so each cell it reveals is safe |
| Mines.Minesweeper.ReachesItself | debugging/mines.py:145-147 | an unrevealed on-board cell is reached by the flood fill started at it |
| Mines.Minesweeper.ReachesThrough | debugging/mines.py:148-157 | a step from a clear cell to a neighbour, followed by a walk from that neighbour, is a walk of the flood fill |
| Mines.Minesweeper.ReachesAllThrough | debugging/mines.py:157 | everything the recursive reveal of a neighbour adds is reachable from the cascading cell |
| Mines.Minesweeper.FloodPathShown | debugging/mines.py:148-157 | when every newly revealed clear cell has its neighbours revealed, each walk of the flood fill from a revealed cell stays revealed |
| Mines.Minesweeper.FloodFillExact | debugging/mines.py:143-158 | given what Reveal guarantees, the cells a reveal adds are exactly the cells the flood fill from (x, y) reaches |
| Mines.Minesweeper.CoverStep | debugging/mines.py:150-157 | each pass of the inner cascade loop leaves the visited on-board neighbour revealed |
| Mines.Minesweeper.CoverNextColumn | debugging/mines.py:149-150 | the inner cascade loop ends where the next dx begins |
| Mines.Minesweeper.CoverAll | debugging/mines.py:149-157 | once all nine offsets are visited, every on-board neighbour is revealed |
| Mines.Minesweeper.Reveal | debugging/mines.py:127-158 | on a mine: the result is false and the flags, the counter and Shown are unchanged (143-144). On a safe cell: the result is true and the cell is revealed, and an already revealed cell changes nothing (145, 158). Flags only go from false to true; the counter grows by the number of cells newly revealed; no mine is ever revealed (146-147). Every newly revealed cell with no neighbouring mine has all its neighbours revealed (148-157). Every newly revealed cell is reachable from (x, y) by the flood fill. The recursion terminates on the shrinking set of unrevealed cells |
| Mines.Minesweeper.Cascade | debugging/mines.py:148-157 | from a revealed cell with no neighbouring mine, every on-board neighbour ends up revealed; the invariant, closure and reachability are kept |
| Mines.Minesweeper.CascadeColumn | debugging/mines.py:150-157 | one dx column of the cascade: each on-board, unrevealed neighbour in it is revealed recursively, and the column is then fully revealed |
| Mines.Minesweeper.CounterCountsFlags | debugging/mines.py:145-147 | revealed_cells equals the number of true entries of the matrix, and no flagged cell is a mine |
| Mines.Minesweeper.SafeIndices | debugging/mines.py:160-162 | the indices of the safe cells are the numbers below width * height that are not mines |
| Mines.Minesweeper.SafeCellsSize | debugging/mines.py:160-162 | the board has width * height - len(mines) safe cells |
| Mines.Minesweeper.WonIffSafeCellsRevealed | debugging/mines.py:160-162 | is_won holds exactly when every non-mine cell of the board is revealed, both as a set and as flags of the matrix |

## Left out

- `clear_screen`, `print_board` and `play` of `debugging/mines.py` are console I/O and a shell call, so the model does not describe them. The same goes for the never-used `field` matrix.
- The randomness of `random.sample` is not modelled. The mine set is a constructor parameter of the right size and range, and `Mines.SampleExists` states when one exists.
- Mines.Minesweeper.constructor: the Python default arguments (10, 10, 10) are not modelled, so every caller gives all three values.
- Mines.Minesweeper.constructor: negative widths or heights are not modelled, because the dimensions are `nat`. With them Python builds an empty matrix while `width * height` may still be positive.
- Mines.Minesweeper.Reveal: the caller must pass an on-board cell. The bounds check lives in `play`. Python would also accept negative coordinates and index from the end of the list.
- Mines.Minesweeper.Reveal: the source's single recursive method is split into three mutually recursive methods, for its two nested loops. `Reveal` decides and marks; `Cascade` is the loop over dx; `CascadeColumn` is the loop over dy.
- At-most-once revealing rests on the cascade skipping cells that are already revealed. Reveal's contract states this reachability and closure but not the order in which cells are revealed.
- `print_board` of `debugging/tic.py` is not modelled. Neither is the `input()`/`int()` parsing of `tic_tac_toe`, its range check or its retry loop. `Game.Move` requires a position in 0..2, which that code has already checked.
- `Game.Move` returns an outcome instead of printing and breaking out of the loop; the end of the game is the outcome Won or Drawn.
- FactorialRecursive.Factorial: negative arguments are excluded by its `nat` parameter. The documentation demands n >= 0, and Python would recurse until the stack overflows.
- The module-level `sys.argv` handling and the printing of both factorial scripts are not modelled.
- `debugging/checkbook.py` is not part of this model: it is float arithmetic and console I/O.
- Python's integers are unbounded, and so are Dafny's, so no width or wrap-around is modelled.
- Mines.Minesweeper.constructor: the code accepts `mineCount == width * height`, a board with no safe cell, because `random.sample` raises ValueError only for a negative count or one above the population (debugging/mines.py:70); the model accepts exactly what the code accepts.
- FactorialRecursive.Factorial: the model assumes unbounded recursion. CPython's recursion limit (1000 frames by default) makes the script raise RecursionError for n around 1000 and above, since it recurses once per unit of n (debugging/factorial_recursive.py:45).
- Factorial.Factorial: the model assumes unbounded recursion. CPython's recursion limit makes the script raise RecursionError for n around 1000 and above, since it recurses once per unit of n (debugging/factorial.py:10).
- Mines.Minesweeper.Reveal: the model assumes unbounded recursion. The source recurses once per cell of a cascade chain (debugging/mines.py:157), so on a board large enough for a chain of about 1000 cells CPython would raise RecursionError part-way and leave a partial reveal. The default 10 x 10 board has only 100 cells and cannot reach the limit.

# Minesweeper board logic in Dafny

This project models the board logic of the `Minesweeper` class in `main.py`, a
pygame Minesweeper game. The model covers:

- the difficulty table;
- `reset` and the mine placement with its adjacency counts;
- the click handler;
- `open_cell` and the flood fill it starts through `open_adjacent_cells`;
- `toggle_flag`.

Everything is written as pure functions over an immutable `Board` value.

| file | module | contents |
|---|---|---|
| `outcomes.dfy` | `Outcomes` | `Result` and the Python exceptions the code can raise |
| `grid.dfy` | `Grid` | square grids as `seq<seq<T>>` indexed `[x][y]`, the 3-by-3 neighbourhood, the set of cells holding a value, the mine block of a cell |
| `board.dfy` | `Board` | the constants, the board state, its well-formedness and count invariants, `toggle_flag` |
| `placement.dfy` | `Placement` | `increment_adjacent`, `place_mines`, `reset` |
| `reveal.dfy` | `Reveal` | `open_cell`, `open_adjacent_cells` |
| `input.dfy` | `Input` | `choose_difficulty`, `handle_mouse_input` |

Modelling choices:

- **Python exceptions.** `IndexError` from a list lookup and `ZeroDivisionError` from a floor division become `Err(...)` results. They are not excluded by preconditions.
- **The neighbour loops' bound.** Both neighbour loops test a neighbour against the module constant `GRID_SIZE` (20), not against the board's own size. Every function with such a loop takes that bound as a parameter `bound`:
  - `GRID_SIZE` is the code as written;
  - the board size is the evidently intended code.
- **Randomness.** `random.randint` becomes a supplied sequence of `(x, y)` draws. When the draws run out before `mine_count` mines are down, the result is `Err(OutOfDraws)`.
- **The opened grid.** `grid` (0/1 in the source) is a `bool` grid.
- **The adjacency count.** The count of a cell counts the mines of its whole 3-by-3 block, the cell itself included. `increment_adjacent` includes the offset (0, 0), so a mine counts itself.
- **Termination.** The flood's recursion terminates on the number of unopened cells. Every call that recurses first opens one more cell.

Three behaviours of the code are worth knowing:

- **Flagged cells and the flood.** The flood fill tests only `grid`, so it opens flagged cells and leaves their flags set (`Reveal.FloodOpensFlaggedCell`). A cell can therefore end up both flagged and open.
- **`toggle_flag` itself has no guard.** Only the click handler checks that the cell is closed.
- **Off-grid clicks.** A left or right click resolving to a cell outside the grid is not clamped. It raises `IndexError`. Other buttons do nothing.

## Model

| member | source | states |
|---|---|---|
| `Board.Cleared` | main.py:42-48 | the board reset starts from is well formed and has no mine, no opened cell and no flag; its all-zero counts are correct for it; the round is neither lost nor won |
| `Board.ToggleFlag` | main.py:98-99 | the flag of (x, y) is inverted; every other flag and every other field of the board keeps its value |
| `Board.ToggleFlagTwice` | main.py:98-99 | toggling the same flag twice gives back the original board |
| `Board.CountOfCell` | main.py:58-69 | with correct counts, a cell's count is the number of mines among its eight neighbours plus one for its own mine; a safe cell's count lies in 0..8 and a mine's in 1..9 |
| `Placement.IncrementAdjacent` | main.py:64-69 | fails exactly when some neighbour passes the bounds test but lies off the lists, and then with IndexError; never fails when the bound is at most the board size; on success, adds one to each cell of the 3-by-3 block (centre included) that passes the test and leaves every other count alone |
| `Placement.EdgeMineCrashes` | main.py:64-69 | with the bound GRID_SIZE on a smaller board, a mine at (x, y) raises IndexError if and only if x or y is on the last row or column |
| `Placement.PlacedStaysCounted` | main.py:58-60 | setting a new mine and incrementing its block with the intended bound keeps every count equal to the mine count of its block |
| `Placement.TryPlace` | main.py:58-61 | a draw on a cell that already holds a mine changes nothing; a new draw fails, always with IndexError, exactly when some neighbour of it passes the bounds test but lies off the lists; otherwise the drawn cell joins the mine set, the mine count goes up by one, correct counts stay correct under the intended bound, and the opened grid, flags and round state are untouched |
| `Placement.PlaceFrom` | main.py:53-61 | the loop only adds mines, raises nothing but IndexError or runs out of draws, ends with exactly the missing number of new mines, and keeps the counts correct under the intended bound |
| `Placement.PlaceFromDrawn` | main.py:55-61 | every mine the loop adds is a cell some draw named; the loop runs out of draws only when the draws name fewer cells not yet holding a mine than the mines still missing |
| `Placement.PlaceMines` | main.py:53-61 | place_mines adds exactly mine_count mines (none if it is not positive) without removing any, each a drawn cell; it leaves everything but mines and counts alone and keeps the counts correct under the intended bound; it runs out of draws only when they name fewer than mine_count cells not yet holding a mine |
| `Placement.Reset` | main.py:42-49 | reset yields a well-formed board of the chosen size with exactly mine_count mines, all of them drawn cells, nothing opened, nothing flagged and the round not over; with the intended bound every count is correct and no IndexError is possible; it runs out of draws only when they name fewer than mine_count distinct cells |
| `Placement.EnoughDrawsReset` | main.py:42-61 | with the intended bound, reset succeeds if and only if the draws name at least mine_count distinct cells |
| `Reveal.OpenOne` | main.py:83 | marking a closed cell opened removes exactly that cell from the closed cells and changes nothing else |
| `Reveal.OpenCell` | main.py:81-87 | a no-op on an opened cell; otherwise it opens the cell and strictly shrinks the set of closed cells, never closing, moving a mine, changing a count or touching a flag; the round ends exactly when it was over or a mine was opened; a mine or a nonzero count opens that cell alone and never fails, whatever the bound; a zero count opens every neighbour that passes the bounds test, each of which lies on the board; the cells opened are closed under the flood (every opened cell with no mine and count zero has all its neighbours that pass the test open) and shut in by it (they lie inside every set that holds the clicked cell and holds, for each of its cells with no mine and count zero, every neighbour on the board that passes the test); every non-blank cell opened, other than the clicked one, lies next to an opened blank cell; only IndexError can be raised, and not with the intended bound |
| `Reveal.OpenBlank` | main.py:82-87 | opening a closed cell with no mine and count zero opens it and every neighbour that passes the bounds test, with the flood closed and shut in as for OpenCell; only IndexError can be raised, and not with the intended bound |
| `Reveal.OpenNeighbour` | main.py:93-95 | one iteration of the neighbour loop opens the neighbour if it passes the bounds test and is closed, raises IndexError if it passes the test off the lists, and what it opens is closed under the flood and lies inside every set shut under the flood that holds the neighbour |
| `Reveal.OpenAdjacentFrom` | main.py:90-95 | the remaining iterations of the neighbour loop only open cells, and afterwards every remaining neighbour that passes the bounds test lies on the board and is open; what they open is closed under the flood and lies inside every set shut under the flood that holds those remaining neighbours |
| `Reveal.OpenAdjacentCells` | main.py:90-95 | after open_adjacent_cells every neighbour that passes the bounds test lies on the board and is open, nothing but opened cells and the round state has changed, and what it opened is closed under the flood and lies inside every set shut under the flood that holds those neighbours |
| `Reveal.ZeroCountMeansNoMineNear` | main.py:86-87 | with correct counts, a cell with count zero has no mine anywhere in its 3-by-3 block |
| `Reveal.OpenCellSafe` | main.py:81-95 | with correct counts, opening a cell ends the round if and only if the round was already over or the cell was closed and held a mine; opening a safe cell, cascade included, opens no mine |
| `Reveal.EmptyBoardOpensAll` | main.py:81-95 | on a board with no mine and nothing open, one click with the intended bound opens every cell |
| `Reveal.MineWallStopsFlood` | main.py:81-95 | with correct counts, when a column holds a mine in every row, a click left of it opens no cell in or beyond that column |
| `Reveal.FloodOpensFlaggedCell` | main.py:90-95 | a flagged neighbour of a closed, safe, zero-count cell is open after the click and still flagged |
| `Reveal.EdgeFloodCrashes` | main.py:90-95 | with the bound GRID_SIZE on a smaller board, opening a closed safe zero-count cell on the last row or column raises IndexError |
| `Input.ChooseDifficulty` | main.py:21-38 | every answer gives a grid of at most GRID_SIZE cells a side with fewer mines than cells and a screen that is a whole, nonzero number of cells in each direction; the Hard settings, equal to the module constants, come out exactly when the answer is neither '1' nor '2' |
| `Input.CellIndex` | main.py:73 | the pixel division fails with ZeroDivisionError exactly when the grid size is zero or the screen is narrower than the grid; otherwise the pixel lies inside the returned cell, and a pixel on a screen that is a whole number of cells gives an index below the grid size |
| `Input.EasyEdgeMineCrashes` | main.py:42-69 | on the Easy settings (8 by 8, 10 mines), a first draw of (7, 0) makes reset raise IndexError |
| `Input.HandleMouseInput` | main.py:72-77 | a left click on an unflagged cell of the grid is open_cell on that cell, opens it and changes no flag, and does nothing on a flagged cell; a right click toggles a closed cell's flag alone and does nothing on an open cell; other buttons do nothing; a left or right click outside the grid raises IndexError; no click moves a mine, changes a count or closes a cell |
| `Input.ClickInWindowFindsCell` | main.py:72-77 | under every difficulty, a click inside the window resolves to a cell of the grid, and with the intended bound the click raises nothing |
| `Input.RightClickTwice` | main.py:76-77 | two right clicks on the same closed cell give back the original board |
| `Input.FlagBlocksOpen` | main.py:74-77 | after a right click flags a closed cell, a left click on it changes nothing |

## Left out

- **pygame.** `__init__`'s window setup, `draw_board`, the `run` loop, its frame clock and the 1- and 5-second waits are display and event plumbing. They are not modelled.
- **The difficulty prompt.** The `input()`/`print()` prompt is left out. `Input.ChooseDifficulty` takes the answer as a string.
- **`random.randint`.** It is replaced by a supplied draw sequence. `Placement.PlaceFrom` returns `Err(OutOfDraws)` where the source would keep drawing forever; with unbounded draws the source's loop need not terminate.
- **Partial state after an exception.** When an exception escapes, the source leaves the board partly updated, and the exception ends the program. The model returns only the error.
- **Scoring, timers and victory detection.** `main.py` has none of them: nothing sets `victory` to True, and nothing checks whether every safe cell is open. The model carries `victory` unchanged.
- **Clicks after a loss.** Clicks that arrive in the same event batch after a loss are still handled by the source. The model does not restrict `HandleMouseInput` to a running round either.

## Findings

| source | as written | input that shows it | evidently intended | confidence | as-written member | corrected member |
|---|---|---|---|---|---|---|
| main.py:68 | increment_adjacent tests neighbours against the constant GRID_SIZE (20) instead of the board's grid_size | Easy board (8 by 8), first mine drawn at (7, 0): the neighbour (8, 0) passes the test and adjacent[8] raises IndexError during reset | test against the board size, so a mine's block is clipped to the board | not executed | `Placement.EdgeMineCrashes` | `Placement.Reset` |
| main.py:94 | open_adjacent_cells tests neighbours against GRID_SIZE instead of grid_size | Easy or Medium board, left click on a closed safe cell with count zero on the last row: the neighbour one row past the board passes the test and grid[size] raises IndexError | test against the board size, so the flood stays on the board | not executed | `Reveal.EdgeFloodCrashes` | `Reveal.OpenCell` |

For the corrected halves, every function takes the loop bound as a parameter,
and with a bound no larger than the board size the contracts prove the fixes:

- `Placement.Reset` never raises IndexError and leaves every count correct.
- `Reveal.OpenCell` never fails, and opens every neighbour of a zero-count cell.

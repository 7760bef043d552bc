# Minesweeper board bookkeeping, in Dafny

This project models the game-state object of a small minesweeper game (`logic.py`). It covers
the constructor, `clear_state`, `place_mine`, `get_size` and `stop`, and proves properties of
them.

The state holds:

- a field size `(width, height)`;
- a configured mine count;
- a column-major mine field `mine_field[x][y]` of integers, where 9 marks a mine and any other
  value counts the adjacent mines;
- a mask layer of booleans with the same shape;
- a `running` flag that the game loop polls.

`place_mine((x, y))` writes 9 into the target cell. It then works out the target's neighbour
indices along each axis as a tuple clamped at the board's edges. Last, it runs nested loops over
both tuples and adds one to every visited cell other than the target that does not already
hold 9.

Modules, one concept each:

- `Grid` (`grid.dfy`): column-major grids, the nested list comprehension (`Fill`) and the cell
  assignment (`Update`).
- `Neighbours` (`neighbours.dfy`): the edge-clamped neighbour tuple along one axis.
- `Minefield` (`minefield.dfy`): the mine marker, adjacency, and the loops of `place_mine`. The
  nested loops are written as folds (`VisitColumn`, `VisitAll`) that follow the `for` loops step
  by step. Their result is proved equal to a cell-by-cell description (`IsPlacement`).
- `MineCounts` (`mine_counts.dfy`): the invariant linking cell values to mines, and the bound of
  eight adjacent mines.
- `Logic` (`logic.dfy`): the state record and its operations, plus the end-to-end invariant.
  Starting from a cleared board and placing mines on distinct cells, every non-mine cell holds
  its number of adjacent mines, from 0 to 8. The renderer relies on this when it picks the glyph
  `numbers[value - 1]`.

Python semantics written out:

- `range(0, n)` yields nothing for `n <= 0` (`RangeLength`). So a non-positive size gives an
  empty grid rather than an error.
- Integers are unbounded in Python as in Dafny, so cell values need no wrap-around.

## Model

| member | source | states |
|---|---|---|
| Grid.Fill | logic.py:14-15 | The comprehension builds max(w, 0) columns of max(h, 0) cells each, every cell holding the given value |
| Grid.Update | logic.py:26 | Assigning `g[x][y]` changes that one cell to the new value and keeps the shape and every other cell |
| Neighbours.AxisNeighbours | logic.py:28-42 | The neighbour tuple for coordinate c holds c, has two or three entries, has no repeats, is consecutive, and stays within one step of c |
| Neighbours.AxisNeighboursClamped | logic.py:28-42 | For an in-range coordinate on an axis at least two long, the tuple is exactly the window max(0, c-1)..min(n-1, c+1): each index in it is in range and within one of c, and each such index is in it |
| Neighbours.AxisNeighboursInRangeIff | logic.py:29-42 | For an in-range coordinate, every tuple index is inside the axis if and only if the axis is at least two long |
| Minefield.Visit | logic.py:46-47 | One run of the loop body raises the visited cell by one when it is not the target and does not hold 9, leaves it as it was otherwise, and changes no other cell |
| Minefield.VisitColumn | logic.py:45-47 | The inner loop over the listed rows of one column raises each visited cell other than the target by one unless it holds 9, and changes no other cell |
| Minefield.VisitAll | logic.py:44-47 | The nested loops raise each cell of the column-by-row product other than the target by one unless it holds 9, and change no other cell |
| Minefield.PlaceMineOnField | logic.py:18-47 | After placing, the target holds 9 whatever it held; each adjacent non-mine cell is one higher; adjacent mines stay 9; every other cell and the shape are unchanged |
| Minefield.PlacementIsUnique | logic.py:18-47 | The cell-by-cell description of a placement determines the resulting field completely |
| MineCounts.CountIsSetSize | logic.py:19-21 | For mines without repeats, the adjacent-mine count equals the number of distinct adjacent mines |
| MineCounts.AtMostEightAdjacent | logic.py:19-21 | No cell has more than eight adjacent mines when no mine is listed twice |
| MineCounts.PlacementKeepsConsistent | logic.py:18-47 | Placing a mine on a new in-range cell of a field consistent with the earlier mines leaves it consistent with the earlier mines plus the new one |
| Logic.ClearState | logic.py:12-15 | Clearing gives a mine field of all 0 and a mask of all false, both of width-by-height shape; size, mine count and running flag are kept |
| Logic.New | logic.py:4-10 | The constructor stores the size and mine count, clears the board and is not running |
| Logic.NewDefault | logic.py:4-10 | The default constructor stores the size (18, 10) and 35 mines and gives a cleared board: 18 columns of 10 cells, every cell 0 and unmasked, not running |
| Logic.PlaceMine | logic.py:18-47 | Placing a mine on a board at least 2 by 2 at an in-range cell gives the cell-by-cell placement on the mine field, keeps the field's shape, and leaves the mask, size, mine count and running flag unchanged |
| Logic.PlaceMines | logic.py:18-47 | Placing mines one after another keeps the shape, mask, size, mine count and running flag |
| Logic.GetSize | logic.py:49-51 | The reported size is the stored field size, unchanged, and it describes the mine field: width columns, each height cells |
| Logic.Stop | logic.py:53-55 | Stopping clears the running flag and leaves size, mine count, mine field and mask unchanged |
| Logic.ClearedBoardCountsMines | logic.py:12-47 | From a cleared board, after placing mines on distinct in-range cells, each mine cell holds 9, each other cell holds the number of adjacent mines (between 0 and 8), and the mask is all false |
| Logic.FieldTracksMines | logic.py:18-47 | From an all-zero field, placing distinct mines leaves a field consistent with them |
| Logic.ClearForgetsPlacements | logic.py:12-15 | Clearing after any placements gives the same state as clearing before them, and clearing is idempotent |
| Logic.SizeIsStable | logic.py:49-51 | The reported size is the constructor's, after placing mines, clearing or stopping |
| Logic.StopIdempotent | logic.py:53-55 | Stopping twice equals stopping once, and stopping commutes with placing a mine |
| Logic.RepeatedPlacementOvercounts | logic.py:44-47 | Placing a mine twice on the same cell of a cleared board leaves each of its neighbours at 2 although only one distinct mine is adjacent, so placements must be distinct for the count invariant |

## Left out

- Logic.PlaceMine, Minefield.PlaceMineOnField: both require the board to be at least 2 by 2
  and the location to be on the board. None of the following behaviours off that domain is
  modelled.
  - On a one-wide or one-tall board, `place_mine` raises an index error partway through the
    loop, after it has already changed some cells. `Neighbours.AxisNeighboursInRangeIff` states
    why: the tuple for the only column (or row) names index 1.
  - A coordinate at or past the board's length, or below minus that length, raises an index
    error at the first assignment (logic.py:26), before any cell changes.
  - A negative x with -w <= x <= -1 puts the mine in column w + x through Python's negative
    indexing. The tuple is then (x, x + 1), because the branch for x < 1 is taken, and it
    visits columns w + x and w + x + 1 (taken modulo w).
  - On a board at least three wide, that tuple misses the mine's real left-hand column
    w + x - 1 whenever -w < x <= -1, so that column is never incremented. For x = -1, column 0
    on the opposite edge is incremented instead. The adjacent-mine counts come out wrong, not
    merely wrapped. Only x = -w behaves like x = 0.
  - On a two-wide board both x = -1 and x = -2 place the mine and count correctly: the tuple
    visits columns 0 and 1, which is the whole correct window of either column.
  - The same holds for y: a negative y miscounts on a board at least three tall, and places
    and counts correctly on a two-tall board.
- Logic.PlaceMines: a sequence of `place_mine` calls. The code that calls `place_mine` with
  chosen locations is not part of this model. Random mine selection is absent from the
  file, and the `random.sample` import is unused.
- `running` is set to true directly by the frame loop in `index.py`, which is not part of this
  model. Only `stop` is modelled.
- The TCP echo relay (`src/server.py`, `src/client.py`) is left out: socket I/O and
  thread-per-connection concurrency.
- The pygame user interface (`ui.py`) and frame loop (`index.py`) are left out: rendering, event
  polling, and floating-point scaling and mouse-to-cell mapping over a graphics library.
- `dig`, `flag`, `get_field` and `get_flags`, which the interface calls, are not defined in
  `logic.py` and are not modelled.

# Minesweeper rule engine in Dafny

This project models the rule engine of a pygame Minesweeper game: the
`Minesweeper` class of `minesweeper.py` and its `Cell` record. A board is
`width` by `height` cells. Each cell holds four things: a mine bit, a revealed
bit, a flagged bit and the number of mines in its 3x3 block.

The game places no mines until the first in-bounds reveal. That reveal places
`min(num_mines, #candidates)` mines at random. The candidates are the cells
outside the 3x3 block around the click, so the clicked cell and its neighbours
are always safe. The reveal then records the count of every safe cell.

Revealing works as follows:
- A click out of bounds does nothing.
- A flagged or already revealed cell is left alone.
- Revealing a mine loses the game.
- A revealed cell with count 0 reveals its eight neighbours in turn, so the
  reveal cascades.
- Every reveal that does not hit a mine ends with the win check: the game is
  won once every safe cell is revealed.

Toggling a flag only works on a hidden cell, and it keeps the mine counter
(`mines_left`) in step. `reveal_all_mines` uncovers every mine, and
`reset_game` starts over with the same dimensions.

Layout:

- `cells.dfy`, module `Cells`, holds the values:
  - the `Cell` datatype;
  - the grid, a sequence of rows addressed as `g[y][x]`;
  - the specification functions for mine sets, 3x3 neighbourhoods, the
    safe-click candidates, correct counts, the win condition and the cascade;
  - the lemmas about them.
- `game.dfy`, module `Game`, holds the class `Minesweeper`. Its fields are
  the ones the source updates in place. Its methods follow the source's loops
  and recursion step by step.

The class invariant `Valid()` has four parts:
- the grid has the declared shape;
- `minesLeft` equals `numMines` minus the number of flags;
- before the first click the board is pristine: no mines, nothing revealed,
  every count 0;
- after the first click every count is correct.

Every public operation keeps `Valid()`.

The source's recursive `reveal_cell` becomes `RevealCell`. The cascade loop
inside it becomes two methods:
- `RevealNeighbours` runs the two nested loops over `dy` and `dx`.
- `RevealNeighbour` is one turn of those loops.

The first-click branch becomes `FirstClick`. In the model the recursion terminates because
each nested `RevealCell` starts with strictly fewer hidden cells: the set of
unrevealed positions shrinks.

Two behaviours of the code are easy to miss, and the model keeps both:
- `reveal_cell` and `toggle_flag` never read `game_state`. Only the event
  loop's guard at minesweeper.py:193 stops calling them once the game has
  ended. `RevealCell` and `ToggleFlag` therefore work in any game state; for
  example, a later reveal can turn `Won` into `Lost` if it hits a mine.
- The code places the mines before it checks whether the clicked cell is
  flagged. A first click on a flagged cell therefore places the mines and
  starts the clock, even though the cell itself stays closed.

## Model

| member | source | states |
|---|---|---|
| `Game.Minesweeper.constructor` | minesweeper.py:60-69 | the new board is all blank cells of the given shape, with counter = num_mines, state running, first click pending and start time 0; the class invariant holds |
| `Game.Minesweeper.ResetGame` | minesweeper.py:172-173 | after a reset the state is exactly that of a freshly constructed board of the same dimensions |
| `Game.Minesweeper.CountAdjacentMines` | minesweeper.py:93-100 | the loop's count is the number of mines in the 3x3 block around (x, y), the cell itself included and off-board positions excluded |
| `Game.Minesweeper.SafeCells` | minesweeper.py:75-80 | the list holds exactly the in-bounds cells outside the 3x3 block of the first click, each once |
| `Game.Sample` | minesweeper.py:83 | the random sample has k distinct members, all drawn from the population |
| `Game.Minesweeper.MarkMines` | minesweeper.py:84-85 | afterwards the mines are exactly the sampled positions, with no other bit and no count touched |
| `Game.Minesweeper.CountAllAdjacent` | minesweeper.py:88-91 | afterwards every safe cell's count is the number of mines in its block; mines keep count 0 and the mine set is unchanged |
| `Game.Minesweeper.PlaceMines` | minesweeper.py:73-91 | all mines lie outside the first click's block; there are min(num_mines, #candidates) of them; every count is correct; nothing revealed or flagged changes |
| `Game.Minesweeper.FirstClick` | minesweeper.py:109-112 | the first click places the mines so that the clicked cell and its whole block are mine-free, records the clock reading and clears the first-click flag |
| `Game.Minesweeper.RevealCell` | minesweeper.py:102-135 | out of bounds nothing changes. The first in-bounds call places mines around the click, and that cell is never a mine. A blocked cell keeps the view and the state unchanged. Revealing a mine reveals only that cell and sets Lost. Otherwise the cell is revealed, every cell opened is safe, every opened zero cell has its whole block open, and the state becomes Won exactly when all safe cells are revealed. Flags never change, nothing is hidden again, and the layout is fixed after the first click |
| `Game.Minesweeper.RevealNeighbours` | minesweeper.py:126-132 | after the cascade loop every in-bounds neighbour of the zero cell is revealed or flagged; every cell opened is safe with its own cascade complete; no flag or layout changes |
| `Game.Minesweeper.RevealNeighbour` | minesweeper.py:128-132 | one loop turn reveals the neighbour at (dx, dy) or finds it blocked, keeping the cascade closed and the hidden set below the recursion bound |
| `Game.Minesweeper.CheckWin` | minesweeper.py:155-164 | the state becomes Won exactly when every safe cell is revealed, and is otherwise unchanged |
| `Game.Minesweeper.ToggleFlag` | minesweeper.py:137-153 | out of bounds or on a revealed cell nothing changes. Otherwise exactly that cell's flag flips, and the counter moves by one in the opposite direction, so counter = num_mines - #flags still holds |
| `Game.ToggleFlagTwice` | minesweeper.py:137-153 | toggling the same cell twice gives back the original grid and counter |
| `Game.Minesweeper.RevealAllMines` | minesweeper.py:166-170 | every mine becomes revealed; every other bit of every cell is unchanged |
| `Cells.NewGrid` | minesweeper.py:69 | the new grid has height rows of width blank cells |
| `Cells.Store` | minesweeper.py:119 | an in-place update of one cell changes that cell and no other |
| `Cells.StoreTwice` | minesweeper.py:148-153 | a second update of the same cell overrides the first, and writing a cell back unchanged leaves the grid as it was |
| `Cells.DistinctCard` | minesweeper.py:75-83 | the candidate list has no repeats, so its length is the size of its set |
| `Cells.AroundBound` | minesweeper.py:93-100 | a block holds at most 9 mines, and at most 8 around a cell that is not a mine itself |
| `Cells.AdjacencyInRange` | minesweeper.py:88-91 | on a correctly counted board every count is between 0 and 8 |
| `Cells.ZeroCountSafeBlock` | minesweeper.py:127-132 | a safe cell with count 0 has no mine anywhere in its block, so the cascade never reveals a mine |
| `Cells.SafeFirstClick` | minesweeper.py:73-83 | after placement around (fx, fy) no cell of that 3x3 block is a mine |
| `Cells.AllPositionsCard` | minesweeper.py:76-77 | a width-by-height board has width*height positions |
| `Cells.AllRequestedMinesFit` | minesweeper.py:83 | when num_mines <= width*height - 9, every requested mine is placed |
| `Cells.WhereStore` | minesweeper.py:119 | changing one cell adds or removes exactly that position from each marked set |
| `Cells.FlagStore` | minesweeper.py:148-153 | flipping one flag changes the flag count by exactly one and changes no mine or count |
| `Cells.FlagCount` | minesweeper.py:148-153 | setting a flag adds one to the number of flags; clearing one removes one |
| `Cells.RevealStore` | minesweeper.py:119 | revealing one hidden, unflagged cell opens exactly that cell, removes it from the hidden set and keeps flags, mines and counts |
| `Cells.MinesExactly` | minesweeper.py:84-85 | a grid whose mine bits match a set of positions has exactly that set as its mines |
| `Cells.WhereAgree` | minesweeper.py:166-170 | grids that agree on a bit have the same set of positions carrying it |
| `Cells.HiddenShrinks` | minesweeper.py:102-135 | a grid that only gains revealed cells has no new hidden cells |
| `Cells.LayoutKeepsCounts` | minesweeper.py:137-170 | changing only revealed or flagged bits keeps the mine set, the correctness of the counts and a won board |
| `Cells.LayoutKeepsPlacement` | minesweeper.py:102-135 | the placement made by the first click survives every later reveal and flag |
| `Cells.SameViewOnlyReveals` | minesweeper.py:73-91 | placement leaves the hidden set and the flag set unchanged |
| `Cells.CascadeTrans` | minesweeper.py:126-132 | two complete cascades in a row form one complete cascade |
| `Cells.NeighbourStep` | minesweeper.py:128-132 | after the recursive call on one neighbour the cascade is still complete, that neighbour is revealed or flagged, and the hidden set is still below the bound |
| `Cells.CascadeFromCell` | minesweeper.py:119-132 | revealing a safe cell and, for count 0, its neighbours is, taken together, a complete cascade from the grid before the reveal |
| `Cells.OpenBeforeStep` | minesweeper.py:128-132 | once the neighbour at (dx, dy) is open, every neighbour up to (dx + 1, dy) in row-major order is open |
| `Cells.OpenBeforeCentre` | minesweeper.py:130-131 | skipping the centre of the loop keeps the row-major progress, because the centre was revealed first |

## Left out

- The pygame user interface is not modelled: drawing, fonts, colours, the window layout, the mouse and the event loop (`main`). It is I/O.
- The guard in the event loop that stops calling `reveal_cell` and `toggle_flag` once the game has ended is part of `main` and is not modelled (see the description above).
- The clock: `pygame.time.get_ticks()` becomes the parameter `now` of `RevealCell`. `elapsed_time` is set to 0 by construction (minesweeper.py:68) and so by `reset_game`; otherwise only `main` writes it (minesweeper.py:216). It is not modelled.
- Randomness: `random.sample` is a nondeterministic choice of k distinct candidates (`Game.Sample`). Uniformity of the distribution is not modelled.
- Integer widths: Python integers are unbounded, and so are Dafny's `int` and `nat`; no wrap-around exists to model.
- Dimensions and mine count are `nat`. A negative `num_mines` makes `random.sample` raise in the source, and negative dimensions give an empty grid; neither case is modelled.
- Game.Minesweeper.RevealCell: for the cascade, the contract states safety and closure: every opened cell is safe, and every opened zero cell has its whole block revealed or flagged. It does not state minimality, that is, that only cells reachable from the click through zero cells are opened. The cells it opens are fixed by the body, which follows the source.
- Game.Minesweeper.RevealNeighbours: like RevealCell, the contract states only safety and closure for the cells the loop opens: each opened cell is safe, and each opened zero cell has its whole block revealed or flagged. It does not state that only cells reachable through zero cells are opened.
- Game.Minesweeper.RevealNeighbour: like RevealCell, one loop turn states only safety and closure for the cells it opens, not that only cells reachable through zero cells are opened.
- Recursion depth: CPython stops the recursion at minesweeper.py:132 after about 1000 nested frames by default. It raises RecursionError part-way through a long cascade, for example on `Minesweeper(40, 40, 0)` after one click. The program then halts with `first_click` already cleared and only part of the grid opened. The model has no depth limit and always completes the cascade; its termination argument ignores this limit. The game's own 10x10 board never comes near it.
- The `Cell` objects are shared references in Python. Here a cell is a value, and an update writes a new cell into the grid. The source never aliases a cell outside the grid, so the effect is the same.

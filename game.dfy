/**
 * The Minesweeper board as a mutable object: the grid of cells, the mine
 * counter shown to the player, the game state and the first-click flag, with
 * the operations the event loop calls on it.
 */
module Game {
  import opened Cells

  class Minesweeper {
    const width: nat
    const height: nat
    const numMines: nat
    /** numMines minus the number of flags; goes negative when over-flagged. */
    var minesLeft: int
    var gameState: GameState
    /** True until the first in-bounds reveal, which places the mines. */
    var firstClick: bool
    /** The clock reading taken at the first click. */
    var startTime: int
    var grid: Grid

    ghost predicate Valid()
      reads this
    {
      && Shaped(grid, width, height)
      && minesLeft == numMines - |Where(grid, width, height, Flagged)|
      && (firstClick ==> Pristine(grid, width, height))
      && (!firstClick ==> CountsCorrect(grid, width, height))
    }

    constructor (width: nat, height: nat, numMines: nat)
      ensures Valid()
      ensures this.width == width && this.height == height && this.numMines == numMines
      ensures grid == NewGrid(width, height)
      ensures minesLeft == numMines && gameState == Running && firstClick && startTime == 0
    {
      this.width, this.height, this.numMines := width, height, numMines;
      minesLeft := numMines;
      gameState := Running;
      firstClick := true;
      startTime := 0;
      grid := NewGrid(width, height);
      new;
      assert Where(grid, width, height, Flagged) == {};
    }

    /** Starts a new game of the same size, as if freshly constructed. */
    method ResetGame()
      modifies this
      ensures Valid()
      ensures grid == NewGrid(width, height)
      ensures minesLeft == numMines && gameState == Running && firstClick && startTime == 0
    {
      minesLeft := numMines;
      gameState := Running;
      firstClick := true;
      startTime := 0;
      grid := NewGrid(width, height);
      assert Where(grid, width, height, Flagged) == {};
    }

    /** The number of mines in the 3x3 block around (x, y), the cell itself included. */
    method CountAdjacentMines(x: int, y: int) returns (count: nat)
      requires Shaped(grid, width, height)
      ensures count == |Around(Mines(grid, width, height), x, y)|
    {
      count := 0;
      ghost var around := Around(Mines(grid, width, height), x, y);
      ghost var seen: set<Pos> := {};
      var dy := -1;
      while dy <= 1
        invariant -1 <= dy <= 2
        invariant seen <= around && count == |seen|
        invariant forall p {:trigger p in around} :: p in around ==> (p in seen <==> p.1 - y < dy)
      {
        var dx := -1;
        while dx <= 1
          invariant -1 <= dx <= 2
          invariant seen <= around && count == |seen|
          invariant forall p {:trigger p in around} :: p in around ==> (p in seen <==> (p.1 - y < dy || (p.1 - y == dy && p.0 - x < dx)))
        {
          var nx, ny := x + dx, y + dy;
          if 0 <= nx < width && 0 <= ny < height && grid[ny][nx].isMine {
            assert (nx, ny) in around;
            count := count + 1;
            seen := seen + {(nx, ny)};
          }
          dx := dx + 1;
        }
        dy := dy + 1;
      }
      assert seen == around;
    }

    /** The cells outside the 3x3 block around (firstX, firstY), each once. */
    method SafeCells(firstX: int, firstY: int) returns (safeCells: seq<Pos>)
      ensures forall p :: p in safeCells <==> p in Candidates(width, height, firstX, firstY)
      ensures |safeCells| == |Candidates(width, height, firstX, firstY)|
      ensures Distinct(safeCells)
    {
      ghost var cand := Candidates(width, height, firstX, firstY);
      safeCells := [];
      var y := 0;
      while y < height
        invariant 0 <= y <= height
        invariant Distinct(safeCells)
        invariant forall p {:trigger p in safeCells} {:trigger p in cand} :: p in safeCells <==> p in cand && p.1 < y
      {
        var x := 0;
        while x < width
          invariant 0 <= x <= width
          invariant Distinct(safeCells)
          invariant forall p {:trigger p in safeCells} {:trigger p in cand} :: p in safeCells <==> p in cand && (p.1 < y || (p.1 == y && p.0 < x))
        {
          if Abs(x - firstX) > 1 || Abs(y - firstY) > 1 {
            assert (x, y) !in safeCells;
            safeCells := safeCells + [(x, y)];
          }
          x := x + 1;
        }
        y := y + 1;
      }
      DistinctCard(safeCells);
      assert (set p | p in safeCells) == cand;
    }

    /**
     * Places the mines for a first click at (firstX, firstY): a random choice
     * of min(numMines, #candidates) distinct cells outside the 3x3 block around
     * the click, then the count of every safe cell.
     */
    method PlaceMines(firstX: int, firstY: int)
      requires Shaped(grid, width, height) && Pristine(grid, width, height)
      modifies this`grid
      ensures Shaped(grid, width, height)
      ensures PlacedAround(grid, width, height, numMines, firstX, firstY)
      ensures SameView(old(grid), grid, width, height)
    {
      ghost var cand := Candidates(width, height, firstX, firstY);
      var safeCells := SafeCells(firstX, firstY);
      var minePositions := Sample(safeCells, Min(numMines, |safeCells|));

      MarkMines(minePositions);
      CountAllAdjacent();
    }

    /** Turns the cells at `positions` into mines (the first loop after the sample). */
    method MarkMines(positions: seq<Pos>)
      requires Shaped(grid, width, height) && Pristine(grid, width, height)
      requires Distinct(positions)
      requires forall p {:trigger p in positions} :: p in positions ==> InBounds(width, height, p.0, p.1)
      modifies this`grid
      ensures Shaped(grid, width, height) && SameView(old(grid), grid, width, height)
      ensures forall p :: p in Mines(grid, width, height) <==> p in positions
      ensures |Mines(grid, width, height)| == |positions|
      ensures forall cy, cx {:trigger grid[cy][cx]} :: InBounds(width, height, cx, cy) ==> grid[cy][cx].adjacentMines == 0
    {
      ghost var placed: set<Pos> := {};
      var i := 0;
      while i < |positions|
        invariant 0 <= i <= |positions|
        invariant Shaped(grid, width, height)
        invariant forall cy, cx {:trigger grid[cy][cx]} :: InBounds(width, height, cx, cy) ==>
          grid[cy][cx] == old(grid)[cy][cx].(isMine := (cx, cy) in placed)
        invariant forall j :: 0 <= j < i ==> positions[j] in placed
        invariant forall j :: i <= j < |positions| ==> positions[j] !in placed
        invariant forall p :: p in placed ==> p in positions
        invariant |placed| == i
      {
        var p := positions[i];
        assert p in positions;
        grid := Store(grid, p.0, p.1, grid[p.1][p.0].(isMine := true));
        placed := placed + {p};
        i := i + 1;
      }
      MinesExactly(grid, width, height, placed);
    }

    /** Stores the count of every safe cell (the last loop of the placement). */
    method CountAllAdjacent()
      requires Shaped(grid, width, height)
      requires forall cy, cx {:trigger grid[cy][cx]} :: InBounds(width, height, cx, cy) && grid[cy][cx].isMine ==> grid[cy][cx].adjacentMines == 0
      modifies this`grid
      ensures Shaped(grid, width, height) && SameView(old(grid), grid, width, height)
      ensures Mines(grid, width, height) == old(Mines(grid, width, height))
      ensures CountsCorrect(grid, width, height)
    {
      ghost var mines := Mines(grid, width, height);
      var y := 0;
      while y < height
        invariant 0 <= y <= height
        invariant Shaped(grid, width, height)
        invariant SameView(old(grid), grid, width, height)
        invariant Mines(grid, width, height) == mines
        invariant forall cy, cx {:trigger grid[cy][cx]} :: InBounds(width, height, cx, cy) && grid[cy][cx].isMine ==> grid[cy][cx].adjacentMines == 0
        invariant forall cy, cx {:trigger CountedAgainst(grid, mines, cx, cy)} :: InBounds(width, height, cx, cy) && cy < y ==> CountedAgainst(grid, mines, cx, cy)
      {
        var x := 0;
        while x < width
          invariant 0 <= x <= width
          invariant Shaped(grid, width, height)
          invariant SameView(old(grid), grid, width, height)
          invariant Mines(grid, width, height) == mines
          invariant forall cy, cx {:trigger grid[cy][cx]} :: InBounds(width, height, cx, cy) && grid[cy][cx].isMine ==> grid[cy][cx].adjacentMines == 0
          invariant forall cy, cx {:trigger CountedAgainst(grid, mines, cx, cy)} :: InBounds(width, height, cx, cy) && (cy < y || (cy == y && cx < x)) ==> CountedAgainst(grid, mines, cx, cy)
        {
          if !grid[y][x].isMine {
            var c := CountAdjacentMines(x, y);
            WhereStore(grid, width, height, x, y, grid[y][x].(adjacentMines := c), Mined);
            ghost var g0 := grid;
            grid := Store(grid, x, y, grid[y][x].(adjacentMines := c));
            forall cy, cx {:trigger CountedAgainst(grid, mines, cx, cy)} | InBounds(width, height, cx, cy) && (cy < y || (cy == y && cx < x))
              ensures CountedAgainst(grid, mines, cx, cy)
            {
              assert CountedAgainst(g0, mines, cx, cy);
            }
          }
          x := x + 1;
        }
        y := y + 1;
      }
    }

    /**
     * The player opens (x, y). Out of bounds nothing happens. The first
     * in-bounds call places the mines around (x, y), even when the cell turns
     * out to be flagged. A flagged or already revealed cell is then left alone;
     * a mine loses the game at once; a cell with count 0 opens its eight
     * neighbours the same way; every reveal that does not lose ends with the
     * win check. The game state itself is not consulted.
     */
    method RevealCell(x: int, y: int, now: int)
      requires Valid()
      modifies this`grid, this`firstClick, this`startTime, this`gameState
      ensures Valid()
      ensures OnlyReveals(old(grid), grid, width, height)
      ensures !InBounds(width, height, x, y) ==>
        grid == old(grid) && firstClick == old(firstClick) && startTime == old(startTime) && gameState == old(gameState)
      ensures InBounds(width, height, x, y) ==> !firstClick
      ensures InBounds(width, height, x, y) && old(firstClick) ==>
        PlacedAround(grid, width, height, numMines, x, y) && startTime == now && !grid[y][x].isMine
      ensures !(InBounds(width, height, x, y) && old(firstClick)) ==>
        SameLayout(old(grid), grid, width, height) && startTime == old(startTime)
      ensures InBounds(width, height, x, y) && Blocked(old(grid)[y][x]) ==>
        SameView(old(grid), grid, width, height) && gameState == old(gameState)
      ensures InBounds(width, height, x, y) && !Blocked(old(grid)[y][x]) && grid[y][x].isMine ==>
        gameState == Lost && grid == Store(old(grid), x, y, old(grid)[y][x].(isRevealed := true))
      ensures InBounds(width, height, x, y) && !Blocked(old(grid)[y][x]) && !grid[y][x].isMine ==>
        && grid[y][x].isRevealed
        && gameState == (if AllSafeRevealed(grid, width, height) then Won else old(gameState))
        && CascadeClosed(old(grid), grid, width, height)
      decreases Where(grid, width, height, Unrevealed), 2
    {
      if !(0 <= x < width && 0 <= y < height) {
        return;
      }
      if firstClick {
        FirstClick(x, y, now);
      }
      ghost var placedGrid := grid;
      var cell := grid[y][x];
      assert Blocked(cell) == Blocked(old(grid)[y][x]);
      if cell.isFlagged || cell.isRevealed {
        return;
      }
      RevealStore(grid, width, height, x, y);
      grid := Store(grid, x, y, cell.(isRevealed := true));
      ghost var g1 := grid;
      if cell.isMine {
        OnlyRevealsTrans(old(grid), placedGrid, g1, width, height);
        gameState := Lost;
        return;
      }
      if cell.adjacentMines == 0 {
        ZeroCountSafeBlock(grid, width, height, x, y);
        RevealNeighbours(x, y, now, Where(old(grid), width, height, Unrevealed));
      }
      CascadeFromCell(old(grid), placedGrid, g1, grid, width, height, x, y);
      ghost var cascaded := gameState;
      assert cascaded == old(gameState) || (cascaded == Won && AllSafeRevealed(grid, width, height));
      CheckWin();
      if old(firstClick) {
        LayoutKeepsPlacement(placedGrid, grid, width, height, numMines, x, y);
      }
    }

    /**
     * The first-click branch of RevealCell: mines are placed around (x, y)
     * and the clock reading `now` becomes the start time.
     */
    method FirstClick(x: int, y: int, now: int)
      requires Valid() && firstClick && InBounds(width, height, x, y)
      modifies this`grid, this`firstClick, this`startTime
      ensures Valid() && !firstClick && startTime == now
      ensures PlacedAround(grid, width, height, numMines, x, y)
      ensures forall j, i {:trigger grid[j][i]} :: InBounds(width, height, i, j) && Near((i, j), x, y) ==> !grid[j][i].isMine
      ensures SameView(old(grid), grid, width, height) && OnlyReveals(old(grid), grid, width, height)
      ensures Where(grid, width, height, Unrevealed) == old(Where(grid, width, height, Unrevealed))
    {
      firstClick := false;
      PlaceMines(x, y);
      startTime := now;
      SafeFirstClick(grid, width, height, numMines, x, y);
      SameViewOnlyReveals(old(grid), grid, width, height);
    }

    /**
     * The cascade from a revealed safe cell (x, y) with count 0: RevealCell on
     * each of its eight neighbours, row by row. `bound` is the set of hidden
     * cells when the enclosing RevealCell started.
     */
    method RevealNeighbours(x: int, y: int, now: int, ghost bound: set<Pos>)
      requires Valid() && !firstClick && InBounds(width, height, x, y)
      requires grid[y][x].isRevealed && !grid[y][x].isMine && grid[y][x].adjacentMines == 0
      requires Where(grid, width, height, Unrevealed) < bound
      modifies this`grid, this`firstClick, this`startTime, this`gameState
      ensures Valid() && !firstClick && startTime == old(startTime)
      ensures OnlyReveals(old(grid), grid, width, height) && SameLayout(old(grid), grid, width, height)
      ensures CascadeClosed(old(grid), grid, width, height)
      ensures NeighboursOpen(grid, width, height, x, y)
      ensures gameState == old(gameState) || (gameState == Won && AllSafeRevealed(grid, width, height))
      decreases bound, 1
    {
      ZeroCountSafeBlock(grid, width, height, x, y);
      ghost var g1 := grid;
      var dy := -1;
      while dy <= 1
        invariant -1 <= dy <= 2
        invariant Valid() && !firstClick && startTime == old(startTime)
        invariant OnlyReveals(g1, grid, width, height) && SameLayout(g1, grid, width, height)
        invariant CascadeClosed(g1, grid, width, height)
        invariant Where(grid, width, height, Unrevealed) < bound
        invariant OpenBefore(grid, width, height, x, y, dy, -1)
        invariant gameState == old(gameState) || (gameState == Won && AllSafeRevealed(grid, width, height))
      {
        var dx := -1;
        while dx <= 1
          invariant -1 <= dx <= 2
          invariant Valid() && !firstClick && startTime == old(startTime)
          invariant OnlyReveals(g1, grid, width, height) && SameLayout(g1, grid, width, height)
          invariant CascadeClosed(g1, grid, width, height)
          invariant Where(grid, width, height, Unrevealed) < bound
          invariant OpenBefore(grid, width, height, x, y, dy, dx)
          invariant gameState == old(gameState) || (gameState == Won && AllSafeRevealed(grid, width, height))
        {
          if dx == 0 && dy == 0 {
            OpenBeforeCentre(g1, grid, width, height, x, y);
          } else {
            RevealNeighbour(x, y, dx, dy, now, bound, g1, old(gameState));
          }
          dx := dx + 1;
        }
        OpenBeforeRow(grid, width, height, x, y, dy);
        dy := dy + 1;
      }
      OpenBeforeAll(grid, width, height, x, y);
    }

    /**
     * One turn of the cascade loop: RevealCell at offset (dx, dy) from the
     * zero cell (x, y), the centre excluded.
     * g1 is the grid and state0 the game state when the cascade began.
     */
    method RevealNeighbour(x: int, y: int, dx: int, dy: int, now: int, ghost bound: set<Pos>, ghost g1: Grid, ghost state0: GameState)
      requires Valid() && !firstClick && Shaped(g1, width, height)
      requires InBounds(width, height, x, y) && -1 <= dx <= 1 && -1 <= dy <= 1 && !(dx == 0 && dy == 0)
      requires forall j, i {:trigger g1[j][i]} :: InBounds(width, height, i, j) && Near((i, j), x, y) ==> !g1[j][i].isMine
      requires OnlyReveals(g1, grid, width, height) && SameLayout(g1, grid, width, height)
      requires CascadeClosed(g1, grid, width, height)
      requires Where(grid, width, height, Unrevealed) < bound
      requires OpenBefore(grid, width, height, x, y, dy, dx)
      requires gameState == state0 || (gameState == Won && AllSafeRevealed(grid, width, height))
      modifies this`grid, this`firstClick, this`startTime, this`gameState
      ensures Valid() && !firstClick && startTime == old(startTime)
      ensures OnlyReveals(g1, grid, width, height) && SameLayout(g1, grid, width, height)
      ensures CascadeClosed(g1, grid, width, height)
      ensures Where(grid, width, height, Unrevealed) < bound
      ensures OpenBefore(grid, width, height, x, y, dy, dx + 1)
      ensures gameState == state0 || (gameState == Won && AllSafeRevealed(grid, width, height))
      decreases bound, 0
    {
      ghost var b := grid;
      RevealCell(x + dx, y + dy, now);
      NeighbourStep(g1, b, grid, width, height, x, y, dx, dy, bound);
    }

    /** Sets the game to Won when every safe cell is revealed; otherwise leaves it. */
    method CheckWin()
      requires Shaped(grid, width, height)
      modifies this`gameState
      ensures gameState == if AllSafeRevealed(grid, width, height) then Won else old(gameState)
    {
      var y := 0;
      while y < height
        invariant 0 <= y <= height
        invariant forall cy, cx {:trigger grid[cy][cx]} :: InBounds(width, height, cx, cy) && cy < y ==> grid[cy][cx].isMine || grid[cy][cx].isRevealed
      {
        var x := 0;
        while x < width
          invariant 0 <= x <= width
          invariant forall cy, cx {:trigger grid[cy][cx]} :: InBounds(width, height, cx, cy) && (cy < y || (cy == y && cx < x)) ==> grid[cy][cx].isMine || grid[cy][cx].isRevealed
        {
          var cell := grid[y][x];
          if !cell.isMine && !cell.isRevealed {
            return;
          }
          x := x + 1;
        }
        y := y + 1;
      }
      gameState := Won;
    }

    /**
     * Flips the flag on a hidden cell and keeps minesLeft in step; out of
     * bounds or on a revealed cell nothing happens.
     */
    method ToggleFlag(x: int, y: int)
      requires Valid()
      modifies this`grid, this`minesLeft
      ensures Valid()
      ensures !InBounds(width, height, x, y) || old(grid)[y][x].isRevealed ==>
        grid == old(grid) && minesLeft == old(minesLeft)
      ensures InBounds(width, height, x, y) && !old(grid)[y][x].isRevealed ==>
        && grid == Store(old(grid), x, y, old(grid)[y][x].(isFlagged := !old(grid)[y][x].isFlagged))
        && minesLeft == old(minesLeft) + (if old(grid)[y][x].isFlagged then 1 else -1)
    {
      if !(0 <= x < width && 0 <= y < height) {
        return;
      }
      var cell := grid[y][x];
      if cell.isRevealed {
        return;
      }
      FlagStore(grid, width, height, x, y, !cell.isFlagged);
      if cell.isFlagged {
        grid := Store(grid, x, y, cell.(isFlagged := false));
        minesLeft := minesLeft + 1;
      } else {
        grid := Store(grid, x, y, cell.(isFlagged := true));
        minesLeft := minesLeft - 1;
      }
    }

    /** Reveals every mine; nothing else changes. */
    method RevealAllMines()
      requires Valid()
      modifies this`grid
      ensures Valid()
      ensures Shaped(grid, width, height)
      ensures forall cy, cx {:trigger grid[cy][cx]} :: InBounds(width, height, cx, cy) ==>
        grid[cy][cx] == old(grid)[cy][cx].(isRevealed := old(grid)[cy][cx].isRevealed || old(grid)[cy][cx].isMine)
    {
      var y := 0;
      while y < height
        invariant 0 <= y <= height
        invariant Shaped(grid, width, height)
        invariant forall cy, cx {:trigger grid[cy][cx]} :: InBounds(width, height, cx, cy) ==>
          grid[cy][cx] == old(grid)[cy][cx].(isRevealed := old(grid)[cy][cx].isRevealed || (cy < y && old(grid)[cy][cx].isMine))
      {
        var x := 0;
        while x < width
          invariant 0 <= x <= width
          invariant Shaped(grid, width, height)
          invariant forall cy, cx {:trigger grid[cy][cx]} :: InBounds(width, height, cx, cy) ==>
            grid[cy][cx] == old(grid)[cy][cx].(isRevealed := old(grid)[cy][cx].isRevealed || ((cy < y || (cy == y && cx < x)) && old(grid)[cy][cx].isMine))
        {
          if grid[y][x].isMine {
            grid := Store(grid, x, y, grid[y][x].(isRevealed := true));
          }
          x := x + 1;
        }
        y := y + 1;
      }
      WhereAgree(old(grid), grid, width, height, Flagged);
      LayoutKeepsCounts(old(grid), grid, width, height);
    }
  }

  /** Flagging a cell twice gives back the board and the counter it started with. */
  method ToggleFlagTwice(m: Minesweeper, x: int, y: int)
    requires m.Valid()
    modifies m
    ensures m.Valid() && m.grid == old(m.grid) && m.minesLeft == old(m.minesLeft)
  {
    ghost var g0: Grid := m.grid;
    m.ToggleFlag(x, y);
    m.ToggleFlag(x, y);
    if InBounds(m.width, m.height, x, y) && !g0[y][x].isRevealed {
      StoreTwice(g0, x, y, g0[y][x].(isFlagged := !g0[y][x].isFlagged), g0[y][x]);
    }
  }

  /**
   * A random sample of k distinct elements of a list of distinct positions;
   * which elements are drawn is left open.
   */
  method Sample(population: seq<Pos>, k: nat) returns (chosen: seq<Pos>)
    requires Distinct(population) && k <= |population|
    ensures |chosen| == k && Distinct(chosen)
    ensures forall p :: p in chosen ==> p in population
  {
    chosen := [];
    var pool := set p | p in population;
    DistinctCard(population);
    while |chosen| < k
      invariant |chosen| <= k && Distinct(chosen)
      invariant forall p :: p in pool ==> p in population
      invariant forall p :: p in chosen ==> p in population && p !in pool
      invariant |pool| + |chosen| == |population|
      decreases k - |chosen|
    {
      assert pool != {};
      var p :| p in pool;
      chosen := chosen + [p];
      pool := pool - {p};
    }
  }
}

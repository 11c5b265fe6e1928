/**
 * The value side of the Minesweeper rule engine: one cell of the board, the
 * grid of cells, and the specification functions and lemmas that describe
 * mine layouts, adjacency counts, the safe first-click zone and the win rule.
 */
module Cells {

  /** One square of the board. */
  datatype Cell = Cell(isMine: bool, isRevealed: bool, isFlagged: bool, adjacentMines: int)

  /** A freshly constructed cell: no mine, hidden, unflagged, no neighbours counted. */
  const Blank := Cell(false, false, false, 0)

  datatype GameState = Running | Won | Lost

  /** A grid position (x, y): x is the column, y the row. */
  type Pos = (int, int)

  /** Rows of cells, addressed as g[y][x]. */
  type Grid = seq<seq<Cell>>

  function Abs(n: int): nat { if n < 0 then -n else n }

  function Min(a: int, b: int): int { if a <= b then a else b }

  predicate InBounds(w: int, h: int, x: int, y: int) { 0 <= x < w && 0 <= y < h }

  /** g has h rows of w cells each. */
  ghost predicate Shaped(g: Grid, w: nat, h: nat) {
    |g| == h && forall y :: 0 <= y < h ==> |g[y]| == w
  }

  /** p lies in the 3x3 block centred on (x, y), the centre included. */
  predicate Near(p: Pos, x: int, y: int) { Abs(p.0 - x) <= 1 && Abs(p.1 - y) <= 1 }

  /** g with the cell at (x, y) replaced by c. */
  function Store(g: Grid, x: int, y: int, c: Cell): (r: Grid)
    requires 0 <= y < |g| && 0 <= x < |g[y]|
    ensures |r| == |g| && forall j :: 0 <= j < |g| ==> |r[j]| == |g[j]|
    ensures r[y][x] == c
    ensures forall j, i {:trigger r[j][i]} :: 0 <= j < |g| && 0 <= i < |g[j]| && (i, j) != (x, y) ==> r[j][i] == g[j][i]
  {
    g[y := g[y][x := c]]
  }

  /** A second store to the same cell overrides the first; storing a cell's own value changes nothing. */
  lemma StoreTwice(g: Grid, x: int, y: int, c: Cell, d: Cell)
    requires 0 <= y < |g| && 0 <= x < |g[y]|
    ensures Store(Store(g, x, y, c), x, y, d) == Store(g, x, y, d)
    ensures Store(g, x, y, g[y][x]) == g
  {
    assert g[y][x := g[y][x]] == g[y];
    assert g[y][x := c][x := d] == g[y][x := d];
  }

  /** The all-blank grid of h rows and w columns. */
  function NewGrid(w: nat, h: nat): (g: Grid)
    ensures Shaped(g, w, h)
    ensures forall y, x {:trigger g[y][x]} :: InBounds(w, h, x, y) ==> g[y][x] == Blank
  {
    seq(h, _ => seq(w, _ => Blank))
  }

  /** No position occurs twice. */
  predicate Distinct(s: seq<Pos>) {
    forall i, j :: 0 <= i < j < |s| ==> s[i] != s[j]
  }

  /** A list without repeats has as many elements as its set. */
  lemma {:induction false} DistinctCard(s: seq<Pos>)
    requires Distinct(s)
    ensures |set p | p in s| == |s|
  {
    if s != [] {
      var t := s[..|s| - 1];
      assert Distinct(t);
      DistinctCard(t);
      assert (set p | p in s) == (set p | p in t) + {s[|s| - 1]};
      assert s[|s| - 1] !in t;
    }
  }

  // ---------------------------------------------------------------------
  // Sets of positions picked out of a grid
  // ---------------------------------------------------------------------

  datatype Mark = Mined | Flagged | Unrevealed

  predicate Has(c: Cell, m: Mark) {
    match m
    case Mined => c.isMine
    case Flagged => c.isFlagged
    case Unrevealed => !c.isRevealed
  }

  /** The in-bounds positions whose cell carries mark m. */
  ghost function Where(g: Grid, w: nat, h: nat, m: Mark): (s: set<Pos>)
    requires Shaped(g, w, h)
    ensures forall p {:trigger p in s} :: p in s <==> InBounds(w, h, p.0, p.1) && Has(g[p.1][p.0], m)
  {
    set p {:trigger p in AllPositions(w, h)} | p in AllPositions(w, h) && Has(g[p.1][p.0], m)
  }

  ghost function Mines(g: Grid, w: nat, h: nat): set<Pos>
    requires Shaped(g, w, h)
  {
    Where(g, w, h, Mined)
  }

  /** The mines of `mines` in the 3x3 block around (x, y). */
  ghost function Around(mines: set<Pos>, x: int, y: int): (s: set<Pos>)
    ensures forall p :: p in s <==> p in mines && Near(p, x, y)
  {
    set p | p in mines && Near(p, x, y)
  }

  /** The in-bounds positions outside the 3x3 block around the first click (fx, fy). */
  ghost function Candidates(w: nat, h: nat, fx: int, fy: int): (s: set<Pos>)
    ensures forall p {:trigger p in s} :: p in s <==> InBounds(w, h, p.0, p.1) && !Near(p, fx, fy)
  {
    set p {:trigger p in AllPositions(w, h)} | p in AllPositions(w, h) && !Near(p, fx, fy)
  }

  // ---------------------------------------------------------------------
  // Board-level properties
  // ---------------------------------------------------------------------

  /** The state before mines are placed: no mine, nothing revealed, no counts. */
  ghost predicate Pristine(g: Grid, w: nat, h: nat)
    requires Shaped(g, w, h)
  {
    forall y, x {:trigger g[y][x]} :: InBounds(w, h, x, y) ==>
      !g[y][x].isMine && !g[y][x].isRevealed && g[y][x].adjacentMines == 0
  }

  /** A mine cell keeps count 0; any other cell counts the mines of `mines` in its block. */
  ghost predicate CountedAgainst(g: Grid, mines: set<Pos>, x: int, y: int)
    requires 0 <= y < |g| && 0 <= x < |g[y]|
  {
    g[y][x].adjacentMines == if g[y][x].isMine then 0 else |Around(mines, x, y)|
  }

  ghost predicate CountOk(g: Grid, w: nat, h: nat, x: int, y: int)
    requires Shaped(g, w, h) && InBounds(w, h, x, y)
  {
    CountedAgainst(g, Mines(g, w, h), x, y)
  }

  ghost predicate CountsCorrect(g: Grid, w: nat, h: nat)
    requires Shaped(g, w, h)
  {
    forall y, x {:trigger CountOk(g, w, h, x, y)} :: InBounds(w, h, x, y) ==> CountOk(g, w, h, x, y)
  }

  /**
   * A layout produced by placing mines on the first click (fx, fy): every mine
   * is outside the safe block, there are as many as requested or as fit, and
   * every count is right.
   */
  ghost predicate PlacedAround(g: Grid, w: nat, h: nat, numMines: nat, fx: int, fy: int)
    requires Shaped(g, w, h)
  {
    && Mines(g, w, h) <= Candidates(w, h, fx, fy)
    && |Mines(g, w, h)| == Min(numMines, |Candidates(w, h, fx, fy)|)
    && CountsCorrect(g, w, h)
  }

  /** The win condition: every cell that is not a mine is revealed. */
  ghost predicate AllSafeRevealed(g: Grid, w: nat, h: nat)
    requires Shaped(g, w, h)
  {
    forall y, x {:trigger g[y][x]} :: InBounds(w, h, x, y) && !g[y][x].isMine ==> g[y][x].isRevealed
  }

  /** A cell that a reveal skips: already open or under a flag. */
  predicate Blocked(c: Cell) { c.isFlagged || c.isRevealed }

  /** Every in-bounds cell of the block around (x, y) is revealed or flagged. */
  ghost predicate NeighboursOpen(g: Grid, w: nat, h: nat, x: int, y: int)
    requires Shaped(g, w, h)
  {
    forall j, i {:trigger g[j][i]} :: InBounds(w, h, i, j) && Near((i, j), x, y) ==> Blocked(g[j][i])
  }

  /**
   * Every in-bounds cell of the block around (x, y) that comes before the
   * offset (dx, dy) in row-major order is revealed or flagged.
   */
  ghost predicate OpenBefore(g: Grid, w: nat, h: nat, x: int, y: int, dy: int, dx: int)
    requires Shaped(g, w, h)
  {
    forall j, i {:trigger g[j][i]} :: InBounds(w, h, i, j) && Near((i, j), x, y) && (j - y < dy || (j - y == dy && i - x < dx)) ==> Blocked(g[j][i])
  }

  /** Once the cell at offset (dx, dy) is blocked, the prefix grows by one. */
  lemma OpenBeforeStep(b: Grid, a: Grid, w: nat, h: nat, x: int, y: int, dy: int, dx: int)
    requires Shaped(b, w, h) && Shaped(a, w, h) && OpenBefore(b, w, h, x, y, dy, dx)
    requires forall j, i {:trigger b[j][i]} :: InBounds(w, h, i, j) && Blocked(b[j][i]) ==> Blocked(a[j][i])
    requires InBounds(w, h, x + dx, y + dy) ==> Blocked(a[y + dy][x + dx])
    ensures OpenBefore(a, w, h, x, y, dy, dx + 1)
  {
    forall j, i {:trigger a[j][i]} | InBounds(w, h, i, j) && Near((i, j), x, y) && (j - y < dy || (j - y == dy && i - x < dx + 1))
      ensures Blocked(a[j][i])
    {
      if (i, j) != (x + dx, y + dy) {
        assert Blocked(b[j][i]);
      }
    }
  }

  /** The centre of the block is open once it has been revealed. */
  lemma OpenBeforeCentre(g1: Grid, g: Grid, w: nat, h: nat, x: int, y: int)
    requires Shaped(g1, w, h) && Shaped(g, w, h) && InBounds(w, h, x, y) && g1[y][x].isRevealed
    requires OnlyReveals(g1, g, w, h) && OpenBefore(g, w, h, x, y, 0, 0)
    ensures OpenBefore(g, w, h, x, y, 0, 1)
  {
    OpenBeforeStep(g, g, w, h, x, y, 0, 0);
  }

  /** A finished row of the block moves the prefix to the start of the next row. */
  lemma OpenBeforeRow(g: Grid, w: nat, h: nat, x: int, y: int, dy: int)
    requires Shaped(g, w, h) && OpenBefore(g, w, h, x, y, dy, 2)
    ensures OpenBefore(g, w, h, x, y, dy + 1, -1)
  {
  }

  /** The whole block done means the neighbours are open. */
  lemma OpenBeforeAll(g: Grid, w: nat, h: nat, x: int, y: int)
    requires Shaped(g, w, h) && OpenBefore(g, w, h, x, y, 2, -1)
    ensures NeighboursOpen(g, w, h, x, y)
  {
  }

  /** Same mines and same counts everywhere. */
  ghost predicate SameLayout(g: Grid, g': Grid, w: nat, h: nat)
    requires Shaped(g, w, h) && Shaped(g', w, h)
  {
    forall y, x {:trigger g'[y][x]} {:trigger g[y][x]} :: InBounds(w, h, x, y) ==>
      g'[y][x].isMine == g[y][x].isMine && g'[y][x].adjacentMines == g[y][x].adjacentMines
  }

  /** Same revealed and flagged bits everywhere. */
  ghost predicate SameView(g: Grid, g': Grid, w: nat, h: nat)
    requires Shaped(g, w, h) && Shaped(g', w, h)
  {
    forall y, x {:trigger g'[y][x]} {:trigger g[y][x]} :: InBounds(w, h, x, y) ==>
      g'[y][x].isRevealed == g[y][x].isRevealed && g'[y][x].isFlagged == g[y][x].isFlagged
  }

  /** Cell (x, y) is revealed in g' and was hidden in g. */
  ghost predicate Opened(g: Grid, g': Grid, x: int, y: int)
    requires 0 <= y < |g| && 0 <= x < |g[y]| && 0 <= y < |g'| && 0 <= x < |g'[y]|
  {
    !g[y][x].isRevealed && g'[y][x].isRevealed
  }

  /**
   * g' differs from g only by revealing cells: flags are unchanged, revealed
   * cells stay revealed, and no flagged cell is revealed.
   */
  ghost predicate OnlyReveals(g: Grid, g': Grid, w: nat, h: nat)
    requires Shaped(g, w, h) && Shaped(g', w, h)
  {
    forall y, x {:trigger g'[y][x]} {:trigger g[y][x]} :: InBounds(w, h, x, y) ==>
      && g'[y][x].isFlagged == g[y][x].isFlagged
      && (g[y][x].isRevealed ==> g'[y][x].isRevealed)
      && (g'[y][x].isRevealed && !g[y][x].isRevealed ==> !g[y][x].isFlagged)
  }

  /**
   * The cells opened between g and g' are all safe, and each opened cell with
   * count 0 has its whole block revealed or flagged: the cascade is complete.
   */
  ghost predicate CascadeClosed(g: Grid, g': Grid, w: nat, h: nat)
    requires Shaped(g, w, h) && Shaped(g', w, h)
  {
    forall y, x {:trigger Opened(g, g', x, y)} :: InBounds(w, h, x, y) && Opened(g, g', x, y) ==>
      !g'[y][x].isMine && (g'[y][x].adjacentMines == 0 ==> NeighboursOpen(g', w, h, x, y))
  }

  // ---------------------------------------------------------------------
  // Lemmas
  // ---------------------------------------------------------------------

  /** Replacing one cell adds or removes exactly that position from each marked set. */
  lemma WhereStore(g: Grid, w: nat, h: nat, x: int, y: int, c: Cell, m: Mark)
    requires Shaped(g, w, h) && InBounds(w, h, x, y)
    ensures Shaped(Store(g, x, y, c), w, h)
    ensures Where(Store(g, x, y, c), w, h, m)
         == if Has(c, m) then Where(g, w, h, m) + {(x, y)} else Where(g, w, h, m) - {(x, y)}
  {
    var g' := Store(g, x, y, c);
    assert forall p :: p in Where(g', w, h, m) <==>
      p in (if Has(c, m) then Where(g, w, h, m) + {(x, y)} else Where(g, w, h, m) - {(x, y)});
  }

  /** Flipping one flag changes the flag count by one and nothing a count depends on. */
  lemma FlagStore(g: Grid, w: nat, h: nat, x: int, y: int, b: bool)
    requires Shaped(g, w, h) && InBounds(w, h, x, y) && b != g[y][x].isFlagged
    ensures Shaped(Store(g, x, y, g[y][x].(isFlagged := b)), w, h)
    ensures var g' := Store(g, x, y, g[y][x].(isFlagged := b));
      && SameLayout(g, g', w, h)
      && (Pristine(g, w, h) ==> Pristine(g', w, h))
      && (CountsCorrect(g, w, h) ==> CountsCorrect(g', w, h))
      && |Where(g', w, h, Flagged)| == |Where(g, w, h, Flagged)| + (if b then 1 else -1)
  {
    var g' := Store(g, x, y, g[y][x].(isFlagged := b));
    FlagCount(g, w, h, x, y, b);
    assert SameLayout(g, g', w, h);
    LayoutKeepsCounts(g, g', w, h);
  }

  lemma FlagCount(g: Grid, w: nat, h: nat, x: int, y: int, b: bool)
    requires Shaped(g, w, h) && InBounds(w, h, x, y) && b != g[y][x].isFlagged
    ensures Shaped(Store(g, x, y, g[y][x].(isFlagged := b)), w, h)
    ensures |Where(Store(g, x, y, g[y][x].(isFlagged := b)), w, h, Flagged)| == |Where(g, w, h, Flagged)| + (if b then 1 else -1)
  {
    WhereStore(g, w, h, x, y, g[y][x].(isFlagged := b), Flagged);
    var s := Where(g, w, h, Flagged);
    if b {
      assert (x, y) !in s;
    } else {
      assert (x, y) in s;
    }
  }

  /** The mines of g are exactly the in-bounds set s when every cell's mine bit says so. */
  lemma MinesExactly(g: Grid, w: nat, h: nat, s: set<Pos>)
    requires Shaped(g, w, h)
    requires forall p :: p in s ==> InBounds(w, h, p.0, p.1)
    requires forall y, x {:trigger g[y][x]} :: InBounds(w, h, x, y) ==> (g[y][x].isMine <==> (x, y) in s)
    ensures Mines(g, w, h) == s
  {
    assert forall p :: p in Mines(g, w, h) <==> p in s;
  }

  /** Grids that agree on mark m have the same set of m-marked positions. */
  lemma WhereAgree(g: Grid, g': Grid, w: nat, h: nat, m: Mark)
    requires Shaped(g, w, h) && Shaped(g', w, h)
    requires forall y, x {:trigger g'[y][x]} {:trigger g[y][x]} :: InBounds(w, h, x, y) ==> Has(g[y][x], m) == Has(g'[y][x], m)
    ensures Where(g, w, h, m) == Where(g', w, h, m)
  {
    assert forall p :: p in Where(g, w, h, m) <==> p in Where(g', w, h, m);
  }

  /** A grid that only gains revealed cells has no more hidden cells than before. */
  lemma HiddenShrinks(g: Grid, g': Grid, w: nat, h: nat)
    requires Shaped(g, w, h) && Shaped(g', w, h) && OnlyReveals(g, g', w, h)
    ensures Where(g', w, h, Unrevealed) <= Where(g, w, h, Unrevealed)
  {
  }

  /** Mines and counts are all that CountsCorrect looks at. */
  lemma LayoutKeepsCounts(g: Grid, g': Grid, w: nat, h: nat)
    requires Shaped(g, w, h) && Shaped(g', w, h) && SameLayout(g, g', w, h)
    ensures Mines(g, w, h) == Mines(g', w, h)
    ensures CountsCorrect(g, w, h) ==> CountsCorrect(g', w, h)
    ensures AllSafeRevealed(g, w, h) && OnlyReveals(g, g', w, h) ==> AllSafeRevealed(g', w, h)
  {
    WhereAgree(g, g', w, h, Mined);
    if CountsCorrect(g, w, h) {
      forall y, x {:trigger CountOk(g', w, h, x, y)} | InBounds(w, h, x, y)
        ensures CountOk(g', w, h, x, y)
      {
        assert CountOk(g, w, h, x, y);
      }
    }
  }

  /** A placement stays a placement while only revealed and flagged bits change. */
  lemma LayoutKeepsPlacement(g: Grid, g': Grid, w: nat, h: nat, numMines: nat, fx: int, fy: int)
    requires Shaped(g, w, h) && Shaped(g', w, h) && SameLayout(g, g', w, h)
    requires PlacedAround(g, w, h, numMines, fx, fy)
    ensures PlacedAround(g', w, h, numMines, fx, fy)
  {
    LayoutKeepsCounts(g, g', w, h);
  }

  /** Opening one hidden, unflagged cell. */
  lemma RevealStore(g: Grid, w: nat, h: nat, x: int, y: int)
    requires Shaped(g, w, h) && InBounds(w, h, x, y) && !Blocked(g[y][x])
    ensures Shaped(Store(g, x, y, g[y][x].(isRevealed := true)), w, h)
    ensures var g' := Store(g, x, y, g[y][x].(isRevealed := true));
      && SameLayout(g, g', w, h)
      && OnlyReveals(g, g', w, h)
      && Where(g', w, h, Flagged) == Where(g, w, h, Flagged)
      && Where(g', w, h, Unrevealed) < Where(g, w, h, Unrevealed)
      && (CountsCorrect(g, w, h) ==> CountsCorrect(g', w, h))
      && (forall j, i {:trigger Opened(g, g', i, j)} :: InBounds(w, h, i, j) && Opened(g, g', i, j) ==> (i, j) == (x, y))
  {
    var g' := Store(g, x, y, g[y][x].(isRevealed := true));
    WhereStore(g, w, h, x, y, g[y][x].(isRevealed := true), Flagged);
    WhereStore(g, w, h, x, y, g[y][x].(isRevealed := true), Unrevealed);
    assert (x, y) in Where(g, w, h, Unrevealed);
    LayoutKeepsCounts(g, g', w, h);
  }

  lemma SameViewOnlyReveals(g: Grid, g': Grid, w: nat, h: nat)
    requires Shaped(g, w, h) && Shaped(g', w, h) && SameView(g, g', w, h)
    ensures OnlyReveals(g, g', w, h)
    ensures Where(g, w, h, Unrevealed) == Where(g', w, h, Unrevealed)
    ensures Where(g, w, h, Flagged) == Where(g', w, h, Flagged)
  {
    WhereAgree(g, g', w, h, Unrevealed);
    WhereAgree(g, g', w, h, Flagged);
  }

  lemma OnlyRevealsTrans(g0: Grid, g1: Grid, g2: Grid, w: nat, h: nat)
    requires Shaped(g0, w, h) && Shaped(g1, w, h) && Shaped(g2, w, h)
    requires OnlyReveals(g0, g1, w, h) && OnlyReveals(g1, g2, w, h)
    ensures OnlyReveals(g0, g2, w, h)
  {
  }

  lemma SameLayoutTrans(g0: Grid, g1: Grid, g2: Grid, w: nat, h: nat)
    requires Shaped(g0, w, h) && Shaped(g1, w, h) && Shaped(g2, w, h)
    requires SameLayout(g0, g1, w, h) && SameLayout(g1, g2, w, h)
    ensures SameLayout(g0, g2, w, h)
  {
  }

  /**
   * Two complete cascades in a row make one complete cascade: a cell whose
   * block was open stays open when later steps only reveal more cells.
   */
  lemma CascadeTrans(g0: Grid, g1: Grid, g2: Grid, w: nat, h: nat)
    requires Shaped(g0, w, h) && Shaped(g1, w, h) && Shaped(g2, w, h)
    requires CascadeClosed(g0, g1, w, h) && CascadeClosed(g1, g2, w, h)
    requires OnlyReveals(g1, g2, w, h) && SameLayout(g1, g2, w, h)
    ensures CascadeClosed(g0, g2, w, h)
  {
    forall y, x {:trigger Opened(g0, g2, x, y)} | InBounds(w, h, x, y) && Opened(g0, g2, x, y)
      ensures !g2[y][x].isMine && (g2[y][x].adjacentMines == 0 ==> NeighboursOpen(g2, w, h, x, y))
    {
      if Opened(g0, g1, x, y) {
        if g2[y][x].adjacentMines == 0 {
          assert NeighboursOpen(g1, w, h, x, y);
          forall j, i {:trigger g2[j][i]} | InBounds(w, h, i, j) && Near((i, j), x, y)
            ensures Blocked(g2[j][i])
          {
            assert Blocked(g1[j][i]);
          }
        }
      } else {
        assert Opened(g1, g2, x, y);
      }
    }
  }

  /**
   * One neighbour step of the cascade from (x, y): whatever the call on the
   * neighbour at offset (dx, dy) did, the cascade so far is still closed, the
   * neighbour is now revealed or flagged, and nothing that was open is closed
   * again.
   */
  lemma NeighbourStep(g1: Grid, b: Grid, a: Grid, w: nat, h: nat, x: int, y: int, dx: int, dy: int, bound: set<Pos>)
    requires Shaped(g1, w, h) && Shaped(b, w, h) && Shaped(a, w, h)
    requires Where(b, w, h, Unrevealed) < bound
    requires forall j, i {:trigger g1[j][i]} :: InBounds(w, h, i, j) && Near((i, j), x, y) ==> !g1[j][i].isMine
    requires -1 <= dx <= 1 && -1 <= dy <= 1 && OpenBefore(b, w, h, x, y, dy, dx)
    requires OnlyReveals(g1, b, w, h) && SameLayout(g1, b, w, h) && CascadeClosed(g1, b, w, h)
    requires OnlyReveals(b, a, w, h) && SameLayout(b, a, w, h)
    requires !InBounds(w, h, x + dx, y + dy) ==> a == b
    requires InBounds(w, h, x + dx, y + dy) && Blocked(b[y + dy][x + dx]) ==> SameView(b, a, w, h)
    requires InBounds(w, h, x + dx, y + dy) && !Blocked(b[y + dy][x + dx]) && !a[y + dy][x + dx].isMine ==>
      a[y + dy][x + dx].isRevealed && CascadeClosed(b, a, w, h)
    ensures OnlyReveals(g1, a, w, h) && SameLayout(g1, a, w, h) && CascadeClosed(g1, a, w, h)
    ensures OpenBefore(a, w, h, x, y, dy, dx + 1)
    ensures Where(a, w, h, Unrevealed) < bound
    ensures AllSafeRevealed(b, w, h) ==> AllSafeRevealed(a, w, h)
  {
    var nx, ny := x + dx, y + dy;
    OnlyRevealsTrans(g1, b, a, w, h);
    SameLayoutTrans(g1, b, a, w, h);
    HiddenShrinks(b, a, w, h);
    LayoutKeepsCounts(b, a, w, h);
    if InBounds(w, h, nx, ny) && Blocked(b[ny][nx]) {
      assert forall j, i {:trigger Opened(b, a, i, j)} :: InBounds(w, h, i, j) ==> !Opened(b, a, i, j);
    }
    if InBounds(w, h, nx, ny) {
      assert !g1[ny][nx].isMine;
    }
    CascadeTrans(g1, b, a, w, h);
    OpenBeforeStep(b, a, w, h, x, y, dy, dx);
  }

  /**
   * A reveal that opened only (x, y), possibly followed by the cascade from
   * (x, y), is closed as a whole. gOld is the grid before the reveal, gPlaced
   * the same view after mine placement, g1 the grid with (x, y) opened and g2
   * the grid after the cascade (g1 itself when there was none).
   */
  lemma CascadeFromCell(gOld: Grid, gPlaced: Grid, g1: Grid, g2: Grid, w: nat, h: nat, x: int, y: int)
    requires Shaped(gOld, w, h) && Shaped(gPlaced, w, h) && Shaped(g1, w, h) && Shaped(g2, w, h)
    requires InBounds(w, h, x, y) && SameView(gOld, gPlaced, w, h)
    requires OnlyReveals(gPlaced, g1, w, h) && SameLayout(gPlaced, g1, w, h)
    requires forall j, i {:trigger Opened(gPlaced, g1, i, j)} :: InBounds(w, h, i, j) && Opened(gPlaced, g1, i, j) ==> (i, j) == (x, y)
    requires g1[y][x].isRevealed && !g1[y][x].isMine
    requires g2 == g1 || (OnlyReveals(g1, g2, w, h) && SameLayout(g1, g2, w, h) && CascadeClosed(g1, g2, w, h))
    requires g2[y][x].adjacentMines == 0 ==> NeighboursOpen(g2, w, h, x, y)
    ensures OnlyReveals(gOld, g2, w, h) && SameLayout(gPlaced, g2, w, h)
    ensures CascadeClosed(gOld, g2, w, h)
  {
    SameViewOnlyReveals(gOld, gPlaced, w, h);
    OnlyRevealsTrans(gOld, gPlaced, g1, w, h);
    if g2 != g1 {
      OnlyRevealsTrans(gOld, g1, g2, w, h);
      SameLayoutTrans(gPlaced, g1, g2, w, h);
    }
    forall j, i {:trigger Opened(gOld, g2, i, j)} | InBounds(w, h, i, j) && Opened(gOld, g2, i, j)
      ensures !g2[j][i].isMine && (g2[j][i].adjacentMines == 0 ==> NeighboursOpen(g2, w, h, i, j))
    {
      if (i, j) != (x, y) {
        assert !Opened(gPlaced, g1, i, j);
        if g2 != g1 {
          assert Opened(g1, g2, i, j);
        }
      }
    }
  }

  lemma SubsetCard<T>(a: set<T>, b: set<T>)
    requires a <= b
    ensures |a| <= |b|
  {
    if a != {} {
      var e :| e in a;
      SubsetCard(a - {e}, b - {e});
    }
  }

  /** The nine positions of the block around (x, y). */
  ghost function Block(x: int, y: int): (s: set<Pos>)
    ensures |s| == 9
    ensures forall p :: p in s <==> Near(p, x, y)
  {
    var s := {(x - 1, y - 1), (x, y - 1), (x + 1, y - 1),
              (x - 1, y), (x, y), (x + 1, y),
              (x - 1, y + 1), (x, y + 1), (x + 1, y + 1)};
    assert forall p {:trigger Near(p, x, y)} :: Near(p, x, y) ==> p == (p.0, p.1) && p in s;
    s
  }

  /**
   * A cell has at most eight mined neighbours: its block holds nine positions,
   * one of which is the cell itself.
   */
  lemma AroundBound(mines: set<Pos>, x: int, y: int)
    ensures |Around(mines, x, y)| <= 9
    ensures (x, y) !in mines ==> |Around(mines, x, y)| <= 8
  {
    var b := Block(x, y);
    SubsetCard(Around(mines, x, y), b);
    if (x, y) !in mines {
      SubsetCard(Around(mines, x, y), b - {(x, y)});
    }
  }

  /** Every adjacency count on a correctly counted board is in 0..8. */
  lemma AdjacencyInRange(g: Grid, w: nat, h: nat)
    requires Shaped(g, w, h) && CountsCorrect(g, w, h)
    ensures forall y, x {:trigger g[y][x]} :: InBounds(w, h, x, y) ==> 0 <= g[y][x].adjacentMines <= 8
  {
    forall y, x {:trigger g[y][x]} | InBounds(w, h, x, y)
      ensures 0 <= g[y][x].adjacentMines <= 8
    {
      assert CountOk(g, w, h, x, y);
      AroundBound(Mines(g, w, h), x, y);
    }
  }

  /**
   * A safe cell whose count is 0 has no mine in its block, so opening its
   * neighbours never loses the game.
   */
  lemma ZeroCountSafeBlock(g: Grid, w: nat, h: nat, x: int, y: int)
    requires Shaped(g, w, h) && CountsCorrect(g, w, h) && InBounds(w, h, x, y)
    requires !g[y][x].isMine && g[y][x].adjacentMines == 0
    ensures forall j, i {:trigger g[j][i]} :: InBounds(w, h, i, j) && Near((i, j), x, y) ==> !g[j][i].isMine
  {
    assert CountOk(g, w, h, x, y);
    assert Around(Mines(g, w, h), x, y) == {};
  }

  /** The first click and its neighbours are never mines after placement. */
  lemma SafeFirstClick(g: Grid, w: nat, h: nat, numMines: nat, fx: int, fy: int)
    requires Shaped(g, w, h) && PlacedAround(g, w, h, numMines, fx, fy)
    ensures forall y, x {:trigger g[y][x]} :: InBounds(w, h, x, y) && Near((x, y), fx, fy) ==> !g[y][x].isMine
  {
    forall y, x {:trigger g[y][x]} | InBounds(w, h, x, y) && Near((x, y), fx, fy)
      ensures !g[y][x].isMine
    {
      assert (x, y) !in Candidates(w, h, fx, fy);
    }
  }

  /** All positions of a w-by-h grid. */
  ghost function AllPositions(w: nat, h: nat): (s: set<Pos>)
    ensures forall p {:trigger p in s} :: p in s <==> InBounds(w, h, p.0, p.1)
  {
    set x, y | 0 <= x < w && 0 <= y < h :: (x, y)
  }

  /** The positions of row y, columns 0 to w - 1. */
  ghost function Row(w: nat, y: int): (s: set<Pos>)
    ensures forall p :: p in s <==> 0 <= p.0 < w && p.1 == y
  {
    set x | 0 <= x < w :: (x, y)
  }

  lemma {:induction false} RowCard(w: nat, y: int)
    ensures |Row(w, y)| == w
  {
    if w > 0 {
      RowCard(w - 1, y);
      assert Row(w, y) == Row(w - 1, y) + {(w - 1, y)};
    }
  }

  lemma {:induction false} AllPositionsCard(w: nat, h: nat)
    ensures |AllPositions(w, h)| == w * h
  {
    if h > 0 {
      var prev, row := AllPositions(w, h - 1), Row(w, h - 1);
      AllPositionsCard(w, h - 1);
      RowCard(w, h - 1);
      assert forall p :: p in AllPositions(w, h) <==> p in prev || p in row;
      assert AllPositions(w, h) == prev + row;
      assert forall p :: p in row ==> p !in prev;
      assert prev * row == {};
      assert |prev + row| == |prev| + |row|;
      MulStep(w, h);
    }
  }

  lemma MulStep(w: nat, h: nat)
    requires h > 0
    ensures w * h == w * (h - 1) + w
  {
  }

  /**
   * The safe block removes at most nine cells, so when numMines leaves room
   * for it every requested mine is placed.
   */
  lemma AllRequestedMinesFit(w: nat, h: nat, numMines: nat, fx: int, fy: int)
    requires numMines <= w * h - 9
    ensures Min(numMines, |Candidates(w, h, fx, fy)|) == numMines
  {
    var cand := Candidates(w, h, fx, fy);
    var b := Block(fx, fy);
    AllPositionsCard(w, h);
    SubsetCard(AllPositions(w, h), cand + b);
    assert |cand + b| <= |cand| + |b|;
  }
}

/**
  The Connect-Four board shared by the arena (01-Arena/arena.c), the match runner
  (02-Gamatach/gamatch.c) and the two agents (01-Arena/agent1.c,
  01-Arena/agents/agent_center.c).

  The C programs keep the board as `int *map[COLS]`, seven columns of six rows, and
  index it `map[c][r]`; row 0 is the top row and row 5 the bottom row, and 0 (BLANK)
  marks an empty cell.  Here the board is an `array2<int>` indexed `a[c, r]`, and
  `Grid` is its value, a sequence of seven columns of six cells, indexed `g[c][r]`.
*/
module Board {

  const COLS: int := 7
  const ROWS: int := 6
  const CELLS: int := 42

  /** The `State` enumeration of the C code. */
  const BLANK: int := 0
  const X: int := 1
  const Y: int := 2

  type Grid = seq<seq<int>>

  predicate IsGrid(g: Grid) {
    |g| == COLS && forall c :: 0 <= c < COLS ==> |g[c]| == ROWS
  }

  predicate IsBoard(a: array2<int>) {
    a.Length0 == COLS && a.Length1 == ROWS
  }

  predicate InBounds(c: int, r: int) {
    0 <= c < COLS && 0 <= r < ROWS
  }

  predicate IsPlayer(p: int) {
    p == X || p == Y
  }

  /** The other player: the `X`/`Y` swap of `update_player` and `init_config`. */
  function Other(p: int): (q: int)
    requires IsPlayer(p)
    ensures IsPlayer(q) && q != p
  {
    if p == X then Y else X
  }

  /** The value currently held by a board array. */
  function Snapshot(a: array2<int>): (g: Grid)
    requires IsBoard(a)
    reads a
    ensures IsGrid(g)
    ensures forall c, r :: InBounds(c, r) ==> g[c][r] == a[c, r]
  {
    seq(COLS, c requires 0 <= c < COLS reads a => seq(ROWS, r requires 0 <= r < ROWS reads a => a[c, r]))
  }

  /** The grid `g` with cell (c, r) set to `v`. */
  function Place(g: Grid, c: int, r: int, v: int): (h: Grid)
    requires IsGrid(g) && InBounds(c, r)
    ensures IsGrid(h)
    ensures forall c', r' :: InBounds(c', r') ==> h[c'][r'] == if c' == c && r' == r then v else g[c'][r']
  {
    g[c := g[c][r := v]]
  }

  function EmptyGrid(): (g: Grid)
    ensures IsGrid(g)
    ensures forall c, r :: InBounds(c, r) ==> g[c][r] == BLANK
  {
    seq(COLS, c => seq(ROWS, r => BLANK))
  }

  /** Two grids that agree on every cell are equal. */
  lemma GridExt(g: Grid, h: Grid)
    requires IsGrid(g) && IsGrid(h)
    requires forall c, r :: InBounds(c, r) ==> g[c][r] == h[c][r]
    ensures g == h
  {
    forall c | 0 <= c < COLS
      ensures g[c] == h[c]
    {
      assert forall r :: 0 <= r < ROWS ==> g[c][r] == h[c][r];
    }
  }

  /** Placing a value and then restoring the old one gives back the grid. */
  lemma PlaceRestore(g: Grid, c: int, r: int, v: int)
    requires IsGrid(g) && InBounds(c, r)
    ensures Place(Place(g, c, r, v), c, r, g[c][r]) == g
  {
    GridExt(Place(Place(g, c, r, v), c, r, g[c][r]), g);
  }

  /** Placing twice at the same cell keeps only the second value. */
  lemma PlaceTwice(g: Grid, c: int, r: int, v: int, w: int)
    requires IsGrid(g) && InBounds(c, r)
    ensures Place(Place(g, c, r, v), c, r, w) == Place(g, c, r, w)
  {
    GridExt(Place(Place(g, c, r, v), c, r, w), Place(g, c, r, w));
  }

  // ---------------------------------------------------------------------------
  // Columns
  // ---------------------------------------------------------------------------

  /**
    Maps the reply letters `a`..`g` and `A`..`G` to columns 0..6, as `update_map`
    does; every other character is refused.
  */
  function ColumnOf(ch: char): (c: int)
    ensures -1 <= c < COLS
    ensures c >= 0 <==> ('a' <= ch <= 'g' || 'A' <= ch <= 'G')
    ensures 'a' <= ch <= 'g' ==> c == ch as int - 'a' as int
    ensures 'A' <= ch <= 'G' ==> c == ch as int - 'A' as int
  {
    if 'a' <= ch <= 'g' then ch as int - 'a' as int
    else if 'A' <= ch <= 'G' then ch as int - 'A' as int
    else -1
  }

  /** The reply letters accepted by `read_bytes`. */
  predicate IsColumnLetter(ch: char) {
    ('A' <= ch <= 'G') || ('a' <= ch <= 'g')
  }

  /**
    The row of the blank cell with the largest row index in column `c` at or above
    row `r`, or -1 when there is none: the upward scan from the bottom row that
    every program uses to find where a piece falls.
  */
  function LowestBlankFrom(g: Grid, c: int, r: int): (b: int)
    requires IsGrid(g) && 0 <= c < COLS && -1 <= r < ROWS
    ensures -1 <= b <= r
    ensures b >= 0 ==> g[c][b] == BLANK
    ensures forall r' :: b < r' <= r ==> g[c][r'] != BLANK
    decreases r + 1
  {
    if r < 0 then -1
    else if g[c][r] == BLANK then r
    else LowestBlankFrom(g, c, r - 1)
  }

  /** The row a piece dropped into column `c` lands in, or -1 when the column has no blank cell. */
  function LowestBlank(g: Grid, c: int): (b: int)
    requires IsGrid(g) && 0 <= c < COLS
    ensures -1 <= b < ROWS
    ensures b >= 0 ==> g[c][b] == BLANK
    ensures forall r :: b < r < ROWS ==> g[c][r] != BLANK
  {
    LowestBlankFrom(g, c, ROWS - 1)
  }

  /** A column whose top cell is blank has room. */
  lemma TopBlankHasRoom(g: Grid, c: int)
    requires IsGrid(g) && 0 <= c < COLS && g[c][0] == BLANK
    ensures LowestBlank(g, c) >= 0
  {
  }

  /** Blanks sit above pieces: below a non-blank cell there is no blank cell. */
  predicate Stacked(g: Grid)
    requires IsGrid(g)
  {
    forall c, r, r' :: 0 <= c < COLS && 0 <= r < r' < ROWS && g[c][r] != BLANK ==> g[c][r'] != BLANK
  }

  /** Dropping a piece of a player into the lowest blank cell keeps the pieces stacked. */
  lemma DropKeepsStacked(g: Grid, c: int, p: int)
    requires IsGrid(g) && Stacked(g) && 0 <= c < COLS && p != BLANK
    requires LowestBlank(g, c) >= 0
    ensures Stacked(Place(g, c, LowestBlank(g, c), p))
  {
    var b := LowestBlank(g, c);
    var h := Place(g, c, b, p);
    forall c', r, r' | 0 <= c' < COLS && 0 <= r < r' < ROWS && h[c'][r] != BLANK
      ensures h[c'][r'] != BLANK
    {
      if c' == c && r != b {
        // r holds a piece in g; if it lay above b, then b would not be blank.
        assert g[c][r] != BLANK;
        assert r > b;
      }
    }
  }

  // ---------------------------------------------------------------------------
  // Column-major layout: columns 0..6, each with rows 0..5
  // ---------------------------------------------------------------------------

  /** Position c * 6 + r of the column-major layout names cell (c, r) and no other. */
  lemma LayoutIndex(i: int, c: int, r: int)
    requires 0 <= i < CELLS && InBounds(c, r)
    ensures InBounds(i / ROWS, i % ROWS) && i == (i / ROWS) * ROWS + i % ROWS
    ensures i == c * ROWS + r <==> i / ROWS == c && i % ROWS == r
  {
  }

  /** The cells in the order the arena and the match runner send them. */
  function ColumnMajor(g: Grid): (s: seq<int>)
    requires IsGrid(g)
    ensures |s| == CELLS
  {
    seq(CELLS, i requires 0 <= i < CELLS => g[i / ROWS][i % ROWS])
  }

  /** Cell (c, r) sits at position c * 6 + r of the column-major layout. */
  lemma ColumnMajorAt(g: Grid)
    requires IsGrid(g)
    ensures forall c, r :: InBounds(c, r) ==> ColumnMajor(g)[c * ROWS + r] == g[c][r]
  {
    forall c, r | InBounds(c, r)
      ensures ColumnMajor(g)[c * ROWS + r] == g[c][r]
    {
      LayoutIndex(c * ROWS + r, c, r);
    }
  }

  // ---------------------------------------------------------------------------
  // Four in a row
  // ---------------------------------------------------------------------------

  predicate Holds(g: Grid, c: int, r: int, p: int)
    requires IsGrid(g)
  {
    InBounds(c, r) && g[c][r] == p
  }

  predicate IsDir(dc: int, dr: int) {
    -1 <= dc <= 1 && -1 <= dr <= 1 && !(dc == 0 && dr == 0)
  }

  /** How many steps in direction (dc, dr) are left before leaving the board. */
  function Room(c: int, r: int, dc: int, dr: int): int {
    (if dc > 0 then COLS - c else if dc < 0 then c else 0) +
    (if dr > 0 then ROWS - r else if dr < 0 then r else 0)
  }

  /**
    The number of consecutive cells holding `p` that follow (c, r) in direction
    (dc, dr): what one counting loop of `check_win` adds to `count`.
  */
  function Run(g: Grid, c: int, r: int, dc: int, dr: int, p: int): nat
    requires IsGrid(g) && IsDir(dc, dr)
    decreases Room(c, r, dc, dr)
  {
    if Holds(g, c + dc, r + dr, p) then 1 + Run(g, c + dc, r + dr, dc, dr, p) else 0
  }

  /**
    The four tests of `check_win` on cell (col, row) for player `p`: the horizontal
    run through the cell, the cell with the run below it, and the two diagonal runs,
    each counted from 1 whatever the cell itself holds.
  */
  predicate Wins(g: Grid, col: int, row: int, p: int)
    requires IsGrid(g) && InBounds(col, row)
  {
    || 1 + Run(g, col, row, -1, 0, p) + Run(g, col, row, 1, 0, p) >= 4
    || 1 + Run(g, col, row, 0, 1, p) >= 4
    || 1 + Run(g, col, row, -1, 1, p) + Run(g, col, row, 1, -1, p) >= 4
    || 1 + Run(g, col, row, 1, 1, p) + Run(g, col, row, -1, -1, p) >= 4
  }

  /** Cell (c, r) is on the board and holds `p`, or is the cell (col, row) being tested. */
  predicate Owns(g: Grid, c: int, r: int, p: int, col: int, row: int)
    requires IsGrid(g)
  {
    InBounds(c, r) && (g[c][r] == p || (c == col && r == row))
  }

  /** The four cells from (c, r) in direction (dc, dr) are all owned in the sense of `Owns`. */
  predicate Segment(g: Grid, c: int, r: int, dc: int, dr: int, p: int, col: int, row: int)
    requires IsGrid(g)
  {
    && Owns(g, c, r, p, col, row)
    && Owns(g, c + dc, r + dr, p, col, row)
    && Owns(g, c + 2 * dc, r + 2 * dr, p, col, row)
    && Owns(g, c + 3 * dc, r + 3 * dr, p, col, row)
  }

  /**
    Reference definition of a win through (col, row), independent of the counting
    loops: four cells in a line that contains (col, row) all hold `p`, counting
    (col, row) itself as `p`.  Vertically only the line with (col, row) on top counts,
    since `check_win` looks only at the cells below.
  */
  predicate FourThrough(g: Grid, col: int, row: int, p: int)
    requires IsGrid(g)
  {
    // horizontal, starting 0..3 cells to the left
    || Segment(g, col, row, 1, 0, p, col, row)
    || Segment(g, col - 1, row, 1, 0, p, col, row)
    || Segment(g, col - 2, row, 1, 0, p, col, row)
    || Segment(g, col - 3, row, 1, 0, p, col, row)
    // vertical, the cell and the three below it
    || Segment(g, col, row, 0, 1, p, col, row)
    // rising diagonal, starting 0..3 cells up and to the right
    || Segment(g, col, row, -1, 1, p, col, row)
    || Segment(g, col + 1, row - 1, -1, 1, p, col, row)
    || Segment(g, col + 2, row - 2, -1, 1, p, col, row)
    || Segment(g, col + 3, row - 3, -1, 1, p, col, row)
    // falling diagonal, starting 0..3 cells up and to the left
    || Segment(g, col, row, 1, 1, p, col, row)
    || Segment(g, col - 1, row - 1, 1, 1, p, col, row)
    || Segment(g, col - 2, row - 2, 1, 1, p, col, row)
    || Segment(g, col - 3, row - 3, 1, 1, p, col, row)
  }

  /** A line of four cells holding `p` starts at (c, r), in one of the four directions. */
  predicate LineAt(g: Grid, c: int, r: int, p: int)
    requires IsGrid(g)
  {
    || Segment(g, c, r, 1, 0, p, -1, -1)
    || Segment(g, c, r, 0, 1, p, -1, -1)
    || Segment(g, c, r, -1, 1, p, -1, -1)
    || Segment(g, c, r, 1, 1, p, -1, -1)
  }

  /** The board holds four in a row of `p` somewhere. */
  predicate HasFour(g: Grid, p: int)
    requires IsGrid(g)
  {
    exists c, r :: 0 <= c < COLS && 0 <= r < ROWS && LineAt(g, c, r, p)
  }

  /** What `judge` looks for: a cell of `p` on which `check_win` succeeds. */
  predicate WinningCell(g: Grid, p: int)
    requires IsGrid(g)
  {
    exists c, r :: 0 <= c < COLS && 0 <= r < ROWS && g[c][r] == p && Wins(g, c, r, p)
  }

  /** The first three steps of a run, cell by cell. */
  lemma RunCells(g: Grid, c: int, r: int, dc: int, dr: int, p: int)
    requires IsGrid(g) && IsDir(dc, dr)
    ensures Run(g, c, r, dc, dr, p) >= 1 <==> Holds(g, c + dc, r + dr, p)
    ensures Run(g, c, r, dc, dr, p) >= 2 <==>
      Holds(g, c + dc, r + dr, p) && Holds(g, c + 2 * dc, r + 2 * dr, p)
    ensures Run(g, c, r, dc, dr, p) >= 3 <==>
      Holds(g, c + dc, r + dr, p) && Holds(g, c + 2 * dc, r + 2 * dr, p) && Holds(g, c + 3 * dc, r + 3 * dr, p)
  {
    if Holds(g, c + dc, r + dr, p) {
      var c1, r1 := c + dc, r + dr;
      assert Run(g, c, r, dc, dr, p) == 1 + Run(g, c1, r1, dc, dr, p);
      if Holds(g, c1 + dc, r1 + dr, p) {
        var c2, r2 := c1 + dc, r1 + dr;
        assert Run(g, c1, r1, dc, dr, p) == 1 + Run(g, c2, r2, dc, dr, p);
        if Holds(g, c2 + dc, r2 + dr, p) {
          assert Run(g, c2, r2, dc, dr, p) == 1 + Run(g, c2 + dc, r2 + dr, dc, dr, p);
        }
      }
    }
  }

  lemma HorizontalIff(g: Grid, col: int, row: int, p: int)
    requires IsGrid(g) && InBounds(col, row)
    ensures 1 + Run(g, col, row, -1, 0, p) + Run(g, col, row, 1, 0, p) >= 4 <==>
      || Segment(g, col, row, 1, 0, p, col, row)
      || Segment(g, col - 1, row, 1, 0, p, col, row)
      || Segment(g, col - 2, row, 1, 0, p, col, row)
      || Segment(g, col - 3, row, 1, 0, p, col, row)
  {
    RunCells(g, col, row, -1, 0, p);
    RunCells(g, col, row, 1, 0, p);
  }

  lemma VerticalIff(g: Grid, col: int, row: int, p: int)
    requires IsGrid(g) && InBounds(col, row)
    ensures 1 + Run(g, col, row, 0, 1, p) >= 4 <==> Segment(g, col, row, 0, 1, p, col, row)
  {
    RunCells(g, col, row, 0, 1, p);
  }

  lemma RisingIff(g: Grid, col: int, row: int, p: int)
    requires IsGrid(g) && InBounds(col, row)
    ensures 1 + Run(g, col, row, -1, 1, p) + Run(g, col, row, 1, -1, p) >= 4 <==>
      || Segment(g, col, row, -1, 1, p, col, row)
      || Segment(g, col + 1, row - 1, -1, 1, p, col, row)
      || Segment(g, col + 2, row - 2, -1, 1, p, col, row)
      || Segment(g, col + 3, row - 3, -1, 1, p, col, row)
  {
    RunCells(g, col, row, -1, 1, p);
    RunCells(g, col, row, 1, -1, p);
  }

  lemma FallingIff(g: Grid, col: int, row: int, p: int)
    requires IsGrid(g) && InBounds(col, row)
    ensures 1 + Run(g, col, row, 1, 1, p) + Run(g, col, row, -1, -1, p) >= 4 <==>
      || Segment(g, col, row, 1, 1, p, col, row)
      || Segment(g, col - 1, row - 1, 1, 1, p, col, row)
      || Segment(g, col - 2, row - 2, 1, 1, p, col, row)
      || Segment(g, col - 3, row - 3, 1, 1, p, col, row)
  {
    RunCells(g, col, row, 1, 1, p);
    RunCells(g, col, row, -1, -1, p);
  }

  /** The counting test of `check_win` is exactly "four in a line through the cell". */
  lemma WinsIffFourThrough(g: Grid, col: int, row: int, p: int)
    requires IsGrid(g) && InBounds(col, row)
    ensures Wins(g, col, row, p) <==> FourThrough(g, col, row, p)
  {
    HorizontalIff(g, col, row, p);
    VerticalIff(g, col, row, p);
    RisingIff(g, col, row, p);
    FallingIff(g, col, row, p);
  }

  /** When the tested cell already holds `p`, a segment through it is a plain line of `p`. */
  lemma SegmentOwned(g: Grid, c: int, r: int, dc: int, dr: int, p: int, col: int, row: int)
    requires IsGrid(g) && InBounds(col, row) && g[col][row] == p
    ensures Segment(g, c, r, dc, dr, p, col, row) <==> Segment(g, c, r, dc, dr, p, -1, -1)
  {
  }

  /** A segment of `p` through a cell of `p`, in one of the four directions, is a line of four. */
  lemma OwnedLine(g: Grid, c: int, r: int, dc: int, dr: int, p: int, col: int, row: int)
    requires IsGrid(g) && InBounds(col, row) && g[col][row] == p
    requires (dc, dr) == (1, 0) || (dc, dr) == (0, 1) || (dc, dr) == (-1, 1) || (dc, dr) == (1, 1)
    ensures Segment(g, c, r, dc, dr, p, col, row) ==> HasFour(g, p)
  {
    if Segment(g, c, r, dc, dr, p, col, row) {
      SegmentOwned(g, c, r, dc, dr, p, col, row);
      assert LineAt(g, c, r, p);
    }
  }

  /** A cell of `p` with four in a line through it lies on a line of four `p`. */
  lemma FourThroughHasFour(g: Grid, col: int, row: int, p: int)
    requires IsGrid(g) && InBounds(col, row) && g[col][row] == p && FourThrough(g, col, row, p)
    ensures HasFour(g, p)
  {
    OwnedLine(g, col, row, 1, 0, p, col, row);
    OwnedLine(g, col - 1, row, 1, 0, p, col, row);
    OwnedLine(g, col - 2, row, 1, 0, p, col, row);
    OwnedLine(g, col - 3, row, 1, 0, p, col, row);
    OwnedLine(g, col, row, 0, 1, p, col, row);
    OwnedLine(g, col, row, -1, 1, p, col, row);
    OwnedLine(g, col + 1, row - 1, -1, 1, p, col, row);
    OwnedLine(g, col + 2, row - 2, -1, 1, p, col, row);
    OwnedLine(g, col + 3, row - 3, -1, 1, p, col, row);
    OwnedLine(g, col, row, 1, 1, p, col, row);
    OwnedLine(g, col - 1, row - 1, 1, 1, p, col, row);
    OwnedLine(g, col - 2, row - 2, 1, 1, p, col, row);
    OwnedLine(g, col - 3, row - 3, 1, 1, p, col, row);
  }

  /** The first cell of a line of four `p` passes `check_win`. */
  lemma LineStartWins(g: Grid, c: int, r: int, p: int)
    requires IsGrid(g) && 0 <= c < COLS && 0 <= r < ROWS && LineAt(g, c, r, p)
    ensures g[c][r] == p && Wins(g, c, r, p)
  {
    assert Owns(g, c, r, p, -1, -1);
    SegmentOwned(g, c, r, 1, 0, p, c, r);
    SegmentOwned(g, c, r, 0, 1, p, c, r);
    SegmentOwned(g, c, r, -1, 1, p, c, r);
    SegmentOwned(g, c, r, 1, 1, p, c, r);
    assert FourThrough(g, c, r, p);
    WinsIffFourThrough(g, c, r, p);
  }

  /**
    `judge`'s search succeeds exactly when the board holds four in a row of the
    player: some cell of `p` passes `check_win` iff a line of four `p` exists.
  */
  lemma WinningCellIffHasFour(g: Grid, p: int)
    requires IsGrid(g)
    ensures WinningCell(g, p) <==> HasFour(g, p)
  {
    if WinningCell(g, p) {
      var c, r :| InBounds(c, r) && g[c][r] == p && Wins(g, c, r, p);
      WinsIffFourThrough(g, c, r, p);
      FourThroughHasFour(g, c, r, p);
    }
    if HasFour(g, p) {
      var c, r :| 0 <= c < COLS && 0 <= r < ROWS && LineAt(g, c, r, p);
      LineStartWins(g, c, r, p);
    }
  }

  // ---------------------------------------------------------------------------
  // The counting loops
  // ---------------------------------------------------------------------------

  /** One counting loop of `check_win`: walk from (col, row) in direction (dc, dr) while the cells hold `p`. */
  method RunLength(a: array2<int>, col: int, row: int, dc: int, dr: int, p: int) returns (n: nat)
    requires IsBoard(a) && IsDir(dc, dr)
    ensures n == Run(Snapshot(a), col, row, dc, dr, p)
  {
    ghost var g := Snapshot(a);
    n := 0;
    var c, r := col + dc, row + dr;
    while InBounds(c, r) && a[c, r] == p
      invariant n + Run(g, c - dc, r - dr, dc, dr, p) == Run(g, col, row, dc, dr, p)
      decreases Room(c, r, dc, dr)
    {
      n := n + 1;
      c, r := c + dc, r + dr;
    }
  }

  /**
    `check_win(col, row, ...)` for player `p`: returns true (the C code's 0) iff one of
    its four counts reaches 4, which is the case iff four cells in a line through
    (col, row) hold `p`, counting (col, row) itself.
  */
  method CheckWin(a: array2<int>, col: int, row: int, p: int) returns (won: bool)
    requires IsBoard(a) && InBounds(col, row)
    ensures won == Wins(Snapshot(a), col, row, p)
    ensures won <==> FourThrough(Snapshot(a), col, row, p)
  {
    WinsIffFourThrough(Snapshot(a), col, row, p);
    var left := RunLength(a, col, row, -1, 0, p);
    var right := RunLength(a, col, row, 1, 0, p);
    if 1 + left + right >= 4 {
      return true;
    }
    var down := RunLength(a, col, row, 0, 1, p);
    if 1 + down >= 4 {
      return true;
    }
    var downLeft := RunLength(a, col, row, -1, 1, p);
    var upRight := RunLength(a, col, row, 1, -1, p);
    if 1 + downLeft + upRight >= 4 {
      return true;
    }
    var downRight := RunLength(a, col, row, 1, 1, p);
    var upLeft := RunLength(a, col, row, -1, -1, p);
    if 1 + downRight + upLeft >= 4 {
      return true;
    }
    return false;
  }

  /** No cell of `p` in columns before `c`, or in column `c` below row `r`, passes `check_win`. */
  predicate NoWinBefore(g: Grid, p: int, c: int, r: int)
    requires IsGrid(g)
  {
    forall c', r' :: 0 <= c' < COLS && 0 <= r' < ROWS && (c' < c || (c' == c && r' > r)) && g[c'][r'] == p ==>
      !Wins(g, c', r', p)
  }

  /**
    The scan of `judge`: columns left to right, rows bottom to top, stopping at the
    first cell of `p` on which `check_win` succeeds (by WinningCellIffHasFour, it finds
    one iff the board holds four in a row of `p`).
  */
  method FindWin(a: array2<int>, p: int) returns (found: bool)
    requires IsBoard(a)
    ensures found == WinningCell(Snapshot(a), p)
  {
    ghost var g := Snapshot(a);
    var c := 0;
    while c < COLS
      invariant 0 <= c <= COLS
      invariant NoWinBefore(g, p, c, ROWS - 1)
    {
      var r := ROWS - 1;
      while r >= 0
        invariant -1 <= r < ROWS
        invariant NoWinBefore(g, p, c, r)
      {
        if a[c, r] == p {
          var won := CheckWin(a, c, r, p);
          if won {
            assert g[c][r] == p && Wins(g, c, r, p);
            return true;
          }
        }
        r := r - 1;
      }
      assert NoWinBefore(g, p, c + 1, ROWS - 1);
      c := c + 1;
    }
    return false;
  }
}

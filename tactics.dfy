/**
  The move policy of the two Connect-Four agents (01-Arena/agent1.c and
  01-Arena/agents/agent_center.c) as functions of the board: the winning and blocking
  passes both agents make, agent1's scoring heuristic and the centre agent's column
  order.
*/
module Tactics {
  import opened Board

  /** The top cell of column `c` is blank: the test both agents use for "the column is open". */
  predicate Open(g: Grid, c: int)
    requires IsGrid(g) && 0 <= c < COLS
  {
    g[c][0] == BLANK
  }

  predicate AnyOpen(g: Grid)
    requires IsGrid(g)
  {
    exists c :: 0 <= c < COLS && Open(g, c)
  }

  /** On a board whose pieces are stacked a column has room exactly when its top cell is blank. */
  lemma StackedRoom(g: Grid, c: int)
    requires IsGrid(g) && Stacked(g) && 0 <= c < COLS
    ensures LowestBlank(g, c) >= 0 <==> Open(g, c)
  {
    if Open(g, c) {
      TopBlankHasRoom(g, c);
    }
    if !Open(g, c) {
      assert forall r :: 0 <= r < ROWS ==> g[c][r] != BLANK;
    }
  }

  /**
    Dropping a piece of `p` into column `c` lands on the lowest blank cell, and `check_win`
    succeeds there.
  */
  predicate WinningDrop(g: Grid, c: int, p: int)
    requires IsGrid(g) && 0 <= c < COLS
  {
    var r := LowestBlank(g, c);
    r >= 0 && Wins(Place(g, c, r, p), c, r, p)
  }

  /**
    The leftmost column from `from` on into which a piece of `p` wins, or -1: what the
    winning pass (for the agent) and the blocking pass (for the opponent) look for.
  */
  function FirstWinningDrop(g: Grid, p: int, from: int): (w: int)
    requires IsGrid(g) && 0 <= from <= COLS
    ensures w == -1 || from <= w < COLS
    ensures w >= 0 ==> WinningDrop(g, w, p)
    ensures forall c :: from <= c < COLS && (w < 0 || c < w) ==> !WinningDrop(g, c, p)
    decreases COLS - from
  {
    if from == COLS then -1
    else if WinningDrop(g, from, p) then from
    else FirstWinningDrop(g, p, from + 1)
  }

  /** A winning drop gives `p` a line of four on the board. */
  lemma WinningDropWins(g: Grid, c: int, p: int)
    requires IsGrid(g) && 0 <= c < COLS && WinningDrop(g, c, p)
    ensures HasFour(Place(g, c, LowestBlank(g, c), p), p)
  {
    var r := LowestBlank(g, c);
    var h := Place(g, c, r, p);
    WinsIffFourThrough(h, c, r, p);
    FourThroughHasFour(h, c, r, p);
  }

  /** On a stacked board a winning drop is into an open column. */
  lemma WinningDropOpen(g: Grid, c: int, p: int)
    requires IsGrid(g) && Stacked(g) && 0 <= c < COLS && WinningDrop(g, c, p)
    ensures Open(g, c)
  {
    StackedRoom(g, c);
  }

  function Abs(x: int): nat {
    if x < 0 then -x else x
  }

  /** How many of the two cells beside (c, r) in its row hold `p`. */
  function Beside(g: Grid, c: int, r: int, p: int): (n: nat)
    requires IsGrid(g) && InBounds(c, r)
    ensures n <= 2
  {
    (if c > 0 && g[c - 1][r] == p then 1 else 0) + (if c + 1 < COLS && g[c + 1][r] == p then 1 else 0)
  }

  /**
    agent1's score for an open column: 2 when exactly one cell beside the landing cell
    holds the agent's piece, 2 when the cell below it does, and 3 minus the distance of
    the column from the centre.
  */
  function Score(g: Grid, c: int, p: int): (s: int)
    requires IsGrid(g) && 0 <= c < COLS && Open(g, c)
    ensures 0 <= s <= 7
    ensures s >= 3 - Abs(3 - c)
  {
    TopBlankHasRoom(g, c);
    var r := LowestBlank(g, c);
    (if Beside(g, c, r, p) == 1 then 2 else 0)
    + (if r + 1 < ROWS && g[c][r + 1] == p then 2 else 0)
    + (3 - Abs(3 - c))
  }

  /**
    The column agent1's heuristic settles on: open, with the greatest score, and the
    leftmost column with that score.
  */
  predicate IsBestColumn(g: Grid, p: int, b: int)
    requires IsGrid(g)
  {
    && 0 <= b < COLS && Open(g, b)
    && (forall c :: 0 <= c < COLS && Open(g, c) ==> Score(g, c, p) <= Score(g, b, p))
    && (forall c :: 0 <= c < b && Open(g, c) ==> Score(g, c, p) < Score(g, b, p))
  }

  /** `b` is the best column among the first `n`, in the sense of `IsBestColumn`. */
  predicate BestBefore(g: Grid, p: int, n: int, b: int)
    requires IsGrid(g) && n <= COLS
  {
    && 0 <= b < n && Open(g, b)
    && (forall c :: 0 <= c < n && Open(g, c) ==> Score(g, c, p) <= Score(g, b, p))
    && (forall c :: 0 <= c < b && Open(g, c) ==> Score(g, c, p) < Score(g, b, p))
  }

  /** The scan over column `c` takes it as the new best: it is open and beats every column before it. */
  lemma BestBeforeTake(g: Grid, p: int, c: int, b: int)
    requires IsGrid(g) && 0 <= c < COLS && Open(g, c)
    requires b == -1 ==> forall c' :: 0 <= c' < c ==> !Open(g, c')
    requires b != -1 ==> BestBefore(g, p, c, b) && Score(g, c, p) > Score(g, b, p)
    ensures BestBefore(g, p, c + 1, c)
  {
  }

  /** The scan over column `c` keeps the best so far: `c` is full or scores no higher. */
  lemma BestBeforeKeep(g: Grid, p: int, c: int, b: int)
    requires IsGrid(g) && 0 <= c < COLS && BestBefore(g, p, c, b)
    requires Open(g, c) ==> Score(g, c, p) <= Score(g, b, p)
    ensures BestBefore(g, p, c + 1, b)
  {
  }

  /** There is at most one best column. */
  lemma BestColumnUnique(g: Grid, p: int, b: int, b': int)
    requires IsGrid(g) && IsBestColumn(g, p, b) && IsBestColumn(g, p, b')
    ensures b == b'
  {
  }

  /** The centre agent's preference: the centre first, then outwards, left before right. */
  const ORDER: seq<int> := [3, 2, 4, 1, 5, 0, 6]

  /** `ORDER` lists every column once, never moving away from the centre and back. */
  lemma OrderCoversColumns()
    ensures |ORDER| == COLS
    ensures forall i :: 0 <= i < COLS ==> 0 <= ORDER[i] < COLS
    ensures forall c :: 0 <= c < COLS ==> c in ORDER
    ensures forall i, j :: 0 <= i < j < COLS ==> ORDER[i] != ORDER[j]
    ensures forall i, j :: 0 <= i < j < COLS ==> Abs(3 - ORDER[i]) <= Abs(3 - ORDER[j])
  {
  }

  /**
    The first position from `i` on in `ORDER` whose column is open, or -1: the centre
    agent's choice when neither pass applies.
  */
  function FirstOpenInOrder(g: Grid, i: int): (k: int)
    requires IsGrid(g) && 0 <= i <= COLS
    ensures k == -1 || i <= k < COLS
    ensures k >= 0 ==> Open(g, ORDER[k])
    ensures forall j :: i <= j < COLS && (k < 0 || j < k) ==> !Open(g, ORDER[j])
    decreases COLS - i
  {
    if i == COLS then -1
    else if Open(g, ORDER[i]) then i
    else FirstOpenInOrder(g, i + 1)
  }

  /** The centre agent finds a column in its order exactly when some column is open. */
  lemma FirstOpenIffAnyOpen(g: Grid)
    requires IsGrid(g)
    ensures FirstOpenInOrder(g, 0) >= 0 <==> AnyOpen(g)
  {
    OrderCoversColumns();
    if AnyOpen(g) {
      var c :| 0 <= c < COLS && Open(g, c);
      assert c in ORDER;
      var i :| 0 <= i < |ORDER| && ORDER[i] == c;
    }
  }

  /** The letter `'A' + c` the agents print for column `c`; the arenas read it back as `c`. */
  function Letter(c: int): (ch: char)
    requires 0 <= c < COLS
    ensures IsColumnLetter(ch) && ColumnOf(ch) == c
  {
    ('A' as int + c) as char
  }
}

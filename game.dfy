/**
  Facts about a game of Connect Four as the arena (01-Arena/arena.c) and the match
  runner (02-Gamatach/gamatch.c) play it: the number of pieces on the board, and the
  state that holds between two rounds of their main loops.
*/
module Game {
  import opened Board

  /** The number of non-blank entries of `s`. */
  function NonBlank(s: seq<int>): (n: nat)
    ensures n <= |s|
    ensures n == |s| <==> forall i :: 0 <= i < |s| ==> s[i] != BLANK
    ensures n == 0 <==> forall i :: 0 <= i < |s| ==> s[i] == BLANK
  {
    if s == [] then 0
    else
      assert forall i :: 1 <= i < |s| ==> s[i] == s[1..][i - 1];
      (if s[0] != BLANK then 1 else 0) + NonBlank(s[1..])
  }

  lemma {:induction false} NonBlankUpdate(s: seq<int>, k: int, v: int)
    requires 0 <= k < |s| && s[k] == BLANK && v != BLANK
    ensures NonBlank(s[k := v]) == NonBlank(s) + 1
  {
    if k == 0 {
      assert s[k := v][1..] == s[1..];
    } else {
      assert s[k := v][1..] == s[1..][k - 1 := v];
      NonBlankUpdate(s[1..], k - 1, v);
    }
  }

  /** The number of pieces on the board. */
  function Pieces(g: Grid): nat
    requires IsGrid(g)
  {
    NonBlank(ColumnMajor(g))
  }

  /** Setting one cell of the board is setting one entry of its column-major layout. */
  lemma ColumnMajorPlace(g: Grid, c: int, r: int, v: int)
    requires IsGrid(g) && InBounds(c, r)
    ensures ColumnMajor(Place(g, c, r, v)) == ColumnMajor(g)[c * ROWS + r := v]
  {
    var h := Place(g, c, r, v);
    ColumnMajorAt(g);
    ColumnMajorAt(h);
    var before, after := ColumnMajor(g), ColumnMajor(h);
    var s := before[c * ROWS + r := v];
    forall i | 0 <= i < CELLS
      ensures after[i] == s[i]
    {
      LayoutIndex(i, c, r);
      var c', r' := i / ROWS, i % ROWS;
      assert after[c' * ROWS + r'] == h[c'][r'];
      assert before[c' * ROWS + r'] == g[c'][r'];
    }
    assert after == s;
  }

  /** Dropping a piece on a blank cell adds exactly one piece. */
  lemma PlaceAddsPiece(g: Grid, c: int, r: int, v: int)
    requires IsGrid(g) && InBounds(c, r) && g[c][r] == BLANK && v != BLANK
    ensures Pieces(Place(g, c, r, v)) == Pieces(g) + 1
  {
    ColumnMajorAt(g);
    ColumnMajorPlace(g, c, r, v);
    NonBlankUpdate(ColumnMajor(g), c * ROWS + r, v);
  }

  /** The board holds 42 pieces exactly when no cell is blank. */
  lemma FullIffNoBlank(g: Grid)
    requires IsGrid(g)
    ensures Pieces(g) == CELLS <==> forall c, r :: InBounds(c, r) ==> g[c][r] != BLANK
  {
    ColumnMajorAt(g);
    var s := ColumnMajor(g);
    if Pieces(g) == CELLS {
      forall c, r | InBounds(c, r) ensures g[c][r] != BLANK {
        assert s[c * ROWS + r] == g[c][r];
      }
    }
    if forall c, r :: InBounds(c, r) ==> g[c][r] != BLANK {
      forall i | 0 <= i < CELLS ensures s[i] != BLANK {
        var c, r := i / ROWS, i % ROWS;
        assert i == c * ROWS + r;
      }
    }
  }

  /** Every cell is blank. */
  predicate IsEmpty(g: Grid)
    requires IsGrid(g)
  {
    forall c, r :: 0 <= c < COLS && 0 <= r < ROWS ==> g[c][r] == BLANK
  }

  /** An empty board holds no pieces and no line of four. */
  lemma EmptyStart(g: Grid, p: int)
    requires IsGrid(g) && IsEmpty(g) && p != BLANK
    ensures Pieces(g) == 0
    ensures Stacked(g)
    ensures !HasFour(g, p)
  {
    ColumnMajorAt(g);
    forall i | 0 <= i < CELLS ensures ColumnMajor(g)[i] == BLANK {
      var c, r := i / ROWS, i % ROWS;
      assert i == c * ROWS + r;
    }
  }

  /** A piece of `p` never completes a line of four of another player `q`. */
  lemma PlaceKeepsOthersLines(g: Grid, c: int, r: int, p: int, q: int)
    requires IsGrid(g) && InBounds(c, r) && q != p
    ensures HasFour(Place(g, c, r, p), q) ==> HasFour(g, q)
  {
    var h := Place(g, c, r, p);
    if HasFour(h, q) {
      var x, y :| 0 <= x < COLS && 0 <= y < ROWS && LineAt(h, x, y, q);
      assert LineAt(g, x, y, q);
    }
  }

  /** Every cell is blank or holds a piece of one of the two players. */
  predicate PiecesOnly(g: Grid)
    requires IsGrid(g)
  {
    forall c, r :: 0 <= c < COLS && 0 <= r < ROWS ==> BLANK <= g[c][r] <= Y
  }

  /**
    The state between two rounds of the arena or the match runner once the first round
    has begun: `player` is the side to move (or the side that has just won), every cell
    is blank or holds a piece, the pieces are stacked and there are as many as turns
    played, nobody has four in a row while `winner` is 0, and a non-zero `winner` is
    the player whose four is on the board.
  */
  predicate Playing(g: Grid, player: int, opponent: int, turn: int, winner: int)
    requires IsGrid(g)
  {
    && IsPlayer(player) && opponent == Other(player)
    && PiecesOnly(g) && Stacked(g) && Pieces(g) == turn
    && (winner == 0 ==> !HasFour(g, X) && !HasFour(g, Y))
    && (winner != 0 ==> winner == player && HasFour(g, player))
  }

  /** The first round starts from an empty board. */
  lemma StartPlaying(g: Grid, first: int)
    requires IsGrid(g) && IsEmpty(g) && IsPlayer(first)
    ensures Playing(g, first, Other(first), 0, 0)
  {
    EmptyStart(g, X);
    EmptyStart(g, Y);
  }

  /**
    One round: `player` drops a piece into an open column; if that gives `player` four
    in a row the game is won and the player stays, otherwise the turn passes.
  */
  lemma {:induction false} RoundKeepsPlaying(g: Grid, player: int, turn: int, c: int)
    requires IsGrid(g) && IsPlayer(player) && Playing(g, player, Other(player), turn, 0)
    requires 0 <= c < COLS && g[c][0] == BLANK
    ensures LowestBlank(g, c) >= 0
    ensures var h := Place(g, c, LowestBlank(g, c), player);
      if HasFour(h, player) then Playing(h, player, Other(player), turn + 1, player)
      else Playing(h, Other(player), player, turn + 1, 0)
  {
    TopBlankHasRoom(g, c);
    var b := LowestBlank(g, c);
    var h := Place(g, c, b, player);
    DropKeepsStacked(g, c, player);
    PlaceAddsPiece(g, c, b, player);
    PlaceKeepsOthersLines(g, c, b, player, Other(player));
    assert Other(Other(player)) == player;
  }

  /** A game played to 42 turns without a winner ends on a full board. */
  lemma DrawIsFull(g: Grid, player: int)
    requires IsGrid(g) && IsPlayer(player) && Playing(g, player, Other(player), CELLS, 0)
    ensures forall c, r :: InBounds(c, r) ==> g[c][r] != BLANK
  {
    FullIffNoBlank(g);
  }
}

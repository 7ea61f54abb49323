/**
  The two Connect-Four agents: 01-Arena/agent1.c and 01-Arena/agents/agent_center.c.
  Each reads its id and the board, picks a column and drops its piece there.  Both
  keep the same global state (the board `map`, `player_id`, `opponent_id`), use the
  same `check_win` and make the same winning and blocking passes; they differ in how
  they read the board (agent1: binary ints, column by column; the centre agent:
  decimal text, row by row) and in their last resort (agent1: a score per column; the
  centre agent: a fixed column order).

  The streams are parameters: agent1's input as the ints `fread` would deliver, the
  centre agent's as text.  A variable a failed read leaves uninitialised is the
  parameter `stale`.  The random fallback is never reached with an open column (see
  the selection methods) and is not modelled.
*/
module Agents {
  import opened Wrappers
  import opened Board
  import opened Decimal
  import opened Tactics
  import Arena
  import Gamatch

  /**
    The board agent1's `config_map` leaves: cell (c, r) takes int 1 + 6c + r of the
    stream when the stream is that long, and keeps its old value otherwise.
  */
  function ReadColumns(g: Grid, input: seq<int>): (h: Grid)
    requires IsGrid(g)
    ensures IsGrid(h)
    ensures forall c, r :: InBounds(c, r) ==>
      h[c][r] == if 1 + c * ROWS + r < |input| then input[1 + c * ROWS + r] else g[c][r]
  {
    seq(COLS, c requires 0 <= c < COLS =>
      seq(ROWS, r requires 0 <= r < ROWS =>
        if 1 + c * ROWS + r < |input| then input[1 + c * ROWS + r] else g[c][r]))
  }

  /** agent1 decodes exactly the board the arena encodes, whatever the board held before. */
  lemma ReadColumnsMessage(g: Grid, player: int, h: Grid)
    requires IsGrid(g) && IsGrid(h)
    ensures ReadColumns(g, Arena.Message(player, h)) == h
  {
    GridExt(ReadColumns(g, Arena.Message(player, h)), h);
  }

  /** The number of `scanf("%d")` calls the centre agent's `config_map` makes: the id, then every cell. */
  const TEXT_READS: int := 1 + CELLS

  /**
    The board the centre agent's `config_map` leaves, given what each of its `scanf`
    calls converts: cell (c, r) takes conversion 1 + 7r + c when that conversion
    succeeds, and keeps its old value when it fails.
  */
  function ReadRows(g: Grid, xs: seq<Option<int>>): (h: Grid)
    requires IsGrid(g)
    ensures IsGrid(h)
    ensures forall c, r :: InBounds(c, r) ==>
      h[c][r] == if 1 + r * COLS + c < |xs| then Stored(xs[1 + r * COLS + c], g[c][r]) else g[c][r]
  {
    seq(COLS, c requires 0 <= c < COLS =>
      seq(ROWS, r requires 0 <= r < ROWS =>
        if 1 + r * COLS + c < |xs| then Stored(xs[1 + r * COLS + c], g[c][r]) else g[c][r]))
  }

  /** The cells row by row, each row from column A to G: the layout of generate_map.c. */
  function RowMajor(g: Grid): (s: seq<int>)
    requires IsGrid(g)
    ensures |s| == CELLS
  {
    seq(CELLS, i requires 0 <= i < CELLS => g[i % COLS][i / COLS])
  }

  lemma RowMajorAt(h: Grid)
    requires IsGrid(h)
    ensures forall c, r :: InBounds(c, r) ==> RowMajor(h)[r * COLS + c] == h[c][r]
  {
    forall c, r | InBounds(c, r) ensures RowMajor(h)[r * COLS + c] == h[c][r] {
      var i := r * COLS + c;
      assert i / COLS == r && i % COLS == c;
    }
  }

  /** The centre agent reads back a board written as decimal text row by row. */
  lemma ReadRowsText(g: Grid, player: int, h: Grid)
    requires IsGrid(g) && IsGrid(h)
    ensures ReadRows(g, ScanInts(IntsText([player] + RowMajor(h)) + "\n", TEXT_READS)) == h
  {
    var xs := [player] + RowMajor(h);
    ScanIntsText(xs);
    RowMajorAt(h);
    var k := ReadRows(g, Converted(xs));
    forall c, r | InBounds(c, r) ensures k[c][r] == h[c][r] {
      assert xs[1 + (r * COLS + c)] == RowMajor(h)[r * COLS + c];
    }
    GridExt(k, h);
  }

  /**
    Given the text the match runner sends (column by column), the centre agent puts in
    cell (c, r) the number the runner wrote for the cell at position 7r + c of its
    column-major layout: the board arrives transposed.
  */
  lemma ReadRowsMatchText(g: Grid, player: int, h: Grid)
    requires IsGrid(g) && IsGrid(h)
    ensures forall c, r :: InBounds(c, r) ==>
      ReadRows(g, ScanInts(Gamatch.Message(player, h), TEXT_READS))[c][r] == ColumnMajor(h)[r * COLS + c]
  {
    Gamatch.MessageReadsBack(player, h);
  }

  /**
    One piece of X at the bottom of column A, sent by the match runner, reaches the
    centre agent as a piece on top of column F, so column F looks full to it.
  */
  lemma ReadRowsMatchMisplaces(g: Grid, e: Grid)
    requires IsGrid(g) && IsGrid(e) && forall c, r :: InBounds(c, r) ==> e[c][r] == BLANK
    ensures var h := Place(e, 0, ROWS - 1, X);
      var seen := ReadRows(g, ScanInts(Gamatch.Message(Y, h), TEXT_READS));
      seen[5][0] == X && h[5][0] == BLANK
  {
    var h := Place(e, 0, ROWS - 1, X);
    ReadRowsMatchText(g, Y, h);
    ColumnMajorAt(h);
    assert ColumnMajor(h)[0 * ROWS + 5] == h[0][5];
  }

  /**
    When every conversion after the id fails, the board keeps what it held: so it is
    when the text ends after the id, or a character no `%d` can take stops them all
    (`Decimal.ScanStuck`).
  */
  lemma ReadRowsFailures(g: Grid, id: Option<int>, n: nat)
    requires IsGrid(g)
    ensures ReadRows(g, [id] + Failures(n)) == g
  {
    var xs := [id] + Failures(n);
    var h := ReadRows(g, xs);
    forall c, r | InBounds(c, r) ensures h[c][r] == g[c][r] {
      var k := 1 + r * COLS + c;
      if k < |xs| {
        assert xs[k] == Failures(n)[k - 1];
      }
    }
    GridExt(h, g);
  }

  /** The id the centre agent's `config_map` reads first: `stale` when that conversion fails. */
  function ReadId(xs: seq<Option<int>>, stale: int): int {
    if |xs| > 0 then Stored(xs[0], stale) else stale
  }

  /** The global state of an agent. */
  class Agent {
    /** `map`, allocated here rather than in `config_map`. */
    const board: array2<int>
    var playerId: int
    var opponentId: int
    /** The value of `board`. */
    ghost var cells: Grid

    ghost predicate Valid()
      reads this, board
    {
      IsBoard(board) && IsGrid(cells) && forall c, r :: InBounds(c, r) ==> board[c, r] == cells[c][r]
    }

    /** The cells hold whatever `malloc` left; the ids are the zero-initialised globals. */
    constructor ()
      ensures Valid() && fresh(board)
      ensures playerId == 0 && opponentId == 0
    {
      board := new int[COLS, ROWS];
      playerId, opponentId := 0, 0;
      new;
      cells := Snapshot(board);
    }

    /** The first step of both `config_map`s: only 1 and 2 are ids, and the opponent is the other. */
    method SetPlayer(player: int) returns (ok: bool)
      modifies `playerId, `opponentId
      ensures ok <==> IsPlayer(player)
      ensures ok ==> playerId == player && opponentId == Other(player)
      ensures !ok ==> playerId == old(playerId) && opponentId == old(opponentId)
    {
      if player == X {
        playerId, opponentId := X, Y;
      } else if player == Y {
        playerId, opponentId := Y, X;
      } else {
        return false;
      }
      return true;
    }

    /**
      agent1's `config_map`: the id, then one `fread` of six ints per column; a column
      read short ends it with a failure, keeping the ints it did read.
    */
    method ConfigBinary(input: seq<int>, stale: int) returns (ok: bool)
      requires Valid()
      modifies `playerId, `opponentId, board, `cells
      ensures Valid()
      ensures var player := if |input| > 0 then input[0] else stale;
        && (ok <==> IsPlayer(player) && |input| >= 1 + CELLS)
        && (IsPlayer(player) ==>
              playerId == player && opponentId == Other(player) && cells == ReadColumns(old(cells), input))
        && (!IsPlayer(player) ==>
              cells == old(cells) && playerId == old(playerId) && opponentId == old(opponentId))
    {
      var player := if |input| > 0 then input[0] else stale;
      ok := SetPlayer(player);
      if !ok {
        return;
      }
      ghost var start := cells;
      var pos := 1;
      var c := 0;
      while c < COLS
        invariant 0 <= c <= COLS && pos == 1 + c * ROWS && (c > 0 ==> pos <= |input|)
        invariant Valid() && playerId == player && opponentId == Other(player)
        invariant forall c', r' :: InBounds(c', r') ==>
          cells[c'][r'] == if 1 + c' * ROWS + r' < pos then input[1 + c' * ROWS + r'] else start[c'][r']
      {
        // fread(map[c], sizeof(int), ROWS, stdin): as many ints as are left, at most six
        var r := 0;
        while r < ROWS && pos < |input|
          invariant 0 <= r <= ROWS && pos == 1 + c * ROWS + r && (c > 0 || r > 0 ==> pos <= |input|)
          invariant Valid() && playerId == player && opponentId == Other(player)
          invariant forall c', r' :: InBounds(c', r') ==>
            cells[c'][r'] == if 1 + c' * ROWS + r' < pos then input[1 + c' * ROWS + r'] else start[c'][r']
        {
          board[c, r] := input[pos];
          cells := Place(cells, c, r, input[pos]);
          r := r + 1;
          pos := pos + 1;
        }
        if r != ROWS {
          GridExt(cells, ReadColumns(start, input));
          return false;
        }
        c := c + 1;
      }
      GridExt(cells, ReadColumns(start, input));
    }

    /**
      The centre agent's `config_map`: `scanf("%d")` for the id, then for each row, for
      each column, one `scanf("%d")` into the cell.  The calls are not checked: a cell
      past the last number converted keeps its value, and only the id can fail.
    */
    method ConfigText(text: string, stale: int) returns (ok: bool)
      requires Valid()
      modifies `playerId, `opponentId, board, `cells
      ensures Valid()
      ensures ok <==> IsPlayer(ReadId(ScanInts(text, TEXT_READS), stale))
      ensures ok ==> playerId == ReadId(ScanInts(text, TEXT_READS), stale) && opponentId == Other(playerId)
      ensures ok ==> cells == ReadRows(old(cells), ScanInts(text, TEXT_READS))
      ensures !ok ==> cells == old(cells) && playerId == old(playerId) && opponentId == old(opponentId)
    {
      ok := ConfigInts(ScanInts(text, TEXT_READS), stale);
    }

    /** `config_map` on what each of its `scanf` calls converts, in order. */
    method ConfigInts(xs: seq<Option<int>>, stale: int) returns (ok: bool)
      requires Valid()
      modifies `playerId, `opponentId, board, `cells
      ensures Valid()
      ensures ok <==> IsPlayer(ReadId(xs, stale))
      ensures ok ==> playerId == ReadId(xs, stale) && opponentId == Other(playerId)
      ensures ok ==> cells == ReadRows(old(cells), xs)
      ensures !ok ==> cells == old(cells) && playerId == old(playerId) && opponentId == old(opponentId)
    {
      ok := SetPlayer(ReadId(xs, stale));
      if !ok {
        return;
      }
      ReadCells(xs);
    }

    /** The row loop of the centre agent's `config_map`, after the id. */
    method ReadCells(xs: seq<Option<int>>)
      requires Valid()
      modifies board, `cells
      ensures Valid() && cells == ReadRows(old(cells), xs)
    {
      var r := 0;
      while r < ROWS
        invariant 0 <= r <= ROWS && Valid()
        invariant forall c', r' :: InBounds(c', r') ==>
          cells[c'][r'] == if r' < r && 1 + r' * COLS + c' < |xs| then Stored(xs[1 + r' * COLS + c'], old(cells)[c'][r']) else old(cells)[c'][r']
      {
        ReadRow(xs, r);
        r := r + 1;
      }
      GridExt(cells, ReadRows(old(cells), xs));
    }

    /** One pass of the row loop of the centre agent's `config_map`: cell (c, r) takes conversion `1 + r * COLS + c` when it succeeds. */
    method ReadRow(xs: seq<Option<int>>, r: int)
      requires Valid() && 0 <= r < ROWS
      modifies board, `cells
      ensures Valid()
      ensures forall c', r' :: InBounds(c', r') ==>
        cells[c'][r'] == if r' == r && 1 + r * COLS + c' < |xs| then Stored(xs[1 + r * COLS + c'], old(cells)[c'][r']) else old(cells)[c'][r']
    {
      var c := 0;
      while c < COLS
        invariant 0 <= c <= COLS && Valid()
        invariant forall c', r' :: InBounds(c', r') ==>
          cells[c'][r'] == if r' == r && c' < c && 1 + r * COLS + c' < |xs| then Stored(xs[1 + r * COLS + c'], old(cells)[c'][r']) else old(cells)[c'][r']
      {
        var k := 1 + r * COLS + c;
        if k < |xs| && xs[k].Some? {
          board[c, r] := xs[k].value;
          cells := Place(cells, c, r, xs[k].value);
        }
        c := c + 1;
      }
    }

    /**
      The drop into column `c`: scanning up from the bottom row, the piece lands on the
      first blank cell met, the blank cell with the largest row index.
    */
    method Drop(c: int, p: int) returns (r: int)
      requires Valid() && 0 <= c < COLS
      modifies board, `cells
      ensures Valid()
      ensures r == LowestBlank(old(cells), c)
      ensures r >= 0 ==> cells == Place(old(cells), c, r, p)
      ensures r < 0 ==> cells == old(cells)
    {
      r := ROWS - 1;
      while r >= 0
        invariant -1 <= r < ROWS && Valid() && cells == old(cells)
        invariant forall r' :: r < r' < ROWS ==> cells[c][r'] != BLANK
      {
        if board[c, r] == BLANK {
          board[c, r] := p;
          cells := Place(cells, c, r, p);
          return;
        }
        r := r - 1;
      }
    }

    /**
      One column of a winning or blocking pass: drop a piece of `p`, ask `check_win`,
      and take the piece back unless it wins.
    */
    method TryDrop(c: int, p: int) returns (r: int, won: bool)
      requires Valid() && 0 <= c < COLS
      modifies board, `cells
      ensures Valid()
      ensures r == LowestBlank(old(cells), c)
      ensures won <==> WinningDrop(old(cells), c, p)
      ensures won ==> cells == Place(old(cells), c, r, p)
      ensures !won ==> cells == old(cells)
    {
      r := Drop(c, p);
      if r < 0 {
        return r, false;
      }
      won := CheckWin(board, c, r, p);
      GridExt(Snapshot(board), cells);
      if !won {
        board[c, r] := BLANK;
        cells := Place(cells, c, r, BLANK);
        PlaceRestore(old(cells), c, r, p);
      }
    }

    /**
      A pass over the columns from left to right, stopping at the first column into
      which a piece of `p` wins; that piece stays on the board.
    */
    method Pass(p: int) returns (sel: int, row: int)
      requires Valid()
      modifies board, `cells
      ensures Valid()
      ensures sel == FirstWinningDrop(old(cells), p, 0)
      ensures sel >= 0 ==> row == LowestBlank(old(cells), sel) && cells == Place(old(cells), sel, row, p)
      ensures sel < 0 ==> cells == old(cells)
    {
      var c := 0;
      while c < COLS
        invariant 0 <= c <= COLS && Valid() && cells == old(cells)
        invariant FirstWinningDrop(cells, p, 0) == FirstWinningDrop(cells, p, c)
      {
        var r, won := TryDrop(c, p);
        if won {
          return c, r;
        }
        c := c + 1;
      }
      return -1, -1;
    }

    /**
      The first two passes of both agents' `select_column`: the leftmost column where
      the agent's piece wins; failing that, the leftmost column where the opponent's
      piece would win, which the agent fills with its own piece.
    */
    method WinOrBlock() returns (sel: int)
      requires Valid()
      modifies board, `cells
      ensures Valid()
      ensures var w := FirstWinningDrop(old(cells), playerId, 0);
        sel == if w >= 0 then w else FirstWinningDrop(old(cells), opponentId, 0)
      ensures sel >= 0 ==> LowestBlank(old(cells), sel) >= 0
      ensures sel >= 0 ==> cells == Place(old(cells), sel, LowestBlank(old(cells), sel), playerId)
      ensures sel < 0 ==> cells == old(cells)
    {
      ghost var g := cells;
      var row;
      sel, row := Pass(playerId);
      if sel >= 0 {
        return;
      }
      sel, row := Pass(opponentId);
      if sel >= 0 {
        ghost var tried := cells;
        board[sel, row] := playerId;
        cells := Place(tried, sel, row, playerId);
        PlaceTwice(g, sel, row, opponentId, playerId);
      }
    }

    /** The upward scan over column `c` for its first blank cell: where a piece would land. */
    method LandingRow(c: int) returns (r: int)
      requires Valid() && 0 <= c < COLS
      ensures r == LowestBlank(cells, c)
    {
      r := ROWS - 1;
      while r >= 0 && board[c, r] != BLANK
        invariant -1 <= r < ROWS
        invariant forall r' :: r < r' < ROWS ==> cells[c][r'] != BLANK
      {
        r := r - 1;
      }
    }

    /** The loop over `i = -1, 1`: one plus the number of cells beside (c, r) holding `p`. */
    method CountBeside(c: int, r: int, p: int) returns (count: int)
      requires Valid() && InBounds(c, r)
      ensures count == 1 + Beside(cells, c, r, p)
    {
      count := 1;
      var i := -1;
      while i <= 1
        invariant i == -1 || i == 1 || i == 3
        invariant count == 1 + (if i > -1 && c > 0 && cells[c - 1][r] == p then 1 else 0)
          + (if i > 1 && c + 1 < COLS && cells[c + 1][r] == p then 1 else 0)
      {
        var j := c + i;
        if 0 <= j < COLS && board[j, r] == p {
          count := count + 1;
        }
        i := i + 2;
      }
    }

    /**
      agent1's score of an open column: the piece goes on the landing cell for the
      count and comes off again.
    */
    method ScoreColumn(c: int) returns (score: int)
      requires Valid() && 0 <= c < COLS && Open(cells, c)
      modifies board, `cells
      ensures Valid() && cells == old(cells)
      ensures score == Score(old(cells), c, playerId)
    {
      ghost var g := cells;
      var r := LandingRow(c);
      // The top cell is blank, so the scan stops on a row.
      TopBlankHasRoom(g, c);
      board[c, r] := playerId;
      cells := Place(g, c, r, playerId);

      var count := CountBeside(c, r, playerId);
      assert Beside(cells, c, r, playerId) == Beside(g, c, r, playerId);
      score := 0;
      if count == 2 {
        score := score + 2;
      }
      if r + 1 < ROWS && board[c, r + 1] == playerId {
        score := score + 2;
      }
      score := score + (3 - Abs(3 - c));

      board[c, r] := BLANK;
      cells := Place(cells, c, r, BLANK);
      PlaceRestore(g, c, r, playerId);
    }

    /**
      agent1's heuristic: the open column with the strictly greatest score, scanning
      from the left, or -1 when no top cell is blank.
    */
    method Heuristic() returns (best: int)
      requires Valid()
      modifies board, `cells
      ensures Valid() && cells == old(cells)
      ensures best == -1 <==> !AnyOpen(old(cells))
      ensures best != -1 ==> IsBestColumn(old(cells), playerId, best)
    {
      ghost var g := cells;
      var bestScore := -1;
      best := -1;
      var c := 0;
      while c < COLS
        invariant 0 <= c <= COLS && Valid() && cells == g
        invariant best == -1 ==> bestScore == -1 && forall c' :: 0 <= c' < c ==> !Open(g, c')
        invariant best != -1 ==> BestBefore(g, playerId, c, best) && bestScore == Score(g, best, playerId)
      {
        if board[c, 0] == BLANK {
          assert Open(g, c);
          var score := ScoreColumn(c);
          if score > bestScore {
            BestBeforeTake(g, playerId, c, best);
            bestScore := score;
            best := c;
          } else {
            BestBeforeKeep(g, playerId, c, best);
          }
        } else if best != -1 {
          BestBeforeKeep(g, playerId, c, best);
        }
        c := c + 1;
      }
    }

    /**
      agent1's `select_column`: win, else block, else the best-scoring column.  The
      random fallback after the heuristic is only reached when no top cell is blank,
      and then it has nothing to choose from and fails ("Selection").
    */
    method SelectByScore() returns (ok: bool, selected: int)
      requires Valid()
      modifies board, `cells
      ensures Valid()
      ensures var g := old(cells);
        var w := FirstWinningDrop(g, playerId, 0);
        var b := FirstWinningDrop(g, opponentId, 0);
        && (w >= 0 ==> ok && selected == w)
        && (w < 0 && b >= 0 ==> ok && selected == b)
        && (w < 0 && b < 0 ==> (ok <==> AnyOpen(g)) && (ok ==> IsBestColumn(g, playerId, selected)))
      ensures ok ==> 0 <= selected < COLS && LowestBlank(old(cells), selected) >= 0
      ensures ok ==> cells == Place(old(cells), selected, LowestBlank(old(cells), selected), playerId)
      ensures !ok ==> cells == old(cells)
      ensures Stacked(old(cells)) ==> (ok <==> AnyOpen(old(cells)))
      ensures Stacked(old(cells)) && ok ==> Open(old(cells), selected)
    {
      ghost var g := cells;
      selected := WinOrBlock();
      if selected >= 0 {
        PassOpen(g, selected);
        return true, selected;
      }
      var best := Heuristic();
      if best != -1 {
        TopBlankHasRoom(g, best);
        var r := Drop(best, playerId);
        return true, best;
      }
      return false, -1;
    }

    /**
      The centre agent's `select_column`: win, else block, else the first open column in
      the order 3, 2, 4, 1, 5, 0, 6.  As in agent1 the random fallback is only reached
      when no top cell is blank, and then it fails ("Selection").
    */
    method SelectByPriority() returns (ok: bool, selected: int)
      requires Valid()
      modifies board, `cells
      ensures Valid()
      ensures var g := old(cells);
        var w := FirstWinningDrop(g, playerId, 0);
        var b := FirstWinningDrop(g, opponentId, 0);
        var k := FirstOpenInOrder(g, 0);
        && (w >= 0 ==> ok && selected == w)
        && (w < 0 && b >= 0 ==> ok && selected == b)
        && (w < 0 && b < 0 ==> (ok <==> AnyOpen(g)) && (ok ==> k >= 0 && selected == ORDER[k]))
      ensures ok ==> 0 <= selected < COLS && LowestBlank(old(cells), selected) >= 0
      ensures ok ==> cells == Place(old(cells), selected, LowestBlank(old(cells), selected), playerId)
      ensures !ok ==> cells == old(cells)
      ensures Stacked(old(cells)) ==> (ok <==> AnyOpen(old(cells)))
      ensures Stacked(old(cells)) && ok ==> Open(old(cells), selected)
    {
      ghost var g := cells;
      FirstOpenIffAnyOpen(g);
      selected := WinOrBlock();
      if selected >= 0 {
        PassOpen(g, selected);
        return true, selected;
      }
      selected := PriorityDrop();
      return selected >= 0, selected;
    }

    /**
      The centre agent's last resort: the first column in the order 3, 2, 4, 1, 5, 0, 6
      whose top cell is blank gets the piece; -1 when there is none.
    */
    method PriorityDrop() returns (selected: int)
      requires Valid()
      modifies board, `cells
      ensures Valid()
      ensures var k := FirstOpenInOrder(old(cells), 0);
        selected == if k >= 0 then ORDER[k] else -1
      ensures selected >= 0 ==> 0 <= selected < COLS && LowestBlank(old(cells), selected) >= 0
      ensures selected >= 0 ==> cells == Place(old(cells), selected, LowestBlank(old(cells), selected), playerId)
      ensures selected < 0 ==> cells == old(cells)
    {
      var i := 0;
      while i < COLS
        invariant 0 <= i <= COLS && Valid() && cells == old(cells)
        invariant FirstOpenInOrder(cells, 0) == FirstOpenInOrder(cells, i)
      {
        var c := ORDER[i];
        if board[c, 0] == BLANK {
          TopBlankHasRoom(cells, c);
          var r := Drop(c, playerId);
          return c;
        }
        i := i + 1;
      }
      return -1;
    }

    /** A column one of the passes chose is open on a stacked board, so some column is. */
    static lemma PassOpen(g: Grid, c: int)
      requires IsGrid(g) && 0 <= c < COLS && LowestBlank(g, c) >= 0
      ensures Stacked(g) ==> Open(g, c) && AnyOpen(g)
    {
      if Stacked(g) {
        StackedRoom(g, c);
      }
    }
  }
}

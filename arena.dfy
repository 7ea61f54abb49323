/**
  The referee of 01-Arena/arena.c: it keeps the board, sends it to the agent whose
  turn it is, reads back a column letter, drops the piece, looks for four in a row and
  passes the turn, for at most 42 turns or until somebody wins.

  The pipes, `fork`/`exec` of the agents and `wait` are not modelled; what crosses a
  pipe is a parameter: the number of ints each `write` call accepts, and the bytes the
  agent replies with.  The random choice of the first player is the parameter `first`.
*/
module Arena {
  import opened Wrappers
  import opened Board
  import opened Game

  /**
    The message `write_bytes` sends: the player id followed by the board column by
    column, each column from the top row down, as native ints.
  */
  function Message(player: int, g: Grid): (m: seq<int>)
    requires IsGrid(g)
    ensures |m| == 1 + CELLS && m[0] == player
    ensures forall c, r :: InBounds(c, r) ==> m[1 + c * ROWS + r] == g[c][r]
  {
    ColumnMajorAt(g);
    [player] + ColumnMajor(g)
  }

  /**
    Whether a run of `write` calls that accept `accepts[0]`, `accepts[1]`, ... ints
    gets `need` more ints across before one of them returns 0 or an error (a call past
    the end of `accepts` accepts nothing).
  */
  predicate Delivers(accepts: seq<int>, need: int)
    decreases |accepts|
  {
    need <= 0 || (|accepts| > 0 && accepts[0] > 0 && Delivers(accepts[1..], need - accepts[0]))
  }

  /** A pipe that accepts something on every call, often enough, takes the whole message. */
  lemma {:induction false} ProgressDelivers(accepts: seq<int>, need: int)
    requires forall k :: 0 <= k < |accepts| ==> accepts[k] > 0
    requires need <= |accepts|
    ensures Delivers(accepts, need)
    decreases |accepts|
  {
    if need > 0 {
      ProgressDelivers(accepts[1..], need - accepts[0]);
    }
  }

  /**
    `read_bytes`: the first byte the agent sends must be a column letter, A to G or
    a to g; an empty reply (end of file or a failed `read`) is an error too.
  */
  function ReadReply(reply: seq<char>): (r: Result<char>)
    ensures r.Ok? <==> |reply| > 0 && ColumnOf(reply[0]) >= 0
    ensures r.Ok? ==> r.value == reply[0]
    ensures |reply| == 0 ==> r == Err("Reading from the agent")
    ensures |reply| > 0 && ColumnOf(reply[0]) < 0 ==> r == Err("Invalid column received")
  {
    if |reply| == 0 then Err("Reading from the agent")
    else if ('A' <= reply[0] <= 'G') || ('a' <= reply[0] <= 'g') then Ok(reply[0])
    else Err("Invalid column received")
  }

  /** What one pass of the main loop reads from the outside world. */
  datatype Round = Round(accepts: seq<int>, reply: seq<char>)

  /** `config_t` of arena.c (its `map` is `board` here), together with the global `winner`. */
  class Config {
    const board: array2<int>
    var playerId: int
    var opponentId: int
    var turn: int
    /** 0 until `judge` sees four in a row, then the id of the player who made it. */
    var winner: int
    /** The value of `board`. */
    ghost var cells: Grid

    ghost predicate Valid()
      reads this, board
    {
      IsBoard(board) && IsGrid(cells) && forall c, r :: InBounds(c, r) ==> board[c, r] == cells[c][r]
    }

    /**
      The state between two rounds once the first round has begun: see `Playing`.
    */
    ghost predicate InPlay()
      reads this, board
    {
      Valid() && turn >= 0 && Playing(cells, playerId, opponentId, turn, winner)
    }

    /** `allocate_map` on the zero-initialised global: the cells hold whatever `malloc` left. */
    constructor ()
      ensures Valid() && fresh(board)
      ensures playerId == 0 && opponentId == 0 && turn == 0 && winner == 0
    {
      board := new int[COLS, ROWS];
      playerId, opponentId, turn, winner := 0, 0, 0, 0;
      new;
      cells := Snapshot(board);
    }

    /**
      `write_bytes`: lay out the message in a buffer, then `write` until all of it is
      across; `sent` is what the agent has received when the loop stops.
    */
    method WriteBytes(accepts: seq<int>) returns (total: int, sent: seq<int>)
      requires Valid()
      ensures var m := Message(playerId, cells);
        && (total >= 0 <==> Delivers(accepts, |m|))
        && (total >= 0 ==> total == |m| && sent == m)
        && (total < 0 ==> total == -1 && |sent| < |m| && sent == m[..|sent|])
    {
      var buf := MessageBuffer();
      var towrite := |buf|;
      total := 0;
      var k := 0;
      while total < towrite
        invariant 0 <= total <= towrite && 0 <= k <= |accepts|
        invariant Delivers(accepts, towrite) <==> Delivers(accepts[k..], towrite - total)
      {
        var chk := if k < |accepts| then accepts[k] else 0;
        if chk <= 0 {
          return -1, buf[..total];
        }
        assert accepts[k..][1..] == accepts[k + 1..];
        // `write` never takes more than it is offered.
        if chk > towrite - total {
          chk := towrite - total;
        }
        total := total + chk;
        k := k + 1;
      }
      sent := buf[..total];
    }

    /** The first half of `write_bytes`: the id, then the board column by column. */
    method MessageBuffer() returns (buf: seq<int>)
      requires Valid()
      ensures buf == Message(playerId, cells)
    {
      ColumnMajorAt(cells);
      buf := [playerId];
      var c := 0;
      while c < COLS
        invariant 0 <= c <= COLS
        invariant buf == [playerId] + ColumnMajor(cells)[..c * ROWS]
      {
        var r := 0;
        while r < ROWS
          invariant 0 <= r <= ROWS
          invariant buf == [playerId] + ColumnMajor(cells)[..c * ROWS + r]
        {
          assert ColumnMajor(cells)[..c * ROWS + r + 1] == ColumnMajor(cells)[..c * ROWS + r] + [board[c, r]];
          buf := buf + [board[c, r]];
          r := r + 1;
        }
        c := c + 1;
      }
    }

    /** `init_config`: clear the board, then give the opponent the other id. */
    method InitConfig() returns (ok: bool)
      requires Valid()
      modifies board, `opponentId, `cells
      ensures Valid() && cells == EmptyGrid()
      ensures ok <==> IsPlayer(playerId)
      ensures ok ==> opponentId == Other(playerId) && Playing(cells, playerId, opponentId, 0, 0)
      ensures !ok ==> opponentId == old(opponentId)
    {
      var c := 0;
      while c < COLS
        invariant 0 <= c <= COLS
        invariant forall c', r :: 0 <= c' < c && 0 <= r < ROWS ==> board[c', r] == BLANK
        invariant opponentId == old(opponentId)
      {
        var r := 0;
        while r < ROWS
          invariant 0 <= r <= ROWS
          invariant forall c', r' :: 0 <= c' < c && 0 <= r' < ROWS ==> board[c', r'] == BLANK
          invariant forall r' :: 0 <= r' < r ==> board[c, r'] == BLANK
          invariant opponentId == old(opponentId)
        {
          board[c, r] := BLANK;
          r := r + 1;
        }
        c := c + 1;
      }
      cells := EmptyGrid();
      if playerId == X {
        opponentId := Y;
      } else if playerId == Y {
        opponentId := X;
      } else {
        return false;
      }
      StartPlaying(cells, playerId);
      return true;
    }

    /**
      `update_map`: the letter names a column; if its top cell is taken the move is
      refused, otherwise the piece of the player to move lands on the lowest blank
      cell and the turn counter goes up.
    */
    method UpdateMap(selected: char) returns (ok: bool)
      requires Valid()
      modifies board, `turn, `cells
      ensures Valid()
      ensures var c := ColumnOf(selected);
        && (ok <==> c >= 0 && old(cells)[c][0] == BLANK)
        && (ok ==> LowestBlank(old(cells), c) >= 0 && cells == Place(old(cells), c, LowestBlank(old(cells), c), playerId))
      ensures ok ==> turn == old(turn) + 1
      ensures !ok ==> cells == old(cells) && turn == old(turn)
    {
      var selectedNum: int;
      if 'a' <= selected <= 'g' {
        selectedNum := selected as int - 'a' as int;
      } else if 'A' <= selected <= 'G' {
        selectedNum := selected as int - 'A' as int;
      } else {
        return false;
      }
      var r := ROWS - 1;
      while r >= 0
        invariant -1 <= r < ROWS
        invariant Valid() && cells == old(cells) && turn == old(turn)
        invariant r < ROWS - 1 ==> cells[selectedNum][0] == BLANK
        invariant forall r' :: r < r' < ROWS ==> cells[selectedNum][r'] != BLANK
      {
        if board[selectedNum, 0] != BLANK {
          return false;
        }
        if board[selectedNum, r] == BLANK {
          board[selectedNum, r] := playerId;
          cells := Place(cells, selectedNum, r, playerId);
          break;
        }
        r := r - 1;
      }
      turn := turn + 1;
      return true;
    }

    /** `update_player`: the players swap roles. */
    method UpdatePlayer() returns (ok: bool)
      modifies `playerId, `opponentId
      ensures ok <==> IsPlayer(old(playerId))
      ensures ok ==> playerId == Other(old(playerId)) && opponentId == old(playerId)
      ensures !ok ==> playerId == old(playerId) && opponentId == old(opponentId)
    {
      if playerId == X {
        playerId, opponentId := Y, X;
      } else if playerId == Y {
        playerId, opponentId := X, Y;
      } else {
        return false;
      }
      return true;
    }

    /** `judge`: the player to move has won iff the board holds four in a row of theirs. */
    method Judge() returns (won: bool)
      requires Valid()
      modifies `winner
      ensures won <==> HasFour(cells, playerId)
      ensures won ==> winner == playerId
      ensures !won ==> winner == old(winner)
    {
      won := FindWin(board, playerId);
      GridExt(Snapshot(board), cells);
      WinningCellIffHasFour(cells, playerId);
      if won {
        winner := playerId;
      }
    }

    /**
      The second half of `run_parent`: `update_map` with the column read, then `judge`,
      then, unless the mover has won, `update_player`.
    */
    method Move(selected: char) returns (ok: bool)
      requires InPlay() && winner == 0
      modifies board, `turn, `winner, `playerId, `opponentId, `cells
      ensures var c := ColumnOf(selected);
        && (ok <==> c >= 0 && old(cells)[c][0] == BLANK)
        && (ok ==> LowestBlank(old(cells), c) >= 0 && cells == Place(old(cells), c, LowestBlank(old(cells), c), old(playerId)))
      ensures ok ==> turn == old(turn) + 1 && InPlay()
      ensures ok ==> (winner != 0 <==> HasFour(cells, old(playerId)))
    {
      ghost var before, mover, c := cells, playerId, ColumnOf(selected);
      var okMap := UpdateMap(selected);
      if !okMap {
        return false;
      }
      RoundKeepsPlaying(before, mover, turn - 1, c);
      ghost var after := cells;
      assert after == Place(before, c, LowestBlank(before, c), mover);
      var won := Judge();
      if won {
        return true;
      }
      ok := UpdatePlayer();
    }

    /**
      `run_parent`, one round: on the first turn the first player is chosen and the
      board cleared; then the board is sent, a column read and the move played.
    */
    method RunParent(first: int, accepts: seq<int>, reply: seq<char>) returns (ok: bool)
      requires Valid() && winner == 0 && turn >= 0
      requires turn > 0 ==> InPlay()
      modifies this, board
      ensures ok ==> turn == old(turn) + 1 && InPlay()
      ensures var mover := if old(turn) == 0 then first else old(playerId);
        var before := if old(turn) == 0 then EmptyGrid() else old(cells);
        && (ok <==> IsPlayer(mover) && Delivers(accepts, 1 + CELLS) && ReadReply(reply).Ok?
                    && before[ColumnOf(reply[0])][0] == BLANK)
        && (ok ==> var c := ColumnOf(reply[0]);
                   LowestBlank(before, c) >= 0 && cells == Place(before, c, LowestBlank(before, c), mover))
    {
      if turn == 0 {
        playerId := first;
        var okInit := InitConfig();
        if !okInit {
          return false;
        }
      }
      ok := Serve(accepts, reply);
    }

    /** `run_parent` once the board is ready: send it, read the reply and play the move. */
    method Serve(accepts: seq<int>, reply: seq<char>) returns (ok: bool)
      requires InPlay() && winner == 0
      modifies board, `turn, `winner, `playerId, `opponentId, `cells
      ensures ok <==> Delivers(accepts, 1 + CELLS) && ReadReply(reply).Ok? && old(cells)[ColumnOf(reply[0])][0] == BLANK
      ensures ok ==> var c := ColumnOf(reply[0]);
        && LowestBlank(old(cells), c) >= 0 && cells == Place(old(cells), c, LowestBlank(old(cells), c), old(playerId))
        && turn == old(turn) + 1 && InPlay()
    {
      var total, sent := WriteBytes(accepts);
      if total < 0 {
        return false;
      }
      var read := ReadReply(reply);
      if read.Err? {
        return false;
      }
      // `wait` collects the agent; its exit status is not examined.
      ok := Move(read.value);
    }

    /**
      The main loop: rounds run while fewer than 42 turns have been played and nobody
      has won.  A round that fails ends the program with an error (`ok` false).  When
      the loop ends normally, either `winner` holds four in a row on the board or all
      42 cells are filled and nobody has four in a row.
    */
    method Play(first: int, rounds: seq<Round>) returns (ok: bool)
      requires Valid() && turn == 0 && winner == 0
      modifies this, board
      ensures ok ==> IsPlayer(first) && InPlay()
      ensures ok ==> winner != 0 || turn == CELLS
      ensures ok && winner != 0 ==> HasFour(cells, winner)
      ensures ok && winner == 0 ==> forall c, r :: InBounds(c, r) ==> board[c, r] != BLANK
    {
      var i := 0;
      while turn < CELLS && winner == 0
        invariant Valid() && 0 <= turn <= CELLS && i == turn
        invariant turn == 0 ==> winner == 0
        invariant turn > 0 ==> IsPlayer(first) && InPlay()
        decreases CELLS - turn
      {
        var round := if i < |rounds| then rounds[i] else Round([], []);
        ok := RunParent(first, round.accepts, round.reply);
        if !ok {
          return false;
        }
        i := i + 1;
      }
      if winner == 0 {
        DrawIsFull(cells, playerId);
      }
      return true;
    }
  }
}

/**
  The match runner of 02-Gamatach/gamatch.c: the same game as the arena, with four
  differences.  The board goes to the agent as text (`%d ` per number); an agent that
  picks a full column loses the game; an agent that does not answer within the time
  limit loses the game; and an agent that dies of a signal or exits with a non-zero
  code ends the match with an error.

  The pipes, `fork`/`exec`, the alarm and `wait` are not modelled; for each round the
  number of bytes each `write` call accepts, the agent's reply (or its silence until
  the alarm) and its exit status are parameters.  The random choice of the first
  player is the parameter `first`.
*/
module Gamatch {
  import opened Wrappers
  import opened Board
  import opened Game
  import opened Decimal
  import Arena

  /** The size of the message buffer of `write_bytes`. */
  const BUFSIZE: int := 512

  /**
    The text `write_bytes` sends: the player id and then the board column by column,
    each number followed by a space, and a final newline.
  */
  function Message(player: int, g: Grid): string
    requires IsGrid(g)
  {
    IntsText([player] + ColumnMajor(g)) + "\n"
  }

  /** One `scanf("%d")` per number of the message converts the id and the cells in that order. */
  lemma MessageReadsBack(player: int, g: Grid)
    requires IsGrid(g)
    ensures ScanInts(Message(player, g), 1 + CELLS) == Converted([player] + ColumnMajor(g))
  {
    ScanIntsText([player] + ColumnMajor(g));
  }

  /**
    In a game in progress the message is 87 characters, so it always fits the 512-byte
    buffer and `snprintf` never truncates it.
  */
  lemma MessageFits(g: Grid, player: int, opponent: int, round: int, winner: int)
    requires IsGrid(g) && Playing(g, player, opponent, round, winner)
    ensures |Message(player, g)| == MessageLength < BUFSIZE
  {
    var xs := [player] + ColumnMajor(g);
    forall i | 0 <= i < |xs| ensures 0 <= xs[i] < 10 {
      if i > 0 {
        var c, r := (i - 1) / ROWS, (i - 1) % ROWS;
        LayoutIndex(i - 1, c, r);
      }
    }
    IntsTextLength(xs);
  }

  /** The length of every message sent during a game. */
  const MessageLength: int := 2 * (1 + CELLS) + 1

  /** What the agent does after it has been sent the board. */
  datatype Reply =
    | Answer(bytes: seq<char>)  // it writes these bytes (possibly none) and closes the pipe
    | Silent                    // it sends nothing before the alarm goes off

  /** How the agent's process ended, as `wait` reports it. */
  datatype Status = Exited(code: int) | Signaled(signal: int)

  /** What one pass of the main loop meets in the outside world. */
  datatype Exchange = Exchange(accepts: seq<int>, reply: Reply, status: Status)

  /** How a call of `run_parent` ends. */
  datatype Outcome =
    | Next      // the round was played
    | TimedOut  // `handle_alarm` declared the opponent winner and ended the program
    | Failed    // an error: the program prints the winner and exits with a failure

  /** The checks of `run_parent` on the status `wait` reports. */
  predicate ExitedCleanly(status: Status) {
    status.Exited? && status.code == 0
  }

  /** The agent wrote a column letter and its process exited with status 0. */
  predicate Answered(exchange: Exchange) {
    && exchange.reply.Answer?
    && Arena.ReadReply(exchange.reply.bytes).Ok?
    && ExitedCleanly(exchange.status)
  }

  /** The letter an agent that answered chose. */
  function Choice(exchange: Exchange): (ch: char)
    requires Answered(exchange)
    ensures 0 <= ColumnOf(ch) < COLS && ch == exchange.reply.bytes[0]
  {
    Arena.ReadReply(exchange.reply.bytes).value
  }

  /** `config_t` of gamatch.c (its `map` is `board` here), together with the global `winner`. */
  class Config {
    const board: array2<int>
    var playerId: int
    var opponentId: int
    var round: int
    /** 0 until somebody wins: by four in a row, by forfeit or by the opponent's time-out. */
    var winner: int
    /** The value of `board`. */
    ghost var cells: Grid

    ghost predicate Valid()
      reads this, board
    {
      IsBoard(board) && IsGrid(cells) && forall c, r :: InBounds(c, r) ==> board[c, r] == cells[c][r]
    }

    /** The state between two rounds once the first round has begun: see `Playing`. */
    ghost predicate InPlay()
      reads this, board
    {
      Valid() && round >= 0 && Playing(cells, playerId, opponentId, round, winner)
    }

    /** `allocate_map` on the zero-initialised global: the cells hold whatever `malloc` left. */
    constructor ()
      ensures Valid() && fresh(board)
      ensures playerId == 0 && opponentId == 0 && round == 0 && winner == 0
    {
      board := new int[COLS, ROWS];
      playerId, opponentId, round, winner := 0, 0, 0, 0;
      new;
      cells := Snapshot(board);
    }

    /** The `snprintf` calls of `write_bytes`: the message, number by number. */
    method Print() returns (buf: string)
      requires Valid()
      ensures buf == Message(playerId, cells)
    {
      ColumnMajorAt(cells);
      ghost var xs := [playerId] + ColumnMajor(cells);
      IntsTextPrefix(xs, 0);
      buf := IntToString(playerId) + " ";
      var c := 0;
      while c < COLS
        invariant 0 <= c <= COLS
        invariant buf == IntsText(xs[..c * ROWS + 1])
      {
        var r := 0;
        while r < ROWS
          invariant 0 <= r <= ROWS
          invariant buf == IntsText(xs[..c * ROWS + r + 1])
        {
          assert xs[c * ROWS + r + 1] == board[c, r];
          IntsTextPrefix(xs, c * ROWS + r + 1);
          buf := buf + IntToString(board[c, r]) + " ";
          r := r + 1;
        }
        c := c + 1;
      }
      assert xs[..CELLS + 1] == xs;
      buf := buf + "\n";
    }

    /**
      The loop of `write_bytes`: `write` until all of `buf` is across, each call taking
      what the pipe accepts (at most what is left); a call that takes nothing or fails
      ends it with -1.  `sent` is what the agent has received when the loop stops.
    */
    static method Transmit(buf: string, accepts: seq<int>) returns (total: int, sent: string)
      ensures total >= 0 <==> Arena.Delivers(accepts, |buf|)
      ensures total >= 0 ==> total == |buf| && sent == buf
      ensures total < 0 ==> total == -1 && |sent| < |buf| && sent == buf[..|sent|]
    {
      var towrite := |buf|;
      total := 0;
      var k := 0;
      while total < towrite
        invariant 0 <= total <= towrite && 0 <= k <= |accepts|
        invariant Arena.Delivers(accepts, towrite) <==> Arena.Delivers(accepts[k..], towrite - total)
      {
        var chk := if k < |accepts| then accepts[k] else 0;
        if chk <= 0 {
          return -1, buf[..total];
        }
        assert accepts[k..][1..] == accepts[k + 1..];
        // `write` never takes more than it is offered.
        if chk > towrite - total {
          chk := towrite - total;
        }
        total := total + chk;
        k := k + 1;
      }
      sent := buf[..total];
    }

    /** `write_bytes`: print the message into a buffer, then send it. */
    method WriteBytes(accepts: seq<int>) returns (total: int, sent: string)
      requires Valid()
      ensures var m := Message(playerId, cells);
        && (total >= 0 <==> Arena.Delivers(accepts, |m|))
        && (total >= 0 ==> total == |m| && sent == m)
        && (total < 0 ==> total == -1 && |sent| < |m| && sent == m[..|sent|])
    {
      var buf := Print();
      total, sent := Transmit(buf, accepts);
    }

    /** `init_config`: clear the board, then give the opponent the other id. */
    method InitConfig() returns (ok: bool)
      requires Valid()
      modifies board, `opponentId, `cells
      ensures Valid() && cells == EmptyGrid()
      ensures ok <==> IsPlayer(playerId)
      ensures ok ==> opponentId == Other(playerId) && Playing(cells, playerId, opponentId, 0, 0)
      ensures !ok ==> opponentId == old(opponentId)
    {
      var c := 0;
      while c < COLS
        invariant 0 <= c <= COLS
        invariant forall c', r :: 0 <= c' < c && 0 <= r < ROWS ==> board[c', r] == BLANK
        invariant opponentId == old(opponentId)
      {
        var r := 0;
        while r < ROWS
          invariant 0 <= r <= ROWS
          invariant forall c', r' :: 0 <= c' < c && 0 <= r' < ROWS ==> board[c', r'] == BLANK
          invariant forall r' :: 0 <= r' < r ==> board[c, r'] == BLANK
          invariant opponentId == old(opponentId)
        {
          board[c, r] := BLANK;
          r := r + 1;
        }
        c := c + 1;
      }
      cells := EmptyGrid();
      if playerId == X {
        opponentId := Y;
      } else if playerId == Y {
        opponentId := X;
      } else {
        return false;
      }
      StartPlaying(cells, playerId);
      return true;
    }

    /**
      `update_map`: the letter names a column; a full column loses the game for the
      player to move (the opponent becomes the winner) and is refused, otherwise the
      piece lands on the lowest blank cell and the round counter goes up.
    */
    method UpdateMap(selected: char) returns (ok: bool)
      requires Valid()
      modifies board, `round, `cells, `winner
      ensures Valid()
      ensures var c := ColumnOf(selected);
        && (ok <==> c >= 0 && old(cells)[c][0] == BLANK)
        && (ok ==> LowestBlank(old(cells), c) >= 0 && cells == Place(old(cells), c, LowestBlank(old(cells), c), playerId))
        && (c >= 0 && !ok ==> winner == opponentId)
        && (c < 0 || ok ==> winner == old(winner))
      ensures ok ==> round == old(round) + 1
      ensures !ok ==> cells == old(cells) && round == old(round)
    {
      var selectedNum: int;
      if 'a' <= selected <= 'g' {
        selectedNum := selected as int - 'a' as int;
      } else if 'A' <= selected <= 'G' {
        selectedNum := selected as int - 'A' as int;
      } else {
        return false;
      }
      var r := ROWS - 1;
      while r >= 0
        invariant -1 <= r < ROWS
        invariant Valid() && cells == old(cells) && round == old(round) && winner == old(winner)
        invariant r < ROWS - 1 ==> cells[selectedNum][0] == BLANK
        invariant forall r' :: r < r' < ROWS ==> cells[selectedNum][r'] != BLANK
      {
        if board[selectedNum, 0] != BLANK {
          winner := opponentId;
          return false;
        }
        if board[selectedNum, r] == BLANK {
          board[selectedNum, r] := playerId;
          cells := Place(cells, selectedNum, r, playerId);
          break;
        }
        r := r - 1;
      }
      round := round + 1;
      return true;
    }

    /** `update_player`: the players swap roles. */
    method UpdatePlayer() returns (ok: bool)
      modifies `playerId, `opponentId
      ensures ok <==> IsPlayer(old(playerId))
      ensures ok ==> playerId == Other(old(playerId)) && opponentId == old(playerId)
      ensures !ok ==> playerId == old(playerId) && opponentId == old(opponentId)
    {
      if playerId == X {
        playerId, opponentId := Y, X;
      } else if playerId == Y {
        playerId, opponentId := X, Y;
      } else {
        return false;
      }
      return true;
    }

    /** `judge`: the player to move has won iff the board holds four in a row of theirs. */
    method Judge() returns (won: bool)
      requires Valid()
      modifies `winner
      ensures won <==> HasFour(cells, playerId)
      ensures won ==> winner == playerId
      ensures !won ==> winner == old(winner)
    {
      won := FindWin(board, playerId);
      GridExt(Snapshot(board), cells);
      WinningCellIffHasFour(cells, playerId);
      if won {
        winner := playerId;
      }
    }

    /**
      The end of `run_parent` once the agent has answered and exited cleanly:
      `update_map`, then `judge`, then, unless the mover has won, `update_player`.
    */
    method Move(selected: char) returns (ok: bool)
      requires InPlay() && winner == 0
      modifies board, `round, `winner, `playerId, `opponentId, `cells
      ensures var c := ColumnOf(selected);
        && (ok <==> c >= 0 && old(cells)[c][0] == BLANK)
        && (ok ==> LowestBlank(old(cells), c) >= 0 && cells == Place(old(cells), c, LowestBlank(old(cells), c), old(playerId)))
        && (c >= 0 && !ok ==> winner == old(opponentId))
        && (c < 0 ==> winner == 0)
      ensures ok ==> round == old(round) + 1 && InPlay()
      ensures ok ==> (winner != 0 <==> HasFour(cells, old(playerId)))
    {
      ghost var before := cells;
      var okMap := UpdateMap(selected);
      if !okMap {
        return false;
      }
      RoundKeepsPlaying(before, playerId, round - 1, ColumnOf(selected));
      var won := Judge();
      if won {
        return true;
      }
      ok := UpdatePlayer();
    }

    /**
      `run_parent` once the board is ready: send it; a silent agent loses by time-out
      (`handle_alarm`); otherwise read its reply, check its exit status and play the move.
    */
    method Serve(exchange: Exchange) returns (outcome: Outcome)
      requires InPlay() && winner == 0
      modifies board, `round, `winner, `playerId, `opponentId, `cells
      ensures var delivered := Arena.Delivers(exchange.accepts, MessageLength);
        && (outcome == TimedOut <==> delivered && exchange.reply.Silent?)
        && (outcome == TimedOut ==> winner == old(opponentId) && playerId == old(playerId) && opponentId == old(opponentId))
        && (outcome == Next <==> delivered && Answered(exchange) && old(cells)[ColumnOf(Choice(exchange))][0] == BLANK)
        && (delivered && Answered(exchange) && outcome == Failed ==> winner == old(opponentId))
        && (!(delivered && Answered(exchange)) && outcome == Failed ==> winner == 0)
      ensures outcome == Next ==> var c := ColumnOf(Choice(exchange));
        && LowestBlank(old(cells), c) >= 0 && cells == Place(old(cells), c, LowestBlank(old(cells), c), old(playerId))
        && round == old(round) + 1 && InPlay()
    {
      MessageFits(cells, playerId, opponentId, round, winner);
      var total, sent := WriteBytes(exchange.accepts);
      if total < 0 {
        return Failed;
      }
      if exchange.reply.Silent? {
        // `handle_alarm`: the player to move forfeits and the program exits.
        winner := opponentId;
        return TimedOut;
      }
      var read := Arena.ReadReply(exchange.reply.bytes);
      if read.Err? {
        return Failed;
      }
      if exchange.status.Signaled? {
        return Failed;
      } else if exchange.status.code != 0 {
        return Failed;
      }
      var ok := Move(read.value);
      return if ok then Next else Failed;
    }

    /**
      `run_parent`, one round: on the first round the first player is chosen and the
      board cleared, then the round is served.
    */
    method RunParent(first: int, exchange: Exchange) returns (outcome: Outcome)
      requires Valid() && winner == 0 && round >= 0
      requires round > 0 ==> InPlay()
      modifies this, board
      ensures outcome == Next ==> round == old(round) + 1 && InPlay()
      ensures var mover := if old(round) == 0 then first else old(playerId);
        var before := if old(round) == 0 then EmptyGrid() else old(cells);
        var answered := IsPlayer(mover) && Arena.Delivers(exchange.accepts, MessageLength) && Answered(exchange);
        && (outcome == TimedOut <==> IsPlayer(mover) && Arena.Delivers(exchange.accepts, MessageLength) && exchange.reply.Silent?)
        && (outcome == TimedOut ==> winner == Other(mover) && playerId == mover && opponentId == winner)
        && (outcome == Next <==> answered && before[ColumnOf(Choice(exchange))][0] == BLANK)
        && (outcome == Next ==> var c := ColumnOf(Choice(exchange));
              LowestBlank(before, c) >= 0 && cells == Place(before, c, LowestBlank(before, c), mover))
        && (answered && outcome == Failed ==> winner == Other(mover))
        && (!answered && outcome == Failed ==> winner == 0)
    {
      if round == 0 {
        playerId := first;
        var okInit := InitConfig();
        if !okInit {
          return Failed;
        }
      }
      outcome := Serve(exchange);
    }

    /**
      The main loop: rounds run while fewer than 42 rounds have been played and nobody
      has won.  It ends the program with success (`ok`) when the loop ends or when an
      agent times out, and with a failure when a round fails.  After a time-out the
      winner is the player who was waiting; otherwise on success either `winner` holds
      four in a row or all 42 cells are filled and nobody has four in a row.  On a
      failure the winner is the opponent of an agent that chose a full column, or 0.
    */
    method Play(first: int, exchanges: seq<Exchange>) returns (ok: bool, timedOut: bool)
      requires Valid() && round == 0 && winner == 0
      modifies this, board
      ensures timedOut ==> ok && IsPlayer(winner) && winner == opponentId
      ensures ok && !timedOut ==> IsPlayer(first) && InPlay() && (winner != 0 || round == CELLS)
      ensures ok && !timedOut && winner != 0 ==> HasFour(cells, winner)
      ensures ok && !timedOut && winner == 0 ==> forall c, r :: InBounds(c, r) ==> board[c, r] != BLANK
      ensures !ok ==> winner == 0 || IsPlayer(winner)
    {
      var i := 0;
      timedOut := false;
      while round < CELLS && winner == 0
        invariant Valid() && 0 <= round <= CELLS && i == round
        invariant round == 0 ==> winner == 0
        invariant round > 0 ==> IsPlayer(first) && InPlay()
        decreases CELLS - round
      {
        var exchange := if i < |exchanges| then exchanges[i] else Exchange([], Answer([]), Exited(0));
        ghost var mover := if round == 0 then first else playerId;
        var outcome := RunParent(first, exchange);
        if outcome == TimedOut {
          return true, true;
        } else if outcome == Failed {
          return false, false;
        }
        i := i + 1;
      }
      if winner == 0 {
        DrawIsFull(cells, playerId);
      }
      return true, false;
    }
  }
}

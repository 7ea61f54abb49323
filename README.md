# Systems-programming exercises: autojudge, truth-table SAT decider, Connect-Four arena

This project is a Dafny model of three small programs and the proofs of what they do.

- **The autojudge** (`01-Autojudge/autojudge.c`) grades a program against a directory of
  inputs and a directory of expected answers. It parses its `-i`, `-a` and `-t` options
  and the target name. It runs the program on every regular input file, compares the
  output chunk by chunk with the answer file of the same name, and keeps counters of
  runtime errors, wrong answers and correct answers, plus an accumulated running time.
- **The logic tool** (`00-Logics/sat-tt.cpp`) reads a propositional formula written in
  prefix syntax, `pAnd(pAtom("p"), pNeg(pConst("true")))`. It tokenizes the text, builds
  the formula by recursive descent, collects its atoms, and decides satisfiability and
  validity by trying every truth assignment.
- **The Connect-Four programs**:
  - the arena (`01-Arena/arena.c`), which sends the board to its agents as binary ints;
  - the match runner (`02-Gamatach/gamatch.c`), which sends it as decimal text, with a
    time-out and exit-status checks;
  - two agents: `01-Arena/agent1.c` (win, block, then a scoring heuristic) and
    `01-Arena/agents/agent_center.c` (win, block, then a fixed column order).

Modules, one per file:

| module | contents |
|---|---|
| `Wrappers` | `Option` and `Result` |
| `Decimal` | `%d` printing and `scanf("%d")` reading |
| `Board` | the 7×6 grid, the landing row, the four-in-a-row test `check_win` and its search `judge` |
| `Game` | the invariant that holds between rounds of a game |
| `Arena`, `Gamatch` | the two runners' `config_t` as classes |
| `Tactics` | the agents' decision rules as functions |
| `Agents` | the agents' global state as a class |
| `Autojudge` | the autojudge |
| `Formulas`, `Tokenizer`, `Parser`, `TruthTable` | the logic tool |

Conventions:

- State the C code changes in place is a `class`, with `modifies` clauses and a ghost
  `cells` grid tied to the `array2` board.
- Loops in the C code are methods with loop invariants. Each is proved against a
  function that states what the loop computes.
- Input from pipes, the clock, `readdir` and `rand` is passed in as parameters.

## Model

| member | source | states |
|---|---|---|
| Board.Other | 01-Arena/arena.c:149-158 | the opponent of a player is the other player id, 1 ↔ 2 |
| Board.Snapshot | 01-Arena/arena.c:62-73 | the 7×6 map read as a grid, cell for cell |
| Board.Place | 01-Arena/arena.c:184 | placing a piece changes exactly that one cell |
| Board.EmptyGrid | 01-Arena/arena.c:143-147 | the cleared board has every cell blank |
| Board.GridExt | 01-Arena/arena.c:62-73 | two grids that agree on every cell are equal |
| Board.PlaceRestore | 01-Arena/agent1.c:125-136 | putting a piece in a cell and then blanking it again restores the board, as the agents' trial drops do |
| Board.PlaceTwice | 01-Arena/agent1.c:144-146 | overwriting the trial piece (the block) equals placing the final piece directly |
| Board.ColumnOf | 01-Arena/arena.c:170-177 | a letter a–g or A–G names column 0–6, and every other character names none |
| Board.LowestBlankFrom | 01-Arena/arena.c:179-187 | the scan up from the bottom row finds a blank cell with every cell below it taken, or -1 |
| Board.LowestBlank | 01-Arena/arena.c:179-187 | the landing row is blank and every row below it is taken |
| Board.TopBlankHasRoom | 01-Arena/arena.c:180-181 | a column whose top cell is blank has a landing row |
| Board.DropKeepsStacked | 01-Arena/arena.c:179-187 | a drop keeps every piece resting on pieces, with no blank below it |
| Board.LayoutIndex | 01-Arena/arena.c:93-96 | index 6c + r of the column-major layout decodes to column c, row r and back |
| Board.ColumnMajor | 01-Arena/arena.c:93-96 | the column-by-column layout holds all 42 cells |
| Board.ColumnMajorAt | 01-Arena/arena.c:93-96 | cell (c, r) sits at index 6c + r of the column-major layout |
| Board.RunCells | 01-Arena/arena.c:219-224 | a run of length k or more in a direction means the next k cells that way hold the player's pieces |
| Board.HorizontalIff | 01-Arena/arena.c:216-226 | the horizontal count reaches 4 iff four pieces in a row lie on the row through the cell |
| Board.VerticalIff | 01-Arena/arena.c:228-233 | the vertical count, which looks only at the rows below, reaches 4 iff the cell starts a vertical four downwards |
| Board.RisingIff | 01-Arena/arena.c:235-243 | the count on one diagonal reaches 4 iff four in a row lie on that diagonal through the cell |
| Board.FallingIff | 01-Arena/arena.c:245-253 | the count on the other diagonal reaches 4 iff four in a row lie on it through the cell |
| Board.WinsIffFourThrough | 01-Arena/arena.c:214-256 | `check_win` succeeds iff some four in a row, as the four counts see them, passes through the cell |
| Board.SegmentOwned | 01-Arena/arena.c:214-256 | whether a segment through the player's own piece is owned does not depend on that piece being exempted |
| Board.OwnedLine | 01-Arena/arena.c:214-256 | a segment of four found through a cell is a four in a row on the board |
| Board.FourThroughHasFour | 01-Arena/arena.c:214-256 | a win found at a cell means the board has four in a row of that player |
| Board.LineStartWins | 01-Arena/arena.c:259-274 | the first cell of any four in a row is the player's piece, and `check_win` succeeds there |
| Board.WinningCellIffHasFour | 01-Arena/arena.c:259-274 | some cell of the player passes `check_win` iff the board has four in a row of that player |
| Board.RunLength | 01-Arena/arena.c:219-221 | the counting loop returns the length of the player's run from the cell in that direction |
| Board.Wins | 01-Arena/arena.c:214-256 | the four counts of `check_win`, each starting from 1, one of them reaching 4; `WinsIffFourThrough` states what it means on the board |
| Board.WinningCell | 01-Arena/arena.c:259-274 | what `judge` searches for: a cell of the player on which `check_win` succeeds; `WinningCellIffHasFour` equates it with four in a row |
| Board.CheckWin | 01-Arena/arena.c:214-256 | `check_win` reports a win iff four in a row of the player pass through the cell |
| Board.FindWin | 01-Arena/arena.c:259-274 | `judge`'s scan finds a winning cell iff one exists |
| Game.NonBlank | 01-Arena/arena.c:352 | the number of pieces is at most the number of cells; all cells are taken iff it equals it, none iff it is 0 |
| Game.NonBlankUpdate | 01-Arena/arena.c:184 | filling one blank cell adds one piece |
| Game.ColumnMajorPlace | 01-Arena/arena.c:184 | a placed piece appears at index 6c + r of the column-major layout and nothing else changes |
| Game.PlaceAddsPiece | 01-Arena/arena.c:184-189 | each move adds exactly one piece, matching the turn counter's step |
| Game.FullIffNoBlank | 01-Arena/arena.c:352 | 42 pieces on the board iff no blank cell is left |
| Game.EmptyStart | 01-Arena/arena.c:141-161 | the cleared board has no pieces, is stacked, and has no four in a row |
| Game.PlaceKeepsOthersLines | 01-Arena/arena.c:259-274 | a piece of one player cannot create a four in a row for the other |
| Game.StartPlaying | 01-Arena/arena.c:309-313 | after `init_config` the game invariant holds at turn 0: turn equals the pieces on the board, the board is stacked, and nobody has four |
| Game.RoundKeepsPlaying | 01-Arena/arena.c:330-340 | a legal move followed by the player swap keeps the game invariant, with the turn one higher |
| Game.DrawIsFull | 01-Arena/arena.c:352 | when 42 turns have been played, every cell is taken |
| Arena.Message | 01-Arena/arena.c:85-96 | the message is the player id followed by the 42 cells, cell (c, r) at position 1 + 6c + r |
| Arena.Delivers | 01-Arena/arena.c:101-108 | the `write` loop sends the remaining ints when each call accepts some and their sum reaches what is left; a call accepting nothing or failing stops it; `ProgressDelivers` and `WriteBytes` use it |
| Arena.ProgressDelivers | 01-Arena/arena.c:101-108 | a pipe that accepts at least one int on each call delivers the whole message |
| Arena.ReadReply | 01-Arena/arena.c:114-138 | the reply is accepted iff its first byte is a column letter, with the source's two error messages for the other cases |
| Arena.Config.constructor | 01-Arena/arena.c:62-73 | a fresh 7×6 board, ids 0, turn 0, no winner |
| Arena.Config.WriteBytes | 01-Arena/arena.c:85-111 | the whole message arrives iff the pipe keeps accepting; otherwise -1 and only a prefix arrived |
| Arena.Config.MessageBuffer | 01-Arena/arena.c:87-96 | the buffer holds exactly the message |
| Arena.Config.InitConfig | 01-Arena/arena.c:141-161 | the board is cleared; success iff the id is 1 or 2, and then the opponent is the other id and the game invariant holds |
| Arena.Config.UpdateMap | 01-Arena/arena.c:164-192 | a move is accepted iff the letter names a column whose top cell is blank; the piece lands on the landing row and the turn goes up; a refused move changes nothing |
| Arena.Config.UpdatePlayer | 01-Arena/arena.c:195-211 | the ids swap when the player id is 1 or 2; otherwise it fails and nothing changes |
| Arena.Config.Judge | 01-Arena/arena.c:259-274 | a win is reported iff the player to move has four in a row, and only then is `winner` set |
| Arena.Config.Move | 01-Arena/arena.c:330-341 | a legal move puts the mover's piece on the landing row and keeps the game invariant; the winner is set iff that move made four in a row |
| Arena.Config.Serve | 01-Arena/arena.c:314-340 | once the board is ready, the round succeeds iff the message is delivered, the reply is a letter and its column is open; then exactly that drop is made by the player to move |
| Arena.Config.RunParent | 01-Arena/arena.c:302-342 | one round succeeds iff the first player is valid, the message is delivered, the reply is a letter and its column is open; then exactly that drop is made |
| Arena.Config.Play | 01-Arena/arena.c:345-372 | a game that ends without error has a winner holding four in a row, or a full board |
| Gamatch.Message | 02-Gamatach/gamatch.c:105-113 | the text is the player id and the 42 cells column by column, each followed by a space, then a newline; `MessageReadsBack` and `MessageFits` state what it holds |
| Gamatch.MessageReadsBack | 02-Gamatach/gamatch.c:100-113 | one `%d` conversion per number converts the player id and then the cells in column-major order |
| Gamatch.MessageFits | 02-Gamatach/gamatch.c:102-113 | during a game the text is 87 characters, so it fits the buffer and is never cut short |
| Gamatch.Choice | 02-Gamatach/gamatch.c:145-148 | the accepted reply is its first byte and names a column |
| Gamatch.Config.constructor | 02-Gamatach/gamatch.c:77-88 | a fresh 7×6 board, ids 0, round 0, no winner |
| Gamatch.Config.Print | 02-Gamatach/gamatch.c:102-113 | the buffer holds the player id and the cells column by column as decimal text |
| Gamatch.Config.Transmit | 02-Gamatach/gamatch.c:115-127 | the whole text arrives iff the pipe keeps accepting; otherwise -1 and only a prefix arrived |
| Gamatch.Config.WriteBytes | 02-Gamatach/gamatch.c:100-128 | the text of the board is sent, or -1 with only a prefix delivered |
| Gamatch.Config.InitConfig | 02-Gamatach/gamatch.c:158-178 | the board is cleared; success iff the id is 1 or 2, and then the opponent is the other id and the game invariant holds |
| Gamatch.Config.UpdateMap | 02-Gamatach/gamatch.c:181-206 | as in the arena, except that choosing a full column makes the opponent the winner |
| Gamatch.Config.UpdatePlayer | 02-Gamatach/gamatch.c:209-225 | the ids swap when the player id is 1 or 2; otherwise it fails and nothing changes |
| Gamatch.Config.Judge | 02-Gamatach/gamatch.c:273-288 | a win is reported iff the player to move has four in a row, and only then is `winner` set |
| Gamatch.Config.Move | 02-Gamatach/gamatch.c:364-375 | a legal move puts the mover's piece on the landing row and keeps the game invariant; a full column hands the win to the opponent |
| Gamatch.Config.Serve | 02-Gamatach/gamatch.c:330-375 | a silent agent loses by time-out; otherwise the round goes on iff the text was delivered, the reply is a letter, the agent exited with status 0 and the column is open |
| Gamatch.Config.RunParent | 02-Gamatach/gamatch.c:316-376 | the first round chooses the player and clears the board; the outcome of the round is as for `Serve` |
| Gamatch.Config.Play | 02-Gamatach/gamatch.c:379-408 | a time-out names the waiting player as winner; a game that ends without error has a winner holding four in a row, or a full board |
| Tactics.StackedRoom | 01-Arena/agent1.c:162-170 | on a stacked board a column has a landing row iff its top cell is blank |
| Tactics.FirstWinningDrop | 01-Arena/agent1.c:124-139 | the first column, from the left, where the player's drop wins, or -1 when there is none |
| Tactics.WinningDropWins | 01-Arena/agent1.c:124-134 | the winning drop it finds gives the player four in a row |
| Tactics.WinningDropOpen | 01-Arena/agent1.c:124-134 | on a stacked board a winning drop is in an open column |
| Tactics.Beside | 01-Arena/agent1.c:174-180 | at most two neighbours in the landing row can hold the player's pieces |
| Tactics.Score | 01-Arena/agent1.c:172-189 | the heuristic score lies between 0 and 7 and is at least the column's centre bonus |
| Tactics.BestBeforeTake | 01-Arena/agent1.c:191-194 | a strictly higher score makes the scanned column the best one so far |
| Tactics.BestBeforeKeep | 01-Arena/agent1.c:161-195 | a closed column, or an open one that does not score higher, leaves the best one unchanged |
| Tactics.BestColumnUnique | 01-Arena/agent1.c:161-195 | the best column (highest score, leftmost on ties) is unique |
| Tactics.OrderCoversColumns | 01-Arena/agents/agent_center.c:153 | the priority order lists every column once, from the centre outwards |
| Tactics.FirstOpenInOrder | 01-Arena/agents/agent_center.c:154-167 | the first column in priority order whose top cell is blank, or -1 |
| Tactics.FirstOpenIffAnyOpen | 01-Arena/agents/agent_center.c:154-167 | the priority pass finds a column iff some column is open |
| Tactics.Letter | 01-Arena/agent1.c:295 | the printed letter `'A' + c` names column c again |
| Agents.ReadColumns | 01-Arena/agent1.c:42-76 | cell (c, r) takes int 1 + 6c + r of the stream; cells past a short read keep their old value |
| Agents.ReadColumnsMessage | 01-Arena/agent1.c:68-73 | agent1 decodes exactly the board the arena encodes |
| Agents.ReadRows | 01-Arena/agents/agent_center.c:46-50 | cell (c, r) takes conversion 1 + 7r + c when that conversion succeeds; a failed conversion leaves the cell's old value |
| Agents.ReadRowsFailures | 01-Arena/agents/agent_center.c:46-50 | when every conversion after the id fails, the board keeps what it held |
| Agents.ReadId | 01-Arena/agents/agent_center.c:23-24 | the id is the first conversion, or the uninitialised value when that conversion fails |
| Agents.RowMajor | 01-Arena/agents/agent_center.c:46-50 | the row-by-row layout holds all 42 cells |
| Agents.RowMajorAt | 01-Arena/agents/agent_center.c:46-50 | cell (c, r) sits at index 7r + c of the row-major layout |
| Agents.ReadRowsText | 01-Arena/agents/agent_center.c:21-53 | a board written as text row by row is read back exactly |
| Agents.ReadRowsMatchText | 01-Arena/agents/agent_center.c:46-50 | from the runner's column-major text, cell (c, r) receives the value at column-major position 7r + c: the board arrives transposed |
| Agents.ReadRowsMatchMisplaces | 01-Arena/agents/agent_center.c:46-50 | an X at the bottom of column A, as sent by the runner, is seen on top of column F, which is blank on the real board |
| Agents.Agent.constructor | 01-Arena/agent1.c:60-66 | a fresh 7×6 board and ids 0 |
| Agents.Agent.SetPlayer | 01-Arena/agent1.c:48-58 | success iff the id read is 1 or 2, and then the opponent is the other id; otherwise nothing changes |
| Agents.Agent.ConfigBinary | 01-Arena/agent1.c:42-76 | success iff the id is valid and all 42 cells were read; with a valid id the board is what was read |
| Agents.Agent.ConfigText | 01-Arena/agents/agent_center.c:21-53 | success iff the first of 43 `%d` conversions of the text gives a valid id; the board is then `ReadRows` of those conversions; on failure nothing changes |
| Agents.Agent.ConfigInts | 01-Arena/agents/agent_center.c:21-53 | as `ConfigText`, given what each `scanf` call converts |
| Agents.Agent.ReadCells | 01-Arena/agents/agent_center.c:46-50 | the nested reading loop leaves the board `ReadRows` describes |
| Agents.Agent.ReadRow | 01-Arena/agents/agent_center.c:47-49 | one row is read; the other rows are unchanged |
| Agents.Agent.Drop | 01-Arena/agent1.c:197-203 | the piece lands on the landing row; a full column is left unchanged |
| Agents.Agent.TryDrop | 01-Arena/agent1.c:125-136 | the trial piece stays iff the drop wins; otherwise the board is restored |
| Agents.Agent.Pass | 01-Arena/agent1.c:124-139 | the pass returns the first winning column and leaves the piece there; with none, the board is unchanged |
| Agents.Agent.WinOrBlock | 01-Arena/agent1.c:124-157 | the winning column when there is one, else the first column where the opponent would win, now holding the player's piece |
| Agents.Agent.LandingRow | 01-Arena/agent1.c:167 | the row the upward scan stops at is the landing row |
| Agents.Agent.CountBeside | 01-Arena/agent1.c:174-180 | one plus the player's pieces beside the landing cell |
| Agents.Agent.ScoreColumn | 01-Arena/agent1.c:166-189 | the heuristic score of the column; the board is left as it was |
| Agents.Agent.Heuristic | 01-Arena/agent1.c:159-195 | -1 iff no column is open; otherwise the highest-scoring open column, leftmost on ties |
| Agents.Agent.SelectByScore | 01-Arena/agent1.c:122-233 | win, else block, else the best column; on a stacked board it fails iff no column is open, and the chosen column is open |
| Agents.Agent.SelectByPriority | 01-Arena/agents/agent_center.c:120-189 | win, else block, else the first open column in priority order; on a stacked board it fails iff no column is open |
| Agents.Agent.PriorityDrop | 01-Arena/agents/agent_center.c:153-167 | the first open column in priority order gets the piece, or -1 with the board unchanged |
| Agents.Agent.PassOpen | 01-Arena/agent1.c:211-217 | on a stacked board a column a pass chose is open |
| Decimal.DigitChar | 02-Gamatach/gamatch.c:109 | the character of a digit is a digit of that value |
| Decimal.NatToString | 02-Gamatach/gamatch.c:109 | the `%d` text of a natural is a non-empty run of digits |
| Decimal.IntToString | 02-Gamatach/gamatch.c:105 | the `%d` text of an int starts with a digit or a minus sign and has no white space |
| Decimal.ParseNatToString | 01-Arena/agents/agent_center.c:48 | reading the digits of a natural back gives the natural |
| Decimal.DigitRun | 01-Arena/agents/agent_center.c:48 | `%d` takes the longest run of digits at the front |
| Decimal.SkipSpace | 01-Arena/agents/agent_center.c:48 | `%d` skips leading white space and stops at the first other character |
| Decimal.SignLength | 01-Arena/agents/agent_center.c:48 | at most one sign character is taken |
| Decimal.NumberLength | 01-Arena/agents/agent_center.c:48 | the characters a conversion takes lie within the text |
| Decimal.ScanInt | 01-Arena/agents/agent_center.c:48 | one `scanf("%d")` call never makes the unread text longer, and a call that converts a number consumes at least one character |
| Decimal.ScanInts | 01-Arena/agents/agent_center.c:24-50 | successive `scanf("%d")` calls give one conversion, or failure, per call |
| Decimal.IntsText | 02-Gamatach/gamatch.c:105-111 | the text `%d ` writes for each int in turn; `ScanIntsText` reads it back |
| Decimal.ScanSpace | 01-Arena/agents/agent_center.c:48 | a leading space does not change what one conversion does |
| Decimal.ScansSpace | 01-Arena/agents/agent_center.c:46-50 | a leading space does not change what successive conversions give |
| Decimal.NumberAt | 01-Arena/agents/agent_center.c:48 | the number at the front of an int's text followed by a non-digit is that int, and it ends where the non-digit starts |
| Decimal.ScanNumber | 01-Arena/agents/agent_center.c:48 | an int's text followed by a non-digit converts to that int, leaving the non-digit unread |
| Decimal.ScanOne | 01-Arena/agents/agent_center.c:48 | an int's text followed by a space converts to that int, leaving the space unread |
| Decimal.ScansOne | 01-Arena/agents/agent_center.c:46-50 | the first of several conversions takes the int written with `%d `, and the others go on after it |
| Decimal.ScanLoneSign | 01-Arena/agents/agent_center.c:48 | a sign with no digit after it is consumed by a conversion that fails |
| Decimal.ScansLoneSign | 01-Arena/agents/agent_center.c:46-50 | so a lone sign costs one conversion, and the next conversion starts after the sign |
| Decimal.StuckOnce | 01-Arena/agents/agent_center.c:48 | at the end of the text, or at a character that is not white space, a sign or a digit, a conversion fails and consumes nothing but white space |
| Decimal.ScanStuck | 01-Arena/agents/agent_center.c:46-50 | from there on every conversion fails |
| Decimal.DigitRunStops | 01-Arena/agents/agent_center.c:48 | a run of digits ends at the first non-digit |
| Decimal.ScanIntsText | 02-Gamatach/gamatch.c:105-113 | one conversion per int of the space-separated text of a sequence of ints gives back each int, in order |
| Decimal.IntsTextAppend | 02-Gamatach/gamatch.c:107-111 | appending an int appends its text and a space |
| Decimal.IntsTextPrefix | 02-Gamatach/gamatch.c:107-111 | the text of one more int is the old text plus that int's text and a space |
| Decimal.IntsTextLength | 02-Gamatach/gamatch.c:105-111 | single-digit values take two characters each |
| Formulas.BinOpToString | 00-Logics/sat-tt.cpp:13-21 | each operator prints as two characters, doubled for `&&` and `\|\|` and distinct for `=>` |
| Formulas.ToString | 00-Logics/sat-tt.cpp:47-89 | `to_string`: the infix text, with each negation and binary formula in parentheses; `ToStringBalanced` states its parentheses balance |
| Formulas.MakeAtom | 00-Logics/sat-tt.cpp:35-45 | an atom is built iff its name starts with a letter and is alphanumeric; otherwise an error |
| Formulas.CountAppend | 00-Logics/sat-tt.cpp:87-89 | counting a character over a concatenation adds the counts |
| Formulas.CountAlnum | 00-Logics/sat-tt.cpp:47-49 | an alphanumeric name holds no other character, so no parenthesis |
| Formulas.ToStringBalanced | 00-Logics/sat-tt.cpp:47-89 | the printed formula has as many `(` as `)`, one pair per connective |
| Formulas.CountBin | 00-Logics/sat-tt.cpp:87-89 | a binary formula adds one parenthesis of each kind to its operands' |
| Formulas.Occurs | 00-Logics/sat-tt.cpp:223-235 | an atom name occurs in a formula when some atom leaf carries it; `CollectAtoms` and `GetAllAtomicProps` collect exactly these |
| Formulas.CollectAtoms | 00-Logics/sat-tt.cpp:223-235 | the result is the given set plus exactly the atoms occurring in the formula |
| Formulas.GetAllAtomicProps | 00-Logics/sat-tt.cpp:237-242 | exactly the atoms occurring in the formula |
| Formulas.Evaluate | 00-Logics/sat-tt.cpp:268-292 | evaluation succeeds iff every atom of the formula is assigned |
| Formulas.EvaluateAgree | 00-Logics/sat-tt.cpp:268-292 | two assignments that agree on the formula's atoms give the same value |
| Formulas.ImpIsOr | 00-Logics/sat-tt.cpp:287 | `l => r` evaluates as `!l \|\| r` |
| Tokenizer.Step | 00-Logics/sat-tt.cpp:98-126 | one pass of the loop: a quote opens or closes a quoted token, white space outside quotes is dropped, punctuation ends the pending word and is a token, anything else is added to the pending text; `StepShaped` keeps tokens well shaped |
| Tokenizer.Scan | 00-Logics/sat-tt.cpp:98-126 | the loop over a text, one `Step` per character; `ScanSpells` and `ScanAppend` state what it keeps |
| Tokenizer.Tokenization | 00-Logics/sat-tt.cpp:92-133 | the loop over the whole input, then the pending text pushed; `TokenizationSpells`, `TokenizationShapes` and `TokenizationOfConcat` state what it gives |
| Tokenizer.Tokenize | 00-Logics/sat-tt.cpp:92-133 | the loop returns the tokens the character-by-character scan defines |
| Tokenizer.StepShaped | 00-Logics/sat-tt.cpp:98-126 | one character keeps every token well shaped |
| Tokenizer.ScanShaped | 00-Logics/sat-tt.cpp:98-126 | the scan state stays well shaped over any input |
| Tokenizer.TokenizationShapes | 00-Logics/sat-tt.cpp:92-133 | every token is non-empty and is a word, a single `(`, `)` or `,`, or a quoted run |
| Tokenizer.ConcatAppend | 00-Logics/sat-tt.cpp:105 | concatenating one more token appends it |
| Tokenizer.ConcatFlush | 00-Logics/sat-tt.cpp:109-111 | flushing the pending token keeps the concatenation |
| Tokenizer.ScanSpells | 00-Logics/sat-tt.cpp:98-126 | the tokens plus the pending text spell the input without the white space outside quotes |
| Tokenizer.TokenizationSpells | 00-Logics/sat-tt.cpp:92-133 | the tokens spell the input, minus the white space outside quotes, and nothing is lost |
| Tokenizer.SeparatedAppend | 00-Logics/sat-tt.cpp:117-122 | two separated token lists joined are separated |
| Tokenizer.SeparatedSuffix | 00-Logics/sat-tt.cpp:117-122 | a suffix of a separated token list is separated |
| Tokenizer.ScanAppend | 00-Logics/sat-tt.cpp:98-126 | scanning two texts in turn is scanning their concatenation |
| Tokenizer.ScanWordPrefix | 00-Logics/sat-tt.cpp:123-124 | a word is accumulated character by character |
| Tokenizer.ScanQuotedPrefix | 00-Logics/sat-tt.cpp:101-114 | a quoted run is accumulated until its closing quote |
| Tokenizer.ScanQuoted | 00-Logics/sat-tt.cpp:101-107 | a closed quoted run becomes one token |
| Tokenizer.ScanWordPunct | 00-Logics/sat-tt.cpp:117-122 | a word followed by punctuation becomes two tokens |
| Tokenizer.ScanPunct | 00-Logics/sat-tt.cpp:117-122 | a punctuation character becomes one token |
| Tokenizer.ScanSeparated | 00-Logics/sat-tt.cpp:98-126 | separated tokens written together scan back to those tokens |
| Tokenizer.ScanWordStep | 00-Logics/sat-tt.cpp:117-124 | a word and the punctuation after it are read back as they were written |
| Tokenizer.ConcatTwo | 00-Logics/sat-tt.cpp:98-126 | the concatenation splits after the first two tokens |
| Tokenizer.TokensTwo | 00-Logics/sat-tt.cpp:98-126 | the token list splits after its first two tokens |
| Tokenizer.ScanTokenStep | 00-Logics/sat-tt.cpp:98-126 | the first token, or word and punctuation, of a separated list is read back |
| Tokenizer.TokenizationOfConcat | 00-Logics/sat-tt.cpp:92-133 | separated tokens written one after the other tokenize back to themselves |
| Parser.ExpectAt | 00-Logics/sat-tt.cpp:171-175 | success only when the token at the position is the expected one, moving one past it |
| Parser.ConsumeAt | 00-Logics/sat-tt.cpp:164-169 | success only before the end, returning the token at the position |
| Parser.Unquote | 00-Logics/sat-tt.cpp:182 | the first and last characters are dropped; one character gives the empty name; an empty token is an error |
| Parser.BuildAt | 00-Logics/sat-tt.cpp:140-158 | a formula is built only from a head token, consuming at least one token, with well-formed atom names |
| Parser.AtomAt | 00-Logics/sat-tt.cpp:177-183 | an atom is built from `pAtom ( name )` with a valid name |
| Parser.ConstAt | 00-Logics/sat-tt.cpp:185-191 | a constant is built from `pConst ( value )` |
| Parser.NegAt | 00-Logics/sat-tt.cpp:193-199 | a negation wraps the formula built inside `pNeg ( … )` |
| Parser.BinAt | 00-Logics/sat-tt.cpp:201-214 | a binary formula joins the two formulas built inside `op ( … , … )` |
| Parser.FormulaBuilder.constructor | 00-Logics/sat-tt.cpp:138 | the builder starts at the first token |
| Parser.FormulaBuilder.Consume | 00-Logics/sat-tt.cpp:164-169 | returns the current token and advances, or fails at the end without moving |
| Parser.FormulaBuilder.Expect | 00-Logics/sat-tt.cpp:171-175 | succeeds iff the current token is the expected one, advancing past any present token |
| Parser.FormulaBuilder.BuildFormula | 00-Logics/sat-tt.cpp:140-158 | the recursive-descent result is the one `BuildAt` defines, and the position moves past it |
| Parser.FormulaBuilder.PAtom | 00-Logics/sat-tt.cpp:177-183 | as `AtomAt` |
| Parser.FormulaBuilder.PConst | 00-Logics/sat-tt.cpp:185-191 | as `ConstAt` |
| Parser.FormulaBuilder.PNeg | 00-Logics/sat-tt.cpp:193-199 | as `NegAt` |
| Parser.FormulaBuilder.PBinFormula | 00-Logics/sat-tt.cpp:201-214 | as `BinAt` |
| Parser.Parse | 00-Logics/sat-tt.cpp:217-221 | the formula built from the first token on, or the error; `RoundTrip` and `BuildIgnoresRest` state what it gives |
| Parser.BuildFromTokens | 00-Logics/sat-tt.cpp:217-221 | the formula built from the tokens, or the error |
| Parser.OpName | 00-Logics/sat-tt.cpp:153 | each operator has a head token that parses back to it |
| Parser.PrefixTokens | 00-Logics/sat-tt.cpp:135-215 | the prefix tokens of a formula are `Width(f)` long |
| Parser.BuildPrefix | 00-Logics/sat-tt.cpp:140-214 | the prefix tokens of a formula, followed by anything, build that formula and stop right after it |
| Parser.BuildNegPrefix | 00-Logics/sat-tt.cpp:193-199 | the same for a negation |
| Parser.BuildBinPrefix | 00-Logics/sat-tt.cpp:201-214 | the same for a binary formula |
| Parser.BuildAtomFrom | 00-Logics/sat-tt.cpp:177-183 | `pAtom ( "name" )` builds the atom |
| Parser.BuildConstFrom | 00-Logics/sat-tt.cpp:185-191 | `pConst ( "true" )` or `pConst ( "false" )` builds the constant |
| Parser.BuildNegFrom | 00-Logics/sat-tt.cpp:193-199 | `pNeg (` f `)` builds the negation |
| Parser.BuildBinFrom | 00-Logics/sat-tt.cpp:201-214 | `op (` l `,` r `)` builds the binary formula |
| Parser.MatchesTokensAt | 00-Logics/sat-tt.cpp:140-214 | a token list holding a formula's prefix tokens at a position holds its parts where the parser looks for them |
| Parser.MatchesTokensAtNeg | 00-Logics/sat-tt.cpp:193-199 | the same for a negation |
| Parser.TokensAtNeg | 00-Logics/sat-tt.cpp:193-199 | the parts of a negation in place make the negation's tokens |
| Parser.MatchesTokensAtBin | 00-Logics/sat-tt.cpp:201-214 | the same for a binary formula |
| Parser.BinMarks | 00-Logics/sat-tt.cpp:207-212 | the head, `(`, `,` and `)` of a binary formula are where the parser expects them |
| Parser.BinInner | 00-Logics/sat-tt.cpp:209-211 | the operands' tokens are where the parser builds them |
| Parser.TokensAtBin | 00-Logics/sat-tt.cpp:201-214 | the parts of a binary formula in place make its tokens |
| Parser.MatchesInner | 00-Logics/sat-tt.cpp:140-214 | a slice of matching tokens matches at its offset |
| Parser.NegParts | 00-Logics/sat-tt.cpp:193-199 | the layout of a negation's prefix tokens |
| Parser.BinPoints | 00-Logics/sat-tt.cpp:201-214 | the positions of the head, `(`, `,` and `)` in a binary formula's prefix tokens |
| Parser.BinParts | 00-Logics/sat-tt.cpp:201-214 | the layout of a binary formula's prefix tokens |
| Parser.QuoteClosed | 00-Logics/sat-tt.cpp:101-107 | a quoted atom name is one closed quoted token |
| Parser.PrefixSeparated | 00-Logics/sat-tt.cpp:92-133 | the prefix tokens of a formula can be written without separators and read back |
| Parser.NegSeparated | 00-Logics/sat-tt.cpp:92-133 | the same for a negation |
| Parser.BinSeparated | 00-Logics/sat-tt.cpp:92-133 | the same for a binary formula |
| Parser.RoundTrip | 00-Logics/sat-tt.cpp:217-221 | tokenizing and parsing the prefix text of any well-named formula gives the formula back |
| Parser.ExpectAtExtends | 00-Logics/sat-tt.cpp:171-175 | tokens after the position looked at do not change `expect` |
| Parser.BuildIgnoresRest | 00-Logics/sat-tt.cpp:217-221 | tokens after the formula do not change what is built: trailing tokens are ignored |
| TruthTable.RestStep | 00-Logics/sat-tt.cpp:300-310 | the atoms still to try are the current one plus the later ones |
| TruthTable.ExtendsDone | 00-Logics/sat-tt.cpp:296-298 | with no atom left to try, the only assignment reached is the current one |
| TruthTable.ExtendsStep | 00-Logics/sat-tt.cpp:300-310 | the assignments reached from a level are those reached with the atom set false or set true |
| TruthTable.CoveredStep | 00-Logics/sat-tt.cpp:302-308 | setting the current atom keeps every atom of the formula assigned or still to try |
| TruthTable.TrySat | 00-Logics/sat-tt.cpp:294-313 | the depth-first search for satisfiability: the atom set false first, then true, stopping at the first true assignment; `TrySatIff` states its answer |
| TruthTable.TryValid | 00-Logics/sat-tt.cpp:315-334 | the same search for validity, stopping at the first false assignment; `TryValidIff` states its answer |
| TruthTable.TrySatIff | 00-Logics/sat-tt.cpp:294-313 | the search never meets an unassigned atom and answers true iff some assignment it reaches makes the formula true |
| TruthTable.TryValidIff | 00-Logics/sat-tt.cpp:315-334 | the search never meets an unassigned atom and answers true iff every assignment it reaches makes the formula true |
| TruthTable.ExtendsEmpty | 00-Logics/sat-tt.cpp:252-262 | from the empty map the search reaches exactly the assignments to the formula's atoms |
| TruthTable.FormulaInterpreter.constructor | 00-Logics/sat-tt.cpp:247-250 | the atom list holds every atom of the formula, each exactly once |
| TruthTable.FormulaInterpreter.AtomsAreRest | 00-Logics/sat-tt.cpp:247-250 | the atoms listed are exactly the formula's atoms |
| TruthTable.FormulaInterpreter.IsSatisfiable | 00-Logics/sat-tt.cpp:252-256 | true iff some assignment to the formula's atoms makes it true |
| TruthTable.FormulaInterpreter.IsValid | 00-Logics/sat-tt.cpp:258-262 | true iff every assignment to the formula's atoms makes it true |
| TruthTable.ValidIsSatisfiable | 00-Logics/sat-tt.cpp:252-262 | a valid formula is satisfiable |
| Autojudge.Saturate | 01-Autojudge/autojudge.c:97 | `strtol` gives the nearest end of the 64-bit `long` range for a number outside it |
| Autojudge.Int32 | 01-Autojudge/autojudge.c:97 | the cast to `int` lands in the `int` range, keeps an `int` unchanged and wraps a value just above `INT_MAX` down by 2^32 |
| Autojudge.Int32Congruent | 01-Autojudge/autojudge.c:97 | the cast changes a value by a multiple of 2^32 |
| Autojudge.AtoiNumber | 01-Autojudge/autojudge.c:97 | `atoi` of a number's text is that number saturated to `long` and cut to `int` |
| Autojudge.Atoi | 01-Autojudge/autojudge.c:97 | the time limit read by `atoi` is always within the `int` range |
| Autojudge.AtoiText | 01-Autojudge/autojudge.c:97 | `atoi` reads back the text of any `int` |
| Autojudge.AtoiWraps | 01-Autojudge/autojudge.c:97 | a number from 2^31 to 2^32 - 1 wraps to itself minus 2^32, a negative limit |
| Autojudge.OptionValid | 01-Autojudge/autojudge.c:66-101 | an option passes its own check: a directory name under 1024 characters not starting with another flag, a time not starting with a directory flag, and no unknown option; `ParseOptions` and `ParseArgsIff` use it |
| Autojudge.LastArg | 01-Autojudge/autojudge.c:64-103 | an option's value is present iff the option was given |
| Autojudge.ParseOptions | 01-Autojudge/autojudge.c:64-103 | the options are accepted iff each passes its own check |
| Autojudge.ParseOptionsLast | 01-Autojudge/autojudge.c:64-98 | after accepted options each setting holds the last value given for it, or its previous value |
| Autojudge.LastArgStep | 01-Autojudge/autojudge.c:64-98 | applying one option and then the rest gives the settings the last options of the whole list give |
| Autojudge.LastArgCons | 01-Autojudge/autojudge.c:64-103 | a later option overrides an earlier one of the same kind |
| Autojudge.Truncate | 01-Autojudge/autojudge.c:115-116 | the stored target name is a prefix shorter than 1024 characters, empty iff the name is |
| Autojudge.ParseArgs | 01-Autojudge/autojudge.c:61-124 | `parse_arg`'s result: the first refused option's error, a missing argument, a missing target, or the settings; `ParseArgsIff` states when it succeeds |
| Autojudge.ParseArgsWrappedTime | 01-Autojudge/autojudge.c:97-108 | `-t` with a number from 2^31 to 2^32 - 1 is refused as a missing argument, because the limit wraps negative |
| Autojudge.ParseArgsIff | 01-Autojudge/autojudge.c:61-133 | parsing succeeds iff every option passes its check, both directories are set, the time limit is not negative and a non-empty target follows; the settings are then the last values given |
| Autojudge.Config.constructor | 01-Autojudge/autojudge.c:28 | empty names and a time limit of 0 |
| Autojudge.Config.ParseArg | 01-Autojudge/autojudge.c:61-133 | success and the new settings are those `ParseArgs` defines |
| Autojudge.RegularCount | 01-Autojudge/autojudge.c:145-148 | the count of regular files is at most the number of entries and 0 iff none is regular |
| Autojudge.CountFiles | 01-Autojudge/autojudge.c:136-152 | -1 for a directory that cannot be opened, else the number of regular files |
| Autojudge.CheckDirectory | 01-Autojudge/autojudge.c:155-164 | success iff the directory opens and holds a regular file |
| Autojudge.TruncDiv | 01-Autojudge/autojudge.c:276 | C division, rounding toward zero |
| Autojudge.ElapsedMs | 01-Autojudge/autojudge.c:272-280 | seconds times 1000 plus microseconds divided by 1000, rounding toward zero; `ElapsedMsBounds` states how close it is to the elapsed time |
| Autojudge.ElapsedMsBounds | 01-Autojudge/autojudge.c:272-280 | for normalised time stamps the result is within a millisecond of the elapsed time, and never negative when the end is not before the start |
| Autojudge.ReadAt | 01-Autojudge/autojudge.c:314 | each read of the answer file yields at most 1024 bytes |
| Autojudge.Padded | 01-Autojudge/autojudge.c:300 | a chunk in the zeroed buffer is 1024 bytes long |
| Autojudge.ChunkMatches | 01-Autojudge/autojudge.c:320 | `memcmp` of the zero-padded output chunk with the answer's bytes, over the answer read's length; `ChunkMatchesIff` states when it holds |
| Autojudge.CompareFrom | 01-Autojudge/autojudge.c:313-328 | the comparison loop from chunk i: correct at the end of the output, unreadable at a failed answer read, wrong at the first chunk that does not match; `CompareFromCorrectIff` and `CompareFromWrongIff` state it |
| Autojudge.Compare | 01-Autojudge/autojudge.c:298-339 | the comparison from the first chunk; `CompareCorrectIff` and `CompareWrongIff` state it |
| Autojudge.ChunkMatchesIff | 01-Autojudge/autojudge.c:320 | a chunk matches iff its first bytes agree with the answer's and, past the output, the answer holds only zero bytes |
| Autojudge.CompareFromCorrectIff | 01-Autojudge/autojudge.c:313-328 | the comparison from chunk i is correct iff every later output chunk agrees with its answer read |
| Autojudge.CompareFromWrongIff | 01-Autojudge/autojudge.c:313-328 | it is wrong iff some chunk disagrees before any failed read of the answer |
| Autojudge.CompareCorrectIff | 01-Autojudge/autojudge.c:298-339 | the output is judged correct iff every output chunk agrees with the answer |
| Autojudge.CompareWrongIff | 01-Autojudge/autojudge.c:298-339 | it is judged wrong iff a chunk disagrees before any failed read |
| Autojudge.ExtraOutputIsCorrect | 01-Autojudge/autojudge.c:313-320 | output beyond the end of the answer file is never looked at, so it is still judged correct |
| Autojudge.AnswerPrefixIsCorrect | 01-Autojudge/autojudge.c:313 | a program with no output is judged correct whatever the answer |
| Autojudge.Classify | 01-Autojudge/autojudge.c:434-455 | a run is a runtime error iff it did not exit with code 0 |
| Autojudge.Charged | 01-Autojudge/autojudge.c:443-448 | the running time is charged when the comparison did not succeed |
| Autojudge.TimeError | 01-Autojudge/autojudge.c:446-447 | grading stops with an error when the charged time is negative |
| Autojudge.After | 01-Autojudge/autojudge.c:434-455 | the counters after one run: a runtime error, or the comparison's verdict, plus the charged time; `AfterCounts` states how they move |
| Autojudge.AfterEntries | 01-Autojudge/autojudge.c:349-461 | the counters after the first n directory entries, grading only regular files; `AfterEntriesBounds` bounds them |
| Autojudge.AfterCounts | 01-Autojudge/autojudge.c:434-455 | grading one run adds one to exactly one of runtime error, wrong and correct, or to none for an unreadable answer file; time is added only for a failed comparison |
| Autojudge.AfterEntriesBounds | 01-Autojudge/autojudge.c:349-461 | over a directory the counters only grow, and by at most the number of regular files |
| Autojudge.Results.constructor | 01-Autojudge/autojudge.c:41 | every counter starts at 0 |
| Autojudge.Results.CalculateExecTime | 01-Autojudge/autojudge.c:272-280 | returns the elapsed milliseconds and adds them to the time total, changing nothing else |
| Autojudge.Results.ReadAndCompareResults | 01-Autojudge/autojudge.c:298-339 | fails iff the output is not judged correct; correct adds one to `correct`, wrong to `wrong`, an unreadable answer to nothing |
| Autojudge.Results.Grade | 01-Autojudge/autojudge.c:434-455 | the counters move as `After` defines; it fails iff the charged time is negative |
| Autojudge.Results.RunExecution | 01-Autojudge/autojudge.c:342-466 | succeeds iff the directory opens and no graded file has a negative charged time; the counters are AfterEntries over all entries on success, unchanged when the directory cannot be opened, and AfterEntries up to and including the first such file when grading aborts |

## Left out

- Process plumbing is not modelled: `fork`, `exec`, `pipe`, `dup2`, `close`, `wait` and
  `waitpid`, and `run_child` in both runners. Each agent's behaviour is a parameter of
  a round (what its pipe accepts, its reply, its exit status).
- Timers and signals are not modelled: `setitimer`, `sigaction`, `alarm`,
  `timeout_handler` and `set_timer` in the autojudge. In the match runner
  `handle_alarm` appears only as the `Silent` reply, which makes the opponent the
  winner and ends the game.
- The autojudge's compile step (`compile`), its time-out counting and `main` are left
  out: they are process and signal handling. The time-out and compile-error counters
  are therefore never changed by the model.
- Clocks are inputs: `gettimeofday` values are parameters of each run.
- Randomness is an input: `select_random_player` becomes the `first` parameter.
- The agents' random fallback is not modelled as a random choice. It is only reached
  when no top cell is blank, and then it has nothing to choose from and fails; the
  model gives exactly that failure.
- Printing is left out: `print_map`, `print_results`, the progress messages, and the
  `main` of the logic tool. The centre agent writes diagnostic lines to standard output
  before its letter, and the runner takes the first byte of the reply as the column;
  the model takes the letter as the agent's reply.
- Memory handling (`malloc`, `free`) and byte layout (`sizeof(int)`, endianness) are
  left out. The arena's binary message is a sequence of ints.
- Decimal.ScanInt: a number too large for `int` is not modelled as `scanf` stores it
  (the C standard leaves that undefined); the model keeps the unbounded value.
- Autojudge.Results.ReadAndCompareResults: an error from reading the program's output
  is not modelled. `read_chk` is a `size_t`, so the check after the loop cannot fire.
- getopt's own parsing of the command line is not modelled: options arrive already
  split into (flag, argument) pairs plus the remaining operands.
- TruthTable.FormulaInterpreter.constructor: the source lists the atoms in the sorted
  order of a `std::set`; the model lists them in an unspecified order, each once.
  Neither search result depends on the order.
- `01-Arena/agents/generate_map.c` is not part of this model (a test-input generator).
- Evaluating an unknown formula kind, and the default branch of `binOpToString`, cannot
  happen with a closed datatype and are not modelled.

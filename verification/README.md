# Minesweeper server: game engine model

This project is a Dafny model of the game engine of a networked Minesweeper
server, with proofs about that model. The engine has two parts:

- **The board** (`Server/MineSweeperBoard.java`). It holds a rectangular mine
  grid, a grid of cell states (-1 revealed, 0 hidden, 1 flagged, 2
  questioned), a countdown, and the won and lost flags. Its operations are
  reveal with its recursive flood fill (`cascade`), the flag cycle, loss
  disclosure, the win test, the neighbour mine count, the clock decrement,
  the random default constructor, and the text record: `toString` and the
  constructor that rebuilds a board from that text.
- **The decision logic of one client session** (`Server/MineSweeperHandler.java`).
  This covers UPDATE with its win bookkeeping, NEW, LOADFROM, SCORE, NAME,
  the high-score test after a win, one tick of the session clock, and the
  ordering of score records.

Each synchronized section of the handler is one atomic step. A step takes a
session state (board, clock started, stored leaderboard) to a new state,
the replies sent back, and the exception that ends the session, if any.

Files:

- `results.dfy`: `Option` and `Result`.
- `grid.dfy`: rectangular grids, cell update, counting.
- `board.dfy`: the board and its operations.
- `codec.dfy`: the text record, with models of Java's `String.split`,
  `String.valueOf(int)` and `Integer.parseInt`.
- `ranking.dfy`: score records, the stable descending sort, the NAME
  update, the high-score test and the SCORES entries.
- `session.dfy`: the handler's commands and the clock.

Modelling choices:

- Cell states are `int`s. `ValidStates` says every cell holds one of the
  four states. Every operation keeps that.
- The flood fill recurses through the 3x3 block in the order of the
  source's offset loops. Its termination measure is the number of cells not
  yet revealed.
- Exceptions are values:
  - a decoder failure is a `DecodeError`;
  - a reveal or flag outside the grid is the `OffBoard` fault;
  - an empty leaderboard at the high-score test, and a NAME update with
    fewer than five records to write, are `RankError`s.
- The random mine layout comes in as a sequence of draws.

## Model

| member | source | states |
|---|---|---|
| Board.MineCount | Server/MineSweeperBoard.java:223-239 | The count of mines around a cell is at most 8. It is 0 exactly when none of the eight in-bounds neighbours holds a mine. |
| Board.MineCountIsNeighbourMines | Server/MineSweeperBoard.java:223-235 | The count equals the number of distinct mined cells among the neighbours. Each of those lies in the 3x3 block and is not the centre. |
| Board.Cascade | Server/MineSweeperBoard.java:121-135 | The flood fill terminates. It only moves cells to revealed, flagged and questioned cells included, and never covers more cells. It never reveals a mine. It leaves the whole block of its start revealed. Every cell it reveals with a mine count of 0 has its whole block revealed. Every cell it reveals lies in the block of the start, or in the block of a cell reached from the start through adjacent cells that it revealed and that have a mine count of 0. |
| Board.CascadeFrom | Server/MineSweeperBoard.java:124-134 | The same guarantees, lower and upper bound, for the offset loop from the k-th cell of the block on, given that the earlier cells of the block are revealed. |
| Board.CascadeVisit | Server/MineSweeperBoard.java:128-132 | One loop iteration on a hidden or marked block cell reveals that cell, with a strictly smaller count of covered cells. When the cell's mine count is 0 it recurses. Everything it reveals is free of mines and is reached from the centre of the block. |
| Board.Lose | Server/MineSweeperBoard.java:157-164 | Every mine cell becomes revealed. Every other cell keeps its state. Nothing else changes. |
| Board.SetGameLost | Server/MineSweeperBoard.java:103-106 | Lost becomes true and every mine is revealed. Non-mine cells, mines, time and won are unchanged. Valid states stay valid. |
| Board.RevealSafe | Server/MineSweeperBoard.java:146-153 | Revealing a hidden cell without a mine reveals it and never reveals a mine. With a nonzero mine count nothing else opens. With a count of 0 its block is revealed and the flood fill stops only at numbered cells. Every cell that opens is reached from the revealed cell through adjacent opened cells with a mine count of 0. |
| Board.Reveal | Server/MineSweeperBoard.java:146-154 | A cell that is not hidden (revealed, flagged, questioned) leaves the board unchanged. A hidden cell becomes revealed. On a mine the game is lost with every mine revealed and non-mine cells untouched. Otherwise lost is kept and the safe-reveal guarantees hold, both the block closure and the bound on how far the fill spreads. |
| Board.RevealKeepsStates | Server/MineSweeperBoard.java:146-154 | A reveal keeps every cell in one of the four states. |
| Board.SetFlag | Server/MineSweeperBoard.java:138-143 | The clicked cell goes hidden to flagged, flagged to questioned, and questioned to hidden. A revealed cell leaves the board unchanged. No other cell changes. |
| Board.SetFlagThreeTimes | Server/MineSweeperBoard.java:138-143 | On a board with valid states, three flag clicks on one cell give the board back. |
| Board.CheckWinCon | Server/MineSweeperBoard.java:212-220 | The win test holds iff every non-mine cell is revealed (state -1 when states are valid). |
| Board.RowClearAsWritten | Server/MineSweeperBoard.java:214-217 | The column scan with a byte counter from j on. It answers false iff a hidden non-mine cell lies before column 128. It throws iff the row has 128 or more cells and columns j to 127 are all clear. |
| Board.CheckWinConAsWritten | Server/MineSweeperBoard.java:212-220 | With byte loop counters the win test agrees with the intended one on boards under 128 rows and columns. |
| Board.WideBoardWinThrows | Server/MineSweeperBoard.java:212-220 | A clear board one row high and 128 columns wide passes the intended test. The written test throws on it. |
| Board.DecrementTime | Server/MineSweeperBoard.java:112-114 | A positive time drops by exactly 1. A time at or below 0 stays. A time at or above 0 never goes negative. Nothing else changes. |
| Board.PlaceMines | Server/MineSweeperBoard.java:24-32 | The mine-laying loop lays exactly `left` new mines iff the draws name that many distinct free cells. Earlier mines stay. Every new mine sits on a drawn free cell. |
| Board.NewBoard | Server/MineSweeperBoard.java:16-33 | The default board is 16x16 with exactly 40 mines, every cell hidden, 1000 seconds, and neither won nor lost. |
| Board.RevealMineFreeBoardWins | Server/MineSweeperBoard.java:146-154 | On a mine-free, all-hidden board, one reveal floods every cell and the win test then holds. |
| Board.CornerBesideMineRevealsOnlyCorner | Server/MineSweeperBoard.java:146-154 | On a 3x3 board with a mine at (1,1), the count at (0,0) is 1, so revealing (0,0) reveals that cell and no other. |
| Board.MineFreeCornerRevealsAll | Server/MineSweeperBoard.java:121-135 | On a 3x3 board without mines, revealing (0,0) reveals all nine cells and the win test holds. |
| Board.SpreadStopsAtMine | Server/MineSweeperBoard.java:121-135 | On a hidden row of five cells with a mine in the middle, any fill spreading from the left end leaves the two cells beyond the mine hidden. |
| Board.MineStopsFill | Server/MineSweeperBoard.java:146-154 | Revealing the left end of that row opens the left end and its neighbour. The two cells beyond the mine stay hidden. |
| Codec.ParseInt | Server/MineSweeperBoard.java:40 | Integer.parseInt yields a value only inside the int range, and only for text that starts with a digit or a sign. |
| Codec.ParseIntToText | Server/MineSweeperBoard.java:40 | Parsing reads back every int that String.valueOf writes. |
| Codec.MineRowText | Server/MineSweeperBoard.java:174-183 | A mine row is written one character per cell, '1' for a mine and '0' otherwise, with no space or comma. |
| Codec.StateRowText | Server/MineSweeperBoard.java:186-209 | A row of valid states is written one character per cell: '_', 'O', 'F' or 'X'. |
| Codec.EncodeFields | Server/MineSweeperBoard.java:168-171 | Splitting a record at its commas gives back exactly its five fields: time, won flag, lost flag, mine rows, state rows. |
| Codec.EncodeExample | Server/MineSweeperBoard.java:168-209 | A 2x2 board at 5 seconds with mines on the diagonal and its top row revealed has the fields "5", "f", "f", "10 01 " and "__ OO ". |
| Codec.DecodeMines | Server/MineSweeperBoard.java:48-53 | Each decoded cell (i, j) holds a mine exactly when character j of mine row i is '1'. Any other character is no mine. |
| Codec.DecodeState | Server/MineSweeperBoard.java:54-64 | '_' decodes to revealed, 'F' to flagged and 'X' to questioned. Any other character leaves the cell hidden. |
| Codec.DecodeStates | Server/MineSweeperBoard.java:48-65 | Each decoded cell (i, j) holds the state that character j of state row i stands for, so it is one of the four states. |
| Codec.Decode | Server/MineSweeperBoard.java:38-68 | A decoded board is rectangular, with valid states and a time inside the int range. It is what the record's fields say: the time parsed from the first field, won and lost set exactly when their field is "t", one row per mine row, each as wide as the first mine row. Each cell holds a mine exactly when its mine character is '1', and holds the state its state character stands for. |
| Codec.DecodeEncode | Server/MineSweeperBoard.java:38-68 | Decoding the record of a board rebuilds it exactly. This holds for every rectangular board with at least one column, valid states and an int time. |
| Codec.ZeroColumnRecordFails | Server/MineSweeperBoard.java:44-47 | The record of a board whose rows have no cells does not decode. Its mine field splits into no rows, and reading the first row throws. |
| Ranking.CompareToAsWritten | Server/MineSweeperHandler.java:272-275 | compareTo as written is the 32-bit difference of the scores. When the true difference fits in an int, its sign orders by score. |
| Ranking.Compare | Server/MineSweeperHandler.java:272-275 | The intended ordering: negative, zero or positive exactly as the first score is below, equal to or above the second. |
| Ranking.CompareToOverflows | Server/MineSweeperHandler.java:272-275 | The written compareTo calls 1000 smaller than the lowest int. The intended ordering calls it larger. |
| Ranking.SortBy | Server/MineSweeperHandler.java:172 | The sort returns a permutation of its input. |
| Ranking.SortBySorted | Server/MineSweeperHandler.java:172 | Under the intended ordering the sort yields descending scores. |
| Ranking.SortByStable | Server/MineSweeperHandler.java:172 | The sort is stable: records of equal score keep their input order. |
| Ranking.NewEntryRanksAfterEqualScores | Server/MineSweeperHandler.java:170-172 | The new record, appended last, ranks after every stored record with the same score. |
| Ranking.UpdateRanking | Server/MineSweeperHandler.java:164-180 | When the stored records plus the new one number at least five, the new table has five records. It is sorted descending, drawn from those records, and no dropped record scores above a kept one. With fewer records the update fails. |
| Ranking.UpdateRankingAsWritten | Server/MineSweeperHandler.java:164-180 | The update with the written compareTo has the same length and failure behaviour and draws from the same records. |
| Ranking.AsWrittenPutsLowestFirst | Server/MineSweeperHandler.java:272-275 | Sorting with the written compareTo puts a lowest-int record ahead of any table of positive scores. |
| Ranking.IntendedDropsLowest | Server/MineSweeperHandler.java:164-180 | Under the intended ordering, a record scoring below a full table goes last and is left out of the top five. |
| Ranking.LowestScoreTakesFirstPlace | Server/MineSweeperHandler.java:272-275 | A NAME with score -2147483648 takes rank 1 over a full table of positive scores under the written update, and is dropped by the intended one. |
| Ranking.MinScore | Server/MineSweeperHandler.java:223-224 | The lowest stored score: one of the scores, and no score lies below it. |
| Ranking.CheckHighScore | Server/MineSweeperHandler.java:212-231 | An empty leaderboard throws. Otherwise the time qualifies iff it is strictly greater than some stored score, that is, greater than the lowest. |
| Ranking.Spaces | Server/MineSweeperHandler.java:153-155 | The separator loop yields max(0, n) spaces. |
| Ranking.ScoreEntry | Server/MineSweeperHandler.java:150-157 | A SCORES entry is the name, then spaces, then the score text, then a comma. Its length is max(20, name + score length) + 1. |
| Ranking.ScoresText | Server/MineSweeperHandler.java:149-158 | The payload holds at least 21 characters per row. |
| Ranking.ScoresTextAppend | Server/MineSweeperHandler.java:150-157 | The payload grows by exactly one entry per row, in row order. |
| Session.Click | Server/MineSweeperHandler.java:76-80 | Button "0" gives the board's reveal of the cell, and button "1" gives the board's flag click. Any other button leaves the board unchanged. Mines, time and won never change, and valid states stay valid. |
| Session.Settle | Server/MineSweeperHandler.java:81-85 | Won becomes true iff it was clear and the board passes the win test. On an empty leaderboard a new win throws and nothing is sent. Otherwise the replies are exactly GETNAME, when the game is newly won and the time beats some stored score, and then the BOARD record. |
| Session.HandleUpdate | Server/MineSweeperHandler.java:70-87 | A reveal or flag outside the grid throws and changes nothing. Otherwise won is set exactly when it was clear and the clicked board passes the win test, and won is never cleared. The fault follows the high-score test. Without a fault the replies are exactly GETNAME, when the game is newly won with a time that beats some stored score, and then the BOARD record. |
| Session.LostBoardCanBeWon | Server/MineSweeperHandler.java:81-84 | UPDATE does not look at lost. Revealing the last safe cell of a lost board wins it, leaving it both won and lost, and prompts for a name. |
| Session.Tick | Server/MineSweeperHandler.java:236-260 | Before the first NEW there is no clock. With no clock, time at or below 0, or the game over, a tick changes nothing and sends nothing. Otherwise the time drops by one. At 0 the game is lost with every mine revealed and BOARD is sent; otherwise TIME is sent with the new time. |
| Session.ClockRunsOut | Server/MineSweeperHandler.java:236-260 | A running game, with its clock started and t seconds left, is lost after exactly t ticks. The replies are TIME t-1 down to 1, then the BOARD record of the lost game. |
| Session.TicksAfterGameOver | Server/MineSweeperHandler.java:239-240 | Without a clock, or once the game is over, any number of ticks change nothing and send nothing. |
| Session.HandleNew | Server/MineSweeperHandler.java:88-97 | NEW installs the freshly laid board and starts the clock. Its only reply is the BOARD record of that board, which decodes back to it. The leaderboard is kept. |
| Session.NewBoardIsDefault | Server/MineSweeperBoard.java:16-33 | Enough distinct draws give a default board: 16x16, 40 mines, all hidden, 1000 seconds. |
| Session.HandleLoadFrom | Server/MineSweeperHandler.java:109-126 | A record that decodes replaces the board. One that throws leaves the board unchanged. The board is sent either way. |
| Session.LoadOwnRecord | Server/MineSweeperHandler.java:109-126 | Loading the record of the current board gives back the same session state. |
| Session.HandleScore | Server/MineSweeperHandler.java:146-160 | SCORE changes nothing and sends one SCORES reply. Its payload is the entries of the stored rows in rank order, each name with its score text, so it holds at least 21 characters per stored row. |
| Session.NameTable | Server/MineSweeperHandler.java:172-180 | The records written back are sorted descending and drawn from the stored records plus the new one. No record left out scores above one kept. With five stored rows they are the intended top five. |
| Session.HandleName | Server/MineSweeperHandler.java:161-182 | NAME rewrites each stored rank with the sorted records, keeping the table length. It throws iff fewer than five records exist to write. With a full table the result is the intended top five. Board and clock are untouched and nothing is sent. |
| Session.StepKeepsInv | Server/MineSweeperHandler.java:69-188 | Every command and every clock tick keeps the session invariant: a rectangular board, valid states, an int time and at most five stored ranks. |

## Left out

- Server/MineSweeperServer.java and the client are not part of this model: they are the accept loop, thread pool and Swing interfaces.
- Socket streams and `readUTF` framing are left out. Commands arrive already parsed, so `Byte.parseByte` and `Integer.parseInt` failures on command arguments are not modelled.
- JDBC access is left out:
  - the stored leaderboard is part of the session state;
  - a stored game record is the input of LOADFROM;
  - failed queries and a LOADFROM slot that does not exist are not modelled.
- GETLOAD, GETSAVE, SAVETO and EXIT are left out: they only move stored captions and records in and out of the database.
- The `Timer` and the unsynchronized pre-check in `Clock.run` are left out. Each tick is one atomic step. A failed write of a TIME or BOARD reply is not modelled.
- `Math.random` is left out. The random mine layout comes in as a sequence of draws, and NEW brings a board as the default constructor lays it out.
- Board.PlaceMines: returns None when the draws run out before 40 mines are laid, where the source keeps drawing.
- Ranking.CheckHighScore: takes the true lowest score. The source takes the first element after sorting with compareTo as written, which need not be the lowest when the difference of two stored scores leaves the int range, that is, when they lie 2^31 or more apart. This is the overflow of the first finding.
- Session.HandleName: assumes the stored ranks are 1 to n with n at most five, as the rank-limited queries read them. It also sorts with the intended ordering, where the source sorts with compareTo as written. The two differ only when the difference of two scores leaves the int range, that is, when they lie 2^31 or more apart, and the first finding shows what the written sort does then.
- Session.Settle: uses the corrected win test. On a board with 128 or more rows or columns whose first 128 rows and columns are clear, the source's test throws and ends the session, as the second finding shows.
- Session.HandleUpdate: uses the corrected win test through Session.Settle, with the same difference on boards with 128 or more rows or columns.
- Ranking.UpdateRankingAsWritten: sorts by stable insertion, where Java's `List.sort` is a TimSort. The two give the same order under a consistent comparator. Under the overflowing compareTo they need not agree in general, so this member states only length, failure and provenance. The order on the first finding's input is stated by Ranking.AsWrittenPutsLowestFirst.
- Ranking.ScoresText: states a length bound only. The layout of each entry is stated by Ranking.ScoreEntry, and the order of entries by Ranking.ScoresTextAppend.
- Ranking.ScoreEntry: counts characters where Java's `String.length` counts UTF-16 code units. The two differ only for names outside the Basic Multilingual Plane.
- Codec.ParseInt: accepts ASCII digits only, where Java's `Integer.parseInt` also accepts other Unicode decimal digits.
- Board.SetFlag: increments states unboundedly where the source's byte would wrap at 127. Valid states never reach that.

## Findings

| source | as written | input that shows it | evidently intended | confidence | as-written member | corrected member |
|---|---|---|---|---|---|---|
| Server/MineSweeperHandler.java:272-275 | compareTo returns `this.score - o.score` in 32-bit arithmetic, which wraps when the scores lie 2^31 or more apart | NAME with score -2147483648 against five stored scores between 1 and 2147483647: the new record sorts first and takes rank 1 | order by score without overflow, so the new record sorts last and is dropped | high, not executed | Ranking.LowestScoreTakesFirstPlace | Ranking.UpdateRanking |
| Server/MineSweeperBoard.java:212-220 | checkWinCon counts rows and columns with `byte` counters, which wrap from 127 to -128 and then index the grid at -128 | LOADFROM of a record with won field f and one row of 128 mine-free revealed cells, then any UPDATE: the win test throws an index exception instead of reporting a win | int counters, so the test scans every cell of any board | medium, not executed | Board.WideBoardWinThrows | Board.CheckWinCon |

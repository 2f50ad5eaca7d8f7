# TicTacToe lose-pattern learning, modelled in Dafny

This project models the game and learning logic of `TicTacToe.java`. The computer plays X
against a person and remembers the games it lost. Each lost game goes to a lose-record file in
all four quarter-turn orientations of the board. At start-up the records are generalised into
lose patterns. During play the computer never picks a move that would repeat a pattern stored
from entry 1 of the pattern array on; entry 0 is never consulted.

The model follows the structure of the class:

- `JavaText`: the Java semantics the logic depends on:
  - 32-bit `int` wrap-around;
  - truncating `/` and `%`;
  - `String.trim`, `indexOf`, `Integer.parseInt` and `String.valueOf`;
  - substring search.
- `Board`:
  - the one-digit cell code `(x-1)*3+y` and its inverse;
  - the quarter turn about the centre;
  - move records, as sequences of cell codes.
- `LoseRecordStore`:
  - `saveLoseRecord`: the four orientations, rendered as `(x,y)-(x,y)-...`, with repeats dropped by the `**` substring test;
  - the line parser of `loadLoseRecords`, and the loader itself.
- `LosePatterns`: `getLosePatterns`, stated over the list of patterns:
  - seeds;
  - the per-length tally of `(L-1)`-move prefixes;
  - promotion when a prefix covers all `9-L+1` remaining moves.
- `MoveSelection`:
  - `getLoseHistoricalMoves`;
  - the draw loop of `computerMove` and `personMoveSimulated`.
- `GameEnd`: `hasSameX`, `hasDiagonal` and `isGameEnded`, proved equal to "one side holds a whole line".
- `InputValidation`:
  - the `\s*\d\s*,\s*\d\s*` format test;
  - `getInputMessage`;
  - the prompt loop of `personMove`.
- `Game`:
  - start-up: load, then derive the `losePatterns` array;
  - `play` with `nextMove`;
  - the verdict (`isPersonWin`/`isComputerWin`), and the save after a person's win.

Some consequences of the code that a reader might not expect:

- **A save writes four lines for a diagonal game.**
  - A save writes four lines for every game with at least one move off the centre (`LoseRecordStore.SaveLineCount`).
  - Only a game whose moves are all the centre writes one line.
  - A turn keeps the order of the moves, so for `(1,1)-(2,2)-(3,3)` the 180-degree line `(3,3)-(2,2)-(1,1)` differs from the identity line and is written too.
- **Length-7 records promote nothing.**
  - The comment at `TicTacToe.java:181-183` speaks of 8-step records giving 7-step patterns. Three records of length 7 sharing the prefix `123456` give seeds of length 6, and no level examines length 6 (`LosePatterns.ShortRecordsPromoteNothing`).
  - Records of length 8 promote (`LosePatterns.FullRecordsPromote`).
- **`isGameEnded` has no notion of a tie.** A full board with no line is not an ended game (`GameEnd.FullBoardNotEnded`). The game stops at nine moves only through the loop bound of `play`.
- **A bad lose-record file stops the program.**
  - A line the loader cannot parse ends loading; that entry and every later one stay `null`.
  - An empty line loads as an empty record.
  - Either one makes `getLosePatterns` throw, so start-up fails (`Game.Startup`).
- **The first pattern is never consulted.** The scan of `getLoseHistoricalMoves` starts at index 1 (`MoveSelection.FirstPatternIgnored`).
- **A repeated lose move narrows the draw.**
  - A lose move found through two patterns is counted twice in the bound passed to `nextInt` (`MoveSelection.HistoricalLoseMovesCount`).
  - The bound then falls below the number of eligible cells, and the last eligible cell can never be drawn (`MoveSelection.RepeatNarrowsDraw`).

The random generator is a parameter:
- `ComputerMove` and `PersonMoveSimulated` take the drawn value.
- `Play` takes a function from the turn number to a natural number, reduced into the draw range.

The console input is a sequence of lines. The lose-record file is an optional sequence of lines for loading. Saving returns the lines that would be appended.

## Model

| member | source | states |
|---|---|---|
| JavaText.Wrap32 | TicTacToe.java:159 | The value of an `int` expression is in the 32-bit range, congruent to the mathematical value modulo 2^32, and equal to it when it fits. |
| JavaText.JavaDiv | TicTacToe.java:278 | Truncating division and remainder recombine to the dividend (Java's `a / b * b + a % b == a`). |
| JavaText.JavaRem | TicTacToe.java:279 | Java's remainder keeps the sign of the dividend and is smaller in size than the divisor. |
| JavaText.TrimWindowOf | TicTacToe.java:443-444 | `Trim` (`String.trim`) keeps exactly the window from the first to the last character above U+0020; everything outside it is at most U+0020, and the text is empty when no character is above. |
| JavaText.IndexOf | TicTacToe.java:151-152 | The result is the first position of the character, or -1 exactly when the character does not occur. |
| JavaText.ParseInt32 | TicTacToe.java:156-157 | A parsed number fits in an `int`, a single digit parses to its value, and a parsed text has a digit. |
| JavaText.IntText | TicTacToe.java:159 | `String.valueOf` of a number 0..9 is its one digit, and the text starts with `-` exactly for negative values. |
| JavaText.NatText | TicTacToe.java:159 | The digits of a natural number, most significant first, read back as that number. |
| JavaText.IntTextParses | TicTacToe.java:156-159 | Round trip: `Integer.parseInt` reads the text `String.valueOf` writes for any `int` back as that value. |
| Board.Encode | TicTacToe.java:19 | A position on the board has a code from 1 to 9. |
| Board.Decode | TicTacToe.java:278-279 | Every code 1..9 decodes to a position on the board whose code is that code. |
| Board.DecodeEncode | TicTacToe.java:278-279 | Decoding the code of a board position gives the position back. |
| Board.EncodeInjective | TicTacToe.java:19 | Different board positions have different codes. |
| Board.Rotate | TicTacToe.java:288-290 | A quarter turn maps the board onto itself. |
| Board.RotateNDistinct | TicTacToe.java:285-292 | A cell other than the centre takes four different positions in the four orientations. |
| Board.RotateNCentre | TicTacToe.java:285-292 | The centre stays the centre under every number of turns. |
| Board.FullTurn | TicTacToe.java:285-292 | Four quarter turns (`RotateN`) bring every position back. |
| Board.TurnAt | TicTacToe.java:287-292 | After n passes of the turn loop (`Turn`), each move's position is its original position turned n times. |
| Board.EncodeDecodeRecord | TicTacToe.java:430-436 | Decoding a record and re-encoding it with `updateMoveRecord` gives the record back. |
| Board.RotateRecordValid | TicTacToe.java:312-313 | A turned valid record is a valid record of the same length: no move is lost or duplicated. |
| Board.RotateRecordAt | TicTacToe.java:312-313 | The i-th move of a turned record (`RotateRecord`) is the i-th move's cell turned. |
| Board.TurnsDiffer | TicTacToe.java:285-315 | Two different orientations disagree at every move that is not the centre. |
| Board.TextHas | TicTacToe.java:361 | A cell's digit occurs in the record's text exactly when the cell was played. |
| Board.AppendValid | TicTacToe.java:372 | Appending an unplayed cell to a record with room keeps it valid. |
| Board.PrefixValid | TicTacToe.java:372 | Dropping the last move of a valid record leaves a valid record. |
| LoseRecordStore.Serialise | TicTacToe.java:318-324 | A save line for n moves has 6n-1 characters and no `*`. |
| LoseRecordStore.MoveText | TicTacToe.java:156-159 | The text between the brackets of a rendered move parses to its cell code. |
| LoseRecordStore.PairCodeOf | TicTacToe.java:159 | The loader's 32-bit code of the coordinates of a board position is the position's code. |
| LoseRecordStore.NextPairAt | TicTacToe.java:149-154 | When no bracket precedes a rendered move, one pass of the inner loop (`NextPair`) reads that move and continues after its `)`. |
| LoseRecordStore.ParseSerialise | TicTacToe.java:147-163 | Round trip: the loader's line parser (`ParseLine`) reads a save line back as the text of the codes it was written from. |
| LoseRecordStore.AlreadyWrittenExact | TicTacToe.java:325 | On lines of equal length without `*`, the `indexOf("**"+line)` test holds exactly when the line was already written. |
| LoseRecordStore.FirstOccurrences | TicTacToe.java:325-332 | Exactly the candidates not seen before are kept, with no line twice. |
| LoseRecordStore.WriteLinesKeepsFirst | TicTacToe.java:325-332 | The save's substring test (`WriteLines`) writes exactly the first occurrence of each orientation line. |
| LoseRecordStore.SaveLoseRecord | TicTacToe.java:267-339 | The lines written are the four orientations without repeats, identity first. The move record is left three turns round; one more turn restores the game. |
| LoseRecordStore.FourTurnsBack | TicTacToe.java:285-315 | Turning the record left by three turns once more gives the played record. |
| LoseRecordStore.OrientationParses | TicTacToe.java:318-324 | Each of the four orientation lines (`Orientations`) reads back as the text of the record turned that many times. |
| LoseRecordStore.SavedLinesParse | TicTacToe.java:147-163 | Every line a save writes reads back as the text of one of the four orientations of the lost game. |
| LoseRecordStore.OrientationsDistinct | TicTacToe.java:285-324 | With a move off the centre, the four orientation lines are pairwise different. |
| LoseRecordStore.OrientationsAllCentre | TicTacToe.java:285-324 | When every move is the centre, all orientation lines are the identity line. |
| LoseRecordStore.SaveLineCount | TicTacToe.java:325-332 | A save writes four lines, or one when every move is the centre. |
| LoseRecordStore.SaveOffCentreFour | TicTacToe.java:325-332 | With a move off the centre, all four orientations are written in order. |
| LoseRecordStore.SaveCentreOnce | TicTacToe.java:325-332 | A game of centre moves only writes the identity line once. |
| LoseRecordStore.LoadParsed | TicTacToe.java:147-169 | An entry is loaded exactly when its line and every earlier line parsed, and then it holds the parsed text; from the first failure on, entries stay `null`. |
| LoseRecordStore.LoadLoseRecords | TicTacToe.java:134-166 | A missing file leaves no records. Otherwise there is one entry per line; an entry is present exactly when its line and every earlier line parse, and a present entry holds what the parser read from its line. |
| LoseRecordStore.LoadWellFormed | TicTacToe.java:147-163 | When every line parses, every line loads as its parsed text. |
| LoseRecordStore.LoadSaved | TicTacToe.java:127-175 | Loading the lines of one save gives, for each line, an orientation of the lost game. |
| LoseRecordStore.LoadAppend | TicTacToe.java:284 | Appending lines to a file whose lines all parse keeps the records already loaded and adds those of the new lines. |
| LosePatterns.Seeds | TicTacToe.java:192-194 | Each seed is its lose record with exactly the last move removed. |
| LosePatterns.Bump | TicTacToe.java:234-245 | Counting one more pattern adds a group or keeps the number of groups. |
| LosePatterns.BumpCountOf | TicTacToe.java:234-245 | Counting a prefix adds one to its count and leaves every other count alone. |
| LosePatterns.BumpKeys | TicTacToe.java:241-245 | A new prefix opens a group at the end; a known one changes no key. |
| LosePatterns.Tally | TicTacToe.java:229-247 | The groups have distinct keys of length L-1 and positive counts. Each key's count is the number of length-L patterns with that prefix, and the counts add up to the number of length-L patterns. |
| LosePatterns.TallyExact | TicTacToe.java:226-247 | A prefix has a group exactly when it occurs, each group counts its occurrences, and the groups fit in the `newPattern` array. |
| LosePatterns.Promote | TicTacToe.java:255-263 | Every promoted pattern has length L-2. |
| LosePatterns.PromoteExact | TicTacToe.java:255-263 | A pattern is promoted exactly when it is the shortened key of a group whose count is `9-L+1`. |
| LosePatterns.PromoteBound | TicTacToe.java:255-263 | Each promotion uses up `9-L+1` counted patterns. |
| LosePatterns.Level | TicTacToe.java:209-264 | One level keeps the existing patterns in place and only appends patterns of length L-2. |
| LosePatterns.LevelSkipped | TicTacToe.java:218-220 | With fewer than three patterns of length L the level adds nothing. |
| LosePatterns.LevelAdds | TicTacToe.java:222-263 | A level that runs adds q exactly when some (L-1)-move prefix starts exactly `9-L+1` length-L patterns and q is that prefix without its last move. |
| LosePatterns.LevelCount | TicTacToe.java:222-263 | A level that runs adds q once for every distinct (L-1)-move prefix that starts exactly `9-L+1` length-L patterns and shortens to q, so one q can be added more than once. |
| LosePatterns.PrefixesOccur | TicTacToe.java:229-247 | A prefix is among the `(L-1)`-move prefixes of length-L patterns exactly when it occurs at least once. |
| LosePatterns.PromoteCount | TicTacToe.java:255-263 | Over groups with distinct keys, the promotion appends q once for each group whose count is `9-L+1` and whose key shortens to q. |
| LosePatterns.PromotedKeysCons | TicTacToe.java:255-263 | The first group adds one key to the promoted set exactly when its count is `9-L+1` and its key shortens to q. |
| LosePatterns.LevelBound | TicTacToe.java:255-263 | A level adds at most one pattern per `9-L+1` patterns of length L. |
| LosePatterns.DeriveBound | TicTacToe.java:191 | The derivation (`Derive`) never needs more entries than the `2 * loseRecords.length` the array has, so line 259 never writes past its end. |
| LosePatterns.DeriveKeepsSeeds | TicTacToe.java:192-195 | `Derive` keeps the seeds at the front of the array, and appends only patterns of length 5, 3 or 1. |
| LosePatterns.ShortRecordsPromoteNothing | TicTacToe.java:209-220 | Three lose records of length 7 sharing `123456` promote nothing. |
| LosePatterns.FullRecordsPromote | TicTacToe.java:189-264 | Three lose records of length 8 covering the three cells after `123456` promote `12345`. |
| MoveSelection.LoseMovesFree | TicTacToe.java:386-392 | No lose move names a cell already played. |
| MoveSelection.HistoricalLoseMoves | TicTacToe.java:375-397 | No historical lose move names a cell already played. |
| MoveSelection.LoseMovesExact | TicTacToe.java:383-393 | A character is a lose move exactly when a present pattern is one move longer than the game, starts with it, and ends with that character on a free cell. |
| MoveSelection.HistoricalLoseMovesExact | TicTacToe.java:378-393 | The same, over the pattern entries from index 1 on. |
| MoveSelection.FirstPatternIgnored | TicTacToe.java:378 | Whatever entry 0 of the pattern array holds, the lose moves are the same. |
| MoveSelection.HistoricalLoseMovesCount | TicTacToe.java:378-393 | A character occurs in the lose moves as many times as there are pattern entries from index 1 on that forbid it. |
| MoveSelection.LoseMovesCount | TicTacToe.java:383-393 | Over any range of entries, a character occurs once per entry in the range that forbids it. |
| MoveSelection.LoseMovesCountSnoc | TicTacToe.java:383-393 | One more entry adds one occurrence of a character exactly when that entry forbids it. |
| MoveSelection.RepeatedLoseMove | TicTacToe.java:383-393 | An example: two patterns forbidding cell 5 after the move 1 put `5` into the lose moves twice. |
| MoveSelection.EligibleFrom | TicTacToe.java:359-368 | The candidate list is ascending, and every candidate is a cell that is neither played nor a lose move. |
| MoveSelection.EligibleFromComplete | TicTacToe.java:359-368 | No cell that is neither played nor a lose move is missing from the candidates. |
| MoveSelection.EligibleCellCount | TicTacToe.java:356 | At least `9 - moves - forbidden cells` cells are eligible. |
| MoveSelection.EligibleCount | TicTacToe.java:356 | At least the `nextInt` bound `9 - moves - lose moves` cells are eligible, so every draw finds a cell. |
| MoveSelection.PickMove | TicTacToe.java:358-368 | The draw loop with `tempMove = k` stops on the k-th eligible cell in ascending order. |
| MoveSelection.SkipTaken | TicTacToe.java:361-367 | The inner skip loop, started just above one eligible cell, stops on the next one. |
| MoveSelection.NextEligible | TicTacToe.java:361-367 | An eligible cell strictly between two consecutive candidates' bounds is the next candidate. |
| MoveSelection.ComputerMove | TicTacToe.java:348-373 | It fails exactly when the `nextInt` bound is not positive. Otherwise it appends the (draw+1)-th eligible cell, a cell neither played nor forbidden, and the record stays valid. |
| MoveSelection.PersonMoveSimulated | TicTacToe.java:484-502 | It fails exactly on a full board. Otherwise it appends the (draw+1)-th free cell, and the record stays valid. |
| MoveSelection.RepeatNarrowsDraw | TicTacToe.java:356 | A repeated lose move makes the draw bound smaller than the number of eligible cells. |
| GameEnd.CoordsEncode | TicTacToe.java:668-671 | `moveX` and `moveY` (`Xs`, `Ys`) hold the row and column of every move: each pair is on the board and encodes back to the move. |
| GameEnd.MovesFrom | TicTacToe.java:551-567 | One side's moves are the record's entries at positions ii, ii+2, ..., in order. |
| GameEnd.CountThree | TicTacToe.java:557 | With no cell twice, three moves on a three-cell line means the whole line is held, and conversely. |
| GameEnd.CountFromLine | TicTacToe.java:551-555 | Counting the entries equal to a value is counting the side's moves on the matching line. |
| GameEnd.HasAtMoves | TicTacToe.java:623-649 | A diagonal flag is set exactly when the side played that cell. |
| GameEnd.SameRowTaken | TicTacToe.java:545-576 | `hasSameX` (`HasSameX`) on `moveX` for one side holds exactly when that side holds row a. |
| GameEnd.SameColTaken | TicTacToe.java:677 | `hasSameX` with the arrays swapped holds exactly when the side holds column a. |
| GameEnd.DiagonalTaken | TicTacToe.java:611-658 | The diagonal pass for one side (`HasDiagonalFor`) holds exactly when the side holds one of the two diagonals. |
| GameEnd.SideEnded | TicTacToe.java:676-686 | All of `isGameEnded`'s tests for one side, `HasDiagonal` included, amount to that side holding a line. |
| GameEnd.GameEndedIffWin | TicTacToe.java:660-693 | `isGameEnded` (`IsGameEnded`) holds exactly when the computer or the person holds a whole row, column or diagonal. |
| GameEnd.MovesAppendOwn | TicTacToe.java:513-520 | A move joins the moves of the side whose turn it is. |
| GameEnd.MovesAppendOther | TicTacToe.java:513-520 | A move leaves the other side's moves unchanged. |
| GameEnd.OtherSideUnchanged | TicTacToe.java:513-520 | After an even number of moves the person's moves are unchanged by the next move, after an odd number the computer's. |
| GameEnd.FirstWinIsOwn | TicTacToe.java:105-112 | When no one held a line and someone does after a move, it is the side that moved, and the other holds none. |
| GameEnd.WinnerMovedLast | TicTacToe.java:105-112 | A game that first ends on a move was won by the side that made that move alone. |
| GameEnd.DiagonalWinEnds | TicTacToe.java:611-658 | The computer's 1, 5, 9 ends the game as its win. |
| GameEnd.FullBoardNotEnded | TicTacToe.java:660-693 | Every full board on which neither side holds a line is not an ended game. |
| GameEnd.DrawnBoard | TicTacToe.java:660-693 | An example: the full board `123546879` is valid and not an ended game. |
| InputValidation.SkipSpaces | TicTacToe.java:442 | The greedy `\s*` stops at the first non-space character at or after its start. |
| InputValidation.MatchesIffNonSpace | TicTacToe.java:442 | A line matches `\s*\d\s*,\s*\d\s*` (`MatchesMoveFormat`) exactly when, spaces aside, it is a digit, a comma and a digit. |
| InputValidation.Marks | TicTacToe.java:442 | A matching line has a digit, a comma and a digit in that order, and only `\s` characters elsewhere. |
| InputValidation.FirstComma | TicTacToe.java:443 | On a matching line `indexOf(",")` finds the comma between the digits. |
| InputValidation.ParsedHalves | TicTacToe.java:443-444 | The two `parseInt(...trim())` calls read the first and the second digit. |
| InputValidation.MoveMessage | TicTacToe.java:446-457 | The message is one digit exactly when the pair is on the board and its cell is free, and then it is that cell's digit. |
| InputValidation.GetInputMessage | TicTacToe.java:438-464 | The format message comes back exactly for lines that do not match the move format. |
| InputValidation.InputMessageExact | TicTacToe.java:438-464 | The message is one digit exactly when the line is accepted (well formed, on the board, free), and then it is the code of the named cell. |
| InputValidation.PersonMoveFrom | TicTacToe.java:473-481 | A finished prompt loop extends the record by one move. When the input ends first, the pending message is not a digit. |
| InputValidation.PersonMoveExact | TicTacToe.java:466-482 | The person's move (`PersonMove`) is the cell named by the first accepted line, and without an accepted line the input runs out. |
| InputValidation.PersonMoveFails | TicTacToe.java:473-479 | From a pending non-digit message the loop fails exactly when no line is accepted. |
| InputValidation.PersonMoveFirst | TicTacToe.java:473-481 | From a pending non-digit message the loop returns the cell of the first accepted line. |
| InputValidation.LinesUsedFirst | TicTacToe.java:473-478 | The loop reads up to and including the first accepted line. |
| InputValidation.PersonMoveLine | TicTacToe.java:473-481 | A move taken from the input names the line it came from: no earlier line is accepted, that line is, the move is its cell, and the lines read are those up to it. |
| InputValidation.FirstAccepted | TicTacToe.java:473-478 | When some line from a point on is accepted and none before that point is, there is a first accepted line. |
| InputValidation.PersonMoveFromValid | TicTacToe.java:481 | The person's move is a new cell, so a valid record with room stays valid. |
| InputValidation.SpacedMoveAccepted | TicTacToe.java:442-452 | ` 2 ,\t3 ` is accepted as row 2, column 3, cell 6. |
| Game.FirstBadRecord | TicTacToe.java:192-193 | It reports the first record `getLosePatterns` cannot cut, with whether it is `null`, and none exactly when every record is present and non-empty. |
| Game.Patterns | TicTacToe.java:191 | The derived patterns fit in twice the number of records. |
| Game.PatternArray | TicTacToe.java:191-195 | The array has `2 * loseRecords.length` entries: the derived patterns at the front, `null` after them. |
| Game.Startup | TicTacToe.java:64-80 | Start-up succeeds exactly when every loaded record is present and non-empty, and then yields the pattern array. Otherwise it names the first bad record, before which all records are usable. |
| Game.StartupWithoutFile | TicTacToe.java:165-166 | Without a lose-record file the pattern array is empty. |
| Game.StartupAfterSaves | TicTacToe.java:284 | Appending the lines of a save to a file that starts up keeps it starting up. |
| Game.SavedUsable | TicTacToe.java:318-324 | The lines of a save load as present, non-empty records. |
| Game.Draw | TicTacToe.java:356 | The draw lies in `[0, bound)` when the bound is positive. |
| Game.Play | TicTacToe.java:98-125 | A finished game is a valid record that ended or filled the board, and no earlier position had ended. Every even-index move is the draw's pick among the cells eligible at that point, and every odd-index move is the cell of an accepted input line. The verdict names the side holding a line, or a tie, and the lose record is saved exactly when the person won. |
| Game.PlayMoves | TicTacToe.java:105-112 | The loop stops on an ended game or after nine moves, no earlier position ended, the computer plays at even lengths and the person at odd lengths (`nextMove`), each move as in `Play`. |
| Game.ComputerTurn | TicTacToe.java:353-372 | The computer's turn fails exactly when the `nextInt` bound is not positive; otherwise it appends the eligible cell the draw selects. |
| Game.PersonTurn | TicTacToe.java:466-481 | The person's turn fails exactly when no remaining line is accepted; otherwise it appends the cell of an accepted line and consumes at least one line. |
| Game.PersonMoveTyped | TicTacToe.java:473-481 | The prompt loop fails exactly when no line is accepted, and otherwise its move comes from an accepted line and the unread lines remain. |
| Game.ComputerAdvance | TicTacToe.java:513-516 | A computer move drawn from the eligible cells keeps the loop's invariant: a valid record, no earlier position ended, the unread input a suffix of the input, every move explained. |
| Game.PersonAdvance | TicTacToe.java:517-518 | A person's move from an accepted line keeps the same invariant, with the lines it read consumed. |
| Game.MovesExtend | TicTacToe.java:513-520 | A move made by the side of the record's parity keeps every move of both sides explained. |
| Game.PersonMoveFits | TicTacToe.java:476-481 | An accepted line among the unread ones is an accepted line of the whole input. |
| Game.Conclude | TicTacToe.java:114-123 | Once the loop ends, the verdict matches who holds a line, and only a person's win is saved. |
| Game.JudgeExact | TicTacToe.java:525-543 | `isPersonWin` and `isComputerWin` (`IsPersonWin`, `IsComputerWin`, `Judge`) hold exactly when the person, respectively the computer, holds a line, and neither when no one does. |
| Game.EndedByLast | TicTacToe.java:105-112 | A game that ended on its last move, and not before, was won by the side of the record's parity, and only by it. |
| Game.PrefixesNotEnded | TicTacToe.java:105-112 | A move from an unended position keeps every earlier position unended. |
| Game.EmptyNotEnded | TicTacToe.java:660-693 | The empty board is not an ended game. |

## Left out

- Console output, the board drawing (`showTheMove`, `updateTicTacToeShape`, `resetTicTacToeShape`) and the `ticTacToeShape` array: they are presentation only.
- `main` and the constructor's default file name: the file is a parameter of `Game.Startup`, given as its lines, or `None` when the file does not exist.
- File writing: a save returns the lines it would append (`LoseRecordStore.SaveLoseRecord`). The `IOException` path that `saveLoseRecord` catches is not modelled.
- `java.util.Random`:
  - `ComputerMove` and `PersonMoveSimulated` take the drawn value.
  - `Play` takes a function from the computer's turn number to a natural number and reduces it into the draw range.
  - No distribution is modelled.
- The console reader: the person's input is a sequence of lines.
  - A new `BufferedReader` per line is not modelled.
  - At the end of input `readLine` returns `null`, the next `matches` throws, and the catch leaves the pending message, which `personMove` appends to the record. `showTheMove` then reaches `Integer.parseInt` on a non-digit (line 406), and the uncaught `NumberFormatException` ends the program. `PlayError.InputEnded`, carrying that message, models this crash.
- `hasSameY`: it is never called.
- `printStackTrace` output for the exceptions the loader and the save catch.
- `personMoveSimulated` inside `play`: `nextMove` calls `personMove`, and the simulated move is modelled on its own (`MoveSelection.PersonMoveSimulated`).
- JavaText.ParseInt32: the contract states the range, the one-digit case and the presence of a digit, but not the value of longer numbers; the game only needs the one-digit case, and `JavaText.IntTextParses` covers every text `String.valueOf` writes. Only ASCII `0`-`9` are digits here, while `Integer.parseInt` accepts every Unicode decimal digit (`Character.digit`): a hand-edited lose-record line such as `(١,٢)` loads in Java but fails to parse in the model, so `Game.Startup` fails where Java starts. The lines the program writes are ASCII.
- LoseRecordStore.LoadLoseRecords: a file that disappears between the loader's two passes is not modelled. The file's lines are read once.
- MoveSelection.ComputerMove: when the bound is not positive, `nextInt` throws and `play` ends without a verdict. This is modelled as `PlayError.EmptyDraw`.
- Game.Startup: the exceptions thrown on a `null` or empty record are not distinguished beyond the `StartupError` case, and they end the program instead of a game.

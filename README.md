# Tic-tac-toe over named pipes: a Dafny model of the game logic

The repository is three Windows programs. The server (`ttt/server.cpp`) keeps the board. It launches two peer processes and talks to each over its own named pipe. On every turn it sends the board as text to the peer whose symbol is to move. It reads a move number back and applies it, then tests for a win or a draw. One peer kind is an automated player (`bot1/bot1.cpp`), which always takes the lowest empty cell. The other is a console front end for a person (`human/human.cpp`).

This project models the game logic of all three programs. The pipes, the processes and the console are left out.

- `Board.dfy`, module `Board`: class `TicTacToeBoard`. It keeps the nine cells in an array. `Reset`, `MakeMove`, `CheckWinner` and `IsFull` are methods, and `Get` is the read-only `operator[]`. Each method is proved against a pure function on the cell sequence: `Accepts`, `WinnerFrom`/`Winner`, `Full`. `BoardMessage` is the text `getMove` sends.
- `Server.dfy`, module `Server`: `getMove` (`GetMove`) and the turn loop of `playGame`. `Step` is one pass of the loop body. `Run` runs the loop over a finite sequence of peer replies. `PlayTurn` is that pass on the board object, and `PlayGame` is the loop, proved to end exactly where `Run` ends. The lemmas give the loop invariant. They show that the state at the head of the loop stays consistent, and they describe every way the loop can exit.
- `Bot.dfy`, module `Bot`: the automated peer's round. It decodes the board text (`DecodeBoard`), picks the first empty cell (`ChooseMove`) and formats the reply (`BotReply`).
- `Human.dfy`, module `Human`: the clamp of the entered number (`Sanitize`) and the reply text (`HumanResponse`).
- `Wire.dfy`, module `Wire`: decimal text. `FormatInt` stands for `std::to_wstring`. `ParseInt` is a decimal-prefix reader standing for `_wtoi`.
- `Protocol.dfy`, module `Protocol`: lemmas that join the server to its peers.

Peers are modelled by what they answer. A game is fed a finite sequence of `PeerReply` values, one per request, in the order the server asks. A reply is either `Lost` (a failed `WriteFile` or `ReadFile`) or `Received(text)`. The mode only chooses which peer name (Human1, Human2, Bot1, Bot2) is asked for X and which for O. When the replies run out before the game ends, the outcome is `AwaitingReply`: the real loop would still be blocked on the pipe.

Points where the code's behaviour is easy to mistake:
- The server cannot tell a reply of `-1` from a failed read or write: both end the game as a failure of the peer asked.
- Text that is not a number is read by `_wtoi` as 0, which is a real move.
- A human's out-of-range entry is sent as `-1`, so it ends the game; the server's re-prompt branch for out-of-range moves is never reached by a human (`Protocol.HumanOutOfRangeEndsGame`).
- The move count is kept by `playGame`, not by the board.
- The bot makes a wide string of the text it reads, and that string ends at the first `L'\0'`; characters after it are never seen (`Bot.DecodeStopsAtNul`).

## Model

| member | source | states |
|---|---|---|
| `Board.TicTacToeBoard.constructor` | ttt/server.cpp:20-22 | a new board has exactly nine cells, all `' '` |
| `Board.TicTacToeBoard.Reset` | ttt/server.cpp:24-26 | after reset the board is a fresh nine-cell vector of `' '` |
| `Board.TicTacToeBoard.MakeMove` | ttt/server.cpp:28-34 | returns true iff `0 <= pos < 9` and the cell is `' '`; on success only cell `pos` changes, to `player`; on failure nothing changes; a set cell is never overwritten |
| `Board.WinnerFrom` | ttt/server.cpp:62-77 | the result is `' '` iff none of the eight lines holds three equal non-empty marks; otherwise it is the mark of a won line, and it is the mark of the first won line in the fixed order |
| `Board.TicTacToeBoard.CheckWinner` | ttt/server.cpp:62-77 | the pattern loop returns exactly `Winner(cells)`: the first won line's mark, or `' '` |
| `Board.TicTacToeBoard.IsFull` | ttt/server.cpp:79-84 | true iff no cell is `' '` |
| `Board.TicTacToeBoard.Get` | ttt/server.cpp:36-38 | `operator[]` reads cell `pos` of the board's contents and changes nothing; `Server.GetMove` builds the board message from it |
| `Board.BoardMessage` | ttt/server.cpp:162-167 | the board message has ten characters: the nine cells in index order, then `'\n'` |
| `Board.CountUpdate` | ttt/server.cpp:30 | writing one cell changes the count of a mark by exactly the cell's old and new values |
| `Board.CountPartition` | ttt/server.cpp:25 | on a board of marks, the counts of `' '`, `'X'` and `'O'` add up to the number of cells |
| `Server.ModeOf` | ttt/server.cpp:405-410 | a mode number is accepted iff it is 1, 2 or 3; 1 is Human vs Human and 3 is Bot vs Bot |
| `Server.PeerOf` | ttt/server.cpp:258-311 | the peer asked is a bot exactly in Bot vs Bot, or for O in Human vs Bot; X is always asked of Human1 or Bot1; Bot2 is asked only for O in Bot vs Bot |
| `Server.RosterDistinct` | ttt/server.cpp:258-311 | in every mode, X and O are played by different peers |
| `Server.ReceivedMove` | ttt/server.cpp:170-186 | the move is -1 exactly for a failed write or read, an empty read, or text whose leading integer is -1; otherwise it is the leading integer of the text |
| `Server.GetMove` | ttt/server.cpp:160-187 | the text sent is the board message; the move returned is -1 for a failed write or read or an empty read, else the reply's leading integer |
| `Server.Step` | ttt/server.cpp:255-345 | -1 stops the loop as a failure of the peer to move, with the state unchanged; any other refused or out-of-range move goes round again from the same state; the loop is left otherwise exactly when the accepted move wins or fills the board; no placed mark changes, and at most one move is counted |
| `Server.Run` | ttt/server.cpp:254-346 | over any replies, the loop never changes a mark placed before it, and each reply adds at most one to moveCount |
| `Server.PlayTurn` | ttt/server.cpp:255-345 | one pass of the loop body on the board object gives exactly the result of `Step`, and the board afterwards is the state that result carries |
| `Server.PlayGame` | ttt/server.cpp:191-346 | the loop started from an empty board, X to move and moveCount 0 ends with exactly the outcome and state of `Run` over the replies |
| `Server.StartAwaits` | ttt/server.cpp:191-193 | the start state is a valid loop-head state, with X to move and no moves made |
| `Server.StepAccepts` | ttt/server.cpp:321-345 | an accepted move places the mark and adds one to moveCount; the game stops with Won or Draw iff the new board has a winner or is full; otherwise the player toggles |
| `Server.WinnerIsMover` | ttt/server.cpp:322-336 | on a board nobody has won, placing a mark can only produce a win for that mark |
| `Server.FullIffNineMoves` | ttt/server.cpp:329-333 | on a consistent state, moveCount is between 0 and 9, and the board is full iff moveCount is 9 |
| `Server.StepKeepsAwaiting` | ttt/server.cpp:313-345 | a pass that goes round again keeps the loop invariant: every cell is a mark, moveCount is #X + #O, X is to move iff #X = #O (else #X = #O + 1), no winner, not full |
| `Server.StepEnds` | ttt/server.cpp:329-342 | a pass that leaves the loop ends in a consistent state: a win belongs to the player who just moved; a draw has a full board with no winner after nine moves; a failure is blamed on the peer of the player to move and leaves the state exactly as it was |
| `Server.RunEnds` | ttt/server.cpp:254-346 | from a loop-head state, the run over any replies ends in one of those described outcomes |
| `Server.GameEnds` | ttt/server.cpp:191-346 | whatever the peers reply, the game ends in a consistent state with at most nine moves, and with one of the described outcomes |
| `Bot.Narrow` | bot1/bot1.cpp:95 | copying a wide character into a `char` cell keeps the low byte, so a character below 256 is kept as it is |
| `Bot.UntilNul` | bot1/bot1.cpp:85-86 | the wide string built from the buffer is the longest prefix of the text without `L'\0'` |
| `Bot.DecodeStopsAtNul` | bot1/bot1.cpp:86-96 | whatever follows the first `L'\0'` of the text is not seen: the board is built from the text before it |
| `Bot.CellsFrom` | bot1/bot1.cpp:93-96 | cell i is the narrowed character i of the text for i < min(9, length), else `' '`; anything after the ninth character is ignored |
| `Bot.DecodeBoard` | bot1/bot1.cpp:86-96 | the index loop over the wide string builds exactly `Decode(text)` |
| `Bot.FirstEmpty` | bot1/bot1.cpp:99-110 | the result is -1 iff no cell is `' '`; otherwise it is the smallest index whose cell is `' '` |
| `Bot.ChooseMove` | bot1/bot1.cpp:99-105 | the search loop, with its early exit, returns `FirstEmpty(cells)` |
| `Bot.BotReply` | bot1/bot1.cpp:93-113 | the reply is the decimal form of the first empty cell of the decoded board, followed by `"\n"` |
| `Human.Sanitize` | human/human.cpp:95-98 | the move sent is always in [-1, 8]; a move in [0, 8] is sent unchanged; any other becomes -1 |
| `Human.HumanResponse` | human/human.cpp:101 | the reply ends with `"\n"`, and its leading integer is the sanitised move |
| `Wire.FormatInt` | bot1/bot1.cpp:113 | `std::to_wstring` gives a non-empty text that starts with `'-'` exactly for negative numbers, followed by digits only |
| `Wire.ParseInt` | ttt/server.cpp:185 | the leading integer is at most 0 after a `'-'` and at least 0 otherwise, and it is 0 for text that starts with neither a sign nor a digit |
| `Wire.NatDigits` | bot1/bot1.cpp:113 | the decimal form of a natural number is a non-empty run of digits without a leading zero |
| `Wire.DigitRun` | ttt/server.cpp:185 | the digit run read is the longest prefix of the text made of digits |
| `Wire.ParseFormat` | ttt/server.cpp:185 | reading the decimal form of any integer, followed by a non-digit, gives back that integer |
| `Wire.MoveMessage` | human/human.cpp:101 | a move message ends in `'\n'`, and its leading integer is the move |
| `Protocol.BotDecodesBoardMessage` | bot1/bot1.cpp:93-96 | for nine narrow cells none of which is `'\0'`, decoding the server's board message gives back exactly those cells |
| `Protocol.BotMoveAccepted` | bot1/bot1.cpp:100-105 | on any board that is not full, the bot's move is one `makeMove` accepts |
| `Protocol.BotReplyRead` | bot1/bot1.cpp:113 | the server reads the bot's reply to its board message as the bot's chosen move |
| `Protocol.BotTurnMoves` | ttt/server.cpp:322-329 | at the head of the loop, a bot's turn is never refused and never a failure: it places the mark on the first empty cell and adds one move |
| `Protocol.HumanReplyRead` | human/human.cpp:95-101 | the server reads a human's reply as the sanitised entry, which is always -1 or a cell index, so it never reaches the out-of-range re-prompt branch |
| `Protocol.HumanOutOfRangeEndsGame` | human/human.cpp:95-98 | an entry outside [0, 8] ends the game as a failure of that human's peer, with the state unchanged |

## Left out

- Pipe and process plumbing is Win32 I/O and is not modelled. This covers `createClientProcess` (ttt/server.cpp:91-157), the teardown block (ttt/server.cpp:348-384) and the peers' connect-retry and message-mode setup (bot1/bot1.cpp:17-58, human/human.cpp:16-57). One fact about this code is noted but not modelled: the early `return`s during setup (ttt/server.cpp:216-250) skip the teardown, so a client set up before the failing one is neither terminated nor closed.
- The raw pipe reads and writes are foreign calls (ttt/server.cpp:170-183, bot1/bot1.cpp:64-85), and so is the byte-count to `wchar_t` arithmetic. A failed write or read is the reply `Lost`, and a zero-length read is `Received([])`. Both give -1. A read of an odd number of bytes is not modelled, nor the limit of 255 characters per read.
- `ParseInt` is a simplified `_wtoi`. It reads an optional sign, then the longest run of digits, and gives 0 when there are no digits. It does not skip leading white space and does not model overflow. Nothing is claimed about other garbage input.
- The `std::to_wstring` and `_wtoi` pair is proved a round trip for all integers, not only for 32-bit ones.
- The turn loop needs no termination proof. It runs over a finite sequence of replies, and when the replies run out first the outcome is `AwaitingReply`. A peer that always answers with an invalid move would stall the real loop forever.
- The mode is a datatype. `playGame` is only reached with modes 1 to 3 (ttt/server.cpp:405-410). Its fall-through for other modes after an invalid move (ttt/server.cpp:316, 324) cannot be reached and is not modelled.
- Console rendering and console input are not modelled: `display()`, the mode prompt, `std::wcin`, and the "Press Enter" waits. The number a human enters is a parameter of `Sanitize`.
- The unused random seed (bot1/bot1.cpp:61) is not modelled.
- The bot's no-op assignment `move = -1` when no cell is free (bot1/bot1.cpp:108-110) is not modelled.
- bot2/bot2.cpp, the program launched as Bot2, is not part of this model. Bot2 is only a name for the peer whose replies play O in Bot vs Bot mode.

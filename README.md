# Network hangman: the game session and the client's status handling

A model in Dafny of the two parts of the network hangman game that hold its rules:

- the server's per-connection game session, `playHangman`: a board of `_` as long as the
  secret word, a one-byte guess counter starting at 6, one status message (counter byte, then
  the board) per round, one guess consumed per round, every matching position revealed, one
  guess taken off the counter on a miss, and a final status byte of 255 for a win or the
  exhausted counter, 0, for a loss;
- the client's handling of the status byte in `main`: keep reading while the byte is neither
  0 nor 255, latch the board length from the first byte, print the board cut at that length,
  send one guess per in-play byte from a line buffer that is refilled from standard input
  only at its terminating NUL, and announce a win exactly for 255.

Files:

- `wire.dfy` (module `Wire`): the byte type, the two sentinel bytes, a status message.
- `server.dfy` (module `Server`): `PlayHangman`, an imperative method that fills a board
  array, mutates it in place round by round and decrements a `Byte` counter, proved equal to
  the functional specification `Session`. Lemmas characterise every in-play status a session sends by
  the guesses consumed so far: the counter is 6 less the number of misses, and the board shows
  exactly the letters guessed. The final status of a finished session carries 255 or 0 instead.
- `cursor.dfy` (module `GuessInput`): the guess cursor over `guessBuf`/`bufIdx` as a class
  with a 1000-character array, proved against the pure state machine `Next`; `fgets` on a
  standard-input character sequence.
- `client.dfy` (module `Client`): the receive loop `RunClient`, proved equal to the function
  `Receive`, and lemmas on the loop condition, the latched length and the verdict.
- `exchange.dfy` (module `Exchange`): what a client makes of a session's messages.

Standard input, the socket's `recv` and `send` are parameters and results: the guesses the
server receives are an input sequence, the status messages it sends a transcript; the client
reads a sequence of status messages and a standard-input character sequence.

### Behaviour of the code worth knowing

- The counter starts at the constant 6 (prog1/prog1_server.c:149), not at the word's length.
  For words longer than 6 letters the game can still be won, but the client, which latches
  the board length from that first byte, prints only the first 6 characters of the board
  (`Exchange.BoardShownWhole`).
- A guess of a letter already revealed counts as correct and costs nothing
  (prog1/prog1_server.c:162-172); only a guess matching no position of the word costs one
  guess, whether or not it was made before (`Server.MissCostsOne`, `Server.RepeatedHitIsFree`,
  `Server.ScenarioRepeat`). A repeated correct guess is free.
- A word containing `_` can only be lost: a position holding `_` can never be told apart from
  a masked one.
- A newline typed after a letter is handed out by the client as a guess of its own (it is not
  the NUL that triggers a refill), and the server counts it as a miss unless the word contains
  a newline: typing `a` and Enter on "ab" costs a guess (`Exchange.ScenarioNewline`).

## Model

| member | source | states |
|---|---|---|
| `Server.InitialGame` | prog1/prog1_server.c:135-149 | the game before the first round: the board is `_` at each of the word's positions and the counter is 6 |
| `Server.Reveal` | prog1/prog1_server.c:162-168 | the reveal loop as a value: each position holding the guess gets the guess, every other position keeps its character |
| `Server.Step` | prog1/prog1_server.c:162-172 | one round after its status: reveal the guess, and take one off the counter exactly when the guess matches no position |
| `Server.Rounds` | prog1/prog1_server.c:151-173 | the round loop: while guesses are left and a `_` remains, send the status, then consume one guess; cut off when no guess follows a status |
| `Server.FinalStatus` | prog1/prog1_server.c:174-178 | the last message: byte 255 when no `_` remains, otherwise the counter, followed by the board |
| `Server.Session` | prog1/prog1_server.c:132-181 | a whole session: the round loop from the initial game, then the final status unless cut off, with the outcome won exactly when no `_` remains |
| `Server.PlayHangman` | prog1/prog1_server.c:132-181 | the transcript of the in-place loop (every status sent, the guesses consumed, the outcome) equals the specification `Session` |
| `Server.RevealInPlace` | prog1/prog1_server.c:162-168 | the in-place reveal loop sets exactly the positions holding the guess to the guess, and reports `correct` exactly when the guess occurs in the word |
| `Server.InitialBoard` | prog1/prog1_server.c:135-149 | the initial board has the word's length, every position is `_`, and the counter starts at 6 |
| `Server.RevealChanges` | prog1/prog1_server.c:162-168 | revealing a guess writes it exactly where the word has it, leaves every other position alone, never masks a revealed letter and keeps the board invariant |
| `Server.MissCostsOne` | prog1/prog1_server.c:156-172 | a guess matching no position takes exactly one guess; a guess matching any position, revealed already or not, takes none |
| `Server.RepeatedHitIsFree` | prog1/prog1_server.c:162-172 | guessing again a letter of the word that was guessed before leaves board and counter unchanged |
| `Server.MissesPrefix` | prog1/prog1_server.c:170-172 | the number of misses never decreases as more guesses are consumed |
| `Server.RoundsShape` | prog1/prog1_server.c:151-158 | each round sends one status before it consumes one guess; the loop stops only out of play, or when the guess stream ends right after a status |
| `Server.RoundsStatus` | prog1/prog1_server.c:151-172 | from any game, the status sent after `k` guesses carries the counter less the misses among them (still positive) and the board with exactly those letters uncovered, still masked somewhere |
| `Server.RoundsFinal` | prog1/prog1_server.c:151-173 | the game the loop leaves has the counter less all misses consumed (never below 0) and the consumed letters uncovered |
| `Server.SessionShape` | prog1/prog1_server.c:151-178 | a session sends one message more than it consumes guesses, never consumes more than it is given, and is cut off only after it has consumed all of them |
| `Server.SessionStatus` | prog1/prog1_server.c:149-158 | every in-play status carries 6 less the misses so far (between 1 and 6) and the board showing exactly the letters guessed so far, with a `_` left |
| `Server.SessionFinal` | prog1/prog1_server.c:174-178 | the final byte is 255 exactly when no `_` is left and otherwise 0 after six misses, followed by the final board |
| `Server.AtMostSixMisses` | prog1/prog1_server.c:151-172 | over any guess sequence a session consumes at most six misses, so the decrement never goes below 0 |
| `Server.SessionBoards` | prog1/prog1_server.c:136-165 | every board a session sends has the word's length and shows at each position `_` or the word's letter |
| `Server.CounterNeverRises` | prog1/prog1_server.c:149-172 | the in-play counters a session sends never rise and never exceed 6 |
| `Server.ScenarioCat` | prog1/prog1_server.c:132-181 | on "cat" with guesses `a`, `c`, `t` the boards `___`, `_a_`, `ca_` are sent with counter 6, then 255 and `cat` |
| `Server.ScenarioRepeat` | prog1/prog1_server.c:162-172 | on "cat" with guesses `c`, `c`, `z` the repeated `c` costs nothing and `z` costs one guess |
| `GuessInput.FreshCursor` | prog1/prog1_client.c:90-91 | the cursor starts at index 0 on a NUL, which makes the first request read a line |
| `GuessInput.LineLength` | prog1/prog1_client.c:109 | `fgets` takes the characters up to and including the first newline, at most 999 and at most those left, and at least one when any are left |
| `GuessInput.Fgets` | prog1/prog1_client.c:109 | `fgets` on the remaining input: the characters taken, then a NUL, over the old buffer, with the rest of the input; at end of input buffer and input stay as they were |
| `GuessInput.Next` | prog1/prog1_client.c:106-116 | one request for a guess keeps the cursor invariant: index inside the buffer, last byte NUL |
| `GuessInput.NextSteps` | prog1/prog1_client.c:106-116 | a line is read only when the cursor stands on the NUL, after which it restarts (hands out the first character, stands at 1); otherwise it hands out the current character and advances by one |
| `GuessInput.EndOfInputReplays` | prog1/prog1_client.c:106-111 | at end of input the buffer is left as it was and the cursor replays its line from the start |
| `GuessInput.NextTakesFirst` | prog1/prog1_client.c:106-116 | one request hands out the first of the pending characters followed by the unread input, and keeps the rest in order |
| `GuessInput.HandoutsSpellInput` | prog1/prog1_client.c:106-116 | successive guesses are the rest of the current line and then the input, character by character, newlines included |
| `GuessInput.FreshHandouts` | prog1/prog1_client.c:90-116 | from the start, the first `n` guesses are the first `n` characters of standard input |
| `GuessInput.GuessReader.constructor` | prog1/prog1_client.c:90-91 | the reader starts in the state `FreshCursor` |
| `GuessInput.GuessReader.NextGuess` | prog1/prog1_client.c:106-116 | the array-based cursor hands out the guess and reaches the state the state machine `Next` prescribes |
| `GuessInput.GuessReader.ReadLine` | prog1/prog1_client.c:109 | the buffer is refilled in place with the line and a NUL, as `Fgets` prescribes |
| `Client.KeepsReceiving` | prog1/prog1_client.c:92 | the receive loop's test `guesses > 0 && guesses != 255` |
| `Client.AsksForGuess` | prog1/prog1_client.c:102 | the test for printing the board and sending a guess, `guesses != 0 && guesses != 255` |
| `Client.Latch` | prog1/prog1_client.c:96-98 | the board length is taken from the status byte only while it is still 0 |
| `Client.Shown` | prog1/prog1_client.c:100 | the board as printed after the terminator is written at the latched length |
| `Client.VerdictFor` | prog1/prog1_client.c:125-129 | "You win" exactly for the byte 255, "You lost" for any other terminating byte |
| `Client.Receive` | prog1/prog1_client.c:92-123 | the receive loop: per message, latch the length, and while the byte is in play print the cut board and send the cursor's next guess; stop on 0 or 255 or when the messages end |
| `Client.ConditionsAgree` | prog1/prog1_client.c:92-102 | the loop test and the guess test both hold exactly for the in-play bytes 1..254 |
| `Client.ShownIsPrefix` | prog1/prog1_client.c:100-103 | the printed board is the received one cut at the latched length, and is whole exactly when it is no longer than that |
| `Client.ReceiveRounds` | prog1/prog1_client.c:92-123 | the client sends one guess and prints one board per leading in-play byte, the guesses being the cursor's first handouts, and ends on the first 0 or 255 (win exactly for 255) or with the stream |
| `Client.ReceiveStopsAt` | prog1/prog1_client.c:92-129 | with in-play bytes up to index `n` and 0 or 255 at `n`, exactly `n` guesses are sent and the verdict is that of byte `n` |
| `Client.LatchHolds` | prog1/prog1_client.c:96-100 | once set, the board length latch never changes and every printed board is cut at it |
| `Client.LatchedFromFirst` | prog1/prog1_client.c:87-100 | the latched board length is the first status byte received |
| `Client.RunClient` | prog1/prog1_client.c:87-129 | the imperative receive loop yields the run (guesses sent, boards printed, latched length, ending) of the specification `Receive` |
| `Exchange.FirstStatus` | prog1/prog1_server.c:149-155 | a session's first status carries 6 and the masked board, or 255 at once for the empty word |
| `Exchange.ServerBytes` | prog1/prog1_server.c:151-177 | a session sends in-play bytes for every round, then 0 or 255 once (255 exactly for a win), unless cut off in play |
| `Exchange.ClientFollowsServer` | prog1/prog1_client.c:92-129 | a client reading a session's messages sends one guess per round played, announces a win exactly when the server saw one, and latches length 6 (255 for the empty word) |
| `Exchange.ClosedLoop` | prog1/prog1_client.c:106-121 | when the server's guesses are the client's standard input, the guesses the server consumed are exactly the characters the client sent |
| `Exchange.ScenarioNewline` | prog1/prog1_client.c:106-121 | a client typing `a` and Enter hands out `a` and then the newline as guesses; on "ab" the server reveals `a` at no cost and then counts the newline as a miss |
| `Exchange.BoardShownWhole` | prog1/prog1_client.c:96-103 | the client prints a board whole exactly when the word has at most 6 letters |

## Left out

- Socket creation, binding, listening, accepting, connecting, host lookup and port parsing
  (prog1/prog1_server.c:33-101, prog1/prog1_client.c:26-83): operating-system and network I/O.
- `fork`, the `SIGCHLD` setting and the per-connection child process (prog1/prog1_server.c:103-114):
  process concurrency with no game logic. prog1/example.c is not part of this model (a
  standalone fork demonstration).
- The commented-out visit counter, `printf`/`dprintf` logging and `close` (prog1/prog1_server.c:14,
  116-127, 179-180): no game logic.
- Server.PlayHangman: when the guess stream ends after a status was sent, the session ends as
  `Disconnected` without a final status; the C code only prints "recv failed" and goes on with
  the previous guess (prog1/prog1_server.c:158-161), a transport error path.
- Client.RunClient: stops when the server's messages run out before a 0 or 255; the C loop goes
  on with the stale byte because the number of bytes `recv` returned is never checked.
- Byte-level quirks of the C buffers. The board array is one byte longer than the word and that
  byte is never written, yet `send(..., sizeof(board))` sends it with every in-play board;
  `strchr` and `strlen` are applied to that unterminated board; `recv(..., strlen(buf))` takes
  its length from an uninitialised buffer; the child copies the word into an array one byte
  too short for its terminator. The model's board is exactly the word and a guess exactly one
  character.
- The client's 1000-byte `board` buffer: what `recv` leaves in it beyond the received board
  (stale bytes, a board split over several reads) and NUL bytes inside it are not modelled; a
  printed board is the received board cut at the latched length.
- The bytes of `guessBuf` after index 0 are uninitialised in the C; the model starts them at NUL,
  so when standard input ends before any line was read the model hands out NULs where the C
  reads indeterminate bytes.
- The empty word: in the C, `char word[0]` receives a `strcpy` and the one byte of `board`
  is never written, so `strchr(board, '_')` reads an indeterminate byte and the outcome is
  undefined (prog1/prog1_server.c:109-110, 135-151, 174). The model chooses the case of a board
  with no `_`: the game is won without a round, with status 255 and an empty board; this is
  what `Exchange.FirstStatus` and `Exchange.ClientFollowsServer` state for the empty word.
- The lemmas that spell the client's guesses out as its standard input
  (`GuessInput.HandoutsSpellInput`, `GuessInput.FreshHandouts`, `Exchange.ClosedLoop`) are
  stated for input without NUL characters; a NUL typed on a line makes the cursor drop the
  rest of that line, which `GuessInput.Next` models but no lemma characterises.
- Characters: a Dafny `char` is a Unicode scalar value, while the C works on `char` bytes; each
  model `char` stands for one C byte, so a character that takes several bytes (in the word or
  typed at the client) is several model characters, and several guesses.
- Printing itself: the model records which boards are printed and the final verdict, not the text.

/**
 * The server's game session on one connection (`playHangman`): a masked board, a one-byte
 * guess counter that starts at 6, one status message per round, and a final status byte that
 * is 255 for a win and the exhausted counter (0) for a loss.
 *
 * The guesses that `recv` delivers are an input sequence here; the status messages that `send`
 * writes are collected in a transcript.
 */
module Server {
  import opened Wire

  /** The mask character of an unrevealed board position. */
  const Placeholder: char := '_'

  /** Start value of the guess counter: a constant, whatever the length of the word. */
  const InitialGuesses: Byte := 6

  /** The state between two rounds: the board and the guess counter. */
  datatype Game = Game(board: seq<char>, left: Byte)

  /** How a session ends: solved, counter exhausted, or the guess stream ended during play. */
  datatype Outcome = Won | Lost | Disconnected

  /**
   * The rounds of a session: the status messages sent, the guesses consumed, the game as the
   * rounds leave it, and whether the guess stream ended while the game was still in play.
   */
  datatype Run = Run(sent: seq<Status>, used: nat, final: Game, cut: bool)

  /** All a session does: every status message sent (the final one included), the guesses consumed, the outcome. */
  datatype Transcript = Transcript(sent: seq<Status>, used: nat, outcome: Outcome)

  /** Board invariant: the board has the word's length and each position is masked or shows the word's letter. */
  predicate Consistent(word: seq<char>, board: seq<char>) {
    |board| == |word| &&
    forall i :: 0 <= i < |board| ==> board[i] == Placeholder || board[i] == word[i]
  }

  /** The game before the first round: every position masked, the counter at 6. */
  function InitialGame(word: seq<char>): Game {
    Game(seq(|word|, _ => Placeholder), InitialGuesses)
  }

  /** Condition of the round loop: guesses left and a masked position on the board. */
  predicate InPlay(g: Game) {
    g.left > 0 && Placeholder in g.board
  }

  /** The reveal loop: every position whose letter is `c` gets `c`; all others keep their character. */
  function Reveal(word: seq<char>, board: seq<char>, c: char): seq<char>
    requires |board| == |word|
  {
    seq(|board|, i requires 0 <= i < |board| => if word[i] == c then c else board[i])
  }

  /**
   * One round after the status message: reveal `c`, and take one guess off the counter when `c`
   * matched no position. A match at an already revealed position still counts as correct.
   */
  function Step(word: seq<char>, g: Game, c: char): Game
    requires |g.board| == |word| && g.left > 0
  {
    Game(Reveal(word, g.board, c), if c in word then g.left else g.left - 1)
  }

  /**
   * The round loop from game `g` on the guesses `input`: while in play, send the status, then
   * consume one guess. The run is cut when a status was sent and no guess follows.
   */
  function Rounds(word: seq<char>, g: Game, input: seq<char>): Run
    requires |g.board| == |word|
    decreases |input|
  {
    if !InPlay(g) then Run([], 0, g, false)
    else if input == [] then Run([Status(g.left, g.board)], 0, g, true)
    else
      var r := Rounds(word, Step(word, g, input[0]), input[1..]);
      Run([Status(g.left, g.board)] + r.sent, r.used + 1, r.final, r.cut)
  }

  /** The last status message: 255 when no position is masked, otherwise the counter. */
  function FinalStatus(g: Game): Status {
    Status(if Placeholder in g.board then g.left else WinByte, g.board)
  }

  /** A whole session on `word` with the guesses `input`. */
  function Session(word: seq<char>, input: seq<char>): Transcript {
    var r := Rounds(word, InitialGame(word), input);
    if r.cut then Transcript(r.sent, r.used, Disconnected)
    else Transcript(r.sent + [FinalStatus(r.final)], r.used,
                    if Placeholder in r.final.board then Lost else Won)
  }

  /** `r` after `sent` and `k` consumed guesses have already happened. */
  function Extend(sent: seq<Status>, k: nat, r: Run): Run {
    Run(sent + r.sent, k + r.used, r.final, r.cut)
  }

  /** One more round of the loop, seen from the rounds already done. */
  lemma ExtendRound(word: seq<char>, sent: seq<Status>, k: nat, g: Game, input: seq<char>)
    requires |g.board| == |word| && InPlay(g) && k < |input|
    ensures Extend(sent, k, Rounds(word, g, input[k..]))
         == Extend(sent + [Status(g.left, g.board)], k + 1, Rounds(word, Step(word, g, input[k]), input[k + 1..]))
  {
    assert input[k..][1..] == input[k + 1..];
    var r := Rounds(word, Step(word, g, input[k]), input[k + 1..]);
    assert sent + ([Status(g.left, g.board)] + r.sent) == (sent + [Status(g.left, g.board)]) + r.sent;
  }

  // ---------------------------------------------------------------------------------------
  // Reference definitions: what the board and the counter are after a sequence of guesses.

  /** `board` after the guesses `gs`: a position shows its letter exactly when that letter was guessed. */
  function Uncover(word: seq<char>, board: seq<char>, gs: seq<char>): seq<char>
    requires |board| == |word|
  {
    seq(|word|, i requires 0 <= i < |word| => if word[i] in gs then word[i] else board[i])
  }

  /** The board a session shows after the guesses `gs`. */
  function BoardAfter(word: seq<char>, gs: seq<char>): seq<char> {
    Uncover(word, InitialGame(word).board, gs)
  }

  /** The number of guesses in `gs` that match no letter of the word. */
  function Misses(word: seq<char>, gs: seq<char>): nat {
    if gs == [] then 0 else (if gs[0] in word then 0 else 1) + Misses(word, gs[1..])
  }

  // ---------------------------------------------------------------------------------------
  // The code.

  /**
   * `playHangman`. The board is an array the size of the word (the C array has one more,
   * never written, byte: `send(..., sizeof(board))` sends it after every board, and `strchr`
   * and `strlen` run over a board with no terminator; here the board is exactly the word).
   */
  method PlayHangman(word: seq<char>, input: seq<char>) returns (t: Transcript)
    ensures t == Session(word, input)
  {
    var board := new char[|word|];
    for i := 0 to board.Length
      invariant forall j :: 0 <= j < i ==> board[j] == Placeholder
    {
      board[i] := Placeholder;
    }
    ghost var start := InitialGame(word);
    assert board[..] == start.board;
    var guesses: Byte := InitialGuesses;
    var sent: seq<Status> := [];
    var k := 0;
    var cut := false;
    while guesses > 0 && Placeholder in board[..]
      invariant 0 <= k <= |input| && board.Length == |word| && !cut
      invariant Extend(sent, k, Rounds(word, Game(board[..], guesses), input[k..])) == Rounds(word, start, input)
      decreases |input| - k
    {
      ghost var g, before := Game(board[..], guesses), sent;
      sent := sent + [Status(guesses, board[..])];
      if k == |input| {
        // `recv` delivers no guess: the transport error path is not part of the model.
        cut := true;
        break;
      }
      // `recv(sd2, buf, strlen(buf), 0)` takes its length from a buffer never initialised;
      // the model takes exactly one character, `buf[0]`.
      var c := input[k];
      ExtendRound(word, before, k, g, input);
      var correct := RevealInPlace(board, word, c);
      if !correct {
        guesses := guesses - 1;
      }
      k := k + 1;
      assert Game(board[..], guesses) == Step(word, g, c);
    }
    // `strchr(board, '_') == '\0'` compares the search result with the null pointer: no mask left.
    if cut {
      t := Transcript(sent, k, Disconnected);
    } else {
      if Placeholder !in board[..] {
        guesses := WinByte;
      }
      sent := sent + [Status(guesses, board[..])];
      t := Transcript(sent, k, if guesses == WinByte then Won else Lost);
    }
  }

  /**
   * The reveal loop of one round; `correct` tells whether some position matched. The C loop runs
   * to `strlen(board)` on a board with no terminator; here it runs over the word's positions.
   */
  method RevealInPlace(board: array<char>, word: seq<char>, c: char) returns (correct: bool)
    requires board.Length == |word|
    modifies board
    ensures board[..] == Reveal(word, old(board[..]), c)
    ensures correct <==> c in word
  {
    correct := false;
    for i := 0 to board.Length
      invariant forall j :: 0 <= j < i ==> board[j] == (if word[j] == c then c else old(board[j]))
      invariant forall j :: i <= j < board.Length ==> board[j] == old(board[j])
      invariant correct <==> c in word[..i]
    {
      assert word[..i + 1] == word[..i] + [word[i]];
      if word[i] == c {
        board[i] := c;
        correct := true;
      }
    }
    assert word[..board.Length] == word;
  }

  // ---------------------------------------------------------------------------------------
  // Properties of one round.

  /**
   * The reveal step writes `c` exactly where the word has `c`, leaves every other position as
   * it was (so no revealed letter is masked again) and keeps the board invariant.
   */
  lemma RevealChanges(word: seq<char>, board: seq<char>, c: char)
    requires Consistent(word, board)
    ensures Consistent(word, Reveal(word, board, c))
    ensures forall i :: 0 <= i < |word| && word[i] == c ==> Reveal(word, board, c)[i] == c
    ensures forall i :: 0 <= i < |word| && word[i] != c ==> Reveal(word, board, c)[i] == board[i]
    ensures forall i :: 0 <= i < |word| && board[i] != Placeholder ==> Reveal(word, board, c)[i] == board[i]
  {
  }

  /** A guess that matches no position takes exactly one guess; one that matches any position takes none. */
  lemma MissCostsOne(word: seq<char>, g: Game, c: char)
    requires |g.board| == |word| && g.left > 0
    ensures (forall i :: 0 <= i < |word| ==> word[i] != c) ==> Step(word, g, c).left == g.left - 1
    ensures (exists i :: 0 <= i < |word| && word[i] == c) ==> Step(word, g, c).left == g.left
  {
  }

  /** Guessing again a letter that was guessed before and is in the word changes nothing at all. */
  lemma RepeatedHitIsFree(word: seq<char>, gs: seq<char>, c: char, left: Byte)
    requires c in gs && c in word && left > 0
    ensures Step(word, Game(BoardAfter(word, gs), left), c) == Game(BoardAfter(word, gs), left)
  {
    var b := BoardAfter(word, gs);
    assert Reveal(word, b, c) == b by {
      forall i | 0 <= i < |word| ensures Reveal(word, b, c)[i] == b[i] {
        if word[i] == c {
          assert word[i] in gs;
        }
      }
    }
  }

  /** Revealing `c` and then the guesses `gs` is uncovering `[c] + gs`. */
  lemma UncoverCons(word: seq<char>, board: seq<char>, c: char, gs: seq<char>)
    requires |board| == |word|
    ensures Uncover(word, Reveal(word, board, c), gs) == Uncover(word, board, [c] + gs)
  {
    forall i | 0 <= i < |word|
      ensures Uncover(word, Reveal(word, board, c), gs)[i] == Uncover(word, board, [c] + gs)[i]
    {
      assert word[i] in [c] + gs <==> word[i] == c || word[i] in gs;
    }
  }

  /** Uncovering no guess leaves the board as it is. */
  lemma UncoverNothing(word: seq<char>, board: seq<char>)
    requires |board| == |word|
    ensures Uncover(word, board, []) == board
  {
  }

  /** A longer prefix of the guesses holds at least as many misses. */
  lemma {:induction false} MissesPrefix(word: seq<char>, gs: seq<char>, i: nat, j: nat)
    requires i <= j <= |gs|
    ensures Misses(word, gs[..i]) <= Misses(word, gs[..j])
  {
    if i == 0 {
      assert gs[..0] == [];
    } else {
      MissesPrefix(word, gs[1..], i - 1, j - 1);
      assert gs[..i][1..] == gs[1..][..i - 1];
      assert gs[..j][1..] == gs[1..][..j - 1];
    }
  }

  // ---------------------------------------------------------------------------------------
  // Properties of the round loop, from any game.

  /**
   * Every round sends one status before it consumes one guess: the loop consumes at most the
   * guesses given, and one status more than it consumes only when the guess stream ended in play.
   */
  lemma {:induction false} RoundsShape(word: seq<char>, g: Game, input: seq<char>)
    requires |g.board| == |word|
    decreases |input|
    ensures Rounds(word, g, input).used <= |input|
    ensures |Rounds(word, g, input).sent| == Rounds(word, g, input).used + (if Rounds(word, g, input).cut then 1 else 0)
    ensures Rounds(word, g, input).cut ==> Rounds(word, g, input).used == |input| && InPlay(Rounds(word, g, input).final)
    ensures !Rounds(word, g, input).cut ==> !InPlay(Rounds(word, g, input).final)
  {
    if InPlay(g) && input != [] {
      RoundsShape(word, Step(word, g, input[0]), input[1..]);
    }
  }

  /**
   * The status sent after `k` guesses: the counter less the misses among those guesses, and the
   * board with exactly the guessed letters uncovered; the game is still in play.
   */
  lemma {:induction false} RoundsStatus(word: seq<char>, g: Game, input: seq<char>, k: nat)
    requires |g.board| == |word|
    decreases |input|
    requires k < |Rounds(word, g, input).sent|
    ensures k <= |input| && Misses(word, input[..k]) < g.left
    ensures Rounds(word, g, input).sent[k] == Status(g.left - Misses(word, input[..k]), Uncover(word, g.board, input[..k]))
    ensures Placeholder in Uncover(word, g.board, input[..k])
  {
    RoundsShape(word, g, input);
    if k == 0 {
      assert input[..0] == [];
      UncoverNothing(word, g.board);
    } else {
      var g' := Step(word, g, input[0]);
      RoundsStatus(word, g', input[1..], k - 1);
      assert input[..k] == [input[0]] + input[1..][..k - 1];
      assert input[..k][1..] == input[1..][..k - 1];
      UncoverCons(word, g.board, input[0], input[1..][..k - 1]);
    }
  }

  /** The game the loop leaves: the counter less all misses consumed, the board with the consumed guesses uncovered. */
  lemma {:induction false} RoundsFinal(word: seq<char>, g: Game, input: seq<char>)
    requires |g.board| == |word|
    decreases |input|
    ensures Rounds(word, g, input).used <= |input|
    ensures Misses(word, input[..Rounds(word, g, input).used]) <= g.left
    ensures Rounds(word, g, input).final
         == Game(Uncover(word, g.board, input[..Rounds(word, g, input).used]),
                 g.left - Misses(word, input[..Rounds(word, g, input).used]))
  {
    var r := Rounds(word, g, input);
    if !InPlay(g) || input == [] {
      assert input[..0] == [];
      UncoverNothing(word, g.board);
    } else {
      var g' := Step(word, g, input[0]);
      RoundsFinal(word, g', input[1..]);
      var k := r.used;
      assert input[..k] == [input[0]] + input[1..][..k - 1];
      assert input[..k][1..] == input[1..][..k - 1];
      UncoverCons(word, g.board, input[0], input[1..][..k - 1]);
    }
  }

  // ---------------------------------------------------------------------------------------
  // Properties of a whole session.

  /** The initial board has the word's length, is fully masked and meets the board invariant. */
  lemma InitialBoard(word: seq<char>)
    ensures |InitialGame(word).board| == |word| && InitialGame(word).left == 6
    ensures forall i :: 0 <= i < |word| ==> InitialGame(word).board[i] == Placeholder
    ensures Consistent(word, InitialGame(word).board)
  {
  }

  /**
   * One status per round, sent before the round's guess, plus one final status: the session
   * sends one message more than it consumes guesses, and is cut off only after it has
   * consumed all of them.
   */
  lemma SessionShape(word: seq<char>, input: seq<char>)
    ensures |Session(word, input).sent| == Session(word, input).used + 1
    ensures Session(word, input).used <= |input|
    ensures Session(word, input).outcome == Disconnected ==> Session(word, input).used == |input|
  {
    RoundsShape(word, InitialGame(word), input);
  }

  /**
   * The status of round `k` (every message but the final one of a finished session): counter
   * 6 less the misses among the first `k` guesses, in 1..6, and the board with exactly the
   * guessed letters uncovered and some position still masked.
   */
  lemma SessionStatus(word: seq<char>, input: seq<char>, k: nat)
    requires k < Session(word, input).used || (k == Session(word, input).used && Session(word, input).outcome == Disconnected)
    ensures k <= |input| && Misses(word, input[..k]) < InitialGuesses
    ensures k < |Session(word, input).sent|
    ensures Session(word, input).sent[k] == Status(InitialGuesses - Misses(word, input[..k]), BoardAfter(word, input[..k]))
    ensures 1 <= Session(word, input).sent[k].left <= InitialGuesses
    ensures Placeholder in Session(word, input).sent[k].board
  {
    RoundsShape(word, InitialGame(word), input);
    RoundsStatus(word, InitialGame(word), input, k);
  }

  /**
   * The final status of a finished session: byte 255 exactly when no position is masked, and
   * otherwise byte 0 after six misses; followed by the board as the guesses left it.
   */
  lemma SessionFinal(word: seq<char>, input: seq<char>)
    requires Session(word, input).outcome != Disconnected
    ensures Session(word, input).used <= |input|
    ensures var t := Session(word, input); var b := BoardAfter(word, input[..t.used]);
      |t.sent| == t.used + 1 &&
      t.sent[t.used] == Status(if Placeholder in b then LossByte else WinByte, b) &&
      (t.outcome == Won <==> Placeholder !in b) &&
      (t.outcome == Lost <==> Placeholder in b && Misses(word, input[..t.used]) == InitialGuesses)
  {
    RoundsShape(word, InitialGame(word), input);
    RoundsFinal(word, InitialGame(word), input);
  }

  /** However the guesses go, at most six of those a session consumes are misses. */
  lemma AtMostSixMisses(word: seq<char>, input: seq<char>)
    ensures Session(word, input).used <= |input|
    ensures Misses(word, input[..Session(word, input).used]) <= InitialGuesses
  {
    RoundsFinal(word, InitialGame(word), input);
  }

  /** Every board a session sends meets the board invariant. */
  lemma SessionBoards(word: seq<char>, input: seq<char>, k: nat)
    requires k < |Session(word, input).sent|
    ensures Consistent(word, Session(word, input).sent[k].board)
  {
    var t := Session(word, input);
    SessionShape(word, input);
    if k < t.used || t.outcome == Disconnected {
      SessionStatus(word, input, k);
    } else {
      SessionFinal(word, input);
    }
  }

  /** The counter a session sends in play never rises and never exceeds 6. */
  lemma CounterNeverRises(word: seq<char>, input: seq<char>, i: nat, j: nat)
    requires i <= j
    requires j < Session(word, input).used || (j == Session(word, input).used && Session(word, input).outcome == Disconnected)
    ensures j < |Session(word, input).sent|
    ensures Session(word, input).sent[j].left <= Session(word, input).sent[i].left <= InitialGuesses
  {
    SessionStatus(word, input, i);
    SessionStatus(word, input, j);
    MissesPrefix(word, input, i, j);
  }

  /** Guessing `a`, `c`, `t` on "cat": the letters appear one by one, no guess is lost, and the game is won. */
  lemma ScenarioCat()
    ensures Session("cat", "act")
         == Transcript([Status(6, "___"), Status(6, "_a_"), Status(6, "ca_"), Status(255, "cat")], 3, Won)
  {
    var w := "cat";
    var g0 := InitialGame(w);
    var g1 := Step(w, g0, 'a');
    var g2 := Step(w, g1, 'c');
    var g3 := Step(w, g2, 't');
    assert g0.board == "___";
    assert g1 == Game("_a_", 6);
    assert g2 == Game("ca_", 6);
    assert g3 == Game("cat", 6);
    assert "act"[1..] == "ct" && "ct"[1..] == "t" && "t"[1..] == [];
  }

  /** Guessing `c`, `c`, `z` on "cat": the repeated `c` is free, the miss `z` takes one guess. */
  lemma ScenarioRepeat()
    ensures Session("cat", "ccz")
         == Transcript([Status(6, "___"), Status(6, "c__"), Status(6, "c__"), Status(5, "c__")], 3, Disconnected)
  {
    var w := "cat";
    var g0 := InitialGame(w);
    var g1 := Step(w, g0, 'c');
    var g2 := Step(w, g1, 'c');
    var g3 := Step(w, g2, 'z');
    assert g0.board == "___";
    assert g1 == Game("c__", 6);
    assert g2 == Game("c__", 6);
    assert g3 == Game("c__", 5);
    assert "ccz"[1..] == "cz" && "cz"[1..] == "z" && "z"[1..] == [];
  }
}

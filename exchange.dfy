/**
 * The two ends of the connection together: what the client makes of the status messages that
 * `playHangman` sends.
 */
module Exchange {
  import opened Wire
  import opened Server
  import opened GuessInput
  import opened Client

  /** The first status of every session: counter 6 and a masked board, or 255 at once for the empty word. */
  lemma FirstStatus(word: seq<char>, input: seq<char>)
    ensures |Session(word, input).sent| > 0
    ensures Session(word, input).sent[0]
         == if |word| == 0 then Status(WinByte, []) else Status(InitialGuesses, InitialGame(word).board)
  {
    if |word| > 0 {
      assert InitialGame(word).board[0] == Placeholder;
    }
  }

  /**
   * The bytes a session sends: in-play values for every round, then 0 or 255 once, unless the
   * guess stream ended in play.
   */
  lemma ServerBytes(word: seq<char>, input: seq<char>)
    ensures var t := Session(word, input);
      |t.sent| == t.used + 1 &&
      (forall k :: 0 <= k < t.used ==> InPlayByte(t.sent[k].left)) &&
      (t.outcome == Disconnected ==> InPlayByte(t.sent[t.used].left)) &&
      (t.outcome != Disconnected ==> t.sent[t.used].left in {LossByte, WinByte}) &&
      (t.outcome == Won <==> t.sent[t.used].left == WinByte)
  {
    var t := Session(word, input);
    SessionShape(word, input);
    forall k | 0 <= k < t.used ensures InPlayByte(t.sent[k].left) {
      SessionStatus(word, input, k);
    }
    if t.outcome == Disconnected {
      SessionStatus(word, input, t.used);
    } else {
      SessionFinal(word, input);
    }
  }

  /**
   * A client reading a session's messages sends one guess per round the server played, stops on
   * the final byte and announces a win exactly when the server saw one; if the server was cut
   * off, the client's reading ends with the stream after one guess more. The board length it
   * latches is 6, or 255 for the empty word.
   */
  lemma ClientFollowsServer(word: seq<char>, input: seq<char>, stdin: seq<char>)
    ensures var t := Session(word, input); var r := Receive(t.sent, 0, FreshCursor(stdin));
      r.guesses == Handouts(FreshCursor(stdin), |r.guesses|) &&
      r.contacts == (if |word| == 0 then WinByte else InitialGuesses) &&
      (t.outcome == Won ==> r.ending == Finished(YouWin) && |r.guesses| == t.used) &&
      (t.outcome == Lost ==> r.ending == Finished(YouLost) && |r.guesses| == t.used) &&
      (t.outcome == Disconnected ==> r.ending == StreamEnded && |r.guesses| == t.used + 1)
  {
    var t := Session(word, input);
    var r := Receive(t.sent, 0, FreshCursor(stdin));
    ServerBytes(word, input);
    ReceiveRounds(t.sent, 0, FreshCursor(stdin));
    FirstStatus(word, input);
    LatchedFromFirst(t.sent, FreshCursor(stdin));
    if t.outcome == Disconnected {
      ReceiveStopsAt(t.sent, t.used + 1, 0, FreshCursor(stdin));
    } else {
      ReceiveStopsAt(t.sent, t.used, 0, FreshCursor(stdin));
    }
  }

  /**
   * Closing the loop: when the session's guesses are the client's standard input (with no NUL
   * in it), the guesses the server consumed are exactly the characters the client sent.
   */
  lemma ClosedLoop(word: seq<char>, stdin: seq<char>)
    requires NoNul(stdin)
    ensures var t := Session(word, stdin); var r := Receive(t.sent, 0, FreshCursor(stdin));
      t.used <= |stdin| && t.used <= |r.guesses| && r.guesses[..t.used] == stdin[..t.used]
  {
    var t := Session(word, stdin);
    var r := Receive(t.sent, 0, FreshCursor(stdin));
    ClientFollowsServer(word, stdin, stdin);
    SessionShape(word, stdin);
    HandoutsPrefix(FreshCursor(stdin), t.used, |r.guesses|);
    FreshHandouts(stdin, t.used);
  }

  /**
   * The client prints a board whole exactly when the word has at most 6 letters: the length it
   * latches is the first counter byte, 6, not the word's length.
   */
  lemma BoardShownWhole(word: seq<char>, input: seq<char>, stdin: seq<char>, k: nat)
    requires k < |Receive(Session(word, input).sent, 0, FreshCursor(stdin)).shown|
    ensures k < |Session(word, input).sent|
    ensures Receive(Session(word, input).sent, 0, FreshCursor(stdin)).shown[k] == Session(word, input).sent[k].board
        <==> |word| <= InitialGuesses
  {
    var t := Session(word, input);
    var r := Receive(t.sent, 0, FreshCursor(stdin));
    ReceiveRounds(t.sent, 0, FreshCursor(stdin));
    FirstStatus(word, input);
    LatchedFromFirst(t.sent, FreshCursor(stdin));
    SessionBoards(word, input, k);
    ShownIsPrefix(t.sent[k].board, t.sent[0].left);
    assert InPlayByte(t.sent[0].left);
  }

  /**
   * A letter followed by Enter is two guesses: the client hands out `a` and then the newline,
   * and on "ab" the server reveals `a` for free and then counts the newline as a miss.
   */
  lemma ScenarioNewline()
    ensures Handouts(FreshCursor("a\n"), 2) == "a\n"
    ensures Session("ab", "a\n")
         == Transcript([Status(6, "__"), Status(6, "a_"), Status(5, "a_")], 2, Disconnected)
  {
    FreshHandouts("a\n", 2);
    assert "a\n"[..2] == "a\n";
    var w := "ab";
    var g0 := InitialGame(w);
    var g1 := Step(w, g0, 'a');
    var g2 := Step(w, g1, '\n');
    assert g0.board == "__";
    assert g1 == Game("a_", 6);
    assert '\n' !in w;
    assert g2 == Game("a_", 5);
    assert "a\n"[1..] == "\n" && "\n"[1..] == [];
  }
}

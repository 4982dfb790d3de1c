/**
 * The client's receive loop: read a status byte and a board, print the board cut at the
 * length latched from the first byte, and send one guess while the byte is an in-play value;
 * stop at 0 or 255 and announce a win exactly for 255.
 */
module Client {
  import opened Wire
  import opened GuessInput

  /** Condition of the receive loop, `guesses > 0 && guesses != 255`. */
  predicate KeepsReceiving(b: Byte) {
    b > 0 && b != WinByte
  }

  /** Condition for printing the board and sending a guess, `guesses != 0 && guesses != 255`. */
  predicate AsksForGuess(b: Byte) {
    b != LossByte && b != WinByte
  }

  /** What the client prints at the end. */
  datatype Verdict = YouWin | YouLost

  /** How the receive loop ends: on a terminating byte, or because the server's stream ended. */
  datatype Ending = Finished(verdict: Verdict) | StreamEnded

  /** The client's side of a game: guesses sent, boards printed, the latched length, the ending. */
  datatype ClientRun = ClientRun(guesses: seq<char>, shown: seq<seq<char>>, contacts: nat, ending: Ending)

  /** The verdict for the byte that ended the loop. */
  function VerdictFor(b: Byte): Verdict {
    if b == WinByte then YouWin else YouLost
  }

  /** `if (contacts == 0) contacts = guesses`: the board length is taken once. */
  function Latch(contacts: nat, b: Byte): nat {
    if contacts == 0 then b else contacts
  }

  /**
   * The board as printed after `board[contacts] = '\0'`: the received characters, cut at
   * index `contacts`.
   */
  function Shown(board: seq<char>, contacts: nat): seq<char> {
    if |board| <= contacts then board else board[..contacts]
  }

  /** The receive loop on the status messages `msgs`, with latched length `contacts` and guess cursor `cur`. */
  function Receive(msgs: seq<Status>, contacts: nat, cur: Cursor): ClientRun
    requires Valid(cur)
    decreases |msgs|
  {
    if msgs == [] then ClientRun([], [], contacts, StreamEnded)
    else
      var b := msgs[0].left;
      var c := Latch(contacts, b);
      if AsksForGuess(b) then
        var h := Next(cur);
        var r := Receive(msgs[1..], c, h.next);
        ClientRun([h.guess] + r.guesses, [Shown(msgs[0].board, c)] + r.shown, r.contacts, r.ending)
      else
        ClientRun([], [], c, Finished(VerdictFor(b)))
  }

  // ---------------------------------------------------------------------------------------

  /** Both loop tests single out the in-play byte values 1..254. */
  lemma ConditionsAgree(b: Byte)
    ensures KeepsReceiving(b) <==> InPlayByte(b)
    ensures AsksForGuess(b) <==> InPlayByte(b)
  {
  }

  /** The printed board is the received one cut at `contacts` characters. */
  lemma ShownIsPrefix(board: seq<char>, contacts: nat)
    ensures |Shown(board, contacts)| == (if |board| < contacts then |board| else contacts)
    ensures Shown(board, contacts) <= board
    ensures Shown(board, contacts) == board <==> |board| <= contacts
  {
  }

  /**
   * The client sends one guess (and prints one board) for each leading in-play byte and for
   * nothing else: the guesses are the cursor's first handouts, and the loop ends either on the
   * first 0 or 255 (win exactly for 255) or because the messages ran out.
   */
  lemma {:induction false} ReceiveRounds(msgs: seq<Status>, contacts: nat, cur: Cursor)
    requires Valid(cur)
    ensures var r := Receive(msgs, contacts, cur);
      |r.guesses| == |r.shown| <= |msgs| &&
      r.guesses == Handouts(cur, |r.guesses|) &&
      (forall k :: 0 <= k < |r.guesses| ==> InPlayByte(msgs[k].left)) &&
      (r.ending == StreamEnded <==> |r.guesses| == |msgs|) &&
      (r.ending != StreamEnded ==>
        !InPlayByte(msgs[|r.guesses|].left) &&
        (r.ending == Finished(YouWin) <==> msgs[|r.guesses|].left == WinByte))
    decreases |msgs|
  {
    if msgs != [] && AsksForGuess(msgs[0].left) {
      var h := Next(cur);
      var c := Latch(contacts, msgs[0].left);
      ReceiveRounds(msgs[1..], c, h.next);
      var r := Receive(msgs[1..], c, h.next);
      assert Handouts(cur, |r.guesses| + 1) == [h.guess] + Handouts(h.next, |r.guesses|);
    }
  }

  /**
   * When the bytes are in play up to index `n` and the byte at `n` is 0 or 255, the client
   * sends exactly `n` guesses and ends with the verdict for that byte; when every byte is in
   * play, it sends one guess per message and its reading ends with the stream.
   */
  lemma {:induction false} ReceiveStopsAt(msgs: seq<Status>, n: nat, contacts: nat, cur: Cursor)
    requires Valid(cur) && n <= |msgs|
    requires forall k :: 0 <= k < n ==> InPlayByte(msgs[k].left)
    requires n < |msgs| ==> !InPlayByte(msgs[n].left)
    ensures |Receive(msgs, contacts, cur).guesses| == n
    ensures Receive(msgs, contacts, cur).ending
         == if n < |msgs| then Finished(VerdictFor(msgs[n].left)) else StreamEnded
    decreases n
  {
    if n > 0 {
      ReceiveStopsAt(msgs[1..], n - 1, Latch(contacts, msgs[0].left), Next(cur).next);
    }
  }

  /** Once latched, the board length never changes, and every printed board is cut at it. */
  lemma {:induction false} LatchHolds(msgs: seq<Status>, contacts: nat, cur: Cursor)
    requires Valid(cur) && contacts != 0
    ensures Receive(msgs, contacts, cur).contacts == contacts
    ensures forall k :: 0 <= k < |Receive(msgs, contacts, cur).shown| && k < |msgs| ==>
              Receive(msgs, contacts, cur).shown[k] == Shown(msgs[k].board, contacts)
    decreases |msgs|
  {
    if msgs != [] && AsksForGuess(msgs[0].left) {
      LatchHolds(msgs[1..], contacts, Next(cur).next);
    }
  }

  /** The board length is the first status byte received; all printed boards are cut at it. */
  lemma LatchedFromFirst(msgs: seq<Status>, cur: Cursor)
    requires Valid(cur) && msgs != []
    ensures Receive(msgs, 0, cur).contacts == msgs[0].left
    ensures forall k :: 0 <= k < |Receive(msgs, 0, cur).shown| && k < |msgs| ==>
              Receive(msgs, 0, cur).shown[k] == Shown(msgs[k].board, msgs[0].left)
  {
    if AsksForGuess(msgs[0].left) {
      LatchHolds(msgs[1..], msgs[0].left, Next(cur).next);
    }
  }

  /** `r` after the guesses `sent` and the printed boards `shown`. */
  function After(sent: seq<char>, shown: seq<seq<char>>, r: ClientRun): ClientRun {
    ClientRun(sent + r.guesses, shown + r.shown, r.contacts, r.ending)
  }

  /** The rest of the receive loop once byte `b` has been handled; `b` is 1 before the first message. */
  function Resume(msgs: seq<Status>, k: nat, b: Byte, contacts: nat, cur: Cursor): ClientRun
    requires Valid(cur) && k <= |msgs|
  {
    if KeepsReceiving(b) then Receive(msgs[k..], contacts, cur)
    else ClientRun([], [], contacts, Finished(VerdictFor(b)))
  }

  /** One iteration of the receive loop, on message `k`. */
  lemma ReceiveAt(msgs: seq<Status>, k: nat, contacts: nat, cur: Cursor)
    requires Valid(cur) && k < |msgs|
    ensures var b := msgs[k].left; var c := Latch(contacts, b);
      Receive(msgs[k..], contacts, cur)
        == if AsksForGuess(b) then
             After([Next(cur).guess], [Shown(msgs[k].board, c)], Resume(msgs, k + 1, b, c, Next(cur).next))
           else
             Resume(msgs, k + 1, b, c, Next(cur).next)
  {
    assert msgs[k..][1..] == msgs[k + 1..];
  }

  /** Two stretches of the loop in a row. */
  lemma AfterAfter(a: seq<char>, b: seq<seq<char>>, c: seq<char>, d: seq<seq<char>>, r: ClientRun)
    ensures After(a, b, After(c, d, r)) == After(a + c, b + d, r)
  {
    assert a + (c + r.guesses) == (a + c) + r.guesses;
    assert b + (d + r.shown) == (b + d) + r.shown;
  }

  // ---------------------------------------------------------------------------------------

  /**
   * The receive loop of the client's `main`, on the server's messages `msgs` and the standard
   * input `stdin`. When the messages run out before a terminating byte the loop stops (the C
   * client would go on with the stale byte).
   */
  method RunClient(msgs: seq<Status>, stdin: seq<char>) returns (r: ClientRun)
    ensures r == Receive(msgs, 0, FreshCursor(stdin))
  {
    var guesses: Byte := 1;
    var contacts: nat := 0;
    var reader := new GuessReader(stdin);
    var sentGuesses: seq<char> := [];
    var shown: seq<seq<char>> := [];
    var k := 0;
    var ended := false;
    ghost var spec := Receive(msgs, 0, FreshCursor(stdin));
    assert msgs[0..] == msgs;
    while guesses > 0 && guesses != WinByte
      invariant 0 <= k <= |msgs| && !ended
      invariant fresh(reader.guessBuf) && reader.Ready()
      invariant spec == After(sentGuesses, shown, Resume(msgs, k, guesses, contacts, reader.State()))
      decreases |msgs| - k
    {
      if k == |msgs| {
        ended := true;
        break;
      }
      ghost var cur := reader.State();
      ReceiveAt(msgs, k, contacts, cur);
      guesses := msgs[k].left;
      if contacts == 0 {
        contacts := guesses;
      }
      if guesses != LossByte && guesses != WinByte {
        var line := Shown(msgs[k].board, contacts);
        var guess := reader.NextGuess();
        AfterAfter(sentGuesses, shown, [guess], [line], Resume(msgs, k + 1, guesses, contacts, reader.State()));
        shown := shown + [line];
        sentGuesses := sentGuesses + [guess];
      } else {
        assert Resume(msgs, k + 1, guesses, contacts, Next(cur).next) == Resume(msgs, k + 1, guesses, contacts, reader.State());
      }
      k := k + 1;
    }
    if ended {
      r := ClientRun(sentGuesses, shown, contacts, StreamEnded);
    } else {
      r := ClientRun(sentGuesses, shown, contacts, Finished(VerdictFor(guesses)));
    }
  }
}

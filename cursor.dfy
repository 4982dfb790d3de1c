/**
 * The client's guess cursor: `guessBuf` holds the last line read from standard input, `bufIdx`
 * the position of the next character to send. A new line is read only when the cursor stands
 * on the terminating NUL; otherwise one character is handed out and the cursor advances.
 *
 * Standard input is a character sequence consumed by a model of `fgets`.
 */
module GuessInput {
  import opened Wire

  /** Size of `char guessBuf[1000]`. */
  const BufSize: nat := 1000

  /** The cursor's state: buffer contents, index, and the standard input not yet read. */
  datatype Cursor = Cursor(buf: seq<char>, idx: nat, stdin: seq<char>)

  /** What one request for a guess yields: the character and the cursor afterwards. */
  datatype Handout = Handout(guess: char, next: Cursor)

  /**
   * The cursor invariant: the buffer has its full size, the index lies inside it, and the last
   * byte is NUL, so the search for the terminator never leaves the buffer.
   */
  predicate Valid(c: Cursor) {
    |c.buf| == BufSize && c.idx < BufSize && c.buf[BufSize - 1] == NUL
  }

  /**
   * The cursor before the first guess: `guessBuf[0] = '\0'`, index 0. The C leaves the other
   * bytes of the buffer unset; here they are NUL.
   */
  function FreshCursor(stdin: seq<char>): (c: Cursor)
    ensures Valid(c) && c.stdin == stdin && c.idx == 0 && c.buf[c.idx] == NUL
  {
    Cursor(seq(BufSize, _ => NUL), 0, stdin)
  }

  /**
   * How many characters `fgets` with room for `limit` characters takes from `stdin`: up to and
   * including the first newline, but no more than `limit` and no more than there are.
   */
  function LineLength(stdin: seq<char>, limit: nat): (n: nat)
    ensures n <= |stdin| && n <= limit
    ensures stdin != [] && limit > 0 ==> n > 0
    ensures forall i :: 0 <= i < n - 1 ==> stdin[i] != '\n'
    ensures n < |stdin| && n < limit ==> n > 0 && stdin[n - 1] == '\n'
  {
    if stdin == [] || limit == 0 then 0
    else if stdin[0] == '\n' then 1
    else 1 + LineLength(stdin[1..], limit - 1)
  }

  /**
   * `fgets(guessBuf, sizeof(guessBuf), stdin)`: the characters taken, then a NUL, over the old
   * buffer; with the rest of the input. At end of input nothing is read and the buffer is as it was.
   */
  function Fgets(buf: seq<char>, stdin: seq<char>): (r: (seq<char>, seq<char>))
    requires |buf| == BufSize
  {
    var n := LineLength(stdin, BufSize - 1);
    if n == 0 then (buf, stdin) else (stdin[..n] + [NUL] + buf[n + 1..], stdin[n..])
  }

  /**
   * One request for a guess. The C test `guessBuf[bufIdx] == '\0' && guessBuf[bufIdx] != '\n'`
   * reduces to its first half.
   */
  function Next(c: Cursor): (h: Handout)
    requires Valid(c)
    ensures Valid(h.next)
  {
    if c.buf[c.idx] == NUL then
      var (b, rest) := Fgets(c.buf, c.stdin);
      Handout(b[0], Cursor(b, 1, rest))
    else
      Handout(c.buf[c.idx], Cursor(c.buf, c.idx + 1, c.stdin))
  }

  /** The first `n` guesses handed out from `c`. */
  function Handouts(c: Cursor, n: nat): (s: seq<char>)
    requires Valid(c)
    ensures |s| == n
    decreases n
  {
    if n == 0 then [] else var h := Next(c); [h.guess] + Handouts(h.next, n - 1)
  }

  /** The index of the first NUL at or after `i`. */
  function FirstNul(buf: seq<char>, i: nat): (j: nat)
    requires i < |buf| && buf[|buf| - 1] == NUL
    ensures i <= j < |buf| && buf[j] == NUL
    ensures forall k :: i <= k < j ==> buf[k] != NUL
    decreases |buf| - i
  {
    if buf[i] == NUL then i else FirstNul(buf, i + 1)
  }

  /** The characters of the current line that the cursor has yet to hand out. */
  function Pending(c: Cursor): seq<char>
    requires Valid(c)
  {
    c.buf[c.idx..FirstNul(c.buf, c.idx)]
  }

  /** Input without a NUL character (a NUL typed on a line would end the line for the cursor). */
  predicate NoNul(s: seq<char>) {
    forall i :: 0 <= i < |s| ==> s[i] != NUL
  }

  // ---------------------------------------------------------------------------------------

  /**
   * A line is read only when the cursor stands on the NUL, and then the cursor restarts:
   * it hands out the buffer's first character and stands at index 1. Otherwise it hands out
   * the character under it and moves on by one, buffer and input untouched.
   */
  lemma NextSteps(c: Cursor)
    requires Valid(c)
    ensures c.buf[c.idx] != NUL ==> Next(c) == Handout(c.buf[c.idx], Cursor(c.buf, c.idx + 1, c.stdin))
    ensures c.buf[c.idx] == NUL ==> Next(c).next.idx == 1 && Next(c).guess == Next(c).next.buf[0]
    ensures Next(c).next.stdin != c.stdin ==> c.buf[c.idx] == NUL
  {
  }

  /** At end of input the cursor replays the line in its buffer from the start. */
  lemma EndOfInputReplays(c: Cursor)
    requires Valid(c) && c.buf[c.idx] == NUL && c.stdin == []
    ensures Next(c) == Handout(c.buf[0], Cursor(c.buf, 1, []))
  {
  }

  /** The first NUL from `i` is the one at `j` when none lies before it. */
  lemma {:induction false} FirstNulAt(buf: seq<char>, i: nat, j: nat)
    requires i <= j < |buf| && buf[|buf| - 1] == NUL && buf[j] == NUL
    requires forall k :: i <= k < j ==> buf[k] != NUL
    ensures FirstNul(buf, i) == j
    decreases j - i
  {
    if i < j {
      FirstNulAt(buf, i + 1, j);
    }
  }

  /** What a refill leaves in the buffer: the `n` characters read, then a NUL, then the old bytes. */
  lemma RefilledBuffer(buf: seq<char>, stdin: seq<char>)
    requires |buf| == BufSize && buf[BufSize - 1] == NUL && stdin != []
    ensures var n := LineLength(stdin, BufSize - 1); var b := Fgets(buf, stdin).0;
      0 < n < BufSize && |b| == BufSize && b[n] == NUL && b[BufSize - 1] == NUL &&
      (forall k :: 0 <= k < n ==> b[k] == stdin[k]) && Fgets(buf, stdin).1 == stdin[n..]
  {
  }

  /** On the NUL, one guess reads a line and hands out its first character; the rest of the line is pending. */
  lemma RefillTakesFirst(c: Cursor)
    requires Valid(c) && NoNul(c.stdin) && c.buf[c.idx] == NUL && c.stdin != []
    ensures [Next(c).guess] + Pending(Next(c).next) + Next(c).next.stdin == c.stdin
  {
    var n := LineLength(c.stdin, BufSize - 1);
    RefilledBuffer(c.buf, c.stdin);
    var b := Fgets(c.buf, c.stdin).0;
    FirstNulAt(b, 1, n);
    assert Pending(Next(c).next) == b[1..n] == c.stdin[1..n];
    assert c.stdin == [c.stdin[0]] + c.stdin[1..n] + c.stdin[n..];
  }

  /** Off the NUL, one guess hands out the character under the cursor; the rest of the line stays pending. */
  lemma AdvanceTakesFirst(c: Cursor)
    requires Valid(c) && c.buf[c.idx] != NUL
    ensures [Next(c).guess] + Pending(Next(c).next) == Pending(c)
  {
    FirstNulAt(c.buf, c.idx + 1, FirstNul(c.buf, c.idx));
  }

  /**
   * One guess takes the first of the pending characters followed by the unread input, and the
   * rest stays pending or unread, in order.
   */
  lemma NextTakesFirst(c: Cursor)
    requires Valid(c) && NoNul(c.stdin) && Pending(c) + c.stdin != []
    ensures NoNul(Next(c).next.stdin)
    ensures [Next(c).guess] + Pending(Next(c).next) + Next(c).next.stdin == Pending(c) + c.stdin
  {
    if c.buf[c.idx] == NUL {
      assert Pending(c) == [];
      RefillTakesFirst(c);
      RefilledBuffer(c.buf, c.stdin);
    } else {
      AdvanceTakesFirst(c);
    }
  }

  /**
   * As long as the input holds no NUL, the cursor hands out the pending characters of its
   * line and then the input, character by character, newlines included.
   */
  lemma {:induction false} HandoutsSpellInput(c: Cursor, n: nat)
    requires Valid(c) && NoNul(c.stdin) && n <= |Pending(c) + c.stdin|
    ensures Handouts(c, n) == (Pending(c) + c.stdin)[..n]
    decreases n
  {
    if n > 0 {
      var h := Next(c);
      NextTakesFirst(c);
      var rest := Pending(h.next) + h.next.stdin;
      HandoutsSpellInput(h.next, n - 1);
      assert Handouts(c, n) == [h.guess] + rest[..n - 1];
      assert ([h.guess] + rest)[..n] == [h.guess] + rest[..n - 1];
    }
  }

  /** Asking for fewer guesses yields a prefix of the longer handout. */
  lemma {:induction false} HandoutsPrefix(c: Cursor, n: nat, m: nat)
    requires Valid(c) && n <= m
    ensures Handouts(c, m)[..n] == Handouts(c, n)
    decreases n
  {
    if n > 0 {
      HandoutsPrefix(Next(c).next, n - 1, m - 1);
    }
  }

  /** From a fresh cursor the guesses are the input's characters, in order. */
  lemma FreshHandouts(stdin: seq<char>, n: nat)
    requires NoNul(stdin) && n <= |stdin|
    ensures Handouts(FreshCursor(stdin), n) == stdin[..n]
  {
    var c := FreshCursor(stdin);
    FirstNulAt(c.buf, 0, 0);
    assert Pending(c) == [];
    HandoutsSpellInput(c, n);
    assert Pending(c) + stdin == stdin;
  }

  // ---------------------------------------------------------------------------------------

  /** `guessBuf`, `bufIdx` and the standard input, as the client's `main` updates them. */
  class GuessReader {
    var guessBuf: array<char>
    var bufIdx: nat
    var stdin: seq<char>

    /** The abstract state of the reader. */
    ghost function State(): Cursor
      reads this, guessBuf
    {
      Cursor(guessBuf[..], bufIdx, stdin)
    }

    ghost predicate Ready()
      reads this, guessBuf
    {
      Valid(State())
    }

    /** `guessBuf[0] = '\0'` and `bufIdx = 0`, before the receive loop. */
    constructor (input: seq<char>)
      ensures Ready() && State() == FreshCursor(input) && fresh(guessBuf)
    {
      guessBuf := new char[BufSize](_ => NUL);
      bufIdx := 0;
      stdin := input;
    }

    /** The guess to send this round. */
    method NextGuess() returns (guess: char)
      requires Ready()
      modifies this, guessBuf
      ensures Ready() && guessBuf == old(guessBuf)
      ensures Handout(guess, State()) == Next(old(State()))
    {
      if guessBuf[bufIdx] == NUL {
        bufIdx := 0;
        ReadLine();
        guess := guessBuf[bufIdx];
        bufIdx := bufIdx + 1;
      } else {
        guess := guessBuf[bufIdx];
        bufIdx := bufIdx + 1;
      }
    }

    /** `fgets(guessBuf, sizeof(guessBuf), stdin)`: refills the buffer in place. */
    method ReadLine()
      requires guessBuf.Length == BufSize
      modifies this`stdin, guessBuf
      ensures (guessBuf[..], stdin) == Fgets(old(guessBuf[..]), old(stdin))
    {
      var n := LineLength(stdin, BufSize - 1);
      if n > 0 {
        for i := 0 to n
          invariant stdin == old(stdin)
          invariant forall k :: 0 <= k < i ==> guessBuf[k] == stdin[k]
          invariant forall k :: i <= k < BufSize ==> guessBuf[k] == old(guessBuf[k])
        {
          guessBuf[i] := stdin[i];
        }
        guessBuf[n] := NUL;
        assert guessBuf[..] == stdin[..n] + [NUL] + old(guessBuf[..])[n + 1..];
        stdin := stdin[n..];
      }
    }
  }
}

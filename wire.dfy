/** Values that travel over the game connection. */
module Wire {

  /** An unsigned 8-bit value: the C `uint8_t` guess counter and the status byte on the wire. */
  type Byte = x: int | 0 <= x < 256

  /** Status byte announcing that the word was solved. */
  const WinByte: Byte := 255

  /** Status byte announcing that no guesses are left. */
  const LossByte: Byte := 0

  /** The character C uses to terminate strings. */
  const NUL: char := '\0'

  /** One status message from server to client: the counter byte, then the board characters. */
  datatype Status = Status(left: Byte, board: seq<char>)

  /** A byte value under which the game is still being played (neither sentinel). */
  predicate InPlayByte(b: Byte) {
    1 <= b <= 254
  }
}

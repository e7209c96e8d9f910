/**
 * Keyboard input of the game: how a raw terminal read becomes a key token
 * (`readInput`), what the input goroutine forwards to the game loop, and the
 * ghosts' random direction (`drawDirection`). Identical in every step.
 */
module Keys {

  /** A byte delivered by the terminal. */
  newtype byte = x: int | 0 <= x < 256

  const ESC_BYTE: byte := 0x1b
  const BRACKET: byte := 0x5b      // '['
  const ARROW_UP: byte := 0x41     // 'A'
  const ARROW_DOWN: byte := 0x42   // 'B'
  const ARROW_RIGHT: byte := 0x43  // 'C'
  const ARROW_LEFT: byte := 0x44   // 'D'

  /**
   * The tokens the game passes around as strings: "UP", "DOWN", "RIGHT",
   * "LEFT", "ESC" and the empty string "" (NoKey).
   */
  datatype Key = Up | Down | Right | Left | Esc | NoKey

  /** The four tokens `makeMove` acts on. */
  predicate IsMove(k: Key) {
    k.Up? || k.Down? || k.Right? || k.Left?
  }

  /** The buffer is the three-byte arrow sequence ESC '[' `letter` (trailing bytes allowed). */
  predicate IsArrow(buf: seq<byte>, letter: byte) {
    |buf| >= 3 && buf[0] == ESC_BYTE && buf[1] == BRACKET && buf[2] == letter
  }

  /**
   * The decision half of `readInput`: `buf` is the `cnt` bytes the read
   * returned. A lone ESC quits, ESC '[' A..D are the arrows, anything else
   * (two bytes, an unknown letter, plain text, nothing) is "" and never an error.
   */
  function Decode(buf: seq<byte>): (k: Key)
    ensures k == Esc <==> |buf| == 1 && buf[0] == ESC_BYTE
    ensures k == Up <==> IsArrow(buf, ARROW_UP)
    ensures k == Down <==> IsArrow(buf, ARROW_DOWN)
    ensures k == Right <==> IsArrow(buf, ARROW_RIGHT)
    ensures k == Left <==> IsArrow(buf, ARROW_LEFT)
    ensures |buf| == 2 ==> k == NoKey
  {
    if |buf| == 1 && buf[0] == ESC_BYTE then Esc
    else if |buf| >= 3 && buf[0] == ESC_BYTE && buf[1] == BRACKET then
      if buf[2] == ARROW_UP then Up
      else if buf[2] == ARROW_DOWN then Down
      else if buf[2] == ARROW_RIGHT then Right
      else if buf[2] == ARROW_LEFT then Left
      else NoKey
    else NoKey
  }

  /** The bytes a terminal sends for each key; Decode inverts it. */
  function KeyBytes(k: Key): (buf: seq<byte>)
    ensures Decode(buf) == k
    ensures k == NoKey <==> buf == []
  {
    match k
    case Up => [ESC_BYTE, BRACKET, ARROW_UP]
    case Down => [ESC_BYTE, BRACKET, ARROW_DOWN]
    case Right => [ESC_BYTE, BRACKET, ARROW_RIGHT]
    case Left => [ESC_BYTE, BRACKET, ARROW_LEFT]
    case Esc => [ESC_BYTE]
    case NoKey => []
  }

  /** Only the first three bytes and the count matter: extra bytes after an arrow are ignored. */
  lemma DecodeIgnoresTail(buf: seq<byte>, tail: seq<byte>)
    requires |buf| >= 3
    ensures Decode(buf + tail) == Decode(buf)
  {
  }

  /** One terminal read: the bytes it returned, or a read error. */
  datatype ReadResult = Read(bytes: seq<byte>) | ReadFailed

  /**
   * What one iteration of the input goroutine sends on the channel (steps 07
   * to 10): a failed read sends "ESC" and then, since the loop does not skip
   * ahead, also the "" that `readInput` returned; a good read sends its token.
   */
  function Forwarded(r: ReadResult): (sent: seq<Key>)
    ensures |sent| >= 1
    ensures sent[0] == Esc <==> r.ReadFailed? || r.bytes == [ESC_BYTE]
    ensures r.Read? ==> sent == [Decode(r.bytes)]
    ensures r.ReadFailed? ==> |sent| == 2
    ensures forall i :: 1 <= i < |sent| ==> sent[i] == NoKey
  {
    match r
    case ReadFailed => [Esc, NoKey]
    case Read(bytes) => [Decode(bytes)]
  }

  /**
   * `drawDirection`: the index `rand.Intn(4)` returned, looked up in the map
   * {0: "UP", 1: "DOWN", 2: "RIGHT", 3: "LEFT"}; a missing index would give "".
   */
  function DrawDirection(n: int): (k: Key)
    ensures IsMove(k) <==> 0 <= n < 4
    ensures !IsMove(k) ==> k == NoKey
  {
    if n == 0 then Up
    else if n == 1 then Down
    else if n == 2 then Right
    else if n == 3 then Left
    else NoKey
  }

  /** Each of the four directions is drawn by exactly one of the four indices, so the choice is uniform. */
  lemma DrawDirectionBijective(k: Key)
    requires IsMove(k)
    ensures exists n :: 0 <= n < 4 && DrawDirection(n) == k
    ensures forall n, m :: 0 <= n < 4 && 0 <= m < 4 && DrawDirection(n) == k && DrawDirection(m) == k ==> n == m
  {
    var n := if k == Up then 0 else if k == Down then 1 else if k == Right then 2 else 3;
    assert DrawDirection(n) == k;
  }
}

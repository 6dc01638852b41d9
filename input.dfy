/** read_input: decoding the key bytes of one event, with getch replaced by a byte sequence. */
module Input {
  import opened Tiles

  newtype byte = x: int | 0 <= x < 256

  const LineFeed: byte := 10
  const Escape: byte := 27
  /** '[': with Escape it forms the CSI introducer of ECMA-48, section 5.4. */
  const OpenBracket: byte := 91

  /** One decoded event and the number of getch calls it took. */
  datatype Decoded = Decoded(event: Direction, consumed: nat)

  /**
   * The i-th byte getch returns. At the end of the input read(2) stores nothing
   * and getch returns its zero-initialised buffer.
   */
  function NextByte(input: seq<byte>, i: nat): byte {
    if i < |input| then input[i] else 0
  }

  /** The byte sequence a terminal sends for an arrow key or Enter. */
  function KeySequence(d: Direction): (s: seq<byte>)
    requires d != Invalid
  {
    match d
    case Confirm => [LineFeed]
    case Up => [Escape, OpenBracket, 65]
    case Down => [Escape, OpenBracket, 66]
    case Right => [Escape, OpenBracket, 67]
    case Left => [Escape, OpenBracket, 68]
  }

  /** Does `input` begin with the key sequence of `d`? */
  predicate StartsWith(input: seq<byte>, d: Direction)
    requires d != Invalid
  {
    KeySequence(d) <= input
  }

  function ReadInput(input: seq<byte>): (r: Decoded)
    // a second byte is read only after ESC, a third only after ESC '['
    ensures r.consumed == 1 <==> NextByte(input, 0) != Escape
    ensures r.consumed == 3 <==> NextByte(input, 0) == Escape && NextByte(input, 1) == OpenBracket
    ensures 1 <= r.consumed <= 3
    // each event is produced by exactly its own key sequence
    ensures forall d :: d != Invalid ==> (r.event == d <==> StartsWith(input, d))
    ensures r.event == Invalid <==>
              !StartsWith(input, Confirm) && !StartsWith(input, Up) && !StartsWith(input, Down) &&
              !StartsWith(input, Left) && !StartsWith(input, Right)
  {
    var first := NextByte(input, 0);
    if first == LineFeed then Decoded(Confirm, 1)
    else if first != Escape then Decoded(Invalid, 1)
    else if NextByte(input, 1) != OpenBracket then Decoded(Invalid, 2)
    else
      match NextByte(input, 2)
      case 68 => Decoded(Left, 3)
      case 67 => Decoded(Right, 3)
      case 65 => Decoded(Up, 3)
      case 66 => Decoded(Down, 3)
      case _ => Decoded(Invalid, 3)
  }

  /** Decoding the key sequence of an event yields that event and consumes exactly its bytes. */
  lemma {:induction false} ReadInputKeySequence(d: Direction, rest: seq<byte>)
    requires d != Invalid
    ensures ReadInput(KeySequence(d) + rest) == Decoded(d, |KeySequence(d)|)
  {
    var s := KeySequence(d) + rest;
    assert StartsWith(s, d);
  }

  /** Once the input is exhausted every further read_input yields `invalid`. */
  lemma ExhaustedInputIsInvalid()
    ensures ReadInput([]) == Decoded(Invalid, 1)
  {
  }
}

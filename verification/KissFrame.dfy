/** KISS framing constants, command codes and the decoded frame (kiss/frame.rs). */
module KissFrame {
  import opened Common

  const FEND: Byte := 0xC0
  const FESC: Byte := 0xDB
  const TFEND: Byte := 0xDC
  const TFESC: Byte := 0xDD

  datatype Command =
    | Data | TxDelay | Persistence | SlotTime | TxTail | FullDuplex | SetHardware | AckMode | Poll
    | Other(code: Byte)

  function FromNibble(nibble: Byte): Command {
    var n := nibble & 0x0F;
    if n == 0x0 then Data
    else if n == 0x1 then TxDelay
    else if n == 0x2 then Persistence
    else if n == 0x3 then SlotTime
    else if n == 0x4 then TxTail
    else if n == 0x5 then FullDuplex
    else if n == 0x6 then SetHardware
    else if n == 0xC then AckMode
    else if n == 0xE then Poll
    else Other(n)
  }

  function ToNibble(c: Command): Byte {
    match c
    case Data => 0x0
    case TxDelay => 0x1
    case Persistence => 0x2
    case SlotTime => 0x3
    case TxTail => 0x4
    case FullDuplex => 0x5
    case SetHardware => 0x6
    case AckMode => 0xC
    case Poll => 0xE
    case Other(n) => n & 0x0F
  }

  /** A command that is its own decoding: every named one, and `Other` with a
      nibble no named command uses. */
  predicate Canonical(c: Command) { FromNibble(ToNibble(c)) == c }

  /** Every nibble is the code of exactly one command, and a command survives unless it is
      `Other` with the code of a named one or more than a nibble. */
  lemma NibblesAreCommands(n: Byte, c: Command)
    ensures n <= 15 ==> ToNibble(FromNibble(n)) == n
    ensures Canonical(c) <==> c.Other? ==> 7 <= c.code <= 11 || c.code == 13 || c.code == 15
  {}

  datatype Frame = Frame(port: Byte, command: Command, payload: Bytes)

  function CommandByte(port: Byte, c: Command): Byte { ((port & 0x0F) << 4) | ToNibble(c) }

  /** What a receiver makes of a frame body; the empty body is no frame. */
  function FrameOf(body: Bytes): Frame
    requires body != []
  {
    Frame((body[0] >> 4) & 0x0F, FromNibble(body[0] & 0x0F), body[1..])
  }

  function Body(f: Frame): (b: Bytes)
    ensures |b| == 1 + |f.payload|
  {
    [CommandByte(f.port, f.command)] + f.payload
  }

  lemma NibblesSurvive(port: Byte, n: Byte)
    requires port <= 15 && n <= 15
    ensures ((((port & 0x0F) << 4) | n) >> 4) & 0x0F == port
    ensures (((port & 0x0F) << 4) | n) & 0x0F == n
  {}

  lemma NibbleRange(c: Command)
    ensures ToNibble(c) <= 15
  {}

  /** A frame body read back is the frame with its command made canonical, so a
      frame survives exactly when its command is canonical. */
  lemma BodyReadsBack(f: Frame)
    requires f.port <= 15
    ensures FrameOf(Body(f)) == f.(command := FromNibble(ToNibble(f.command)))
    ensures FrameOf(Body(f)) == f <==> Canonical(f.command)
  {
    NibbleRange(f.command);
    NibblesSurvive(f.port, ToNibble(f.command));
  }
}

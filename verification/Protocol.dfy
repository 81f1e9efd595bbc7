/** What both sides of the protocol share: words, flags and splitting with a limit
    (opdi_protocol_constants.h, opdi_constants.h). */
module Protocol {
  import opened Constants
  import opened Frames
  import opened Numbers
  import opened Strings
  import opened Wire

  const HANDSHAKE: seq<byte> := [79, 80, 68, 73]         // OPDI
  const VERSION: seq<byte> := [48, 46, 49]               // 0.1
  const BASIC: seq<byte> := [66, 80]                     // BP
  const EXTENDED: seq<byte> := [69, 80]                  // EP
  const ERROR: seq<byte> := [69, 114, 114]               // Err
  const DISCONNECT: seq<byte> := [68, 105, 115]          // Dis
  const DEBUG: seq<byte> := [68, 101, 98, 117, 103]      // Debug
  const AGREEMENT: seq<byte> := [79, 75]                 // OK
  const DISAGREEMENT: seq<byte> := [78, 79, 75]          // NOK
  const AUTH: seq<byte> := [65, 117, 116, 104]           // Auth
  const COMMA: byte := 44

  const MAX_MESSAGE_PARTS := 16
  const MAX_ENCRYPTIONS := 3
  const AUTHENTICATION_TIMEOUT := 60000

  /** Bit number k of a two's complement number: the flags are bits 0 to 2. */
  predicate Bit(flags: int, k: nat)
    requires k < 3
  {
    (if k == 0 then flags else if k == 1 then flags / 2 else flags / 4) % 2 == 1
  }

  predicate EncryptionRequired(flags: int) { Bit(flags, 0) }
  predicate EncryptionNotAllowed(flags: int) { Bit(flags, 1) }
  predicate AuthenticationRequired(flags: int) { Bit(flags, 2) }

  /** opdi_str_to_int32: what does not fit is the nearest number that does. */
  function StrToInt32(s: seq<byte>): Option<int> {
    var n := Number(s);
    if n.None? then None
    else if n.value < -0x8000_0000 then Some(-0x8000_0000)
    else if n.value > 0x7FFF_FFFF then Some(0x7FFF_FFFF)
    else n
  }

  /** The three flags are the three lowest bits of every number, negative ones included. */
  lemma FlagsAreBits(flags: int)
    ensures flags == 8 * (flags / 8) + (if EncryptionRequired(flags) then 1 else 0) +
                     (if EncryptionNotAllowed(flags) then 2 else 0) + (if AuthenticationRequired(flags) then 4 else 0)
  {
    Halved(flags);
    Halved(flags / 2);
    Halved(flags / 4);
    DividedTwice(flags);
  }

  lemma Halved(n: int)
    ensures n == 2 * (n / 2) + n % 2 && 0 <= n % 2 < 2
  {}

  lemma DividedTwice(n: int)
    ensures n / 2 / 2 == n / 4 && n / 4 / 2 == n / 8
  {}

  lemma StrToInt32OfSigned(n: int)
    ensures StrToInt32(Signed(n)) ==
            Some(if n < -0x8000_0000 then -0x8000_0000 else if n > 0x7FFF_FFFF then 0x7FFF_FFFF else n)
  {
    hide Number, Signed;
    NumberOfSigned(n);
  }

  /** strings_split with room for maxParts parts; None when there are more. */
  function SplitUpTo(s: seq<byte>, sep: byte, maxParts: nat, trim: bool): (r: Option<seq<seq<byte>>>)
    ensures r.Some? ==> 0 < |r.value| <= maxParts
  {
    var ps := SplitResult(s, sep, trim);
    if |ps| > maxParts then None else Some(ps)
  }

  /** The pointer at index k of the parts array behind a split: null where there is no part. */
  function PartAt(ps: seq<seq<byte>>, k: nat): Option<seq<byte>> {
    if k < |ps| then Some(ps[k]) else None
  }

  /** Joining parts into the payload buffer and encoding the result: the status, if it is not the
      link that fails. */
  function SendStatus(channel: nat, parts: seq<seq<byte>>, size: nat): Status
    requires ValidSize(size)
  {
    if parts != [] && |Join(parts, SEPARATOR)| + 1 >= size - 9 then ERROR_STRINGS_OVERFLOW
    else EncodeStatus(Msg(channel, Join(parts, SEPARATOR)), size)
  }

  /** Parts can be sent exactly if their join fits the payload buffer with its NUL, holds no terminator
      and makes a frame shorter than the message buffer. */
  lemma SendStatusIff(channel: nat, parts: seq<seq<byte>>, size: nat)
    requires ValidSize(size)
    ensures var payload := Join(parts, SEPARATOR);
            SendStatus(channel, parts, size) == OK <==>
            (parts == [] || |payload| < size - 10) && TERMINATOR !in payload && |Frame(Msg(channel, payload))| < size
  {
    hide Join, EncodeStatus, Frame;
    EncodeOkIff(Msg(channel, Join(parts, SEPARATOR)), size);
  }

  /** The number of a status on the wire. */
  function Code(s: Status): nat {
    match s
    case OK => 0 case DISCONNECTED => 1 case TIMEOUT => 2 case CANCELLED => 3
    case ERROR_MALFORMED_MESSAGE => 4 case ERROR_CONVERSION => 5 case ERROR_MSGBUF_OVERFLOW => 6
    case ERROR_DEST_OVERFLOW => 7 case ERROR_STRINGS_OVERFLOW => 8 case ERROR_PARTS_OVERFLOW => 9
    case PROTOCOL_ERROR => 10 case PROTOCOL_NOT_SUPPORTED => 11 case ENCRYPTION_NOT_SUPPORTED => 12
    case ENCRYPTION_REQUIRED => 13 case ENCRYPTION_ERROR => 14 case AUTH_NOT_SUPPORTED => 15
    case AUTHENTICATION_EXPECTED => 16 case AUTHENTICATION_FAILED => 17 case DEVICE_ERROR => 18
    case WRONG_PORT_TYPE => 22 case TOO_MANY_BINDINGS => 23 case NO_BINDING => 24
    case CHANNEL_INVALID => 25 case NETWORK_ERROR => 27 case TERMINATOR_IN_PAYLOAD => 28
    case MESSAGE_UNKNOWN => 33
  }
}

/** The messaging layer of the slave (opdi_message.c): encoding and decoding in its buffers, and
    the loops that receive and send over a plain or an encrypted link. */
module Messaging {
  import opened Constants
  import opened Strings
  import opened Frames
  import opened Numbers
  import opened Sequences
  import opened Wire
  import opened EncryptedWire

  // ------------------------------------------------------------ sums and digits, step by step

  lemma ModuloAdd(x: nat, y: nat)
    ensures (x % 0x1_0000 + y) % 0x1_0000 == (x + y) % 0x1_0000
  {}

  lemma ModuloSubtract(x: nat, y: nat)
    requires y < 256
    ensures ((x + y) % 0x1_0000 + 0x1_0000 - y) % 0x1_0000 == x % 0x1_0000
  {}

  lemma ChecksumNext(s: seq<byte>, n: nat)
    requires n < |s|
    ensures Checksum(s[..n + 1]) == (Checksum(s[..n]) + s[n]) % 0x1_0000
    ensures Checksum(s[..n]) == (Checksum(s[..n + 1]) + 0x1_0000 - s[n]) % 0x1_0000
  {
    assert s[..n + 1][..n] == s[..n];
    ModuloAdd(Sum(s[..n]), s[n]);
    ModuloSubtract(Sum(s[..n]), s[n]);
  }

  function Weight(i: nat): nat
    requires i < 4
  {
    if i == 0 then 1 else if i == 1 then 0x10 else if i == 2 then 0x100 else 0x1000
  }

  /** The value of the last i of four hexadecimal digits. */
  function HexLow(h: seq<byte>, i: nat): Option<nat>
    requires |h| == 4 && i <= 4
  {
    if i == 0 then Some(0)
    else
      var low, d := HexLow(h, i - 1), HexValue(h[4 - i]);
      if low.Some? && d.Some? then Some(low.value + d.value * Weight(i - 1)) else None
  }

  lemma HexLowIsValue(h: seq<byte>)
    requires |h| == 4
    ensures HexLow(h, 4) == Hex4Value(h)
  {
    hide HexValue;
    assert HexLow(h, 1) == HexValue(h[3]);
    assert HexLow(h, 2).None? ==> HexLow(h, 3).None?;
  }

  lemma {:induction false} HexLowStops(h: seq<byte>, i: nat, j: nat)
    requires |h| == 4 && i <= j <= 4 && HexLow(h, i).None?
    ensures HexLow(h, j).None?
    decreases j
  {
    if i < j {
      HexLowStops(h, i, j - 1);
    }
  }

  lemma Hex4Next(v: nat, i: nat)
    requires v < 0x1_0000 && 0 < i <= 4
    ensures Hex4(v)[..5 - i] == Hex4(v)[..4 - i] + [HexDigit(v / Weight(i - 1) % 16)]
  {
    hide HexDigit;
    assert v / 0x1000 % 16 == v / 0x1000;
    assert Hex4(v)[4 - i] == HexDigit(v / Weight(i - 1) % 16);
  }

  function StatusOf(d: Decoded): Status {
    match d
    case Malformed => ERROR_MALFORMED_MESSAGE
    case PayloadTooLong => ERROR_DEST_OVERFLOW
    case Message(_, _) => OK
  }

  class Messaging {
    const size: nat
    const msgBuf: array<byte>
    const msgPayload: array<byte>
    var encryption: bool

    /** The block cipher of the link. */
    const blocksize: nat
    const encryptBlock: Block -> Block
    const decryptBlock: Block -> Block

    /** The bytes the receive function will still deliver, what it returns after that, and the
        bytes the send function has taken. */
    var incoming: seq<byte>
    const fault: Status
    var outgoing: seq<byte>

    ghost predicate Valid() {
      && ValidSize(size) && msgBuf.Length == size && msgPayload.Length == size - 9 && msgBuf != msgPayload
      && blocksize > 0 && BlockFunction(encryptBlock, blocksize) && BlockFunction(decryptBlock, blocksize)
      && fault != OK
    }

    /** opdi_message_setup: encryption is off. */
    constructor (size: nat, blocksize: nat, encryptBlock: Block -> Block, decryptBlock: Block -> Block,
                 incoming: seq<byte>, fault: Status)
      requires ValidSize(size) && blocksize > 0 && fault != OK
      requires BlockFunction(encryptBlock, blocksize) && BlockFunction(decryptBlock, blocksize)
      ensures Valid() && !encryption && this.incoming == incoming && outgoing == []
      ensures this.size == size && this.blocksize == blocksize && this.fault == fault
      ensures this.encryptBlock == encryptBlock && this.decryptBlock == decryptBlock
    {
      this.size := size;
      this.blocksize := blocksize;
      this.encryptBlock, this.decryptBlock := encryptBlock, decryptBlock;
      this.incoming, this.fault, outgoing := incoming, fault, [];
      encryption := false;
      msgBuf := new byte[size];
      msgPayload := new byte[size - 9];
    }

    method ReceiveByte() returns (status: Status, b: byte)
      modifies `incoming
      ensures status == if old(incoming) == [] then fault else OK
      ensures old(incoming) == [] ==> incoming == []
      ensures old(incoming) != [] ==> b == old(incoming)[0] && incoming == old(incoming)[1..]
    {
      if incoming == [] {
        return fault, 0;
      }
      b, incoming := incoming[0], incoming[1..];
      return OK, b;
    }

    /** Sending may fail at any time; then nothing has gone out. */
    method Send(bytes: seq<byte>) returns (status: Status)
      modifies `outgoing
      ensures outgoing == if status == OK then old(outgoing) + bytes else old(outgoing)
    {
      status := *;
      if status == OK {
        outgoing := outgoing + bytes;
      }
    }

    // ---------------------------------------------------------- decode

    method CompareChecksum(cs: nat, bytes: array<byte>, pos: nat) returns (status: Status)
      requires pos + 4 <= bytes.Length
      ensures status == OK <==> Hex4Value(bytes[pos..pos + 4]) == Some(cs)
      ensures status == ERROR_CONVERSION <==> Hex4Value(bytes[pos..pos + 4]) == None
      ensures status in {OK, ERROR_CONVERSION, ERROR_MALFORMED_MESSAGE}
    {
      hide HexValue, Hex4Value;
      ghost var h := bytes[pos..pos + 4];
      HexLowIsValue(h);
      var value, i: nat := 0, 0;
      while i < 4
        invariant i <= 4 && HexLow(h, i) == Some(value)
      {
        var digit := HexValue(bytes[pos + 3 - i]);
        assert h[3 - i] == bytes[pos + 3 - i];
        if digit.None? {
          HexLowStops(h, i + 1, 4);
          return ERROR_CONVERSION;
        }
        value := value + digit.value * Weight(i);
        i := i + 1;
      }
      return if cs != value then ERROR_MALFORMED_MESSAGE else OK;
    }

    method FindChannelEnd(bytes: array<byte>) returns (found: bool, pos: nat, checksum: nat)
      requires bytes.Length >= 5
      ensures ChannelEnd(bytes[..]) == if found then Some(pos) else None
      ensures found ==> pos < CHANNEL_MAXBUF && checksum == Checksum(bytes[..pos])
    {
      hide Checksum;
      pos, checksum := 0, 0;
      assert Checksum(bytes[..0]) == 0 by { SumOfNothing(bytes[..0]); }
      while bytes[pos] != NUL
        invariant pos < CHANNEL_MAXBUF && checksum == Checksum(bytes[..pos])
        invariant forall k | 0 <= k < pos :: bytes[k] != NUL && bytes[k] != SEPARATOR
        decreases CHANNEL_MAXBUF - pos
      {
        if bytes[pos] == SEPARATOR {
          break;
        }
        ChecksumNext(bytes[..], pos);
        assert bytes[..][..pos] == bytes[..pos] && bytes[..][..pos + 1] == bytes[..pos + 1];
        checksum := (checksum + bytes[pos]) % 0x1_0000;
        pos := pos + 1;
        if pos >= CHANNEL_MAXBUF {
          return false, pos, checksum;
        }
      }
      return true, pos, checksum;
    }

    method FindPayloadEnd(bytes: array<byte>, start: nat, sum: nat) returns (found: bool, pos: nat, lastSep: nat, checksum: nat)
      requires 0 < start < bytes.Length && sum == Checksum(bytes[..start])
      ensures NextNul(bytes[..], start) == if found then Some(pos) else None
      ensures found ==> lastSep == LastSeparator(bytes[..], start, pos) && checksum == Checksum(bytes[..pos])
    {
      hide Checksum;
      pos, lastSep, checksum := start, 0, sum;
      while bytes[pos] != NUL
        invariant start <= pos < bytes.Length && checksum == Checksum(bytes[..pos])
        invariant forall k | start <= k < pos :: bytes[k] != NUL
        invariant lastSep == LastSeparator(bytes[..], start, pos)
        decreases bytes.Length - pos
      {
        if bytes[pos] == SEPARATOR {
          lastSep := pos;
        }
        ChecksumNext(bytes[..], pos);
        assert bytes[..][..pos] == bytes[..pos] && bytes[..][..pos + 1] == bytes[..pos + 1];
        checksum := (checksum + bytes[pos]) % 0x1_0000;
        pos := pos + 1;
        if pos >= bytes.Length {
          return false, pos, lastSep, checksum;
        }
      }
      NextNulIs(bytes[..], start, pos);
      return true, pos, lastSep, checksum;
    }

    /** Takes the last four bytes before pos off the sum again. */
    method SubtractDigits(bytes: array<byte>, pos: nat, sum: nat) returns (ok: bool, i: int, checksum: nat)
      requires pos < bytes.Length && sum == Checksum(bytes[..pos])
      ensures ok == (pos >= 4)
      ensures ok ==> i == pos - 5 && checksum == Checksum(bytes[..pos - 4])
    {
      hide Checksum;
      i, checksum := pos - 1, sum;
      while i > pos - 5
        invariant -1 <= i && pos - 5 <= i < pos && checksum == Checksum(bytes[..i + 1])
        decreases i
      {
        if i < 0 {
          return false, i, checksum;
        }
        ChecksumNext(bytes[..], i);
        assert bytes[..][..i] == bytes[..i] && bytes[..][..i + 1] == bytes[..i + 1];
        checksum := (checksum + 0x1_0000 - bytes[i]) % 0x1_0000;
        i := i - 1;
      }
      return true, i, checksum;
    }

    method BytesToString(bytes: array<byte>, offset: nat, length: nat) returns (status: Status)
      requires offset + length <= bytes.Length && bytes != msgPayload && msgPayload.Length > 0
      modifies msgPayload
      ensures status == if length >= msgPayload.Length then ERROR_DEST_OVERFLOW else OK
      ensures status == OK ==> msgPayload[..length] == bytes[offset..offset + length] && msgPayload[length] == NUL
    {
      var i := 0;
      while i < length
        invariant 0 <= i <= length && i < msgPayload.Length
        invariant msgPayload[..i] == bytes[offset..offset + i]
      {
        if i >= msgPayload.Length - 1 {
          return ERROR_DEST_OVERFLOW;
        }
        msgPayload[i] := bytes[offset + i];
        i := i + 1;
      }
      msgPayload[i] := NUL;
      return OK;
    }

    /** decode: on success the payload stands in the payload buffer. */
    method Decode(bytes: array<byte>) returns (status: Status, channel: nat, length: nat)
      requires Valid() && bytes.Length == size && bytes != msgPayload
      modifies msgPayload
      ensures var d := Frames.Decode(bytes[..], size - 9);
              status == StatusOf(d) && (d.Message? ==> channel == d.channel && Delivered(d.payload, length))
    {
      hide Checksum, StrToUint16, ChannelEnd, NextNul, LastSeparator, Hex4Value;
      channel, length := 0, 0;
      var found, pos, sum: nat := FindChannelEnd(bytes);
      if !found {
        return ERROR_MALFORMED_MESSAGE, channel, length;
      }
      var number := StrToUint16(bytes[..pos]);
      if number.None? {
        return ERROR_MALFORMED_MESSAGE, channel, length;
      }
      channel := number.value;
      assert bytes[..][..pos] == bytes[..pos];
      ChecksumNext(bytes[..], pos);
      assert bytes[..][..pos + 1] == bytes[..pos + 1];
      sum := (sum + bytes[pos]) % 0x1_0000;
      status, length := DecodeFrom(bytes, pos + 1, sum, channel);
    }

    ghost predicate Delivered(payload: seq<byte>, length: nat)
      reads msgPayload
    {
      length < msgPayload.Length && msgPayload[..length] == payload && msgPayload[length] == NUL
    }

    /** Whether the line that ends at pos ends with a separator and the checksum of what stands
        before. */
    method CompareLine(bytes: array<byte>, start: nat, pos: nat, sum: nat) returns (ok: bool)
      requires bytes.Length >= 5 && 0 < start <= pos < bytes.Length && sum == Checksum(bytes[..pos])
      requires LastSeparator(bytes[..], start, pos) > start
      ensures ok <==> pos >= 5 && bytes[pos - 5] == SEPARATOR && Hex4Value(bytes[pos - 4..pos]) == Some(Checksum(bytes[..pos - 5]))
    {
      hide Checksum, LastSeparator, Hex4Value;
      var long, i, rest: nat := SubtractDigits(bytes, pos, sum);
      if !long {
        return false;
      }
      var sep: byte := *;     // for i == -1: what stands in front of the buffer
      if i >= 0 {
        sep := bytes[i];
      }
      if sep != SEPARATOR {
        return false;
      }
      if i >= 0 {
        ChecksumNext(bytes[..], i);
        assert bytes[..][..i] == bytes[..i] && bytes[..][..i + 1] == bytes[..i + 1];
      } else {
        SeparatorIsNoDigit(bytes[..], start, pos);
        assert bytes[..][0..4] == bytes[0..4];
      }
      var compared := CompareChecksum((rest + 0x1_0000 - sep) % 0x1_0000, bytes, i + 1);
      return compared == OK;
    }

    /** decode from the first byte of the payload on. */
    method DecodeFrom(bytes: array<byte>, start: nat, sum: nat, channel: nat) returns (status: Status, length: nat)
      requires Valid() && bytes.Length == size && bytes != msgPayload
      requires ChannelEnd(bytes[..]) == Some(start - 1) && 0 < start <= CHANNEL_MAXBUF
      requires StrToUint16(bytes[..start - 1]) == Some(channel) && sum == Checksum(bytes[..start])
      modifies msgPayload
      ensures var d := Frames.Decode(bytes[..], size - 9);
              status == StatusOf(d) && (d.Message? ==> channel == d.channel && Delivered(d.payload, length))
    {
      hide Checksum, StrToUint16, ChannelEnd, NextNul, LastSeparator, Hex4Value;
      assert bytes[..][..start - 1] == bytes[..start - 1];
      length := 0;
      var found, pos, lastSep, checksum := FindPayloadEnd(bytes, start, sum);
      if !found || lastSep <= start {
        return ERROR_MALFORMED_MESSAGE, length;
      }
      var intact := CompareLine(bytes, start, pos, checksum);
      assert pos >= 5 ==> bytes[..][pos - 4..pos] == bytes[pos - 4..pos] && bytes[..][..pos - 5] == bytes[..pos - 5];
      if !intact {
        return ERROR_MALFORMED_MESSAGE, length;
      }
      length := lastSep - start;
      status := BytesToString(bytes, start, length);
      assert bytes[..][start..lastSep] == bytes[start..lastSep];
    }

    // ---------------------------------------------------------- encode

    method StringToBytes(s: seq<byte>, pos: nat) returns (status: Status)
      requires pos <= msgBuf.Length
      modifies msgBuf
      ensures status == if pos + |s| > msgBuf.Length then ERROR_DEST_OVERFLOW else OK
      ensures status == OK ==> msgBuf[..pos + |s|] == old(msgBuf[..pos]) + s
    {
      var i := 0;
      while i < |s|
        invariant 0 <= i <= |s| && pos + i <= msgBuf.Length
        invariant msgBuf[..pos + i] == old(msgBuf[..pos]) + s[..i]
      {
        if pos + i >= msgBuf.Length {
          return ERROR_DEST_OVERFLOW;
        }
        msgBuf[pos + i] := s[i];
        i := i + 1;
      }
      return OK;
    }

    method ChecksumBackwards(n: nat) returns (checksum: nat)
      requires n <= msgBuf.Length
      ensures checksum == Checksum(msgBuf[..n])
    {
      checksum := 0;
      var i := n;
      while i > 0
        invariant 0 <= i <= n && checksum == Checksum(msgBuf[i..n])
      {
        assert msgBuf[i - 1..n] == [msgBuf[i - 1]] + msgBuf[i..n];
        SumConcat([msgBuf[i - 1]], msgBuf[i..n]);
        SumOfOne(msgBuf[i - 1]);
        ModuloAdd(Sum(msgBuf[i..n]), msgBuf[i - 1]);
        checksum := (checksum + msgBuf[i - 1]) % 0x1_0000;
        i := i - 1;
      }
    }

    /** Adds the payload from start on to the sum; it may not hold a terminator. */
    method PayloadChecksum(start: nat, length: nat, sum: nat) returns (status: Status, pos: nat, checksum: nat)
      requires Valid() && start < size - 1 && start + length <= size && sum == Checksum(msgBuf[..start])
      ensures var n := Scanned(start, msgBuf[start..start + length], size);
              status == if TERMINATOR in msgBuf[start..start + n] then TERMINATOR_IN_PAYLOAD
                        else if start + length >= size - 1 then ERROR_MSGBUF_OVERFLOW else OK
      ensures status == OK ==> pos == start + length && checksum == Checksum(msgBuf[..pos])
    {
      hide Checksum;
      pos, checksum := start, sum;
      while pos < start + length
        invariant start <= pos <= start + length && pos < size - 1
        invariant TERMINATOR !in msgBuf[start..pos] && checksum == Checksum(msgBuf[..pos])
      {
        assert msgBuf[start..pos + 1] == msgBuf[start..pos] + [msgBuf[pos]];
        if msgBuf[pos] == TERMINATOR {
          ghost var n := Scanned(start, msgBuf[start..start + length], size);
          assert msgBuf[start..start + n][pos - start] == TERMINATOR;
          return TERMINATOR_IN_PAYLOAD, pos, checksum;
        }
        ChecksumNext(msgBuf[..], pos);
        assert msgBuf[..][..pos] == msgBuf[..pos] && msgBuf[..][..pos + 1] == msgBuf[..pos + 1];
        checksum := (checksum + msgBuf[pos]) % 0x1_0000;
        pos := pos + 1;
        if pos >= size - 1 {
          return ERROR_MSGBUF_OVERFLOW, pos, checksum;
        }
      }
      return OK, pos, checksum;
    }

    /** Appends the separator, the digits of the checksum and the terminator. */
    method WriteChecksum(start: nat, checksum: nat) returns (status: Status, pos: nat)
      requires Valid() && start < size - 1 && checksum < 0x1_0000
      modifies msgBuf
      ensures status == if start + 5 > size - 2 then ERROR_MSGBUF_OVERFLOW else OK
      ensures status == OK ==> pos == start + 6
      ensures status == OK ==> msgBuf[..pos] == old(msgBuf[..start]) + [SEPARATOR] + Hex4(checksum) + [TERMINATOR]
    {
      hide Hex4, HexDigit;
      ghost var head := msgBuf[..start] + [SEPARATOR];
      msgBuf[start] := SEPARATOR;
      pos := start + 1;
      if pos >= size - 1 {
        return ERROR_MSGBUF_OVERFLOW, pos;
      }
      assert msgBuf[..pos] == head + Hex4(checksum)[..0];
      var i: nat := 4;
      while i > 0
        invariant i <= 4 && pos == start + 5 - i && pos < size - 1
        invariant msgBuf[..pos] == head + Hex4(checksum)[..4 - i]
      {
        Hex4Next(checksum, i);
        msgBuf[pos] := HexDigit(checksum / Weight(i - 1) % 16);
        assert msgBuf[..pos + 1] == msgBuf[..pos] + [msgBuf[pos]];
        pos := pos + 1;
        if pos >= size - 1 {
          return ERROR_MSGBUF_OVERFLOW, pos;
        }
        i := i - 1;
      }
      assert Hex4(checksum)[..4] == Hex4(checksum);
      msgBuf[pos] := TERMINATOR;
      pos := pos + 1;
      return OK, pos;
    }

    /** The channel and its separator. */
    method EncodeChannel(channel: nat) returns (status: Status, pos: nat, sum: nat)
      requires Valid() && channel < 1000
      modifies msgBuf
      ensures pos == |Decimal(channel)| + 1 <= size && status == if pos >= size - 1 then ERROR_MSGBUF_OVERFLOW else OK
      ensures status == OK ==> msgBuf[..pos] == Decimal(channel) + [SEPARATOR] && sum == Checksum(msgBuf[..pos])
    {
      hide Decimal, Checksum;
      var channelBuf := Decimal(channel);
      assert |channelBuf| < size by { DecimalLength(channel); }
      pos, sum := |channelBuf|, 0;
      status := StringToBytes(channelBuf, 0);
      msgBuf[pos] := SEPARATOR;
      assert msgBuf[..pos + 1] == msgBuf[..pos] + [SEPARATOR];
      pos := pos + 1;
      if pos >= size - 1 {
        return ERROR_MSGBUF_OVERFLOW, pos, sum;
      }
      sum := ChecksumBackwards(pos);
    }

    /** The payload behind the channel. */
    method EncodePayload(payload: seq<byte>, start: nat, sum: nat, ghost head: seq<byte>) returns (status: Status, pos: nat, checksum: nat)
      requires Valid() && start < size - 1 && msgBuf[..start] == head && sum == Checksum(head)
      modifies msgBuf
      ensures status == if start + |payload| > size then ERROR_DEST_OVERFLOW
                        else if TERMINATOR in payload[..Scanned(start, payload, size)] then TERMINATOR_IN_PAYLOAD
                        else if start + |payload| >= size - 1 then ERROR_MSGBUF_OVERFLOW else OK
      ensures status == OK ==> pos == start + |payload| && msgBuf[..pos] == head + payload && checksum == Checksum(head + payload)
    {
      hide Checksum;
      pos, checksum := start, sum;
      status := StringToBytes(payload, start);
      if status != OK {
        return;
      }
      var end := start + |payload|;
      assert msgBuf[..start] == msgBuf[..end][..start] == head;
      assert msgBuf[start..end] == msgBuf[..end][start..] == payload;
      assert forall n: nat | n <= |payload| :: msgBuf[start..start + n] == payload[..n];
      status, pos, checksum := PayloadChecksum(start, |payload|, sum);
    }

    /** encode: a channel of more than three digits would not fit its buffer. */
    method Encode(channel: nat, payload: seq<byte>) returns (status: Status, length: nat)
      requires Valid() && channel < 1000 && NUL !in payload
      modifies msgBuf
      ensures status == EncodeStatus(Msg(channel, payload), size)
      ensures status == OK ==> length == |Frame(Msg(channel, payload))| <= size && msgBuf[..length] == Frame(Msg(channel, payload))
    {
      hide Decimal, Checksum, Hex4;
      var pos, checksum: nat;
      status, pos, checksum := EncodeChannel(channel);
      length := pos;
      if status != OK {
        return;
      }
      status, pos, checksum := EncodePayload(payload, pos, checksum, Decimal(channel) + [SEPARATOR]);
      if status != OK {
        return;
      }
      status, length := WriteChecksum(pos, checksum);
    }

    // ---------------------------------------------------------- receiving

    /** opdi_get_message: held is what its buffer happens to hold at first, and failed whether a
        block could not be deciphered. */
    method GetMessage() returns (status: Status, channel: nat, length: nat, ghost held: seq<byte>, ghost failed: bool)
      requires Valid()
      modifies msgBuf, msgPayload, `incoming
      ensures |held| == size && (encryption ==> held == old(msgBuf[..]))
      ensures !failed ==> Concludes(if encryption then ReceiveBlocks(decryptBlock, blocksize, held, 0, [], old(incoming), size)
                                    else Receive(held, 0, old(incoming), size), status, channel, length)
      ensures failed ==> encryption && status != OK && |incoming| < |old(incoming)|
    {
      failed := false;
      if encryption {
        held := msgBuf[..];
        status, channel, length, failed := GetEncrypted();
      } else {
        status, channel, length, held := GetPlain();
      }
    }

    /** What a call returns and leaves for the outcome r. */
    ghost predicate Concludes(r: Received, status: Status, channel: nat, length: nat)
      reads `incoming, msgPayload
    {
      match r
      case Got(m, rest) => status == OK && channel == m.channel && Delivered(m.payload, length) && incoming == rest
      case Starved => status == fault && incoming == []
    }

    method GetPlain() returns (status: Status, channel: nat, length: nat, ghost held: seq<byte>)
      requires Valid()
      modifies msgPayload, `incoming
      ensures |held| == size && Concludes(Receive(held, 0, old(incoming), size), status, channel, length)
    {
      hide Frames.Decode;
      channel, length := 0, 0;
      var buf := new byte[size];
      var pos: nat := 0;
      held := buf[..];
      ghost var outcome := Receive(held, 0, incoming, size);
      while true
        invariant pos < size - 1 && Receive(buf[..], pos, incoming, size) == outcome
        decreases |incoming|
      {
        ghost var before, s := buf[..], incoming;
        var b;
        status, b := ReceiveByte();
        if status != OK {
          return;
        }
        if b == TERMINATOR {
          buf[pos] := NUL;
          assert buf[..] == before[pos := NUL];
          status, channel, length := Decode(buf);
          if status == OK {
            return;
          }
          pos := 0;
        } else {
          buf[pos] := b;
          assert buf[..] == before[pos := b];
          pos := pos + 1;
          if pos >= size - 1 {
            pos := 0;
          }
        }
      }
    }

    /** The deciphered block at position pos is searched for the end of a line. */
    method FindTerminator(pos: nat) returns (i: nat)
      requires pos + blocksize <= msgBuf.Length
      ensures FirstTerminator(msgBuf[pos..pos + blocksize]) == if i < pos + blocksize then Some(i - pos) else None
      ensures pos <= i <= pos + blocksize
    {
      hide LineEnd;
      i := pos;
      while i < pos + blocksize && msgBuf[i] != TERMINATOR
        invariant pos <= i <= pos + blocksize
        invariant forall k | pos <= k < i :: msgBuf[k] != TERMINATOR
      {
        i := i + 1;
      }
      ghost var plain := msgBuf[pos..pos + blocksize];
      if i < pos + blocksize {
        assert plain == plain[..i - pos] + [TERMINATOR] + plain[i - pos + 1..];
        LineEndIs(plain[..i - pos], plain[i - pos + 1..]);
      }
    }

    method GetEncrypted() returns (status: Status, channel: nat, length: nat, ghost failed: bool)
      requires Valid()
      modifies msgBuf, msgPayload, `incoming
      ensures !failed ==> Concludes(ReceiveBlocks(decryptBlock, blocksize, old(msgBuf[..]), 0, [], old(incoming), size), status, channel, length)
      ensures failed ==> status != OK && |incoming| < |old(incoming)|
    {
      hide Frames.Decode, ReceivePlain;
      channel, length, failed := 0, 0, false;
      var buf: Block := [];
      var pos: nat := 0;
      ghost var outcome := ReceiveBlocks(decryptBlock, blocksize, msgBuf[..], 0, [], incoming, size);
      while true
        invariant |buf| < blocksize && pos + |buf| < size && |incoming| <= |old(incoming)|
        invariant ReceiveBlocks(decryptBlock, blocksize, msgBuf[..], pos, buf, incoming, size) == outcome
        decreases |incoming|
      {
        var b;
        status, b := ReceiveByte();
        if status != OK {
          return;
        }
        if pos + |buf| + 1 >= size {
          pos, buf := 0, [];
        } else if |buf| + 1 < blocksize {
          buf := buf + [b];
        } else {
          var got;
          status, got, pos, channel, length := TakeBlock(buf + [b], pos, outcome);
          if status != OK {
            failed := true;
            return;
          }
          if got {
            return;
          }
          buf := [];
        }
      }
    }

    /** A block is complete: it is deciphered into the message buffer, and if it ends a line the
        line is decoded. */
    method TakeBlock(block: Block, pos: nat, ghost outcome: Received)
      returns (status: Status, got: bool, next: nat, channel: nat, length: nat)
      requires Valid() && |block| == blocksize && pos + blocksize < size
      requires ReceivePlain(decryptBlock, blocksize, Splice(msgBuf[..], pos, decryptBlock(block)), pos, incoming, size) == outcome
      modifies msgBuf, msgPayload
      ensures status == OK && got ==> Concludes(outcome, OK, channel, length)
      ensures status == OK && !got ==> next < size && ReceiveBlocks(decryptBlock, blocksize, msgBuf[..], next, [], incoming, size) == outcome
    {
      hide Frames.Decode, ReceiveBlocks;
      got, next, channel, length := false, pos + blocksize, 0, 0;
      status := DecryptInto(block, pos);
      if status != OK {
        return;
      }
      var i := FindTerminator(pos);
      if i < pos + blocksize {
        ghost var before := msgBuf[..];
        msgBuf[i] := NUL;
        assert msgBuf[..] == before[i := NUL];
        var decoded;
        decoded, channel, length := Decode(msgBuf);
        if decoded == OK {
          got := true;
          return;
        }
        next := 0;
      }
    }

    /** opdi_decrypt_block into the message buffer. It may fail at any time; nothing is known of the
        buffer then. */
    method DecryptInto(block: Block, pos: nat) returns (status: Status)
      requires Valid() && |block| == blocksize && pos + blocksize <= size
      modifies msgBuf
      ensures status == OK ==> msgBuf[..] == Splice(old(msgBuf[..]), pos, decryptBlock(block))
      ensures status == OK ==> msgBuf[pos..pos + blocksize] == decryptBlock(block)
    {
      status := *;
      if status != OK {
        return;
      }
      var plain := decryptBlock(block);
      forall i | 0 <= i < blocksize {
        msgBuf[pos + i] := plain[i];
      }
    }

    // ---------------------------------------------------------- sending

    /** opdi_put_message: pad is what was drawn to fill the last block. */
    method PutMessage(channel: nat, payload: seq<byte>) returns (status: Status, ghost pad: seq<byte>)
      requires Valid() && channel < 1000 && NUL !in payload
      modifies msgBuf, `outgoing
      ensures var e, f := EncodeStatus(Msg(channel, payload), size), Frame(Msg(channel, payload));
              && (e != OK ==> status == e && outgoing == old(outgoing))
              && (status == OK && !encryption ==> outgoing == old(outgoing) + f)
              && (status == OK && encryption ==> Padding(f, pad, blocksize) &&
                                                 outgoing == old(outgoing) + Enciphered(encryptBlock, blocksize, f + pad))
    {
      hide EncodeStatus, Frame;
      pad := [];
      var length;
      status, length := Encode(channel, payload);
      if status != OK {
        return;
      }
      if encryption {
        status, pad := PutEncrypted(length);
      } else {
        status := Send(msgBuf[..length]);
      }
    }

    method PutEncrypted(length: nat) returns (status: Status, ghost pad: seq<byte>)
      requires Valid() && length <= size
      modifies `outgoing
      ensures status == OK ==> Padding(msgBuf[..length], pad, blocksize)
      ensures status == OK ==> outgoing == old(outgoing) + Enciphered(encryptBlock, blocksize, msgBuf[..length] + pad)
    {
      hide Whole, Enciphered;
      ghost var frame, sent := msgBuf[..length], [];
      var block: nat := 0;
      status, pad := OK, [];
      NothingEnciphered(encryptBlock, blocksize, outgoing);
      while length > Start(blocksize, block)
        invariant Whole(sent, blocksize) && |sent| == Start(blocksize, block)
        invariant Progress(frame, pad, sent, blocksize)
        invariant outgoing == old(outgoing) + Enciphered(encryptBlock, blocksize, sent)
        decreases length - Start(blocksize, block)
      {
        var buf := FillBlock(length, Start(blocksize, block));
        pad := if |sent| + blocksize > length then buf[length - |sent|..] else [];
        EncipheredSnoc(encryptBlock, blocksize, sent, buf);
        var destbuf;
        status, destbuf := EncryptBlock(buf);
        if status != OK {
          return;
        }
        status := Send(destbuf);
        if status != OK {
          return;
        }
        assert old(outgoing) + Enciphered(encryptBlock, blocksize, sent) + encryptBlock(buf) ==
               old(outgoing) + (Enciphered(encryptBlock, blocksize, sent) + encryptBlock(buf));
        ProgressStep(frame, sent, buf, blocksize);
        sent := sent + buf;
        block := block + 1;
      }
      ProgressDone(frame, pad, sent, blocksize);
    }

    /** opdi_encrypt_block, which may fail at any time. */
    method EncryptBlock(src: Block) returns (status: Status, dest: Block)
      ensures status == OK ==> dest == encryptBlock(src)
    {
      status := *;
      dest := if status == OK then encryptBlock(src) else [];
    }

    /** The next block of the frame that starts at base, filled up with random bytes that are no
        terminators. */
    method FillBlock(length: nat, base: nat) returns (buf: Block)
      requires Valid() && base < length <= size
      ensures |buf| == blocksize
      ensures forall i | 0 <= i < blocksize :: if base + i < length then buf[i] == msgBuf[base + i] else buf[i] != TERMINATOR
    {
      buf := [];
      while |buf| < blocksize
        invariant |buf| <= blocksize
        invariant forall i | 0 <= i < |buf| :: if base + i < length then buf[i] == msgBuf[base + i] else buf[i] != TERMINATOR
      {
        var pos := base + |buf|;
        var b: byte;
        if pos < length {
          b := msgBuf[pos];
        } else {
          b :| b != TERMINATOR;
        }
        buf := buf + [b];
      }
    }
  }

  // ------------------------------------------------------------ blocks sent so far

  /** Either a part of the frame is sent and no padding, or all of it with the padding. */
  ghost predicate Progress(frame: seq<byte>, pad: seq<byte>, sent: seq<byte>, b: nat) {
    && TERMINATOR !in pad && (|pad| < b || pad == [])
    && if |sent| <= |frame| then sent == frame[..|sent|] && pad == [] else sent == frame + pad
  }

  lemma ProgressDone(frame: seq<byte>, pad: seq<byte>, sent: seq<byte>, b: nat)
    requires b > 0 && Whole(sent, b) && Progress(frame, pad, sent, b) && |sent| >= |frame|
    ensures sent == frame + pad && Padding(frame, pad, b)
  {
    hide Whole;
    if |sent| == |frame| {
      assert sent == frame == frame + pad;
    }
  }

  lemma SumOfNothing(s: seq<byte>)
    requires s == []
    ensures Checksum(s) == 0
  {}

  lemma SumOfOne(b: byte)
    ensures Sum([b]) == b
  {
    assert [b][..0] == [];
  }

  lemma NothingEnciphered(e: Block -> Block, b: nat, out: seq<byte>)
    requires b > 0
    ensures Whole([], b) && out == out + Enciphered(e, b, [])
  {}

  lemma {:induction false} EncipheredSnoc(e: Block -> Block, b: nat, x: seq<byte>, c: Block)
    requires b > 0 && Whole(x, b) && |c| == b
    ensures Whole(x + c, b) && Enciphered(e, b, x + c) == Enciphered(e, b, x) + e(c)
    decreases |x|
  {
    if x == [] {
      assert x + c == c && c[..b] == c && c[b..] == [];
      assert Enciphered(e, b, []) == [] && Enciphered(e, b, c) == e(c) + [];
    } else {
      EncipheredSnoc(e, b, x[b..], c);
      assert (x + c)[..b] == x[..b] && (x + c)[b..] == x[b..] + c;
    }
  }

  lemma ProgressStep(frame: seq<byte>, sent: seq<byte>, buf: Block, b: nat)
    requires |buf| == b > 0 && |sent| < |frame| && sent == frame[..|sent|]
    requires forall i | 0 <= i < b :: if |sent| + i < |frame| then buf[i] == frame[|sent| + i] else buf[i] != TERMINATOR
    ensures Progress(frame, if |sent| + b > |frame| then buf[|frame| - |sent|..] else [], sent + buf, b)
  {
    if |sent| + b > |frame| {
      var k := |frame| - |sent|;
      assert buf == buf[..k] + buf[k..];
      assert buf[..k] == frame[|sent|..];
      assert sent + buf == frame + buf[k..];
      forall i | 0 <= i < |buf[k..]|
        ensures buf[k..][i] != TERMINATOR
      {
        assert buf[k..][i] == buf[k + i];
      }
    } else {
      assert sent + buf == frame[..|sent| + b];
    }
  }

  /** In a line of four bytes the last separator stands where a digit is expected. */
  lemma SeparatorIsNoDigit(buf: seq<byte>, start: nat, pos: nat)
    requires |buf| >= 4 && 0 < start <= pos == 4 && LastSeparator(buf, start, pos) > start
    ensures Hex4Value(buf[0..4]) == None
  {
    var h := buf[0..4];
    var p := LastSeparator(buf, start, pos);
    assert h[p] == SEPARATOR;
    assert HexValue(h[p]) == None;
  }
}

/** The frame of a message as bytes: channel, payload and checksum. What encode produces, what
    decode accepts of a buffer, and how the two fit. */
module Frames {
  import opened Constants
  import opened Numbers
  import opened Strings

  const CHANNEL_MAXBUF := 3

  // ------------------------------------------------------------ the checksum

  function Sum(s: seq<byte>): nat {
    if s == [] then 0 else Sum(s[..|s| - 1]) + s[|s| - 1]
  }

  function Checksum(s: seq<byte>): (c: nat)
    ensures c < 0x1_0000
  {
    Sum(s) % 0x1_0000
  }

  lemma {:induction false} SumConcat(s: seq<byte>, t: seq<byte>)
    ensures Sum(s + t) == Sum(s) + Sum(t)
    decreases |t|
  {
    if t == [] {
      assert s + t == s;
    } else {
      assert (s + t)[..|s + t| - 1] == s + t[..|t| - 1];
      SumConcat(s, t[..|t| - 1]);
    }
  }

  /** A byte more or less moves the sum by the difference. */
  lemma SumUpdate(s: seq<byte>, j: nat, c: byte)
    requires j < |s|
    ensures Sum(s[j := c]) == Sum(s) - s[j] + c
  {
    assert s == s[..j] + [s[j]] + s[j + 1..];
    assert s[j := c] == s[..j] + [c] + s[j + 1..];
    SumConcat(s[..j], [s[j]]);
    SumConcat(s[..j] + [s[j]], s[j + 1..]);
    SumConcat(s[..j], [c]);
    SumConcat(s[..j] + [c], s[j + 1..]);
    assert Sum([s[j]]) == s[j] && Sum([c]) == c;
  }

  lemma {:induction false} SumBound(s: seq<byte>)
    ensures Sum(s) <= 255 * |s|
  {
    if s != [] {
      SumBound(s[..|s| - 1]);
    }
  }

  // ------------------------------------------------------------ frames

  /** The part of a frame the checksum covers. */
  function Head(channel: nat, payload: seq<byte>): seq<byte> {
    Decimal(channel) + [SEPARATOR] + payload
  }

  /** A frame without its terminator. */
  function Line(channel: nat, payload: seq<byte>): seq<byte> {
    Head(channel, payload) + [SEPARATOR] + Hex4(Checksum(Head(channel, payload)))
  }

  datatype Decoded = Malformed | PayloadTooLong | Message(channel: nat, payload: seq<byte>)

  /** The position of the first NUL or separator, of those the source looks at. */
  function ChannelEnd(buf: seq<byte>): Option<nat>
    requires |buf| >= 3
  {
    if buf[0] == NUL || buf[0] == SEPARATOR then Some(0)
    else if buf[1] == NUL || buf[1] == SEPARATOR then Some(1)
    else if buf[2] == NUL || buf[2] == SEPARATOR then Some(2)
    else None
  }

  /** The first NUL at or behind position from. */
  function NextNul(buf: seq<byte>, from: nat): (e: Option<nat>)
    requires from <= |buf|
    ensures e.Some? ==> from <= e.value < |buf| && buf[e.value] == NUL && NUL !in buf[from..e.value]
    ensures e.None? ==> NUL !in buf[from..]
    decreases |buf| - from
  {
    if from == |buf| then None
    else if buf[from] == NUL then Some(from)
    else
      var e := NextNul(buf, from + 1);
      assert buf[from..] == [buf[from]] + buf[from + 1..];
      assert e.Some? ==> buf[from..e.value] == [buf[from]] + buf[from + 1..e.value];
      e
  }

  /** The last separator from position from up to end, or 0 when there is none. */
  function LastSeparator(buf: seq<byte>, from: nat, end: nat): (p: nat)
    requires 0 < from <= end <= |buf|
    ensures p != 0 ==> from <= p < end && buf[p] == SEPARATOR && SEPARATOR !in buf[p + 1..end]
    ensures p == 0 ==> SEPARATOR !in buf[from..end]
    decreases end
  {
    if from == end then 0
    else if buf[end - 1] == SEPARATOR then end - 1
    else
      var p := LastSeparator(buf, from, end - 1);
      assert buf[from..end] == buf[from..end - 1] + [buf[end - 1]];
      assert p != 0 ==> buf[p + 1..end] == buf[p + 1..end - 1] + [buf[end - 1]];
      p
  }

  /** What decode makes of a whole buffer. A line that ends before any separator makes it read on
      into what an earlier line has left behind. */
  function Decode(buf: seq<byte>, payloadLength: nat): Decoded
    requires |buf| >= 5
  {
    var p := ChannelEnd(buf);
    if p.None? then Malformed
    else
      var channel := StrToUint16(buf[..p.value]);
      if channel.None? then Malformed
      else
        var start := p.value + 1;
        var e := NextNul(buf, start);
        if e.None? then Malformed
        else
          var last := LastSeparator(buf, start, e.value);
          if last <= start || e.value < 5 || buf[e.value - 5] != SEPARATOR then Malformed
          else if Hex4Value(buf[e.value - 4..e.value]) != Some(Checksum(buf[..e.value - 5])) then Malformed
          else if last - start >= payloadLength then PayloadTooLong
          else Message(channel.value, buf[start..last])
  }

  // ------------------------------------------------------------ acceptance

  /** The line is channel, separator, a payload that is not empty, separator and four hexadecimal
      digits that give the checksum of what stands before; p is where the payload's separator is. */
  ghost predicate Accepts(line: seq<byte>, p: nat, channel: nat, payload: seq<byte>, payloadLength: nat) {
    var n := |line|;
    && p < CHANNEL_MAXBUF && p + 7 <= n && line[p] == SEPARATOR && SEPARATOR !in line[..p]
    && StrToUint16(line[..p]) == Some(channel)
    && payload == line[p + 1..n - 5] && |payload| < payloadLength
    && line[n - 5] == SEPARATOR
    && Hex4Value(line[n - 4..]) == Some(Checksum(line[..n - 5]))
  }

  /** The line that ends at position e stands at the start of the buffer, with a separator among
      its first three bytes. */
  ghost predicate Stands(buf: seq<byte>, e: nat, p: nat) {
    && 5 <= |buf| && e < |buf| && NUL !in buf[..e] && buf[e] == NUL
    && p < CHANNEL_MAXBUF && p < e && buf[p] == SEPARATOR && SEPARATOR !in buf[..p]
  }

  lemma ChannelEndStands(buf: seq<byte>, e: nat, p: nat)
    requires Stands(buf, e, p)
    ensures ChannelEnd(buf) == Some(p)
    ensures NextNul(buf, p + 1) == Some(e)
  {
    NotIn(buf, NUL, 0, e);
    NotIn(buf, SEPARATOR, 0, p);
    NextNulIs(buf, p + 1, e);
  }

  lemma NotIn(buf: seq<byte>, b: byte, from: nat, end: nat)
    requires from <= end <= |buf| && b !in buf[from..end]
    ensures forall k | from <= k < end :: buf[k] != b
  {
    forall k | from <= k < end
      ensures buf[k] != b
    {
      assert buf[k] == buf[from..end][k - from];
    }
  }

  lemma {:induction false} NextNulIs(buf: seq<byte>, from: nat, e: nat)
    requires from <= e < |buf| && buf[e] == NUL && forall k | from <= k < e :: buf[k] != NUL
    ensures NextNul(buf, from) == Some(e)
    decreases e - from
  {
    if from < e {
      NextNulIs(buf, from + 1, e);
    }
  }

  /** The hexadecimal digits hold no separator, so the last separator is the one before them. */
  lemma LastSeparatorIsFifth(buf: seq<byte>, from: nat, end: nat)
    requires 0 < from && from + 5 <= end <= |buf|
    requires buf[end - 5] == SEPARATOR && Hex4Value(buf[end - 4..end]).Some?
    ensures LastSeparator(buf, from, end) == end - 5
  {
    var h := buf[end - 4..end];
    assert h[0] == buf[end - 4] && h[1] == buf[end - 3] && h[2] == buf[end - 2] && h[3] == buf[end - 1];
    assert LastSeparator(buf, from, end) == LastSeparator(buf, from, end - 1);
    assert LastSeparator(buf, from, end - 1) == LastSeparator(buf, from, end - 2);
    assert LastSeparator(buf, from, end - 2) == LastSeparator(buf, from, end - 3);
    assert LastSeparator(buf, from, end - 3) == LastSeparator(buf, from, end - 4);
  }

  /** A buffer that holds such a line is decoded to a message exactly when the line is accepted,
      whatever stands behind it. */
  lemma DecodesIff(buf: seq<byte>, e: nat, p: nat, channel: nat, payload: seq<byte>, payloadLength: nat)
    requires Stands(buf, e, p)
    ensures Decode(buf, payloadLength) == Message(channel, payload) <==>
            Accepts(buf[..e], p, channel, payload, payloadLength)
  {
    hide StrToUint16, Hex4Value, Checksum, NextNul, LastSeparator, ChannelEnd;
    ChannelEndStands(buf, e, p);
    var line := buf[..e];
    assert line[..p] == buf[..p];
    if Decode(buf, payloadLength) == Message(channel, payload) {
      LastSeparatorInside(buf, p + 1, e);
      LastSeparatorIsFifth(buf, p + 1, e);
      LineSlices(buf, e, p);
    }
    if Accepts(line, p, channel, payload, payloadLength) {
      LineSlices(buf, e, p);
      LastSeparatorIsFifth(buf, p + 1, e);
    }
  }

  lemma LineSlices(buf: seq<byte>, e: nat, p: nat)
    requires p + 6 <= e <= |buf|
    ensures buf[..e][e - 4..] == buf[e - 4..e] && buf[..e][..e - 5] == buf[..e - 5]
    ensures buf[..e][p + 1..e - 5] == buf[p + 1..e - 5] && buf[..e][..p] == buf[..p]
  {}

  /** If the fifth byte from the end is a separator and more than one separator follows start. */
  lemma LastSeparatorInside(buf: seq<byte>, from: nat, end: nat)
    requires 0 < from && 5 <= end && from <= end <= |buf|
    requires Hex4Value(buf[end - 4..end]).Some? && LastSeparator(buf, from, end) > from
    ensures from + 5 <= end
  {
    var h := buf[end - 4..end];
    assert h[0] == buf[end - 4] && h[1] == buf[end - 3] && h[2] == buf[end - 2] && h[3] == buf[end - 1];
  }

  /** The length of the payload is looked at last: with more room the same line is a message. */
  lemma TooLongIff(buf: seq<byte>, payloadLength: nat)
    requires |buf| >= 5
    ensures var d, roomy := Decode(buf, payloadLength), Decode(buf, |buf|);
            && (d == PayloadTooLong <==> roomy.Message? && |roomy.payload| >= payloadLength)
            && (d != PayloadTooLong ==> d == roomy)
  {
    hide StrToUint16, Hex4Value, Checksum, NextNul, LastSeparator, ChannelEnd;
  }

  // ------------------------------------------------------------ round trip and error detection

  /** One frame in bytes: channel 12 and payload "no" make 12:no:017a, with a sum of 378. */
  lemma LineExample()
    ensures Line(12, [110, 111]) == [49, 50, 58, 110, 111, 58, 48, 49, 55, 97]
  {
    hide Sum, Hex4;
    assert Decimal(12) == [49, 50] by {
      assert Decimal(12 / 10) == [49];
    }
    assert Decimal(12) + [SEPARATOR] + [110, 111] == [49, 50, 58, 110, 111];
    ExampleSum();
    ExampleDigits();
  }

  lemma ExampleSum()
    ensures Sum([49, 50, 58, 110, 111]) == 378
  {
    var s: seq<byte> := [49, 50, 58, 110, 111];
    assert s[..4] == [49, 50, 58, 110] && s[..4][..3] == [49, 50, 58] && [49, 50, 58][..2] == [49, 50] && [49, 50][..1] == [49];
    assert Sum([49]) == 49 && Sum([49, 50]) == 99 && Sum([49, 50, 58]) == 157 && Sum(s[..4]) == 267;
  }

  lemma ExampleDigits()
    ensures Hex4(378) == [48, 49, 55, 97]
  {
    assert 378 / 0x1000 == 0 && 378 / 0x100 % 16 == 1 && 378 / 0x10 % 16 == 7 && 378 % 16 == 10;
  }

  /** A frame is accepted, as the message it was made from, exactly when the channel has at most
      two digits and the payload is neither empty nor too long. */
  lemma LineAcceptedIff(channel: nat, payload: seq<byte>, payloadLength: nat)
    requires channel < 0x1_0000
    ensures Accepts(Line(channel, payload), |Decimal(channel)|, channel, payload, payloadLength) <==>
            channel < 100 && payload != [] && |payload| < payloadLength
  {
    hide Hex4, Hex4Value, StrToUint16, Sum;
    var d := Decimal(channel);
    var head := Head(channel, payload);
    var line := Line(channel, payload);
    var n := |line|;
    DecimalHasNoSeparator(channel);
    DecimalLengthIff(channel);
    StrToUint16OfDecimal(channel);
    Hex4RoundTrip(Checksum(head));
    assert line[..|d|] == d && line[|d|] == SEPARATOR;
    assert line[..n - 5] == head && line[n - 5] == SEPARATOR && line[n - 4..] == Hex4(Checksum(head));
    assert line[|d| + 1..n - 5] == payload;
  }

  lemma DecimalHasNoSeparator(n: nat)
    ensures SEPARATOR !in Decimal(n) && NUL !in Decimal(n) && TERMINATOR !in Decimal(n)
  {
    DecimalIsRead(n);
  }

  lemma DecimalLengthIff(n: nat)
    ensures |Decimal(n)| < CHANNEL_MAXBUF <==> n < 100
  {
    DecimalLength(n);
    if n >= 100 {
      assert n / 10 >= 10;
      assert |Decimal(n / 10)| >= 2 by {
        assert |Decimal(n / 10 / 10)| >= 1;
      }
    }
  }

  /** A frame for a channel of three digits is never read back: no separator is in sight. */
  lemma WideChannelRejected(buf: seq<byte>, channel: nat, payload: seq<byte>, payloadLength: nat)
    requires 100 <= channel < 0x1_0000 && Line(channel, payload) <= buf
    ensures Decode(buf, payloadLength) == Malformed
  {
    hide StrToUint16, Hex4Value, Hex4, Checksum, NextNul, LastSeparator, Decimal;
    DecimalHasNoSeparator(channel);
    DecimalLengthIff(channel);
    var d := Decimal(channel);
    assert d <= buf;
    assert d[0] in d && d[1] in d && d[2] in d;
  }

  /** Any single byte of an accepted line replaced by another one (not NUL): the line is rejected,
      or the byte was a checksum digit that changed its case and the message is the same. */
  lemma SingleByteErrorDetected(line: seq<byte>, p: nat, channel: nat, payload: seq<byte>, payloadLength: nat,
                                j: nat, c: byte, p': nat, channel': nat, payload': seq<byte>)
    requires Accepts(line, p, channel, payload, payloadLength)
    requires j < |line| && c != line[j]
    requires Accepts(line[j := c], p', channel', payload', payloadLength)
    ensures j >= |line| - 4 && HexValue(c) == HexValue(line[j]) != None
    ensures p' == p && channel' == channel && payload' == payload
  {
    hide StrToUint16, Checksum, HexValue;
    var n := |line|;
    var bad := line[j := c];
    if j < n - 5 {
      assert bad[..n - 5] == line[..n - 5][j := c];
      assert bad[n - 4..] == line[n - 4..];
      ChecksumMoves(line[..n - 5], j, c);
    } else if j > n - 5 {
      assert bad[..n - 5] == line[..n - 5];
      assert line[n - 4..][j - (n - 4)] == line[j];
      assert bad[n - 4..] == line[n - 4..][j - (n - 4) := c];
      OneHexDigit(line[n - 4..], j - (n - 4), c);
      SameChannelEnd(line, bad, p, p');
      assert bad[..p] == line[..p];
      assert bad[p + 1..n - 5] == line[p + 1..n - 5];
    }
  }

  lemma SameChannelEnd(line: seq<byte>, bad: seq<byte>, p: nat, p': nat)
    requires |line| == |bad| && p + 5 < |line| && p' + 5 < |line| && bad[..|line| - 5] == line[..|line| - 5]
    requires line[p] == SEPARATOR && SEPARATOR !in line[..p] && bad[p'] == SEPARATOR && SEPARATOR !in bad[..p']
    ensures p' == p
  {
    var m := |line| - 5;
    assert line[p] == line[..m][p] && bad[p] == bad[..m][p];
    assert line[p'] == line[..m][p'] && bad[p'] == bad[..m][p'];
    NotIn(line, SEPARATOR, 0, p);
    NotIn(bad, SEPARATOR, 0, p');
  }

  lemma ChecksumMoves(s: seq<byte>, j: nat, c: byte)
    requires j < |s| && c != s[j]
    ensures Checksum(s[j := c]) != Checksum(s)
  {
    SumUpdate(s, j, c);
    ModuloTellsApart(Sum(s), c - s[j]);
  }

  lemma ModuloTellsApart(x: nat, d: int)
    requires d != 0 && -256 < d < 256 && x + d >= 0
    ensures (x + d) % 0x1_0000 != x % 0x1_0000
  {}

  lemma OneHexDigit(h: seq<byte>, k: nat, c: byte)
    requires |h| == 4 && k < 4 && Hex4Value(h).Some? && Hex4Value(h[k := c]) == Hex4Value(h)
    ensures HexValue(c) == HexValue(h[k]) != None
  {
    hide HexValue;
  }
}

/** The receiver's view of a byte stream: what a line means, what repeated calls make of any
    stream, and that what was sent arrives. */
module Wire {
  import opened Constants
  import opened Strings
  import opened Frames
  import opened Numbers

  /** Message buffer sizes: room for the smallest frame, and positions that fit a signed 16 bit
      integer. */
  predicate ValidSize(size: nat) { 16 <= size <= 0x7FFF }

  datatype Msg = Msg(channel: nat, payload: seq<byte>)

  // ------------------------------------------------------------ the meaning of a line

  /** The first separator, looked for among the first three bytes. */
  function FirstSeparator(line: seq<byte>): Option<nat> {
    if |line| > 0 && line[0] == SEPARATOR then Some(0)
    else if |line| > 1 && line[1] == SEPARATOR then Some(1)
    else if |line| > 2 && line[2] == SEPARATOR then Some(2)
    else None
  }

  /** The message a line is accepted as. */
  ghost function Meaning(line: seq<byte>, size: nat): Option<Msg>
    requires ValidSize(size)
  {
    var p := FirstSeparator(line);
    if p.None? || |line| < p.value + 7 || StrToUint16(line[..p.value]).None? then None
    else
      var m := Msg(StrToUint16(line[..p.value]).value, line[p.value + 1..|line| - 5]);
      if Accepts(line, p.value, m.channel, m.payload, size - 9) then Some(m) else None
  }

  lemma MeaningIffAccepted(line: seq<byte>, size: nat, p: nat, m: Msg)
    requires ValidSize(size) && p < CHANNEL_MAXBUF && p < |line| && line[p] == SEPARATOR && SEPARATOR !in line[..p]
    ensures Meaning(line, size) == Some(m) <==> Accepts(line, p, m.channel, m.payload, size - 9)
  {
    hide StrToUint16, Hex4Value, Checksum;
    NotIn(line, SEPARATOR, 0, p);
    assert FirstSeparator(line) == Some(p);
  }

  /** All lines but those of one or two bytes that are a number without separator. */
  predicate SelfContained(line: seq<byte>) {
    line == [] || |line| >= 3 || SEPARATOR in line || StrToUint16(line).None?
  }

  function Heard(d: Decoded): Option<Msg> {
    if d.Message? then Some(Msg(d.channel, d.payload)) else None
  }

  /** A self-contained line at the start of a buffer is decoded to its meaning, whatever else the
      buffer holds. */
  lemma DecodeIsMeaning(buf: seq<byte>, e: nat, size: nat)
    requires ValidSize(size) && |buf| == size && e < size && NUL !in buf[..e] && buf[e] == NUL
    requires SelfContained(buf[..e])
    ensures Heard(Decode(buf, size - 9)) == Meaning(buf[..e], size)
  {
    var line := buf[..e];
    NotIn(buf, NUL, 0, e);
    var p := ChannelEnd(buf);
    if line == [] || p.None? {
      NothingHeard(buf, e, size);
    } else if |line| < 3 && SEPARATOR !in line {
      NoNumberHeard(buf, e, size);
    } else {
      SeparatorSeen(buf, e, p.value);
      StandingDecodeIsMeaning(buf, e, p.value, size);
    }
  }

  lemma SeparatorSeen(buf: seq<byte>, e: nat, p: nat)
    requires 5 <= |buf| && e < |buf| && NUL !in buf[..e] && buf[e] == NUL
    requires e >= 3 || SEPARATOR in buf[..e]
    requires ChannelEnd(buf) == Some(p)
    ensures Stands(buf, e, p)
  {
    NotIn(buf, NUL, 0, e);
    if e < 3 {
      var k :| 0 <= k < e && buf[..e][k] == SEPARATOR;
      assert buf[k] == SEPARATOR;
    }
  }

  lemma StandingDecodeIsMeaning(buf: seq<byte>, e: nat, p: nat, size: nat)
    requires ValidSize(size) && |buf| == size && Stands(buf, e, p)
    ensures Heard(Decode(buf, size - 9)) == Meaning(buf[..e], size)
  {
    hide Decode, Accepts, Meaning;
    var d := Decode(buf, size - 9);
    assert buf[..e][p] == SEPARATOR && buf[..e][..p] == buf[..p];
    if d.Message? {
      DecodesIff(buf, e, p, d.channel, d.payload, size - 9);
      MeaningIffAccepted(buf[..e], size, p, Msg(d.channel, d.payload));
    }
    if Meaning(buf[..e], size).Some? {
      var m := Meaning(buf[..e], size).value;
      MeaningIffAccepted(buf[..e], size, p, m);
      DecodesIff(buf, e, p, m.channel, m.payload, size - 9);
    }
  }

  lemma NothingHeard(buf: seq<byte>, e: nat, size: nat)
    requires ValidSize(size) && |buf| == size && e < size && NUL !in buf[..e] && buf[e] == NUL
    requires buf[..e] == [] || ChannelEnd(buf).None?
    ensures !Decode(buf, size - 9).Message? && Meaning(buf[..e], size).None?
  {
    if buf[..e] == [] {
      assert e == 0;
      assert buf[..0] == [] && DropSpaces([]) == [];
      assert StrToUint16([]).None?;
    } else {
      assert FirstSeparator(buf[..e]).None?;
    }
  }

  lemma NoNumberHeard(buf: seq<byte>, e: nat, size: nat)
    requires ValidSize(size) && |buf| == size && e < 3 && NUL !in buf[..e] && buf[e] == NUL
    requires buf[..e] != [] && SEPARATOR !in buf[..e] && StrToUint16(buf[..e]).None?
    ensures !Decode(buf, size - 9).Message? && Meaning(buf[..e], size).None?
  {
    hide StrToUint16, Hex4Value, Checksum;
    ShortLineIsChannel(buf, e);
    NotIn(buf[..e], SEPARATOR, 0, e);
  }

  /** Of a short line without separator decode takes all for the channel. */
  lemma ShortLineIsChannel(buf: seq<byte>, e: nat)
    requires |buf| >= 3 && e < 3 && NUL !in buf[..e] && SEPARATOR !in buf[..e] && buf[e] == NUL
    ensures ChannelEnd(buf) == Some(e)
  {
    NotIn(buf, NUL, 0, e);
    NotIn(buf, SEPARATOR, 0, e);
  }

  // ------------------------------------------------------------ what is left of earlier lines

  /** The line that is in the buffer up to its first NUL. */
  ghost predicate Holds(buf: seq<byte>, line: seq<byte>, size: nat) {
    |buf| == size && |line| < size && buf[..|line|] == line && buf[|line|] == NUL
  }

  const LEFTOVER: byte := 120

  /** What has to follow the NUL of a short number for decode to accept number, NUL and all. */
  function Leftover(line: seq<byte>): (s: seq<byte>)
    ensures |s| == 6
  {
    [LEFTOVER, SEPARATOR] + Hex4(Checksum(line + [NUL, LEFTOVER]))
  }

  lemma LeftoverIsHeard(buf: seq<byte>, line: seq<byte>, size: nat)
    requires ValidSize(size) && |buf| == size && NUL !in line && !SelfContained(line)
    requires line + [NUL] + Leftover(line) + [NUL] <= buf
    ensures Decode(buf, size - 9) == Message(StrToUint16(line).value, [LEFTOVER])
  {
    hide StrToUint16, Hex4Value, Checksum, NextNul, LastSeparator, ChannelEnd, Hex4;
    var n := |line|;
    var e := n + 7;
    var h := Hex4(Checksum(line + [NUL, LEFTOVER]));
    assert buf[..n] == line && buf[n] == NUL;
    assert buf[..n + 2] == line + [NUL, LEFTOVER] && buf[n + 1..n + 2] == [LEFTOVER];
    assert buf[n + 2] == SEPARATOR && buf[n + 3..n + 7] == h && buf[e] == NUL;
    ShortLineIsChannel(buf, n);
    Hex4RoundTrip(Checksum(line + [NUL, LEFTOVER]));
    NotIn(buf[n + 3..n + 7], NUL, 0, 4);
    forall k | n + 1 <= k < e
      ensures buf[k] != NUL
    {
      assert k >= n + 3 ==> buf[k] == buf[n + 3..n + 7][k - n - 3];
    }
    NextNulIs(buf, n + 1, e);
    LeftoverSeparator(buf, n);
  }

  lemma LeftoverSeparator(buf: seq<byte>, n: nat)
    requires n + 7 <= |buf| && buf[n + 2] == SEPARATOR && SEPARATOR !in buf[n + 3..n + 7]
    ensures LastSeparator(buf, n + 1, n + 7) == n + 2
  {
    NotIn(buf, SEPARATOR, n + 3, n + 7);
    assert LastSeparator(buf, n + 1, n + 7) == LastSeparator(buf, n + 1, n + 5) == LastSeparator(buf, n + 1, n + 3);
  }

  lemma ShortNumberMeansNothing(line: seq<byte>, size: nat)
    requires ValidSize(size) && !SelfContained(line)
    ensures Meaning(line, size).None?
  {
    NotIn(line, SEPARATOR, 0, |line|);
  }

  /** What decode makes of a line depends on nothing else in the buffer, and is its meaning, exactly
      when the line is self-contained. */
  lemma NothingElseMattersIff(line: seq<byte>, size: nat)
    requires ValidSize(size) && |line| < size && NUL !in line
    ensures SelfContained(line) <==>
            forall buf | Holds(buf, line, size) :: Heard(Decode(buf, size - 9)) == Meaning(line, size)
  {
    hide Decode, Meaning;
    if SelfContained(line) {
      forall buf | Holds(buf, line, size)
        ensures Heard(Decode(buf, size - 9)) == Meaning(line, size)
      {
        DecodeIsMeaning(buf, |line|, size);
      }
    } else {
      var front := line + [NUL] + Leftover(line) + [NUL];
      var buf := front + seq(size - |front|, _ => NUL);
      assert Holds(buf, line, size);
      LeftoverIsHeard(buf, line, size);
      ShortNumberMeansNothing(line, size);
    }
  }

  // ------------------------------------------------------------ receiving

  datatype Received = Got(msg: Msg, rest: seq<byte>) | Starved

  /** opdi_get_message over the bytes still to come: its buffer holds buf and pos bytes of a line. */
  function Receive(buf: seq<byte>, pos: nat, s: seq<byte>, size: nat): Received
    requires ValidSize(size) && |buf| == size && pos < size - 1
    decreases |s|
  {
    if s == [] then Starved
    else if s[0] == TERMINATOR then
      var line := buf[pos := NUL];
      var d := Decode(line, size - 9);
      if d.Message? then Got(Msg(d.channel, d.payload), s[1..]) else Receive(line, 0, s[1..], size)
    else Receive(buf[pos := s[0]], if pos + 1 >= size - 1 then 0 else pos + 1, s[1..], size)
  }

  /** The position in the buffer after n bytes of a line. */
  function Position(n: nat, size: nat): (p: nat)
    requires ValidSize(size)
    ensures p <= n && p < size - 1
  {
    if n == 0 || Position(n - 1, size) + 1 >= size - 1 then 0 else Position(n - 1, size) + 1
  }

  /** Every time the buffer is full but for the NUL, it is emptied: the position is the remainder of
      the number of bytes. */
  lemma {:induction false} PositionIsRemainder(n: nat, size: nat) returns (q: nat)
    requires ValidSize(size)
    ensures n == q * (size - 1) + Position(n, size)
  {
    if n == 0 {
      q := 0;
    } else {
      q := PositionIsRemainder(n - 1, size);
      if Position(n, size) == 0 {
        assert (q + 1) * (size - 1) == q * (size - 1) + (size - 1);
        q := q + 1;
      }
    }
  }

  /** The buffer after the bytes of line. */
  function Fill(buf: seq<byte>, line: seq<byte>, size: nat): (b: seq<byte>)
    requires ValidSize(size) && |buf| == size
    ensures |b| == size
  {
    if line == [] then buf
    else Fill(buf, line[..|line| - 1], size)[Position(|line| - 1, size) := line[|line| - 1]]
  }

  /** What is left of a line in the buffer: an overflow drops all bytes so far. */
  function Tail(line: seq<byte>, size: nat): seq<byte>
    requires ValidSize(size)
  {
    line[|line| - Position(|line|, size)..]
  }

  lemma {:induction false} FillIsTail(buf: seq<byte>, line: seq<byte>, size: nat)
    requires ValidSize(size) && |buf| == size
    ensures Fill(buf, line, size)[..Position(|line|, size)] == Tail(line, size)
    decreases |line|
  {
    var n := |line|;
    if n > 0 {
      FillIsTail(buf, line[..n - 1], size);
      if Position(n, size) > 0 {
        assert Tail(line, size) == Tail(line[..n - 1], size) + [line[n - 1]];
      }
    }
  }

  lemma {:induction false} ReceiveFills(buf: seq<byte>, line: seq<byte>, s: seq<byte>, size: nat)
    requires ValidSize(size) && |buf| == size && TERMINATOR !in line
    ensures Receive(buf, 0, line + s, size) == Receive(Fill(buf, line, size), Position(|line|, size), s, size)
    decreases |line|
  {
    var n := |line|;
    if n == 0 {
      assert line + s == s;
    } else {
      var b := line[n - 1];
      assert line + s == line[..n - 1] + ([b] + s);
      ReceiveFills(buf, line[..n - 1], [b] + s, size);
      assert b in line;
      assert ([b] + s)[1..] == s;
    }
  }

  /** The bytes before the first NUL. */
  function UpToNul(s: seq<byte>): (r: seq<byte>)
    ensures r <= s && NUL !in r && (|r| < |s| ==> s[|r|] == NUL)
  {
    if s == [] || s[0] == NUL then [] else [s[0]] + UpToNul(s[1..])
  }

  /** The part of a line that decode gets to see. */
  function Visible(line: seq<byte>, size: nat): seq<byte>
    requires ValidSize(size)
  {
    UpToNul(Tail(line, size))
  }

  /** A whole line that arrives is understood by its visible part, and nothing of the buffer it
      arrives in matters. */
  lemma LineReceived(buf: seq<byte>, line: seq<byte>, rest: seq<byte>, size: nat) returns (buf': seq<byte>)
    requires ValidSize(size) && |buf| == size && TERMINATOR !in line && SelfContained(Visible(line, size))
    ensures |buf'| == size
    ensures Receive(buf, 0, line + [TERMINATOR] + rest, size) ==
            if Meaning(Visible(line, size), size).Some? then Got(Meaning(Visible(line, size), size).value, rest)
            else Receive(buf', 0, rest, size)
  {
    hide Meaning, Decode, SelfContained;
    var pos := Position(|line|, size);
    var filled := Fill(buf, line, size);
    assert line + [TERMINATOR] + rest == line + ([TERMINATOR] + rest);
    ReceiveFills(buf, line, [TERMINATOR] + rest, size);
    FillIsTail(buf, line, size);
    buf' := filled[pos := NUL];
    var v := Visible(line, size);
    VisibleStands(filled, pos, Tail(line, size), v);
    DecodeIsMeaning(buf', |v|, size);
    assert ([TERMINATOR] + rest)[1..] == rest;
  }

  lemma VisibleStands(filled: seq<byte>, pos: nat, tail: seq<byte>, v: seq<byte>)
    requires pos < |filled| && filled[..pos] == tail && v == UpToNul(tail)
    ensures var b := filled[pos := NUL];
            |v| < |b| && b[..|v|] == v && b[|v|] == NUL && NUL !in b[..|v|]
  {
    var b := filled[pos := NUL];
    assert |v| <= |tail| == pos;
    assert b[..pos] == tail;
    assert b[..|v|] == tail[..|v|] == v;
    if |v| < pos {
      assert b[|v|] == b[..pos][|v|] == tail[|v|];
    }
  }

  // ------------------------------------------------------------ streams

  /** The position of the first terminator. */
  function LineEnd(s: seq<byte>): (k: nat)
    requires TERMINATOR in s
    ensures k < |s| && s[k] == TERMINATOR && TERMINATOR !in s[..k]
  {
    if s[0] == TERMINATOR then 0
    else
      assert s == [s[0]] + s[1..];
      var k := LineEnd(s[1..]);
      assert s[..k + 1] == [s[0]] + s[1..][..k];
      k + 1
  }

  lemma LineEndIs(line: seq<byte>, rest: seq<byte>)
    requires TERMINATOR !in line
    ensures var s := line + [TERMINATOR] + rest;
            TERMINATOR in s && LineEnd(s) == |line| && s[..|line|] == line && s[|line| + 1..] == rest
  {
    var s := line + [TERMINATOR] + rest;
    assert s[|line|] == TERMINATOR;
    var k := LineEnd(s);
    NotIn(s, TERMINATOR, 0, k);
    NotIn(line, TERMINATOR, 0, |line|);
    assert s[..|line|] == line[..|line|] == line;
    NotIn(s, TERMINATOR, 0, |line|);
  }

  /** The messages in a stream: the meanings of its lines. */
  ghost function Understood(s: seq<byte>, size: nat): seq<Msg>
    requires ValidSize(size)
    decreases |s|
  {
    if TERMINATOR !in s then []
    else
      var k := LineEnd(s);
      var m := Meaning(Visible(s[..k], size), size);
      (if m.Some? then [m.value] else []) + Understood(s[k + 1..], size)
  }

  /** Every line is self-contained. */
  predicate Clean(s: seq<byte>, size: nat)
    requires ValidSize(size)
    decreases |s|
  {
    TERMINATOR !in s || (SelfContained(Visible(s[..LineEnd(s)], size)) && Clean(s[LineEnd(s) + 1..], size))
  }

  /** The messages that repeated calls get, each call with a buffer that holds anything. */
  function Collected(bufs: seq<seq<byte>>, s: seq<byte>, size: nat): seq<Msg>
    requires ValidSize(size) && forall i | 0 <= i < |bufs| :: |bufs[i]| == size
  {
    if bufs == [] then []
    else
      match Receive(bufs[0], 0, s, size)
      case Got(m, rest) => [m] + Collected(bufs[1..], rest, size)
      case Starved => []
  }

  lemma {:induction false} NoLineNothingGot(buf: seq<byte>, pos: nat, s: seq<byte>, size: nat)
    requires ValidSize(size) && |buf| == size && pos < size - 1 && TERMINATOR !in s
    ensures Receive(buf, pos, s, size) == Starved
    decreases |s|
  {
    if s != [] {
      NoLineNothingGot(buf[pos := s[0]], if pos + 1 >= size - 1 then 0 else pos + 1, s[1..], size);
    }
  }

  /** One call gets the first message of the stream and leaves the stream behind it. */
  lemma {:induction false} ReceiveGetsFirst(buf: seq<byte>, s: seq<byte>, size: nat)
    requires ValidSize(size) && |buf| == size && Clean(s, size)
    ensures var r := Receive(buf, 0, s, size);
            if r.Got? then Understood(s, size) == [r.msg] + Understood(r.rest, size) && Clean(r.rest, size)
            else Understood(s, size) == []
    decreases |s|
  {
    hide Receive, Meaning, SelfContained;
    if TERMINATOR !in s {
      NoLineNothingGot(buf, 0, s, size);
    } else {
      var k := LineEnd(s);
      assert s == s[..k] + [TERMINATOR] + s[k + 1..];
      var buf' := LineReceived(buf, s[..k], s[k + 1..], size);
      if Meaning(Visible(s[..k], size), size).None? {
        ReceiveGetsFirst(buf', s[k + 1..], size);
      }
    }
  }

  /** Repeated calls get exactly the meanings of the lines, in order: noise, overlong lines and
      what earlier lines left in the buffers change nothing. */
  lemma {:induction false} StreamUnderstood(bufs: seq<seq<byte>>, s: seq<byte>, size: nat)
    requires ValidSize(size) && Clean(s, size) && forall i | 0 <= i < |bufs| :: |bufs[i]| == size
    requires |bufs| >= |Understood(s, size)|
    ensures Collected(bufs, s, size) == Understood(s, size)
    decreases |bufs|
  {
    hide Receive, Meaning, Clean, Understood;
    if bufs != [] {
      ReceiveGetsFirst(bufs[0], s, size);
      var r := Receive(bufs[0], 0, s, size);
      if r.Got? {
        StreamUnderstood(bufs[1..], r.rest, size);
      }
    }
  }

  // ------------------------------------------------------------ the lines that need a clean buffer

  /** Every line is whole and self-contained. */
  predicate CleanLines(s: seq<byte>, size: nat)
    requires ValidSize(size)
  {
    Clean(s, size) && (s == [] || s[|s| - 1] == TERMINATOR)
  }

  ghost predicate Buffers(bufs: seq<seq<byte>>, size: nat) { forall i | 0 <= i < |bufs| :: |bufs[i]| == size }

  lemma {:induction false} CleanLinesInFront(before: seq<byte>, s: seq<byte>, size: nat)
    requires ValidSize(size) && CleanLines(before, size)
    ensures Clean(before + s, size) <==> Clean(s, size)
    ensures Understood(before + s, size) == Understood(before, size) + Understood(s, size)
    decreases |before|
  {
    hide Meaning, SelfContained, Visible, Clean, Understood;
    if before == [] {
      assert before + s == s;
      EmptyStream(size);
    } else {
      assert TERMINATOR in before;
      var k := LineEnd(before);
      var line, rest := before[..k], before[k + 1..];
      assert before == line + [TERMINATOR] + rest;
      assert before + s == line + [TERMINATOR] + (rest + s);
      UnderstoodLine(line, rest, size);
      UnderstoodLine(line, rest + s, size);
      CleanLinesInFront(rest, s, size);
    }
  }

  lemma EmptyStream(size: nat)
    requires ValidSize(size)
    ensures Clean([], size) && Understood([], size) == []
  {}

  lemma {:induction false} FillShort(buf: seq<byte>, line: seq<byte>, size: nat)
    requires ValidSize(size) && |buf| == size && |line| < size - 1
    ensures Fill(buf, line, size) == line + buf[|line|..]
    decreases |line|
  {
    var n := |line|;
    if n > 0 {
      FillShort(buf, line[..n - 1], size);
      PositionCounts(n - 1, size);
      assert line == line[..n - 1] + [line[n - 1]];
    }
  }

  /** A short line goes to decode with what the buffer holds behind it. */
  lemma ShortLineToDecode(buf: seq<byte>, line: seq<byte>, rest: seq<byte>, size: nat)
    requires ValidSize(size) && |buf| == size && TERMINATOR !in line && |line| + 1 < size
    ensures var buf' := line + [NUL] + buf[|line| + 1..];
            && |buf'| == size
            && var d := Decode(buf', size - 9);
               Receive(buf, 0, line + [TERMINATOR] + rest, size) ==
               if d.Message? then Got(Msg(d.channel, d.payload), rest) else Receive(buf', 0, rest, size)
  {
    hide Decode;
    assert line + [TERMINATOR] + rest == line + ([TERMINATOR] + rest);
    ReceiveFills(buf, line, [TERMINATOR] + rest, size);
    PositionCounts(|line|, size);
    FillShort(buf, line, size);
    assert (line + buf[|line|..])[|line| := NUL] == line + [NUL] + buf[|line| + 1..];
    assert ([TERMINATOR] + rest)[1..] == rest;
  }

  /** A line that is rejected, and leaves in the buffer what makes decode accept a short number. */
  function Forerunner(line: seq<byte>): (s: seq<byte>)
    ensures |s| == |line| + 7
  {
    seq(|line| + 1, _ => LEFTOVER) + Leftover(line)
  }

  lemma ForerunnerMeansNothing(line: seq<byte>, size: nat)
    requires ValidSize(size) && !SelfContained(line)
    ensures var f := Forerunner(line);
            NUL !in f && TERMINATOR !in f && SelfContained(f) && Meaning(f, size).None?
  {
    hide Hex4, Checksum, StrToUint16;
    Hex4RoundTrip(Checksum(line + [NUL, LEFTOVER]));
  }

  /** A number of one or two digits on a line of its own, behind the right line: the receiver
      delivers a payload that neither line carries. */
  lemma LeftoverIsReceived(buf: seq<byte>, line: seq<byte>, rest: seq<byte>, size: nat)
    requires ValidSize(size) && |buf| == size && NUL !in line && TERMINATOR !in line && !SelfContained(line)
    ensures Receive(buf, 0, Forerunner(line) + [TERMINATOR] + (line + [TERMINATOR] + rest), size) ==
            Got(Msg(StrToUint16(line).value, [LEFTOVER]), rest)
  {
    hide Receive, Decode, Meaning, Hex4, Checksum, StrToUint16;
    var f := Forerunner(line);
    ForerunnerMeansNothing(line, size);
    ShortLineToDecode(buf, f, line + [TERMINATOR] + rest, size);
    var buf' := f + [NUL] + buf[|f| + 1..];
    assert buf'[..|f|] == f;
    DecodeIsMeaning(buf', |f|, size);
    ShortLineToDecode(buf', line, rest, size);
    var buf'' := line + [NUL] + buf'[|line| + 1..];
    assert line + [NUL] + Leftover(line) + [NUL] <= buf'' by {
      assert buf'[|line| + 1..] == Leftover(line) + [NUL] + buf[|f| + 1..];
    }
    LeftoverIsHeard(buf'', line, size);
  }

  /** A line is understood behind all clean lines, whatever the buffers hold, exactly when it is
      self-contained. */
  lemma UnderstoodAnywhereIff(line: seq<byte>, size: nat)
    requires ValidSize(size) && |line| + 1 < size && NUL !in line && TERMINATOR !in line
    ensures SelfContained(line) <==>
            forall before, bufs | CleanLines(before, size) && Buffers(bufs, size) &&
                                  |bufs| >= |Understood(before + line + [TERMINATOR], size)| ::
              Collected(bufs, before + line + [TERMINATOR], size) == Understood(before + line + [TERMINATOR], size)
  {
    hide Meaning, Receive, Understood, Clean, SelfContained, StrToUint16;
    EmptyStream(size);
    ShortLineUnderstood(line, [], size);
    assert line + [TERMINATOR] + [] == line + [TERMINATOR];
    if SelfContained(line) {
      forall before, bufs | CleanLines(before, size) && Buffers(bufs, size) &&
                            |bufs| >= |Understood(before + line + [TERMINATOR], size)|
        ensures Collected(bufs, before + line + [TERMINATOR], size) == Understood(before + line + [TERMINATOR], size)
      {
        assert before + line + [TERMINATOR] == before + (line + [TERMINATOR]);
        CleanLinesInFront(before, line + [TERMINATOR], size);
        StreamUnderstood(bufs, before + line + [TERMINATOR], size);
      }
    } else {
      NotUnderstoodBehindForerunner(line, size);
    }
  }

  lemma NotUnderstoodBehindForerunner(line: seq<byte>, size: nat)
    requires ValidSize(size) && NUL !in line && TERMINATOR !in line && !SelfContained(line)
    ensures exists before, bufs :: CleanLines(before, size) && Buffers(bufs, size) &&
              |bufs| >= |Understood(before + line + [TERMINATOR], size)| &&
              Collected(bufs, before + line + [TERMINATOR], size) != Understood(before + line + [TERMINATOR], size)
  {
    hide Meaning, Receive, Understood, Clean, SelfContained, StrToUint16, Hex4, Checksum, Forerunner;
    var before := Forerunner(line) + [TERMINATOR];
    var buf := seq(size, _ => NUL);
    ForerunnerStream(line, size);
    LeftoverIsReceived(buf, line, [], size);
    assert before + line + [TERMINATOR] == Forerunner(line) + [TERMINATOR] + (line + [TERMINATOR] + []);
    assert Collected([buf], before + line + [TERMINATOR], size) != [];
    assert Buffers([buf], size);
  }

  lemma ForerunnerStream(line: seq<byte>, size: nat)
    requires ValidSize(size) && NUL !in line && TERMINATOR !in line && !SelfContained(line)
    ensures var before := Forerunner(line) + [TERMINATOR];
            CleanLines(before, size) && Understood(before + line + [TERMINATOR], size) == []
  {
    hide Meaning, Understood, Clean;
    ForerunnerMeansNothing(line, size);
    ShortNumberMeansNothing(line, size);
    TwoLinesUnderstood(Forerunner(line), line, size);
  }

  lemma TwoLinesUnderstood(first: seq<byte>, second: seq<byte>, size: nat)
    requires ValidSize(size) && |first| + 1 < size && NUL !in first && TERMINATOR !in first
    requires |second| + 1 < size && NUL !in second && TERMINATOR !in second
    requires SelfContained(first) && Meaning(first, size).None? && Meaning(second, size).None?
    ensures CleanLines(first + [TERMINATOR], size)
    ensures Understood(first + [TERMINATOR] + second + [TERMINATOR], size) == []
  {
    hide Meaning, Understood, Clean, SelfContained;
    EmptyStream(size);
    ShortLineUnderstood(first, [], size);
    assert first + [TERMINATOR] + [] == first + [TERMINATOR];
    ShortLineUnderstood(second, [], size);
    assert second + [TERMINATOR] + [] == second + [TERMINATOR];
    ShortLineUnderstood(first, second + [TERMINATOR], size);
    assert first + [TERMINATOR] + second + [TERMINATOR] == first + [TERMINATOR] + (second + [TERMINATOR]);
  }

  lemma ShortLineUnderstood(line: seq<byte>, rest: seq<byte>, size: nat)
    requires ValidSize(size) && |line| + 1 < size && NUL !in line && TERMINATOR !in line
    ensures var m := Meaning(line, size);
            Understood(line + [TERMINATOR] + rest, size) == (if m.Some? then [m.value] else []) + Understood(rest, size)
    ensures Clean(line + [TERMINATOR] + rest, size) <==> SelfContained(line) && Clean(rest, size)
  {
    hide Meaning, Understood, Clean, SelfContained;
    LineIsTail(line, size);
    UpToNulWhole(line);
    UnderstoodLine(line, rest, size);
  }

  // ------------------------------------------------------------ sending

  /** The bytes that go out for a message. */
  function Frame(m: Msg): seq<byte> { Line(m.channel, m.payload) + [TERMINATOR] }

  /** How many payload bytes encode looks at before it finds the buffer too small. */
  function Scanned(start: nat, payload: seq<byte>, size: nat): (n: nat)
    requires start < size - 1
    ensures n <= |payload|
  {
    if start + |payload| < size - 1 then |payload| else size - 1 - start
  }

  /** The status encode returns. */
  function EncodeStatus(m: Msg, size: nat): Status
    requires ValidSize(size)
  {
    var start := |Decimal(m.channel)| + 1;
    if start >= size - 1 then ERROR_MSGBUF_OVERFLOW
    else if start + |m.payload| > size then ERROR_DEST_OVERFLOW
    else if TERMINATOR in m.payload[..Scanned(start, m.payload, size)] then TERMINATOR_IN_PAYLOAD
    else if start + |m.payload| + 5 > size - 2 then ERROR_MSGBUF_OVERFLOW
    else OK
  }

  lemma EncodeOkIff(m: Msg, size: nat)
    requires ValidSize(size)
    ensures EncodeStatus(m, size) == OK <==> TERMINATOR !in m.payload && |Frame(m)| < size
  {
    var start := |Decimal(m.channel)| + 1;
    assert |Frame(m)| == start + |m.payload| + 6;
    if start < size - 1 && Scanned(start, m.payload, size) == |m.payload| {
      assert m.payload[..|m.payload|] == m.payload;
    }
  }

  /** What encode objects to, in this order: a payload longer than what is left of the buffer behind
      the channel; a terminator among the bytes it gets to see; a frame that does not fit. */
  lemma EncodeRefusals(m: Msg, size: nat)
    requires ValidSize(size) && m.channel < 1000
    ensures var room := size - |Decimal(m.channel)| - 1;
            var seen := if |m.payload| <= room - 1 then |m.payload| else room - 1;
            && 1 < room && seen <= |m.payload|
            && EncodeStatus(m, size) ==
               if |m.payload| > room then ERROR_DEST_OVERFLOW
               else if exists i | 0 <= i < seen :: m.payload[i] == TERMINATOR then TERMINATOR_IN_PAYLOAD
               else if |Frame(m)| >= size then ERROR_MSGBUF_OVERFLOW
               else OK
  {
    hide Decimal, Hex4, Checksum;
    DecimalLength(m.channel);
    var start := |Decimal(m.channel)| + 1;
    assert |Frame(m)| == start + |m.payload| + 6;
    var n := Scanned(start, m.payload, size);
    assert TERMINATOR in m.payload[..n] <==> exists i | 0 <= i < n :: m.payload[i] == TERMINATOR;
  }

  /** A message that goes out and comes back: what a payload without NUL takes for that. */
  predicate Sendable(m: Msg, size: nat)
    requires ValidSize(size)
  {
    && m.channel < 100 && m.payload != [] && |m.payload| < size - 9
    && NUL !in m.payload && TERMINATOR !in m.payload && |Frame(m)| < size
  }

  lemma {:induction false} UpToNulWhole(s: seq<byte>)
    requires NUL !in s
    ensures UpToNul(s) == s
  {
    if s != [] {
      UpToNulWhole(s[1..]);
    }
  }

  lemma LineBytes(m: Msg)
    requires NUL !in m.payload && TERMINATOR !in m.payload && m.channel < 0x1_0000
    ensures NUL !in Line(m.channel, m.payload) && TERMINATOR !in Line(m.channel, m.payload)
  {
    hide Decimal, Hex4, Sum;
    DecimalHasNoSeparator(m.channel);
    Hex4RoundTrip(Checksum(Head(m.channel, m.payload)));
  }

  /** A frame that fits the buffer is heard as the message it was made from exactly when the
      message is sendable. */
  lemma FrameUnderstoodIff(m: Msg, size: nat)
    requires ValidSize(size) && m.channel < 1000 && NUL !in m.payload && EncodeStatus(m, size) == OK
    ensures var line := Line(m.channel, m.payload);
            Visible(line, size) == line && SelfContained(line) && (Meaning(line, size) == Some(m) <==> Sendable(m, size))
  {
    hide Meaning, EncodeStatus, Accepts;
    EncodeOkIff(m, size);
    var line := Line(m.channel, m.payload);
    LineBytes(m);
    assert |Frame(m)| == |line| + 1;
    LineIsTail(line, size);
    UpToNulWhole(line);
    if m.channel < 100 {
      LineMeaningIff(m, size);
    } else {
      WideLineMeansNothing(m, size);
    }
  }

  lemma LineIsTail(line: seq<byte>, size: nat)
    requires ValidSize(size) && |line| + 1 < size
    ensures Tail(line, size) == line
  {
    PositionCounts(|line|, size);
  }

  lemma {:induction false} PositionCounts(n: nat, size: nat)
    requires ValidSize(size) && n < size - 1
    ensures Position(n, size) == n
  {
    if n > 0 {
      PositionCounts(n - 1, size);
    }
  }

  lemma LineMeaningIff(m: Msg, size: nat)
    requires ValidSize(size) && m.channel < 100
    ensures Meaning(Line(m.channel, m.payload), size) == Some(m) <==> m.payload != [] && |m.payload| < size - 9
  {
    hide Meaning, Accepts, Decimal, Hex4, Checksum;
    var line := Line(m.channel, m.payload);
    var p := |Decimal(m.channel)|;
    LineAcceptedIff(m.channel, m.payload, size - 9);
    DecimalHasNoSeparator(m.channel);
    DecimalLengthIff(m.channel);
    assert line[..p] == Decimal(m.channel) && line[p] == SEPARATOR;
    MeaningIffAccepted(line, size, p, m);
  }

  lemma WideLineMeansNothing(m: Msg, size: nat)
    requires ValidSize(size) && 100 <= m.channel < 1000
    ensures Meaning(Line(m.channel, m.payload), size) == None
  {
    hide Hex4, Checksum, StrToUint16, Accepts;
    var d := Decimal(m.channel);
    DecimalLength(m.channel);
    DecimalHasNoSeparator(m.channel);
    assert d[0] in d && d[1] in d && d[2] in d;
    assert d <= Line(m.channel, m.payload);
  }

  /** The frames of a list of messages, one behind the other. */
  function Sent(ms: seq<Msg>): seq<byte> {
    if ms == [] then [] else Frame(ms[0]) + Sent(ms[1..])
  }

  /** What is put in front of a stream is one line of it. */
  lemma UnderstoodLine(line: seq<byte>, rest: seq<byte>, size: nat)
    requires ValidSize(size) && TERMINATOR !in line
    ensures var m := Meaning(Visible(line, size), size);
            Understood(line + [TERMINATOR] + rest, size) == (if m.Some? then [m.value] else []) + Understood(rest, size)
    ensures Clean(line + [TERMINATOR] + rest, size) <==> SelfContained(Visible(line, size)) && Clean(rest, size)
  {
    hide Meaning, SelfContained, Visible;
    var s := line + [TERMINATOR] + rest;
    LineEndIs(line, rest);
  }

  lemma FrameInFront(m: Msg, rest: seq<byte>, size: nat)
    requires ValidSize(size) && Sendable(m, size)
    ensures Understood(Frame(m) + rest, size) == [m] + Understood(rest, size)
    ensures Clean(Frame(m) + rest, size) <==> Clean(rest, size)
  {
    hide Understood, Clean, Meaning, SelfContained;
    EncodeOkIff(m, size);
    FrameUnderstoodIff(m, size);
    LineBytes(m);
    UnderstoodLine(Line(m.channel, m.payload), rest, size);
  }

  /** Everything sent is understood, as sent and in order, whatever follows. */
  lemma {:induction false} FramesUnderstood(ms: seq<Msg>, rest: seq<byte>, size: nat)
    requires ValidSize(size) && forall i | 0 <= i < |ms| :: Sendable(ms[i], size)
    ensures Understood(Sent(ms) + rest, size) == ms + Understood(rest, size)
    ensures Clean(Sent(ms) + rest, size) <==> Clean(rest, size)
    decreases |ms|
  {
    hide Understood, Clean, Sendable, Frame;
    if ms == [] {
      assert Sent(ms) + rest == rest;
    } else {
      FramesUnderstood(ms[1..], rest, size);
      FrameInFront(ms[0], Sent(ms[1..]) + rest, size);
      assert Sent(ms) + rest == Frame(ms[0]) + (Sent(ms[1..]) + rest);
      assert ms + Understood(rest, size) == [ms[0]] + (ms[1..] + Understood(rest, size));
    }
  }

  /** Messages sent over a fresh line come out of the receiver unchanged, whatever its buffers
      hold, and one more call finds nothing. */
  lemma SentIsReceived(ms: seq<Msg>, bufs: seq<seq<byte>>, size: nat)
    requires ValidSize(size) && forall i | 0 <= i < |ms| :: Sendable(ms[i], size)
    requires |bufs| >= |ms| && forall i | 0 <= i < |bufs| :: |bufs[i]| == size
    ensures Collected(bufs, Sent(ms), size) == ms
  {
    FramesUnderstood(ms, [], size);
    assert Sent(ms) + [] == Sent(ms);
    assert ms + [] == ms;
    StreamUnderstood(bufs, Sent(ms), size);
  }

  /** The receiver finds its way back: noise up to a terminator costs no message behind it. */
  lemma NoiseIsSkipped(noise: seq<byte>, ms: seq<Msg>, bufs: seq<seq<byte>>, size: nat)
    requires ValidSize(size) && forall i | 0 <= i < |ms| :: Sendable(ms[i], size)
    requires TERMINATOR !in noise && SelfContained(Visible(noise, size)) && Meaning(Visible(noise, size), size).None?
    requires |bufs| >= |ms| && forall i | 0 <= i < |bufs| :: |bufs[i]| == size
    ensures Collected(bufs, noise + [TERMINATOR] + Sent(ms), size) == ms
  {
    hide Meaning, SelfContained, Visible;
    FramesUnderstood(ms, [], size);
    assert Sent(ms) + [] == Sent(ms);
    assert ms + [] == ms;
    UnderstoodLine(noise, Sent(ms), size);
    StreamUnderstood(bufs, noise + [TERMINATOR] + Sent(ms), size);
  }

  // ------------------------------------------------------------ capacity

  /** What the join accepts for the payload buffer can be sent on a channel of two digits. */
  lemma JoinFitsFrame(ps: seq<seq<byte>>, channel: nat, size: nat)
    requires ValidSize(size) && channel < 100 && ps != []
    requires forall i | 0 <= i < |ps| :: NUL !in ps[i] && TERMINATOR !in ps[i]
    requires |Join(ps, SEPARATOR)| + 1 < size - 9
    ensures Sendable(Msg(channel, Join(ps, SEPARATOR)), size)
    ensures EncodeStatus(Msg(channel, Join(ps, SEPARATOR)), size) == OK
  {
    hide JoinRaw, Decimal;
    var m := Msg(channel, Join(ps, SEPARATOR));
    JoinStarts(Blanked(ps), SEPARATOR);
    DecimalLength(channel);
    JoinHasNo(Blanked(ps), SEPARATOR, NUL);
    JoinHasNo(Blanked(ps), SEPARATOR, TERMINATOR);
    EncodeOkIff(m, size);
  }

  /** From parts to parts over the wire: join, encode, any line, receive, split. */
  lemma PartsOverTheWire(ps: seq<seq<byte>>, channel: nat, buf: seq<byte>, rest: seq<byte>, size: nat)
    requires ValidSize(size) && |buf| == size && channel < 100 && ps != []
    requires forall i | 0 <= i < |ps| :: NUL !in ps[i] && TERMINATOR !in ps[i]
    requires |Join(ps, SEPARATOR)| + 1 < size - 9
    ensures var r := Receive(buf, 0, Frame(Msg(channel, Join(ps, SEPARATOR))) + rest, size);
            && r == Got(Msg(channel, Join(ps, SEPARATOR)), rest)
            && (SplitResult(r.msg.payload, SEPARATOR, true) == ps <==> Separable(Blanked(ps), SEPARATOR) && AllTrimmed(ps))
            && (SplitResult(r.msg.payload, SEPARATOR, false) == Blanked(ps) <==> Separable(Blanked(ps), SEPARATOR))
  {
    hide Receive, Join, SplitResult, Tokens, Separable, AllTrimmed, Meaning, EncodeStatus, SelfContained;
    var m := Msg(channel, Join(ps, SEPARATOR));
    JoinFitsFrame(ps, channel, size);
    FrameUnderstoodIff(m, size);
    LineBytes(m);
    var buf' := LineReceived(buf, Line(channel, m.payload), rest, size);
    TrimmingSplitOfJoinIff(ps, SEPARATOR);
    SplitOfJoinIff(ps, SEPARATOR);
    SplitResultOfJoin(ps, SEPARATOR, true);
    SplitResultOfJoin(ps, SEPARATOR, false);
  }
}

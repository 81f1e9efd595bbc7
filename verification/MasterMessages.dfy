/** The master's own implementation of the frame (opdi_OPDIMessage.cpp), and that it understands
    the slave's and is understood by it. */
module MasterMessages {
  import opened Constants
  import opened Strings
  import opened Frames
  import opened Numbers
  import opened Wire
  import opened StringTools

  /** The number parsers of the Poco library; None stands for a syntax exception. */
  datatype NumberParser = NumberParser(parseHex: seq<byte> -> Option<int>, parse: seq<byte> -> Option<int>)

  /** What is needed of them: they read what the frames hold. */
  ghost predicate ReadsDigits(np: NumberParser) {
    && (forall v: nat | v < 0x1_0000 :: np.parseHex(Hex4(v)) == Some(v))
    && (forall n: nat | n < 0x8000_0000 :: np.parse(Decimal(n)) == Some(n))
  }

  /** Nor do they take what is no hexadecimal number at all. */
  ghost predicate RefusesSeparators(np: NumberParser) {
    forall t: seq<byte> | np.parseHex(t).Some? :: t != [] && SEPARATOR !in t
  }

  datatype Outcome = Thrown(what: string) | Returned(channel: int, payload: seq<byte>, checksum: int)

  const TOO_FEW_PARTS := "Message part number too low"
  const BAD_CHECKSUM := "Message checksum invalid"
  const BAD_CHANNEL := "Message channel number invalid"

  // ------------------------------------------------------------ what decode computes

  /** The sum of the bytes before the last separator, not reduced to 16 bits. */
  function ContentSum(line: seq<byte>): nat {
    if line == [] then 0
    else if line[|line| - 1] == SEPARATOR then Sum(line[..|line| - 1])
    else ContentSum(line[..|line| - 1])
  }

  function MasterDecode(np: NumberParser, line: seq<byte>): Outcome {
    var parts := MasterSplit(line, SEPARATOR);
    var n := |parts|;
    if n < 3 then Thrown(TOO_FEW_PARTS)
    else
      var checksum, channel := np.parseHex(parts[n - 1]), np.parse(parts[0]);
      if checksum != Some(ContentSum(line)) then Thrown(BAD_CHECKSUM)
      else if channel.None? then Thrown(BAD_CHANNEL)
      else Returned(channel.value, MasterJoin(parts[1..n - 1], SEPARATOR), checksum.value)
  }

  /** The last separator of a line stands at k. */
  ghost predicate LastSeparatorAt(line: seq<byte>, k: nat) {
    k < |line| && line[k] == SEPARATOR && SEPARATOR !in line[k + 1..]
  }

  lemma {:induction false} ContentSumIs(line: seq<byte>, k: nat)
    requires LastSeparatorAt(line, k)
    ensures ContentSum(line) == Sum(line[..k])
    decreases |line|
  {
    var n := |line| - 1;
    if k == n {
      assert line[..n] == line[..k];
    } else {
      assert line[n] == line[k + 1..][n - k - 1];
      assert line[..n][k + 1..] == line[k + 1..n] && line[..n][..k] == line[..k];
      assert line[k + 1..] == line[k + 1..n] + [line[n]];
      ContentSumIs(line[..n], k);
    }
  }

  lemma {:induction false} LastSeparatorOf(line: seq<byte>) returns (k: nat)
    requires SEPARATOR in line
    ensures LastSeparatorAt(line, k)
    decreases |line|
  {
    var n := |line| - 1;
    if line[n] == SEPARATOR {
      k := n;
    } else {
      assert line == line[..n] + [line[n]];
      k := LastSeparatorOf(line[..n]);
      assert line[k + 1..] == line[..n][k + 1..] + [line[n]];
    }
  }

  /** A line is decoded exactly if it has three parts or more, the parser reads in the last one the
      sum of all bytes before the last separator, not reduced, and in the first one a channel; the
      payload is the parts between them. */
  lemma MasterDecodesIff(np: NumberParser, line: seq<byte>, channel: int, payload: seq<byte>, checksum: int)
    ensures MasterDecode(np, line) == Returned(channel, payload, checksum) <==>
            var parts := MasterSplit(line, SEPARATOR);
            && |parts| >= 3 && np.parse(parts[0]) == Some(channel) && np.parseHex(parts[|parts| - 1]) == Some(checksum)
            && (exists k: nat :: LastSeparatorAt(line, k) && checksum == Sum(line[..k]))
            && payload == MasterJoin(parts[1..|parts| - 1], SEPARATOR)
  {
    hide MasterJoin, MasterSplit, ContentSum;
    if |MasterSplit(line, SEPARATOR)| >= 3 {
      SplitHasSeparator(line);
      var last := LastSeparatorOf(line);
      ContentSumIs(line, last);
      forall k: nat | LastSeparatorAt(line, k)
        ensures ContentSum(line) == Sum(line[..k])
      {
        ContentSumIs(line, k);
      }
    }
  }

  lemma SplitHasSeparator(line: seq<byte>)
    requires |MasterSplit(line, SEPARATOR)| > 1
    ensures SEPARATOR in line
  {
    if SEPARATOR !in line {
      PlainIsOnePart(line);
    }
  }

  lemma PlainIsOnePart(line: seq<byte>)
    requires SEPARATOR !in line
    ensures |MasterSplit(line, SEPARATOR)| == 1
  {
    PlainRunsThrough(line, [], []);
    assert line + [] == line;
  }

  /** Joining the inner parts again loses nothing that a later split would see. */
  lemma RejoinedPayloadSplits(np: NumberParser, line: seq<byte>)
    requires MasterDecode(np, line).Returned?
    ensures var parts := MasterSplit(line, SEPARATOR);
            |parts| >= 3 && MasterSplit(MasterDecode(np, line).payload, SEPARATOR) == parts[1..|parts| - 1]
  {
    var parts := MasterSplit(line, SEPARATOR);
    SplitIsNormal(line, SEPARATOR);
    MasterSplitOfJoinIff(parts[1..|parts| - 1], SEPARATOR);
  }

  // ------------------------------------------------------------ from the slave to the master

  lemma {:induction false} EscapedPlain(p: seq<byte>, sep: byte)
    requires sep !in p
    ensures Escaped(p, sep) == p
    decreases |p|
  {
    if p != [] {
      assert p == [p[0]] + p[1..];
      EscapedPlain(p[1..], sep);
    }
  }

  lemma {:induction false} ContentSumOfLine(head: seq<byte>, hex: seq<byte>)
    requires SEPARATOR !in hex
    ensures ContentSum(head + [SEPARATOR] + hex) == Sum(head)
    decreases |hex|
  {
    var line := head + [SEPARATOR] + hex;
    if hex == [] {
      assert line[..|line| - 1] == head;
    } else {
      assert line[|line| - 1] == hex[|hex| - 1];
      assert line[..|line| - 1] == head + [SEPARATOR] + hex[..|hex| - 1];
      ContentSumOfLine(head, hex[..|hex| - 1]);
    }
  }

  /** A frame of the slave is itself a join: of the channel, the parts and the checksum. */
  lemma LineIsJoin(rs: seq<seq<byte>>, channel: nat, hex: seq<byte>)
    requires rs != [] && SEPARATOR !in hex
    ensures JoinRaw([Decimal(channel)] + rs + [hex], SEPARATOR) ==
            Decimal(channel) + [SEPARATOR] + JoinRaw(rs, SEPARATOR) + [SEPARATOR] + hex
  {
    hide Escaped, Decimal;
    var d := Decimal(channel);
    DecimalHasNoSeparator(channel);
    EscapedPlain(d, SEPARATOR);
    EscapedPlain(hex, SEPARATOR);
    JoinSnoc([d] + rs, hex, SEPARATOR);
    assert ([d] + rs)[1..] == rs;
  }

  ghost predicate NoLeadingSeparators(ps: seq<seq<byte>>) {
    forall i | 0 <= i < |ps| :: ps[i] == [] || ps[i][0] != SEPARATOR
  }

  lemma MasterSeesParts(ps: seq<seq<byte>>, channel: nat)
    requires ps != [] && NoLeadingSeparators(ps)
    ensures var cs := Checksum(Head(channel, Join(ps, SEPARATOR)));
            MasterSplit(Line(channel, Join(ps, SEPARATOR)), SEPARATOR) ==
            [Decimal(channel)] + Unblanked(Blanked(ps)) + [Hex4(cs)]
  {
    hide Decimal, Hex4, Checksum, JoinRaw, Parts;
    var cs := Checksum(Head(channel, Join(ps, SEPARATOR)));
    var raws := [Decimal(channel)] + Blanked(ps) + [Hex4(cs)];
    Hex4RoundTrip(cs);
    DecimalHasNoSeparator(channel);
    LineIsJoin(Blanked(ps), channel, Hex4(cs));
    assert Separable(raws, SEPARATOR);
    PartsOfJoin(raws, SEPARATOR);
    FrameNumbersHaveNoBlank(channel, cs);
  }

  lemma FrameNumbersHaveNoBlank(channel: nat, cs: nat)
    requires cs < 0x1_0000
    ensures RemoveLeadingBlank(Decimal(channel)) == Decimal(channel) && RemoveLeadingBlank(Hex4(cs)) == Hex4(cs)
  {
    DecimalIsRead(channel);
    assert IsDigit(Decimal(channel)[0]);
  }

  lemma UnblankedBlanked(ps: seq<seq<byte>>)
    ensures Unblanked(Blanked(ps)) == ps <==> NoLeadingBlanks(ps)
  {
    forall i | 0 <= i < |ps|
      ensures Unblanked(Blanked(ps))[i] == ps[i] <==> ps[i] == [] || ps[i][0] != BLANK
    {
    }
  }

  /** Parts that do not start with the separator: the master takes their frame exactly when the
      true sum of the bytes fits 16 bits, and finds the parts exactly when none has a leading
      blank. */
  lemma SeparableToMaster(np: NumberParser, ps: seq<seq<byte>>, channel: nat)
    requires ReadsDigits(np) && channel < 0x8000_0000 && ps != [] && NoLeadingSeparators(ps)
    ensures var payload := Join(ps, SEPARATOR);
            var o := MasterDecode(np, Line(channel, payload));
            && (o.Returned? <==> Sum(Head(channel, payload)) < 0x1_0000)
            && (o.Returned? ==> o.channel == channel && o.checksum == Sum(Head(channel, payload)) &&
                                (MasterSplit(o.payload, SEPARATOR) == ps <==> NoLeadingBlanks(ps)))
  {
    hide Decimal, Hex4, Sum, MasterSplit, MasterJoin, Unblanked, Blanked, JoinRaw;
    var payload := Join(ps, SEPARATOR);
    var head := Head(channel, payload);
    var cs := Checksum(head);
    MasterSeesParts(ps, channel);
    Hex4RoundTrip(cs);
    ContentSumOfLine(head, Hex4(cs));
    UnblankedBlanked(ps);
    InnerParts(Decimal(channel), Unblanked(Blanked(ps)), Hex4(cs));
    if MasterDecode(np, Line(channel, payload)).Returned? {
      RejoinedPayloadSplits(np, Line(channel, payload));
    }
  }

  /** What the master finds in a payload starts with neither blank nor separator. */
  lemma RejoinedPartsAreNormal(np: NumberParser, line: seq<byte>)
    requires MasterDecode(np, line).Returned?
    ensures var ps := MasterSplit(MasterDecode(np, line).payload, SEPARATOR);
            NoLeadingBlanks(ps) && NoLeadingSeparators(ps)
  {
    hide MasterSplit, MasterJoin;
    RejoinedPayloadSplits(np, line);
    SplitIsNormal(line, SEPARATOR);
    var parts, ps := MasterSplit(line, SEPARATOR), MasterSplit(MasterDecode(np, line).payload, SEPARATOR);
    assert forall i | 0 <= i < |ps| :: ps[i] == parts[i + 1];
  }

  /** What the slave joins and frames, the master takes and splits into the parts sent exactly when
      the true sum of the bytes fits 16 bits and no part, the first one included, starts with a
      blank or the separator. */
  lemma SlaveToMaster(np: NumberParser, ps: seq<seq<byte>>, channel: nat)
    requires ReadsDigits(np) && channel < 0x8000_0000 && ps != []
    ensures var payload := Join(ps, SEPARATOR);
            var o := MasterDecode(np, Line(channel, payload));
            && (o.Returned? && MasterSplit(o.payload, SEPARATOR) == ps <==>
                Sum(Head(channel, payload)) < 0x1_0000 && NoLeadingBlanks(ps) && NoLeadingSeparators(ps))
            && (o.Returned? && MasterSplit(o.payload, SEPARATOR) == ps ==>
                o.channel == channel && o.checksum == Sum(Head(channel, payload)))
  {
    hide MasterDecode, MasterSplit, Line, Sum, Join;
    if NoLeadingSeparators(ps) {
      SeparableToMaster(np, ps, channel);
    }
    if MasterDecode(np, Line(channel, Join(ps, SEPARATOR))).Returned? {
      RejoinedPartsAreNormal(np, Line(channel, Join(ps, SEPARATOR)));
    }
  }

  /** A first part that starts with the separator runs into the channel before it. */
  lemma SeparatorRunsIntoChannel(ps: seq<seq<byte>>, channel: nat)
    requires ps != [] && ps[0] != [] && ps[0][0] == SEPARATOR
    ensures Decimal(channel) + [SEPARATOR] <= MasterSplit(Line(channel, Join(ps, SEPARATOR)), SEPARATOR)[0]
  {
    hide Hex4, Checksum, Decimal;
    var d, payload := Decimal(channel), Join(ps, SEPARATOR);
    JoinKeepsSeparator(Blanked(ps));
    DecimalHasNoSeparator(channel);
    DecimalIsRead(channel);
    assert IsDigit(d[0]);
    var behind := payload[1..] + [SEPARATOR] + Hex4(Checksum(Head(channel, payload)));
    assert Line(channel, payload) == d + ([SEPARATOR, SEPARATOR] + behind);
    PlainRunsThrough(d, [SEPARATOR, SEPARATOR] + behind, []);
    assert [] + d == d && ([SEPARATOR, SEPARATOR] + behind)[2..] == behind;
    PartsKeepCurrent(behind, SEPARATOR, d + [SEPARATOR]);
  }

  lemma JoinKeepsSeparator(rs: seq<seq<byte>>)
    requires rs != [] && rs[0] != [] && rs[0][0] == SEPARATOR
    ensures var s := JoinRaw(rs, SEPARATOR); s != [] && s[0] == SEPARATOR
  {}

  lemma {:induction false} PlainRunsThrough(s: seq<byte>, rest: seq<byte>, cur: seq<byte>)
    requires SEPARATOR !in s
    ensures Parts(s + rest, SEPARATOR, cur) == Parts(rest, SEPARATOR, cur + s)
    decreases |s|
  {
    if s == [] {
      assert s + rest == rest && cur + s == cur;
    } else {
      assert s[0] in s && (s + rest)[1..] == s[1..] + rest;
      PlainRunsThrough(s[1..], rest, cur + [s[0]]);
      assert cur + [s[0]] + s[1..] == cur + s;
    }
  }

  lemma InnerParts<T>(a: T, s: seq<T>, b: T)
    ensures var t := [a] + s + [b];
            t[0] == a && t[|t| - 1] == b && t[1..|t| - 1] == s
  {
    var t := [a] + s + [b];
    assert t[1..|t| - 1] == s;
  }

  // ------------------------------------------------------------ error detection

  /** What stands behind the last single separator: the text without separators, unless a separator
      before it makes a pair with the last one. */
  lemma {:induction false} LastPart(head: seq<byte>, text: seq<byte>, cur: seq<byte>)
    requires text != [] && SEPARATOR !in text
    ensures var ps := Parts(head + [SEPARATOR] + text, SEPARATOR, cur);
            var last := ps[|ps| - 1]; last == text || SEPARATOR in last
    decreases |head|
  {
    var line := head + [SEPARATOR] + text;
    if head == [] {
      assert line == [SEPARATOR] + text && text[0] in text;
      PartsAtSeparator(text, SEPARATOR, cur);
      PlainRunsThrough(text, [], []);
      assert text + [] == text && [] + text == text;
    } else if head[0] != SEPARATOR {
      assert line[1..] == head[1..] + [SEPARATOR] + text;
      LastPart(head[1..], text, cur + [head[0]]);
    } else if |head| == 1 {
      assert line[2..] == text;
      PlainRunsThrough(text, [], cur + [SEPARATOR]);
      assert text + [] == text;
      assert (cur + [SEPARATOR] + text)[|cur|] == SEPARATOR;
    } else if head[1] == SEPARATOR {
      assert line[2..] == head[2..] + [SEPARATOR] + text;
      LastPart(head[2..], text, cur + [SEPARATOR]);
    } else {
      assert line[1..] == head[1..] + [SEPARATOR] + text;
      LastPart(head[1..], text, []);
    }
  }

  /** The master reads nothing from a line whose sum is not what the four digits at its end say,
      nor if it does not take those for a part of their own. */
  lemma WrongDigitsThrow(np: NumberParser, head: seq<byte>, v: nat)
    requires ReadsDigits(np) && RefusesSeparators(np) && v < 0x1_0000 && v != Sum(head)
    ensures MasterDecode(np, head + [SEPARATOR] + Hex4(v)).Thrown?
  {
    hide Hex4, Sum, ContentSum, Parts, MasterJoin;
    var line := head + [SEPARATOR] + Hex4(v);
    Hex4RoundTrip(v);
    ContentSumOfLine(head, Hex4(v));
    LastPart(head, Hex4(v), []);
    FrameNumbersHaveNoBlank(0, v);
    var parts := MasterSplit(line, SEPARATOR);
    var last := parts[|parts| - 1];
    assert last == Hex4(v) || last == [] || SEPARATOR in last;
  }

  /** Any single byte of channel or payload of any frame replaced by another one, neither of them the
      separator: decode throws. */
  lemma MasterDetectsSingleByteError(np: NumberParser, channel: nat, payload: seq<byte>, j: nat, c: byte)
    requires ReadsDigits(np) && RefusesSeparators(np)
    requires j < |Head(channel, payload)| && c != Head(channel, payload)[j]
    requires c != SEPARATOR && Head(channel, payload)[j] != SEPARATOR
    ensures MasterDecode(np, Line(channel, payload)[j := c]).Thrown?
  {
    hide Head, Hex4, Sum, MasterDecode;
    var head := Head(channel, payload);
    var bad := head[j := c];
    SumUpdate(head, j, c);
    ModuloTellsApart(Sum(head), c - head[j]);
    assert Line(channel, payload)[j := c] == bad + [SEPARATOR] + Hex4(Checksum(head));
    WrongDigitsThrow(np, bad, Checksum(head));
  }

  /** Buffers of 256 bytes are small enough for the sums to agree. */
  lemma SmallBufferSumsAgree(m: Msg, size: nat)
    requires ValidSize(size) && size <= 256 && EncodeStatus(m, size) == OK
    ensures Sum(Head(m.channel, m.payload)) < 0x1_0000
  {
    EncodeOkIff(m, size);
    SumBound(Head(m.channel, m.payload));
  }

  // ------------------------------------------------------------ from the master to the slave

  lemma MasterRawIsRaw(p: seq<byte>)
    ensures RawOf(p, MasterRaw(p))
  {}

  /** What the master joins and frames, the slave hears, whatever its buffer holds, and splits
      into the parts sent exactly when none has whitespace to lose and no later one starts with
      the separator. */
  lemma MasterToSlave(ps: seq<seq<byte>>, channel: nat, buf: seq<byte>, rest: seq<byte>, size: nat)
    requires ValidSize(size) && |buf| == size && ps != []
    requires Sendable(Msg(channel, MasterJoin(ps, SEPARATOR)), size)
    ensures var payload := MasterJoin(ps, SEPARATOR);
            && Receive(buf, 0, Frame(Msg(channel, payload)) + rest, size) == Got(Msg(channel, payload), rest)
            && (SplitResult(payload, SEPARATOR, true) == ps <==> MasterSeparable(ps, SEPARATOR) && AllTrimmed(ps))
  {
    hide Receive, MasterJoin, JoinRaw, Meaning, SelfContained, EncodeStatus, Visible, SplitResult, Tokens, RawOf;
    var m := Msg(channel, MasterJoin(ps, SEPARATOR));
    EncodeOkIff(m, size);
    FrameUnderstoodIff(m, size);
    LineBytes(m);
    var buf' := LineReceived(buf, Line(channel, m.payload), rest, size);
    MasterJoinIsJoin(ps, SEPARATOR);
    RawsSeparableIff(ps, SEPARATOR);
    forall i | 0 <= i < |ps|
      ensures RawOf(ps[i], MasterRaws(ps)[i])
    {
      MasterRawIsRaw(ps[i]);
    }
    TrimmingSplitOfRawsIff(ps, MasterRaws(ps), SEPARATOR);
    SplitResultOfRaws(MasterRaws(ps), SEPARATOR, true);
  }

  // ------------------------------------------------------------ the loops

  method CalcChecksum(message: seq<byte>) returns (myChecksum: nat)
    ensures myChecksum == ContentSum(message)
  {
    myChecksum := 0;
    var colonFound := false;
    var i := |message| - 1;
    assert message[..|message|] == message;
    while i >= 0
      invariant -1 <= i < |message|
      invariant ContentSum(message) == if colonFound then myChecksum + Sum(message[..i + 1]) else ContentSum(message[..i + 1])
      invariant !colonFound ==> myChecksum == 0
    {
      assert message[..i + 1][..i] == message[..i];
      if colonFound {
        myChecksum := myChecksum + message[i];
      } else {
        colonFound := message[i] == SEPARATOR;
      }
      i := i - 1;
    }
  }

  /** strncpy of text to the first n bytes of dest. */
  function Copied(dest: seq<byte>, text: seq<byte>, n: nat): (r: seq<byte>)
    requires n <= |dest|
    ensures |r| == |dest|
  {
    seq(|dest|, k requires 0 <= k < |dest| => if k >= n then dest[k] else if k < |text| then text[k] else NUL)
  }

  class OPDIMessage {
    var channel: int
    var payload: seq<byte>
    var checksum: int

    constructor (channel: int, payload: seq<byte>)
      ensures this.channel == channel && this.payload == payload
    {
      this.channel, this.payload := channel, payload;
    }

    /** decode: the fields of the new message, or the exception. */
    static method Decode(np: NumberParser, serialForm: seq<byte>) returns (o: Outcome)
      ensures o == MasterDecode(np, serialForm)
    {
      var parts := Split(serialForm, SEPARATOR);
      if |parts| < 3 {
        return Thrown(TOO_FEW_PARTS);
      }
      var checksum := np.parseHex(parts[|parts| - 1]);
      if checksum.None? {
        return Thrown(BAD_CHECKSUM);
      }
      var calcCheck := CalcChecksum(serialForm);
      if calcCheck != checksum.value {
        return Thrown(BAD_CHECKSUM);
      }
      var content := JoinStrings(1, 1, SEPARATOR, parts);
      var pid := np.parse(parts[0]);
      if pid.None? {
        return Thrown(BAD_CHANNEL);
      }
      return Returned(pid.value, content, checksum.value);
    }

    function Content(): seq<byte>
      reads this
    {
      Signed(channel) + [SEPARATOR] + payload
    }

    /** encode: the buffer gets as much of the frame as it takes, and zeros behind it; the length
        returned is that of the whole frame. */
    method Encode(buffer: array<byte>, maxlength: nat) returns (thrown: bool, length: nat)
      requires maxlength <= buffer.Length
      modifies `checksum, buffer
      ensures thrown <==> TERMINATOR in Content()
      ensures thrown ==> buffer[..] == old(buffer[..])
      ensures !thrown ==> checksum == Sum(Content())
      ensures !thrown ==> var text := UpToNul(Content() + [SEPARATOR] + Hex4(Checksum(Content())) + [TERMINATOR]);
                          length == |text| && buffer[..] == Copied(old(buffer[..]), text, maxlength)
    {
      hide Signed, Hex4, UpToNul;
      length := 0;
      checksum := 0;
      var data := Content();
      var i := 0;
      while i < |data|
        invariant 0 <= i <= |data| && checksum == Sum(data[..i]) && TERMINATOR !in data[..i]
        invariant data == Content() && buffer[..] == old(buffer[..])
      {
        assert data[..i + 1] == data[..i] + [data[i]];
        if data[i] == TERMINATOR {
          return true, length;
        }
        checksum := checksum + data[i];
        i := i + 1;
      }
      assert data[..|data|] == data;
      data := data + [SEPARATOR] + Hex4(checksum % 0x1_0000) + [TERMINATOR];
      var text := UpToNul(data);
      forall k | 0 <= k < maxlength {
        buffer[k] := if k < |text| then text[k] else NUL;
      }
      return false, |text|;
    }
  }

  /** The bytes the master sends for a channel that is not negative are the slave's frame. */
  lemma MasterSendsFrames(channel: nat, payload: seq<byte>)
    requires NUL !in payload && channel < 0x1_0000
    ensures var content := Signed(channel) + [SEPARATOR] + payload;
            && UpToNul(content + [SEPARATOR] + Hex4(Checksum(content)) + [TERMINATOR]) == Frame(Msg(channel, payload))
            && (TERMINATOR in content <==> TERMINATOR in payload)
  {
    hide Decimal, Hex4, Checksum;
    DecimalHasNoSeparator(channel);
    var content := Head(channel, payload);
    Hex4RoundTrip(Checksum(content));
    UpToNulWhole(Frame(Msg(channel, payload)));
  }
}

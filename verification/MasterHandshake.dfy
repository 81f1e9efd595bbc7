/** The master's side of the handshake (opdi_IODevice.cpp), and both sides together. */
module MasterHandshake {
  import opened Constants
  import opened Frames
  import opened MasterMessages
  import opened Numbers
  import opened Protocol
  import opened SlaveProtocol
  import opened Strings
  import opened StringTools
  import opened Wire

  // ------------------------------------------------------------ the master's steps

  /** What the master is configured with. credentials is what the callback supplies if user or
      password is missing, None if it is cancelled; newer tells whether a version text stands for
      a version beyond the master's own. */
  datatype Master = Master(flags: int, name: seq<byte>, user: seq<byte>, password: seq<byte>,
                           credentials: Option<(seq<byte>, seq<byte>)>, np: NumberParser,
                           newer: seq<byte> -> Option<bool>)

  datatype Why =
    | TimedOut | WrongChannel | Disconnected | DeviceError | CancelledByDevice | WrongPartCount
    | UnexpectedMessage | VersionInvalid | VersionNotSupported | FlagsInvalid | EncryptionMissing
    | NoSupportedProtocol | CancelledByUser | AgreementExpected | AuthenticationRejected

  /** Where a step leaves the master: it has failed, after a last message perhaps; it has sent a
      message and waits; or it is done, with the protocol or without. */
  datatype MasterStep =
    | Throws(why: Why, last: Option<Msg>)
    | Sends(msg: Msg, deviceFlags: int)
    | ReturnsNull
    | ReturnsProtocol

  datatype Wanted = Failing(why: Why) | Obtained(parts: seq<seq<byte>>)

  /** getHandshakeMessage: a message with so many parts, if the device has nothing else to say. */
  function HandshakeParts(received: Option<Msg>, count: nat): (r: Wanted)
    ensures r.Obtained? ==> |r.parts| == count && r.parts != []
  {
    if received.None? then Failing(TimedOut)
    else
      var parts := MasterSplit(received.value.payload, SEPARATOR);
      if received.value.channel != 0 then Failing(WrongChannel)
      else if parts[0] == DISCONNECT then Failing(Disconnected)
      else if parts[0] == ERROR then Failing(DeviceError)
      else if parts[0] == DISAGREEMENT then Failing(CancelledByDevice)
      else if |parts| != count then Failing(WrongPartCount)
      else Obtained(parts)
  }

  function Hello(m: Master): Msg {
    Msg(0, MasterJoin([HANDSHAKE, VERSION, Signed(m.flags), []], SEPARATOR))
  }

  /** The master has no encryption to switch on, so a flag of its own that requires it cannot be
      met. */
  function OnReply(m: Master, received: Option<Msg>): MasterStep {
    var r := HandshakeParts(received, 6);
    if r.Failing? then Throws(r.why, None)
    else if r.parts[0] != HANDSHAKE then Throws(UnexpectedMessage, None)
    else
      var newer, deviceFlags := m.newer(r.parts[1]), Stoi(r.parts[4]);
      if newer.None? then Throws(VersionInvalid, None)
      else if newer.value then Throws(VersionNotSupported, Some(Msg(0, DISAGREEMENT)))
      else if deviceFlags.None? then Throws(FlagsInvalid, None)
      else if EncryptionRequired(m.flags) then Throws(EncryptionMissing, None)
      else if BASIC !in MasterSplit(r.parts[5], COMMA) then Throws(NoSupportedProtocol, Some(Msg(0, DISAGREEMENT)))
      else Sends(Msg(0, MasterJoin([BASIC, [], m.name], SEPARATOR)), deviceFlags.value)
  }

  function OnName(m: Master, received: Option<Msg>, deviceFlags: int): MasterStep {
    var r := HandshakeParts(received, 2);
    if r.Failing? then Throws(r.why, None)
    else if r.parts[0] != AGREEMENT then ReturnsNull
    else if !AuthenticationRequired(deviceFlags) then ReturnsProtocol
    else
      var c := Credentials(m);
      if c.None? then Throws(CancelledByUser, None)
      else Sends(Msg(0, MasterJoin([AUTH, c.value.0, c.value.1], SEPARATOR)), deviceFlags)
  }

  function Credentials(m: Master): Option<(seq<byte>, seq<byte>)> {
    if m.user == [] || m.password == [] then m.credentials else Some((m.user, m.password))
  }

  const GOODBYE := Some(Msg(0, DISCONNECT))

  /** expectAgreement, and what is made of its exceptions. */
  function OnConfirmation(received: Option<Msg>): MasterStep {
    var r := HandshakeParts(received, 1);
    if r.Failing? then Throws(r.why, None)
    else if r.parts[0] == DISAGREEMENT then Throws(AuthenticationRejected, GOODBYE)
    else if r.parts[0] != AGREEMENT then Throws(AgreementExpected, None)
    else ReturnsProtocol
  }

  /** Rejected credentials never raise the exception that is meant for them: every message is
      searched for a disagreement before it gets there. */
  lemma RejectionIsNotRecognised(received: Option<Msg>)
    ensures OnConfirmation(received).ReturnsProtocol? || OnConfirmation(received).Throws?
    ensures OnConfirmation(received).Throws? ==> OnConfirmation(received).why != AuthenticationRejected
  {}

  /** The outcome of the next wait for a message. */
  function First(inbox: seq<Option<Msg>>): Option<Msg> { if inbox == [] then None else inbox[0] }

  function Rest(inbox: seq<Option<Msg>>): seq<Option<Msg>> { if inbox == [] then [] else inbox[1..] }

  /** What a step sends. */
  function Outgoing(s: MasterStep): seq<Msg> {
    match s
    case Sends(msg, _) => [msg]
    case Throws(_, Some(msg)) => [msg]
    case _ => []
  }

  /** The whole handshake over what is received: the last step, and the messages sent. */
  function MasterRun(m: Master, inbox: seq<Option<Msg>>): (MasterStep, seq<Msg>) {
    var reply := OnReply(m, First(inbox));
    if !reply.Sends? then (reply, [Hello(m)] + Outgoing(reply))
    else
      var name := OnName(m, First(Rest(inbox)), reply.deviceFlags);
      if !name.Sends? then (name, [Hello(m), reply.msg] + Outgoing(name))
      else
        var last := OnConfirmation(First(Rest(Rest(inbox))));
        (last, [Hello(m), reply.msg, name.msg] + Outgoing(last))
  }

  // ------------------------------------------------------------ the code of the master

  class IODevice {
    const config: Master
    var user: seq<byte>
    var password: seq<byte>
    var deviceSuppliedName: seq<byte>
    var hasProtocol: bool

    var inbox: seq<Option<Msg>>
    var outbox: seq<Msg>

    constructor (config: Master, inbox: seq<Option<Msg>>)
      ensures this.config == config && Settings() == config && this.inbox == inbox && outbox == [] && !hasProtocol
    {
      this.config, this.inbox, outbox := config, inbox, [];
      user, password, deviceSuppliedName, hasProtocol := config.user, config.password, [], false;
    }

    function Settings(): Master
      reads `user, `password
    {
      config.(user := user, password := password)
    }

    method GetHandshakeMessage(expectedPartCount: nat) returns (r: Wanted)
      modifies `inbox
      ensures r == HandshakeParts(First(old(inbox)), expectedPartCount) && inbox == Rest(old(inbox))
    {
      var received := First(inbox);
      inbox := Rest(inbox);
      if received.None? {
        return Failing(TimedOut);
      }
      var results := Split(received.value.payload, SEPARATOR);
      if received.value.channel != 0 {
        return Failing(WrongChannel);
      }
      if results[0] == DISCONNECT {
        return Failing(Disconnected);
      } else if results[0] == ERROR {
        return Failing(DeviceError);
      } else if results[0] == DISAGREEMENT {
        return Failing(CancelledByDevice);
      }
      if |results| != expectedPartCount {
        return Failing(WrongPartCount);
      }
      return Obtained(results);
    }

    /** handshake: the protocol is set exactly if it is returned, and credentials the user has
        entered are kept, if at all, only once the device has agreed to them. */
    method Handshake(save: bool) returns (step: MasterStep)
      requires !hasProtocol
      modifies this
      ensures var run := MasterRun(old(Settings()), old(inbox)); step == run.0 && outbox == old(outbox) + run.1
      ensures hasProtocol <==> step.ReturnsProtocol?
      ensures (user, password) != (old(user), old(password)) ==>
                step.ReturnsProtocol? && save && Credentials(old(Settings())) == Some((user, password))
    {
      hide OnReply, OnName, OnConfirmation, Hello;
      ReplyReturnsNothing(Settings(), First(inbox));
      outbox := outbox + [Hello(Settings())];
      step := ReceiveReply();
      outbox := outbox + Outgoing(step);
      if !step.Sends? {
        return;
      }
      step := ReceiveName(step.deviceFlags);
      outbox := outbox + Outgoing(step);
      if step.ReturnsProtocol? {
        hasProtocol := true;
      }
      if !step.Sends? {
        return;
      }
      var c := Credentials(Settings());
      RejectionIsNotRecognised(First(inbox));
      step := ExpectAgreement();
      outbox := outbox + Outgoing(step);
      password := if step.Throws? && step.why == AuthenticationRejected then [] else password;
      if step.ReturnsProtocol? {
        if save && c.Some? {
          user, password := c.value.0, c.value.1;
        }
        hasProtocol := true;
      }
    }

    method ReceiveReply() returns (step: MasterStep)
      modifies `inbox
      ensures step == OnReply(Settings(), First(old(inbox))) && inbox == Rest(old(inbox))
    {
      hide HandshakeParts, MasterJoin;
      var r := GetHandshakeMessage(6);
      if r.Failing? {
        return Throws(r.why, None);
      }
      if r.parts[0] != HANDSHAKE {
        return Throws(UnexpectedMessage, None);
      }
      var newer := config.newer(r.parts[1]);
      if newer.None? {
        return Throws(VersionInvalid, None);
      }
      if newer.value {
        return Throws(VersionNotSupported, Some(Msg(0, DISAGREEMENT)));
      }
      var deviceFlags := Stoi(r.parts[4]);
      if deviceFlags.None? {
        return Throws(FlagsInvalid, None);
      }
      if EncryptionRequired(config.flags) {
        return Throws(EncryptionMissing, None);
      }
      var protos := Split(r.parts[5], COMMA);
      var found := false;
      var i := 0;
      while i < |protos| && !found
        invariant 0 <= i <= |protos| && (found <==> BASIC in protos[..i])
      {
        assert protos[..i + 1] == protos[..i] + [protos[i]];
        found := protos[i] == BASIC;
        i := i + 1;
      }
      assert protos[..i] <= protos && (i == |protos| ==> protos[..i] == protos);
      if !found {
        return Throws(NoSupportedProtocol, Some(Msg(0, DISAGREEMENT)));
      }
      return Sends(Msg(0, MasterJoin([BASIC, [], config.name], SEPARATOR)), deviceFlags.value);
    }

    method ReceiveName(deviceFlags: int) returns (step: MasterStep)
      modifies `inbox, `deviceSuppliedName
      ensures step == OnName(Settings(), First(old(inbox)), deviceFlags) && inbox == Rest(old(inbox))
    {
      hide HandshakeParts, MasterJoin, Bit;
      var r := GetHandshakeMessage(2);
      if r.Failing? {
        return Throws(r.why, None);
      }
      if r.parts[0] != AGREEMENT {
        return ReturnsNull;
      }
      deviceSuppliedName := r.parts[1];
      if !AuthenticationRequired(deviceFlags) {
        return ReturnsProtocol;
      }
      var c := Credentials(Settings());
      if c.None? {
        return Throws(CancelledByUser, None);
      }
      return Sends(Msg(0, MasterJoin([AUTH, c.value.0, c.value.1], SEPARATOR)), deviceFlags);
    }

    method ExpectAgreement() returns (step: MasterStep)
      modifies `inbox
      ensures step == OnConfirmation(First(old(inbox))) && inbox == Rest(old(inbox))
    {
      hide HandshakeParts;
      var r := GetHandshakeMessage(1);
      if r.Failing? {
        return Throws(r.why, None);
      }
      if r.parts[0] == DISAGREEMENT {
        return Throws(AuthenticationRejected, GOODBYE);
      }
      if r.parts[0] != AGREEMENT {
        return Throws(AgreementExpected, None);
      }
      return ReturnsProtocol;
    }
  }

  // ------------------------------------------------------------ the link between the two

  /** What the master makes of a message the slave has sent. */
  function ToMaster(np: NumberParser, sent: Option<Msg>): Option<Msg> {
    if sent.None? then None
    else
      var o := MasterDecode(np, Line(sent.value.channel, sent.value.payload));
      if o.Returned? && o.channel >= 0 then Some(Msg(o.channel, o.payload)) else None
  }

  /** What the slave's wait for a message makes of one that the master, which never encrypts, has
      sent. */
  function ToSlave(dev: Device, s: Slave, msg: Msg, env: Env): Input
    requires ValidSize(dev.size)
  {
    if Sendable(msg, dev.size) && !s.encrypted then Incoming(msg, env) else Failed(TIMEOUT)
  }

  /** The first message in the log from position from on. */
  function SentSince(log: seq<Entry>, from: nat): Option<Msg>
    requires from <= |log|
    decreases |log| - from
  {
    if from == |log| then None
    else if log[from].event.Sent? then Some(log[from].event.msg)
    else SentSince(log, from + 1)
  }

  /** A whole handshake: the last step of the master and the slave as it is then. */
  function Converse(m: Master, dev: Device, s0: Slave, e1: Env, e2: Env, e3: Env): (MasterStep, Slave)
    requires ValidSize(dev.size)
  {
    var s1 := Step(dev, s0, ToSlave(dev, s0, Hello(m), e1));
    var reply := OnReply(m, ToMaster(m.np, Since(s0, s1)));
    if !reply.Sends? then (reply, s1)
    else
      var s2 := Step(dev, s1, ToSlave(dev, s1, reply.msg, e2));
      var name := OnName(m, ToMaster(m.np, Since(s1, s2)), reply.deviceFlags);
      if !name.Sends? then (name, s2)
      else
        var s3 := Step(dev, s2, ToSlave(dev, s2, name.msg, e3));
        (OnConfirmation(ToMaster(m.np, Since(s2, s3))), s3)
  }

  /** What the slave has sent between two states. */
  function Since(s: Slave, s': Slave): Option<Msg> {
    if |s.log| <= |s'.log| then SentSince(s'.log, |s.log|) else None
  }

  /** The conversation is a run of both: of the master's handshake over what reaches it, and of
      the slave's state machine over what reaches that. */
  lemma ConverseIsARun(m: Master, dev: Device, s0: Slave, e1: Env, e2: Env, e3: Env)
    requires ValidSize(dev.size)
    ensures exists inbox: seq<Option<Msg>>, inputs: seq<Input> ::
              Converse(m, dev, s0, e1, e2, e3) == (MasterRun(m, inbox).0, After(dev, s0, inputs))
  {
    hide Step, OnReply, OnName, OnConfirmation, ToMaster, ToSlave, Since, Hello;
    var i1 := ToSlave(dev, s0, Hello(m), e1);
    var s1 := Step(dev, s0, i1);
    var r1 := ToMaster(m.np, Since(s0, s1));
    var reply := OnReply(m, r1);
    AfterSteps(dev, s0, [i1]);
    if !reply.Sends? {
      assert Converse(m, dev, s0, e1, e2, e3) == (MasterRun(m, [r1]).0, After(dev, s0, [i1]));
    } else {
      var i2 := ToSlave(dev, s1, reply.msg, e2);
      var s2 := Step(dev, s1, i2);
      var r2 := ToMaster(m.np, Since(s1, s2));
      var name := OnName(m, r2, reply.deviceFlags);
      AfterSteps(dev, s0, [i1, i2]);
      assert [i1, i2][..1] == [i1];
      assert [r1, r2][1..] == [r2];
      if !name.Sends? {
        assert Converse(m, dev, s0, e1, e2, e3) == (MasterRun(m, [r1, r2]).0, After(dev, s0, [i1, i2]));
      } else {
        var i3 := ToSlave(dev, s2, name.msg, e3);
        var r3 := ToMaster(m.np, Since(s2, Step(dev, s2, i3)));
        AfterSteps(dev, s0, [i1, i2, i3]);
        assert [i1, i2, i3][..2] == [i1, i2];
        assert [r1, r2, r3][1..] == [r2, r3] && [r2, r3][1..] == [r3];
        assert Converse(m, dev, s0, e1, e2, e3) == (MasterRun(m, [r1, r2, r3]).0, After(dev, s0, [i1, i2, i3]));
      }
    }
  }

  lemma AfterSteps(dev: Device, s: Slave, inputs: seq<Input>)
    requires ValidSize(dev.size) && inputs != []
    ensures After(dev, s, inputs) == Step(dev, After(dev, s, inputs[..|inputs| - 1]), inputs[|inputs| - 1])
    ensures |inputs| == 1 ==> After(dev, s, inputs) == Step(dev, s, inputs[0])
  {}

  // ------------------------------------------------------------ what the master reads in the slave's messages

  /** The front of a join is its first part, unless the next one starts with the separator. */
  lemma FirstOfJoin(p: seq<byte>, rest: seq<byte>, sep: byte)
    requires rest == [] || rest[0] != sep
    ensures Parts(Escaped(p, sep) + [sep] + rest, sep, []) == [p] + Parts(rest, sep, [])
  {
    hide Escaped, Parts;
    PartsOfEscaped(p, sep, [sep] + rest, []);
    assert Escaped(p, sep) + [sep] + rest == Escaped(p, sep) + ([sep] + rest);
    assert [] + p == p;
    PartsAtSeparator(rest, sep, p);
  }

  /** The master finds the first word of a slave's message, whatever comes behind it. */
  lemma MasterReadsFirst(np: NumberParser, word: seq<byte>, more: seq<byte>)
    requires word != [] && SEPARATOR !in word && word[0] != BLANK
    requires more == [] || (more[0] == SEPARATOR && |more| > 1 && more[1] != SEPARATOR)
    ensures var r := ToMaster(np, Some(Msg(0, word + more)));
            r.Some? ==> MasterSplit(r.value.payload, SEPARATOR)[0] == word
  {
    hide MasterSplit, MasterDecode, Line;
    var line := Line(0, word + more);
    if MasterDecode(np, line).Returned? {
      RejoinedPayloadSplits(np, line);
      WordComesSecond(word, more);
    }
  }

  lemma WordComesSecond(word: seq<byte>, more: seq<byte>)
    requires word != [] && SEPARATOR !in word && word[0] != BLANK
    requires more == [] || (more[0] == SEPARATOR && |more| > 1 && more[1] != SEPARATOR)
    ensures var parts := MasterSplit(Line(0, word + more), SEPARATOR);
            |parts| > 1 && parts[1] == word
  {
    hide Decimal, Hex4, Checksum, Parts, Escaped;
    var hex := Hex4(Checksum(Head(0, word + more)));
    Hex4RoundTrip(Checksum(Head(0, word + more)));
    assert hex[0] in hex;
    var behind := if more == [] then hex else more[1..] + [SEPARATOR] + hex;
    DecimalHasNoSeparator(0);
    EscapedPlain(Decimal(0), SEPARATOR);
    EscapedPlain(word, SEPARATOR);
    FirstOfJoin(word, behind, SEPARATOR);
    FirstOfJoin(Decimal(0), word + [SEPARATOR] + behind, SEPARATOR);
    LineShape(word, more, hex);
    SecondPart(Line(0, word + more), word, [Decimal(0)] + ([word] + Parts(behind, SEPARATOR, [])));
  }

  lemma LineShape(word: seq<byte>, more: seq<byte>, hex: seq<byte>)
    requires hex == Hex4(Checksum(Head(0, word + more))) && (more == [] || more[0] == SEPARATOR)
    ensures Line(0, word + more) == Decimal(0) + [SEPARATOR] +
            (word + [SEPARATOR] + if more == [] then hex else more[1..] + [SEPARATOR] + hex)
  {
    hide Decimal, Hex4, Checksum;
    if more != [] {
      assert more == [SEPARATOR] + more[1..];
    }
  }

  lemma SecondPart(line: seq<byte>, word: seq<byte>, ps: seq<seq<byte>>)
    requires Parts(line, SEPARATOR, []) == ps && |ps| > 1 && ps[1] == word && word != [] && word[0] != BLANK
    ensures MasterSplit(line, SEPARATOR)[1] == word
  {}

  // ------------------------------------------------------------ what was sent in a step

  ghost predicate Silent(log: seq<Entry>, from: nat) {
    forall i | from <= i < |log| :: !log[i].event.Sent?
  }

  lemma {:induction false} SilentHasNone(log: seq<Entry>, from: nat)
    requires from <= |log| && Silent(log, from)
    ensures SentSince(log, from) == None
    decreases |log| - from
  {
    if from < |log| {
      SilentHasNone(log, from + 1);
    }
  }

  lemma {:induction false} SentBehindSilence(log: seq<Entry>, from: nat, e: Entry)
    requires from <= |log| && Silent(log, from) && e.event.Sent?
    ensures SentSince(log + [e], from) == Some(e.event.msg)
    decreases |log| - from
  {
    if from < |log| {
      SentBehindSilence(log, from + 1, e);
    }
  }

  lemma {:induction false} SentStaysFirst(log: seq<Entry>, from: nat, e: Entry)
    requires from <= |log| && SentSince(log, from).Some?
    ensures SentSince(log + [e], from) == SentSince(log, from)
    decreases |log| - from
  {
    if !log[from].event.Sent? {
      SentStaysFirst(log, from + 1, e);
    }
  }

  /** A message put behind silence is what was sent, if it could be sent at all. */
  lemma PutIsSent(dev: Device, s: Slave, parts: seq<seq<byte>>, put: Status, from: nat)
    requires ValidSize(dev.size) && from <= |s.log| && Silent(s.log, from)
    ensures var p := Put(dev, s, parts, put);
            && from <= |p.1.log|
            && SentSince(p.1.log, from) == (if p.0 == OK then Some(Msg(0, Join(parts, SEPARATOR))) else None)
            && (p.0 != OK ==> Silent(p.1.log, from)) && p.1 == s.(log := p.1.log)
  {
    hide SendStatus;
    var e := Entry(Sent(Msg(0, Join(parts, SEPARATOR))), s.connected, s.encrypted, s.timeout);
    SentBehindSilence(s.log, from, e);
    SilentHasNone(s.log, from);
    SilentHasNone(s.log + [Entry(SendFailed, s.connected, s.encrypted, s.timeout)], from);
  }

  /** A refusal, if it gets through, is read as one. */
  lemma DisagreementIsRead(np: NumberParser, code: nat, texts: seq<seq<byte>>, count: nat)
    ensures HandshakeParts(ToMaster(np, Some(Msg(0, Join([DISAGREEMENT, Decimal(code)] + texts, SEPARATOR)))), count).Failing?
  {
    hide MasterSplit, ToMaster, Escaped;
    var ps := [DISAGREEMENT, Decimal(code)] + texts;
    var rs := Blanked(ps);
    JoinStarts(rs[1..], SEPARATOR);
    EscapedPlain(DISAGREEMENT, SEPARATOR);
    DecimalIsRead(code);
    assert IsDigit(Decimal(code)[0]);
    var more := [SEPARATOR] + JoinRaw(rs[1..], SEPARATOR);
    assert Join(ps, SEPARATOR) == DISAGREEMENT + more;
    MasterReadsFirst(np, DISAGREEMENT, more);
  }

  // ------------------------------------------------------------ the first exchange

  lemma SignedIsPlain(n: int)
    ensures var s := Signed(n); !IsSpace(s[0]) && !IsSpace(s[|s| - 1]) && s[0] != SEPARATOR
  {
    var d := Decimal(if n < 0 then -n else n);
    DecimalIsRead(if n < 0 then -n else n);
    assert IsDigit(d[0]) && IsDigit(d[|d| - 1]);
  }

  /** The slave reads the master's greeting as it was meant. */
  lemma HelloIsRead(m: Master)
    requires -0x8000_0000 <= m.flags <= 0x7FFF_FFFF
    ensures SplitUpTo(Hello(m).payload, SEPARATOR, MAX_MESSAGE_PARTS, true) == Some([HANDSHAKE, VERSION, Signed(m.flags), []])
    ensures StrToInt32(Signed(m.flags)) == Some(m.flags)
  {
    hide MasterJoin, JoinRaw, SplitResult, Tokens, Signed, RawOf;
    var ps := [HANDSHAKE, VERSION, Signed(m.flags), []];
    SignedIsPlain(m.flags);
    NumberOfSigned(m.flags);
    MasterPartsAreRead(ps);
  }

  lemma MasterPartsAreRead(ps: seq<seq<byte>>)
    requires ps != [] && MasterSeparable(ps, SEPARATOR) && AllTrimmed(ps)
    ensures SplitResult(MasterJoin(ps, SEPARATOR), SEPARATOR, true) == ps
  {
    hide MasterJoin, JoinRaw, SplitResult, Tokens, RawOf;
    MasterJoinIsJoin(ps, SEPARATOR);
    RawsSeparableIff(ps, SEPARATOR);
    forall i | 0 <= i < |ps|
      ensures RawOf(ps[i], MasterRaws(ps)[i])
    {
      MasterRawIsRaw(ps[i]);
    }
    TrimmingSplitOfRawsIff(ps, MasterRaws(ps), SEPARATOR);
    SplitResultOfRaws(MasterRaws(ps), SEPARATOR, true);
  }

  lemma NothingOffered()
    ensures SplitUpTo([], COMMA, MAX_ENCRYPTIONS, true) == Some([[]])
  {
    assert Scan([], COMMA, true, []) == [[]];
    assert RightTrimAll([[]]) == [[]];
  }

  /** The flags in the reply are the device's, whatever the texts around them: a text that starts
      with the separator runs into the part before it, but then there are too few parts, or the
      flags are followed by a byte that is no digit. */
  lemma ReplyFlagsAreRead(m: Master, dev: Device, env: Env)
    requires dev.flags < 0x1_0000
    ensures var r := OnReply(m, ToMaster(m.np, Some(Msg(0, Join(ReplyParts(dev, false, env), SEPARATOR)))));
            r.Sends? ==> r.deviceFlags == dev.flags
  {
    hide MasterSplit, MasterJoin, MasterDecode, Decimal, JoinRaw, Line, Stoi;
    var line := Line(0, Join(ReplyParts(dev, false, env), SEPARATOR));
    if MasterDecode(m.np, line).Returned? {
      RejoinedPayloadSplits(m.np, line);
      if |MasterSplit(line, SEPARATOR)| == 8 {
        FlagsBehindChannel(dev, env);
      }
    }
  }

  lemma FlagsBehindChannel(dev: Device, env: Env)
    requires dev.flags < 0x1_0000
    requires |MasterSplit(Line(0, Join(ReplyParts(dev, false, env), SEPARATOR)), SEPARATOR)| == 8
    ensures Stoi(MasterSplit(Line(0, Join(ReplyParts(dev, false, env), SEPARATOR)), SEPARATOR)[5]) == Some(dev.flags)
  {
    hide Decimal, Hex4, Checksum, JoinRaw, Parts, Stoi;
    var ps := ReplyParts(dev, false, env);
    var rs := Blanked(ps);
    var hex := Hex4(Checksum(Head(0, Join(ps, SEPARATOR))));
    Hex4RoundTrip(Checksum(Head(0, Join(ps, SEPARATOR))));
    LineIsJoin(rs, 0, hex);
    var front, back := [Decimal(0), rs[0], rs[1], rs[2]], [rs[5], hex];
    assert [Decimal(0)] + rs + [hex] == front + [[BLANK]] + ([Decimal(dev.flags)] + back);
    var flags := FlagsOfRaws(front, dev.flags, back, Line(0, Join(ps, SEPARATOR)));
    DecimalHasDigitFirst(dev.flags);
    StoiOfDecimal(dev.flags, flags);
  }

  /** Of five raw parts, a blank, a number and two more parts the tokenizer makes eight parts only
      if the number starts the sixth. */
  lemma FlagsOfRaws(front: seq<seq<byte>>, n: nat, back: seq<seq<byte>>, line: seq<byte>) returns (behind: seq<byte>)
    requires |front| == 4 && |back| == 2
    requires line == JoinRaw(front + [[BLANK]] + ([Decimal(n)] + back), SEPARATOR) && |Parts(line, SEPARATOR, [])| == 8
    ensures Parts(line, SEPARATOR, [])[5] == Decimal(n) + behind && (behind == [] || behind[0] == SEPARATOR)
  {
    hide Decimal, JoinRaw, Parts, Escaped;
    var x, z := JoinRaw(front + [[BLANK]], SEPARATOR), JoinRaw([Decimal(n)] + back, SEPARATOR);
    JoinOfTwo(front + [[BLANK]], [Decimal(n)] + back, SEPARATOR);
    JoinSnoc(front, [BLANK], SEPARATOR);
    EscapedPlain([BLANK], SEPARATOR);
    JoinStarts([Decimal(n)] + back, SEPARATOR);
    DecimalHasDigitFirst(n);
    PartsOfTwo(x, z, SEPARATOR, []);
    PartsOfJoinAtMost(front + [[BLANK]], SEPARATOR, []);
    PartsOfJoinAtMost([Decimal(n)] + back, SEPARATOR, []);
    DecimalHasNoSeparator(n);
    behind := PlainStartsPart(Decimal(n), back);
  }

  /** A first part without separators is at the front of what the tokenizer finds first, and is all
      of it exactly when the next part does not start with the separator. */
  lemma PlainStartsPart(d: seq<byte>, back: seq<seq<byte>>) returns (behind: seq<byte>)
    requires SEPARATOR !in d && back != []
    ensures Parts(JoinRaw([d] + back, SEPARATOR), SEPARATOR, [])[0] == d + behind
    ensures behind == [] || behind[0] == SEPARATOR
    ensures var w := JoinRaw(back, SEPARATOR); behind == [] <==> w == [] || w[0] != SEPARATOR
  {
    hide JoinRaw, Parts, Escaped;
    var w := JoinRaw(back, SEPARATOR);
    JoinOfTwo([d], back, SEPARATOR);
    SingleJoin(d);
    assert d + [SEPARATOR] + w == d + ([SEPARATOR] + w);
    PlainRunsThrough(d, [SEPARATOR] + w, []);
    assert [] + d == d;
    PartsAtSeparator(w, SEPARATOR, d);
    behind := [];
    if w != [] && w[0] == SEPARATOR {
      PartsKeepCurrent(w[1..], SEPARATOR, d + [SEPARATOR]);
      var p := Parts(w[1..], SEPARATOR, d + [SEPARATOR])[0];
      assert p == d + p[|d|..] && p[|d|] == p[..|d| + 1][|d|];
      behind := p[|d|..];
    }
  }

  lemma SingleJoin(d: seq<byte>)
    requires SEPARATOR !in d
    ensures JoinRaw([d], SEPARATOR) == d
  {
    EscapedPlain(d, SEPARATOR);
  }

  predicate StartsPlain(text: seq<byte>) { text == [] || text[0] != SEPARATOR }

  ghost predicate Suited(m: Master, dev: Device) {
    && ValidSize(dev.size) && dev.flags < 0x1_0000
    && -0x8000_0000 <= m.flags <= 0x7FFF_FFFF && ReadsDigits(m.np)
  }

  ghost predicate Settles(m: Master, dev: Device, t: Slave, r: MasterStep) {
    && t.phase.AwaitSelect? && r.Sends? && r.deviceFlags == dev.flags
    && (!t.encrypted ==> !EncryptionRequired(m.flags) && !EncryptionRequired(dev.flags))
    && r.msg == Msg(0, MasterJoin([BASIC, [], m.name], SEPARATOR))
  }

  lemma RefusalStops(m: Master, dev: Device, s: Slave, code: Status, texts: seq<seq<byte>>, put: Status, from: nat)
    requires ValidSize(dev.size) && from <= |s.log| && Silent(s.log, from)
    ensures var t := Disagree(dev, s, code, texts, put);
            from <= |t.log| && !OnReply(m, ToMaster(m.np, SentSince(t.log, from))).Sends?
            && OnConfirmation(ToMaster(m.np, SentSince(t.log, from))).Throws?
  {
    hide Put, ToMaster, SentSince, MasterSplit;
    PutIsSent(dev, s, [DISAGREEMENT, Decimal(Code(code))] + texts, put, from);
    DisagreementIsRead(m.np, Code(code), texts, 6);
    DisagreementIsRead(m.np, Code(code), texts, 1);
    NoAnswerStops(m);
  }

  /** A reply that makes the master go on: the master knows the device's flags, and if encryption
      is off, nobody requires it. */
  lemma ReplySettles(m: Master, dev: Device, s: Slave, env: Env, from: nat)
    requires Suited(m, dev)
    requires s.flags == m.flags && s.offered == [[]] && !s.encrypted && from <= |s.log| && Silent(s.log, from)
    ensures var t := Reply(dev, s, env);
            && from <= |t.log|
            && var r := OnReply(m, ToMaster(m.np, SentSince(t.log, from)));
               r.Sends? ==> Settles(m, dev, t, r)
  {
    hide Bit, Put, ToMaster, MasterSplit, MasterJoin, SentSince, Disagree, OnReply;
    SilentHasNone(s.log, from);
    NoAnswerStops(m);
    match Negotiate(s.flags, dev, s.offered)
    case Refused(code, texts) => RefusalStops(m, dev, s, code, texts, env.put, from);
    case Agreed(encrypted) =>
      NegotiationSound(s.flags, dev, s.offered);
      assert encrypted ==> dev.cipher == [];
      assert ReplyParts(dev, encrypted, env) == ReplyParts(dev, false, env);
      PutIsSent(dev, s, ReplyParts(dev, false, env), env.put, from);
      ReplyFlagsAreRead(m, dev, env);
      SelectMessage(m, ToMaster(m.np, SentSince(Reply(dev, s, env).log, from)));
  }

  lemma SelectMessage(m: Master, received: Option<Msg>)
    ensures OnReply(m, received).Sends? ==> OnReply(m, received).msg == Msg(0, MasterJoin([BASIC, [], m.name], SEPARATOR))
  {}

  lemma DecimalHasDigitFirst(n: nat)
    ensures IsDigit(Decimal(n)[0])
  {
    DecimalIsRead(n);
  }

  lemma FirstExchange(m: Master, dev: Device, s0: Slave, env: Env)
    requires Suited(m, dev) && Initial(s0)
    ensures var s1 := Step(dev, s0, ToSlave(dev, s0, Hello(m), env));
            var r := OnReply(m, ToMaster(m.np, Since(s0, s1)));
            r.Sends? ==> Settles(m, dev, s1, r)
  {
    hide OnReply, ToMaster, Reply, SplitUpTo, StrToInt32, Sendable, Settles;
    var start := Log(s0.(connected := false), Callback(START_HANDSHAKE));
    HelloIsRead(m);
    NothingOffered();
    ReplySettles(m, dev, start.(flags := m.flags, offered := [[]]), env, 0);
    NoAnswerStops(m);
  }

  lemma NoAnswerStops(m: Master)
    ensures !OnReply(m, ToMaster(m.np, None)).Sends?
    ensures forall flags: int :: OnName(m, ToMaster(m.np, None), flags).Throws?
    ensures OnConfirmation(ToMaster(m.np, None)).Throws?
  {}

  // ------------------------------------------------------------ the second exchange

  /** The slave finds the first word of a master's message, whatever comes behind it. */
  lemma SlaveReadsFirst(word: seq<byte>, more: seq<byte>, trim: bool)
    requires word != [] && SEPARATOR !in word && !IsSpace(word[0]) && !IsSpace(word[|word| - 1])
    requires |more| > 1 && more[0] == SEPARATOR && more[1] != SEPARATOR
    ensures SplitResult(word + more, SEPARATOR, trim)[0] == word
  {
    hide Scan, LoopTokens;
    EscapedPlain(word, SEPARATOR);
    FirstOfJoin(word, more[1..], SEPARATOR);
    assert word + more == word + [SEPARATOR] + more[1..];
    LoopTokensAreTokens(word + more, SEPARATOR, trim);
    WordIsToken([word] + Parts(more[1..], SEPARATOR, []), word + more, trim);
  }

  lemma WordIsToken(ps: seq<seq<byte>>, s: seq<byte>, trim: bool)
    requires Parts(s, SEPARATOR, []) == ps && |ps| > 1 && ps[0] != []
    requires !IsSpace(ps[0][0]) && !IsSpace(ps[0][|ps[0]| - 1])
    ensures Tokens(s, SEPARATOR, trim)[0] == ps[0]
  {
    if trim {
      TokensByPart(s, SEPARATOR, 0);
      TrimPartFixed(ps[0]);
    }
  }

  lemma TrimPartFixed(p: seq<byte>)
    requires p != [] && !IsSpace(p[0]) && !IsSpace(p[|p| - 1])
    ensures TrimPart(p, false) == p
  {}

  lemma SelectIsRead(m: Master)
    ensures SplitResult(MasterJoin([BASIC, [], m.name], SEPARATOR), SEPARATOR, true)[0] == BASIC
  {
    hide Escaped, SplitResult, MasterJoin;
    var rs := MasterRaws([BASIC, [], m.name]);
    MasterJoinIsJoin([BASIC, [], m.name], SEPARATOR);
    EscapedPlain(BASIC, SEPARATOR);
    EscapedPlain([BLANK, BLANK], SEPARATOR);
    var more := [SEPARATOR] + JoinRaw(rs[1..], SEPARATOR);
    JoinStarts(rs[1..], SEPARATOR);
    assert JoinRaw(rs, SEPARATOR) == BASIC + more;
    SlaveReadsFirst(BASIC, more, true);
  }

  /** The slave as the second exchange leaves it when the master goes on. */
  ghost predicate Chosen(dev: Device, t: Slave) {
    && t.handler == Basic && !t.encrypted
    && if AuthenticationRequired(dev.flags) then t.phase.AwaitAuth? else t.phase.Looping? && t.connected
  }

  lemma NameIsSent(m: Master, dev: Device, s: Slave, env: Env, from: nat)
    requires ValidSize(dev.size) && s.phase.AwaitSelect? && !s.encrypted && from <= |s.log| && Silent(s.log, from)
    ensures var t := Named(dev, s.(handler := Basic), env);
            && from <= |t.log|
            && (OnName(m, ToMaster(m.np, SentSince(t.log, from)), dev.flags).Throws? || Chosen(dev, t))
  {
    hide Put, ToMaster, SentSince, OnName, Bit;
    var h := s.(handler := Basic);
    PutIsSent(dev, h, [AGREEMENT, env.name.text], env.put, from);
    NoAnswerStops(m);
  }

  lemma SelectionAnswered(m: Master, dev: Device, s: Slave, env: Env, from: nat)
    requires ValidSize(dev.size) && s.phase.AwaitSelect? && !s.encrypted && from <= |s.log| && Silent(s.log, from)
    ensures var t := Selected(dev, s, BASIC, env);
            && from <= |t.log|
            && (OnName(m, ToMaster(m.np, SentSince(t.log, from)), dev.flags).Throws? || Chosen(dev, t))
  {
    hide Named, ToMaster, SentSince, OnName, Chosen;
    SilentHasNone(s.log, from);
    NoAnswerStops(m);
    NameIsSent(m, dev, s, env, from);
  }

  lemma SecondExchange(m: Master, dev: Device, s1: Slave, env: Env)
    requires ValidSize(dev.size) && s1.phase.AwaitSelect? && !s1.encrypted
    ensures var msg := Msg(0, MasterJoin([BASIC, [], m.name], SEPARATOR));
            var s2 := Step(dev, s1, ToSlave(dev, s1, msg, env));
            OnName(m, ToMaster(m.np, Since(s1, s2)), dev.flags).Throws? || Chosen(dev, s2)
  {
    hide OnName, ToMaster, Selected, MasterJoin, SplitResult, Chosen, Sendable, SentSince;
    var msg := Msg(0, MasterJoin([BASIC, [], m.name], SEPARATOR));
    var s := Log(s1, Heard(msg));
    SilentHasNone(s1.log, |s1.log|);
    SilentHasNone(s.log, |s1.log|);
    NoAnswerStops(m);
    SelectIsRead(m);
    SelectionAnswered(m, dev, s, env, |s1.log|);
  }

  // ------------------------------------------------------------ the third exchange

  /** The parts the slave finds in the master's credentials: it does not trim this message. */
  function CredentialParts(user: seq<byte>, password: seq<byte>): seq<seq<byte>> {
    SplitResult(MasterJoin([AUTH, user, password], SEPARATOR), SEPARATOR, false)
  }

  /** What the master's join does not change. */
  predicate Unchanged(text: seq<byte>) { text != [] && text[0] != BLANK && text[0] != SEPARATOR }

  /** How the credentials arrive: a leading blank comes twice and an empty text as two blanks, so
      the device gets the very texts exactly when they are neither empty nor start with a blank or
      the separator. */
  lemma CredentialsArriveIff(user: seq<byte>, password: seq<byte>)
    ensures var parts := CredentialParts(user, password);
            && (parts == [AUTH, MasterRaw(user), MasterRaw(password)] <==> StartsPlain(user) && StartsPlain(password))
            && (parts == [AUTH, user, password] <==> Unchanged(user) && Unchanged(password))
            && |parts| <= 3
  {
    hide MasterRaw, MasterJoin, SplitResult;
    var ps := [AUTH, user, password];
    UntrimmedSplitOfMasterJoinIff(ps, SEPARATOR);
    assert MasterRaw(AUTH) == AUTH by { AuthIsRaw(); }
    assert MasterRaws(ps) == [AUTH, MasterRaw(user), MasterRaw(password)];
    assert MasterSeparable(ps, SEPARATOR) <==> StartsPlain(ps[1]) && StartsPlain(ps[2]);
    assert Unmarked(ps) <==> ps[1] != [] && ps[1][0] != BLANK && ps[2] != [] && ps[2][0] != BLANK;
  }

  lemma AuthIsRaw()
    ensures MasterRaw(AUTH) == AUTH
  {}

  /** User name and password were taken from these parts, at entry a. */
  ghost predicate TookAt(log: seq<Entry>, parts: seq<seq<byte>>, a: nat) {
    AuthenticatedAt(log, a) && log[a].event.part == PartAt(parts, 1) && log[a + 1].event.part == PartAt(parts, 2)
  }

  ghost predicate Took(log: seq<Entry>, parts: seq<seq<byte>>) { exists a: nat :: TookAt(log, parts, a) }

  lemma TookStays(log: seq<Entry>, parts: seq<seq<byte>>, e: Entry)
    requires Took(log, parts)
    ensures Took(log + [e], parts)
  {
    var a: nat :| TookAt(log, parts, a);
    assert TookAt(log + [e], parts, a);
  }

  lemma PutKeepsTook(dev: Device, s: Slave, texts: seq<seq<byte>>, put: Status, parts: seq<seq<byte>>)
    requires ValidSize(dev.size) && Took(s.log, parts)
    ensures Took(Put(dev, s, texts, put).1.log, parts)
  {
    hide SendStatus, Took;
    TookStays(s.log, parts, Entry(Sent(Msg(0, Join(texts, SEPARATOR))), s.connected, s.encrypted, s.timeout));
    TookStays(s.log, parts, Entry(SendFailed, s.connected, s.encrypted, s.timeout));
  }

  lemma AgreedOrStopped(dev: Device, s: Slave, parts: seq<seq<byte>>, env: Env, m: Master, from: nat)
    requires ValidSize(dev.size) && s.handler == Basic && !s.encrypted && from <= |s.log| && Silent(s.log, from)
    requires Took(s.log, parts)
    ensures var p := Put(dev, s, [AGREEMENT], env.put);
            var t := if p.0 != OK then Fail(p.1, p.0) else Connect(p.1);
            && from <= |t.log|
            && (OnConfirmation(ToMaster(m.np, SentSince(t.log, from))).Throws? || (Admits(t) && Took(t.log, parts)))
  {
    hide Put, ToMaster, SentSince, OnConfirmation, Took;
    PutIsSent(dev, s, [AGREEMENT], env.put, from);
    PutKeepsTook(dev, s, [AGREEMENT], env.put, parts);
    var q := Put(dev, s, [AGREEMENT], env.put).1;
    TookStays(q.log, parts, Entry(Callback(CONNECTED), true, q.encrypted, q.timeout));
    NoAnswerStops(m);
  }

  ghost predicate Admits(t: Slave) { t.handler == Basic && !t.encrypted && t.phase.Looping? && t.connected }

  lemma CredentialsAnswered(m: Master, dev: Device, s: Slave, parts: seq<seq<byte>>, env: Env, from: nat)
    requires ValidSize(dev.size) && s.handler == Basic && !s.encrypted && from <= |s.log| && Silent(s.log, from)
    ensures var t := OnCredentials(dev, s, parts, env);
            && from <= |t.log|
            && (OnConfirmation(ToMaster(m.np, SentSince(t.log, from))).Throws? ||
                (Admits(t) && Took(t.log, parts) && Accepted(env, parts)))
  {
    hide Put, Disagree, Connect, ToMaster, SentSince, OnConfirmation, OnReply, Admits, Took;
    var user, password := PartAt(parts, 1), PartAt(parts, 2);
    var named := Log(s, Username(user, env.username(user)));
    var known := Log(named, Password(password, env.password(password)));
    RefusalStops(m, dev, named, AUTHENTICATION_FAILED, [AUTH_FAILED_TEXT], env.put, from);
    RefusalStops(m, dev, known, AUTHENTICATION_FAILED, [AUTH_FAILED_TEXT], env.put, from);
    if Accepted(env, parts) {
      LoggedIsTook(s, parts, env);
      AgreedOrStopped(dev, known, parts, env, m, from);
    }
  }

  /** The device's functions accept what is in the parts. */
  predicate Accepted(env: Env, parts: seq<seq<byte>>) {
    env.username(PartAt(parts, 1)) == OK && env.password(PartAt(parts, 2)) == OK
  }

  lemma LoggedIsTook(s: Slave, parts: seq<seq<byte>>, env: Env)
    requires Accepted(env, parts)
    ensures Took(Log(Log(s, Username(PartAt(parts, 1), OK)), Password(PartAt(parts, 2), OK)).log, parts)
  {
    assert TookAt(Log(Log(s, Username(PartAt(parts, 1), OK)), Password(PartAt(parts, 2), OK)).log, parts, |s.log|);
  }

  lemma ThirdExchange(m: Master, dev: Device, s2: Slave, msg: Msg, env: Env)
    requires ValidSize(dev.size) && s2.phase.AwaitAuth? && s2.handler == Basic && !s2.encrypted
    ensures var s3 := Step(dev, s2, ToSlave(dev, s2, msg, env));
            var parts := SplitResult(msg.payload, SEPARATOR, false);
            OnConfirmation(ToMaster(m.np, Since(s2, s3))).Throws? ||
            (Sendable(msg, dev.size) && parts[0] == AUTH && Admits(s3) && Took(s3.log, parts) && Accepted(env, parts))
  {
    hide ToMaster, SentSince, OnConfirmation, OnReply, OnCredentials, Disagree, SplitResult, Sendable, Admits, Took, Accepted;
    var s := Log(s2, Heard(msg)).(timeout := s2.savedTimeout);
    SilentHasNone(s2.log, |s2.log|);
    SilentHasNone(s.log, |s2.log|);
    NoAnswerStops(m);
    RefusalStops(m, dev, s, AUTHENTICATION_EXPECTED, [], env.put, |s2.log|);
    CredentialsAnswered(m, dev, s, SplitResult(msg.payload, SEPARATOR, false), env, |s2.log|);
  }

  // ------------------------------------------------------------ the whole handshake

  /** What a successful handshake has brought about: the slave is in its message loop with the
      basic handler, connected, encryption off, and user name and password taken exactly if the
      device's flag asks for them, from the parts that the master's credentials arrive as. */
  ghost predicate HandsShaken(m: Master, dev: Device, timeout: nat, t: Slave) {
    && t.phase.Looping? && t.connected && t.handler == Basic && !t.encrypted && t.timeout == timeout
    && !EncryptionRequired(m.flags) && !EncryptionRequired(dev.flags)
    && if AuthenticationRequired(dev.flags)
       then Credentials(m).Some? && Took(t.log, CredentialParts(Credentials(m).value.0, Credentials(m).value.1))
       else NoCredentials(t.log)
  }

  /** If the master's handshake returns the protocol, both sides agree on all of that. */
  lemma HandshakeAgrees(m: Master, dev: Device, s0: Slave, e1: Env, e2: Env, e3: Env)
    requires Suited(m, dev) && Initial(s0)
    ensures var c := Converse(m, dev, s0, e1, e2, e3);
            c.0.ReturnsProtocol? ==> HandsShaken(m, dev, s0.timeout, c.1)
  {
    hide OnReply, OnName, OnConfirmation, Step, ToMaster, ToSlave, Since, Good, Settles, Hello, HandsShaken;
    var s1 := Step(dev, s0, ToSlave(dev, s0, Hello(m), e1));
    FirstExchange(m, dev, s0, e1);
    var reply := OnReply(m, ToMaster(m.np, Since(s0, s1)));
    ReplyReturnsNothing(m, ToMaster(m.np, Since(s0, s1)));
    SettlesMeans(m, dev, s1, reply);
    InitialGood(dev, s0);
    StepGood(dev, s0, ToSlave(dev, s0, Hello(m), e1), s0.timeout);
    if reply.Sends? {
      SecondAgrees(m, dev, s1, s0.timeout, e2, e3);
    }
  }

  /** From the second exchange on. */
  lemma SecondAgrees(m: Master, dev: Device, s1: Slave, timeout: nat, e2: Env, e3: Env)
    requires ValidSize(dev.size) && s1.phase.AwaitSelect? && Good(dev, timeout, s1)
    requires !s1.encrypted ==> !EncryptionRequired(m.flags) && !EncryptionRequired(dev.flags)
    ensures var s2 := Step(dev, s1, ToSlave(dev, s1, Msg(0, MasterJoin([BASIC, [], m.name], SEPARATOR)), e2));
            var name := OnName(m, ToMaster(m.np, Since(s1, s2)), dev.flags);
            if name.Sends? then
              var s3 := Step(dev, s2, ToSlave(dev, s2, name.msg, e3));
              OnConfirmation(ToMaster(m.np, Since(s2, s3))).ReturnsProtocol? ==> HandsShaken(m, dev, timeout, s3)
            else name.ReturnsProtocol? ==> HandsShaken(m, dev, timeout, s2)
  {
    hide OnName, OnConfirmation, Step, ToMaster, ToSlave, Since, Good, MasterJoin, Credentials, Took, SplitResult;
    var msg := Msg(0, MasterJoin([BASIC, [], m.name], SEPARATOR));
    if s1.encrypted {
      PlainTextIsLost(m, dev, s1, msg, e2);
      return;
    }
    SecondExchange(m, dev, s1, e2);
    var s2 := Step(dev, s1, ToSlave(dev, s1, msg, e2));
    StepGood(dev, s1, ToSlave(dev, s1, msg, e2), timeout);
    var name := OnName(m, ToMaster(m.np, Since(s1, s2)), dev.flags);
    NameMeans(m, ToMaster(m.np, Since(s1, s2)), dev.flags);
    if name.Sends? {
      var s3 := Step(dev, s2, ToSlave(dev, s2, name.msg, e3));
      ThirdExchange(m, dev, s2, name.msg, e3);
      StepGood(dev, s2, ToSlave(dev, s2, name.msg, e3), timeout);
      if s3.phase.Looping? {
        GoodInLoop(dev, s3, timeout);
      }
    } else if name.ReturnsProtocol? {
      GoodInLoop(dev, s2, timeout);
    }
  }

  /** A slave that encrypts hears nothing of the master's plain message. */
  lemma PlainTextIsLost(m: Master, dev: Device, s1: Slave, msg: Msg, env: Env)
    requires ValidSize(dev.size) && s1.phase.AwaitSelect? && s1.encrypted
    ensures var s2 := Step(dev, s1, ToSlave(dev, s1, msg, env));
            OnName(m, ToMaster(m.np, Since(s1, s2)), dev.flags).Throws?
  {
    hide OnName, ToMaster, Sendable;
    SilentHasNone(s1.log, |s1.log|);
    NoAnswerStops(m);
  }

  lemma ReplyReturnsNothing(m: Master, received: Option<Msg>)
    ensures !OnReply(m, received).ReturnsProtocol?
  {}

  lemma NameMeans(m: Master, received: Option<Msg>, flags: int)
    ensures OnName(m, received, flags).ReturnsProtocol? ==> !AuthenticationRequired(flags)
    ensures OnName(m, received, flags).Sends? ==>
              && AuthenticationRequired(flags) && Credentials(m).Some?
              && OnName(m, received, flags).msg == Msg(0, MasterJoin([AUTH, Credentials(m).value.0, Credentials(m).value.1], SEPARATOR))
  {}

  lemma SettlesMeans(m: Master, dev: Device, t: Slave, r: MasterStep)
    ensures Settles(m, dev, t, r) ==> && t.phase.AwaitSelect? && r.Sends? && r.deviceFlags == dev.flags
                                      && (!t.encrypted ==> !EncryptionRequired(m.flags) && !EncryptionRequired(dev.flags))
                                      && r.msg == Msg(0, MasterJoin([BASIC, [], m.name], SEPARATOR))
  {}

  lemma GoodInLoop(dev: Device, t: Slave, timeout: nat)
    requires Good(dev, timeout, t) && t.phase.Looping?
    ensures t.timeout == timeout
    ensures !AuthenticationRequired(dev.flags) ==> NoCredentials(t.log)
  {
    hide Settled, Callbacks;
    var c: nat :| ConnectedFrom(t.log, c) && Checked(dev, t.log, c) && RepliedBefore(t.log, c);
  }

  /** Any flag that requires encryption keeps the handshake from succeeding. */
  lemma RequiredEncryptionPreventsSuccess(m: Master, dev: Device, s0: Slave, e1: Env, e2: Env, e3: Env)
    requires Suited(m, dev) && Initial(s0)
    requires EncryptionRequired(m.flags) || EncryptionRequired(dev.flags)
    ensures !Converse(m, dev, s0, e1, e2, e3).0.ReturnsProtocol?
  {
    hide Converse;
    HandshakeAgrees(m, dev, s0, e1, e2, e3);
  }

  /** Why the device needs the name of a method: with an empty one, the empty list the master
      offers is taken for an offer, and the slave encrypts what the master cannot read. */
  lemma EmptyMethodEncryptsIff(flags: int, dev: Device)
    requires !EncryptionRequired(flags)
    ensures Negotiate(flags, dev, [[]]) == Agreed(true) <==>
            && dev.cipher == []
            && if EncryptionRequired(dev.flags) then !EncryptionNotAllowed(flags) else !EncryptionNotAllowed(dev.flags)
  {
    var offered: seq<seq<byte>> := [[]];
    assert offered[0] == [];
  }

  // ------------------------------------------------------------ when it succeeds

  /** What a text must be to come out of both joins and splits as it went in. */
  predicate Transparent(text: seq<byte>) {
    text == [] || (text[0] != SEPARATOR && !IsSpace(text[0]) && !IsSpace(text[|text| - 1]))
  }

  /** The master gets the very parts the slave has sent. */
  lemma MasterReadsParts(np: NumberParser, ps: seq<seq<byte>>, size: nat)
    requires ValidSize(size) && size <= 256 && ReadsDigits(np) && ps != [] && SendStatus(0, ps, size) == OK
    requires forall i | 0 <= i < |ps| :: Transparent(ps[i])
    ensures var r := ToMaster(np, Some(Msg(0, Join(ps, SEPARATOR))));
            r.Some? && r.value.channel == 0 && MasterSplit(r.value.payload, SEPARATOR) == ps
  {
    hide MasterSplit, MasterDecode, JoinRaw, Blanked, Line, Head, EncodeStatus;
    SmallBufferSumsAgree(Msg(0, Join(ps, SEPARATOR)), size);
    assert NoLeadingSeparators(ps) by { TransparentParts(ps); }
    assert NoLeadingBlanks(ps) by { TransparentParts(ps); }
    SeparableToMaster(np, ps, 0);
  }

  lemma TransparentParts(ps: seq<seq<byte>>)
    requires forall i | 0 <= i < |ps| :: Transparent(ps[i])
    ensures NoLeadingSeparators(ps) && NoLeadingBlanks(ps) && AllTrimmed(ps) && MasterSeparable(ps, SEPARATOR)
  {
    forall i | 0 <= i < |ps|
      ensures ps[i] == [] || (ps[i][0] != SEPARATOR && ps[i][0] != BLANK)
      ensures NothingToTrim(ps[i], i == |ps| - 1)
    {
      assert Transparent(ps[i]);
    }
  }

  lemma DecimalIsTransparent(n: nat)
    ensures Transparent(Decimal(n))
  {
    SignedIsPlain(n);
  }

  /** Nobody requires encryption, the device answers, and everything fits. */
  ghost predicate Willing(m: Master, dev: Device, e1: Env, e2: Env) {
    && Suited(m, dev) && dev.size <= 256 && dev.cipher != []
    && !EncryptionRequired(m.flags) && !EncryptionRequired(dev.flags)
    && e1.put == OK && e1.encoding.status == OK && e1.protocols.status == OK
    && Transparent(e1.encoding.text) && Transparent(e1.protocols.text) && BASIC in MasterSplit(e1.protocols.text, COMMA)
    && m.newer(VERSION) == Some(false) && Transparent(m.name)
    && e2.put == OK && e2.masterName == OK && e2.languages == OK && e2.name.status == OK && Transparent(e2.name.text)
    && Sendable(Hello(m), dev.size) && SendStatus(0, ReplyParts(dev, false, e1), dev.size) == OK
    && Sendable(Msg(0, MasterJoin([BASIC, [], m.name], SEPARATOR)), dev.size)
    && SendStatus(0, [AGREEMENT, e2.name.text], dev.size) == OK
  }

  lemma FirstSucceeds(m: Master, dev: Device, s0: Slave, e1: Env, e2: Env)
    requires Willing(m, dev, e1, e2) && Initial(s0)
    ensures var s1 := Step(dev, s0, ToSlave(dev, s0, Hello(m), e1));
            && s1.phase.AwaitSelect? && !s1.encrypted
            && OnReply(m, ToMaster(m.np, Since(s0, s1))) == Sends(Msg(0, MasterJoin([BASIC, [], m.name], SEPARATOR)), dev.flags)
  {
    hide OnReply, ToMaster, SplitUpTo, StrToInt32, Sendable, SendStatus, MasterJoin, SentSince, Put, Bit, Transparent, MasterSplit;
    var start := Log(s0.(connected := false), Callback(START_HANDSHAKE)).(flags := m.flags, offered := [[]]);
    HelloIsRead(m);
    NothingOffered();
    PutIsSent(dev, start, ReplyParts(dev, false, e1), OK, 0);
    PutSucceedsIff(dev, start, ReplyParts(dev, false, e1), OK);
    ReplyIsTaken(m, dev, e1, e2);
  }

  lemma PutSucceedsIff(dev: Device, s: Slave, parts: seq<seq<byte>>, put: Status)
    requires ValidSize(dev.size) && SendStatus(0, parts, dev.size) == OK
    ensures Put(dev, s, parts, put).0 == put
  {}

  lemma ReplyIsTaken(m: Master, dev: Device, e1: Env, e2: Env)
    requires Willing(m, dev, e1, e2)
    ensures OnReply(m, ToMaster(m.np, Some(Msg(0, Join(ReplyParts(dev, false, e1), SEPARATOR))))) ==
            Sends(Msg(0, MasterJoin([BASIC, [], m.name], SEPARATOR)), dev.flags)
  {
    hide ToMaster, Sendable, SendStatus, MasterJoin, Bit, MasterSplit, Decimal, Stoi;
    var ps := ReplyParts(dev, false, e1);
    StoiOfDecimal(dev.flags, []);
    assert Decimal(dev.flags) + [] == Decimal(dev.flags);
    DecimalIsTransparent(dev.flags);
    assert Transparent(ps[0]) && Transparent(ps[1]) && Transparent(ps[2]) && Transparent(ps[3]) && Transparent(ps[4]) && Transparent(ps[5]);
    MasterReadsParts(m.np, ps, dev.size);
  }

  lemma SecondSucceeds(m: Master, dev: Device, s1: Slave, e1: Env, e2: Env)
    requires Willing(m, dev, e1, e2) && s1.phase.AwaitSelect? && !s1.encrypted
    ensures var s2 := Step(dev, s1, ToSlave(dev, s1, Msg(0, MasterJoin([BASIC, [], m.name], SEPARATOR)), e2));
            && Chosen(dev, s2)
            && Since(s1, s2) == Some(Msg(0, Join([AGREEMENT, e2.name.text], SEPARATOR)))
  {
    hide Sendable, SendStatus, MasterJoin, SentSince, Put, Bit, Transparent, MasterSplit, JoinRaw, SplitResult;
    var ps := [BASIC, [], m.name];
    assert Transparent(ps[0]) && Transparent(ps[1]) && Transparent(ps[2]) by { WordsAreTransparent(); }
    TransparentParts(ps);
    MasterPartsAreRead(ps);
    var msg := Msg(0, MasterJoin(ps, SEPARATOR));
    var s := Log(s1, Heard(msg)).(handler := Basic);
    PutIsSent(dev, s, [AGREEMENT, e2.name.text], OK, |s1.log|);
    PutSucceedsIff(dev, s, [AGREEMENT, e2.name.text], OK);
    var p := Put(dev, s, [AGREEMENT, e2.name.text], OK);
    SentStaysFirst(p.1.log, |s1.log|, Entry(Callback(CONNECTED), true, p.1.encrypted, p.1.timeout));
  }

  lemma WordsAreTransparent()
    ensures Transparent(BASIC) && Transparent([]) && Transparent(AGREEMENT)
  {}

  lemma NameIsTaken(m: Master, dev: Device, e1: Env, e2: Env)
    requires Willing(m, dev, e1, e2)
    ensures var r := OnName(m, ToMaster(m.np, Some(Msg(0, Join([AGREEMENT, e2.name.text], SEPARATOR)))), dev.flags);
            && (!AuthenticationRequired(dev.flags) ==> r.ReturnsProtocol?)
            && (AuthenticationRequired(dev.flags) && Credentials(m).None? ==> r == Throws(CancelledByUser, None))
            && (AuthenticationRequired(dev.flags) && Credentials(m).Some? ==>
                r == Sends(Msg(0, MasterJoin([AUTH, Credentials(m).value.0, Credentials(m).value.1], SEPARATOR)), dev.flags))
  {
    hide ToMaster, Sendable, SendStatus, MasterJoin, Bit, MasterSplit, Credentials;
    var ps := [AGREEMENT, e2.name.text];
    assert Transparent(ps[0]) && Transparent(ps[1]);
    MasterReadsParts(m.np, ps, dev.size);
  }

  /** A handshake that nothing speaks against succeeds. */
  lemma HandshakeSucceeds(m: Master, dev: Device, s0: Slave, e1: Env, e2: Env, e3: Env)
    requires Willing(m, dev, e1, e2) && Initial(s0) && !AuthenticationRequired(dev.flags)
    ensures Converse(m, dev, s0, e1, e2, e3).0.ReturnsProtocol?
  {
    hide OnReply, OnName, OnConfirmation, Step, ToMaster, ToSlave, Since, Willing, Hello, Chosen;
    SuitedParts(m, dev, e1, e2);
    FirstSucceeds(m, dev, s0, e1, e2);
    SecondSucceeds(m, dev, Step(dev, s0, ToSlave(dev, s0, Hello(m), e1)), e1, e2);
    NameIsTaken(m, dev, e1, e2);
  }

  /** One that asks for credentials succeeds exactly if the master has some that can be sent, the
      device accepts what arrives of them, and its answer goes out. */
  lemma AuthenticationSucceedsIff(m: Master, dev: Device, s0: Slave, e1: Env, e2: Env, e3: Env)
    requires Willing(m, dev, e1, e2) && Initial(s0) && AuthenticationRequired(dev.flags)
    ensures Converse(m, dev, s0, e1, e2, e3).0.ReturnsProtocol? <==>
            && Credentials(m).Some?
            && var (user, password) := Credentials(m).value;
               Sendable(Msg(0, MasterJoin([AUTH, user, password], SEPARATOR)), dev.size) && StartsPlain(user) &&
               Accepted(e3, CredentialParts(user, password)) && e3.put == OK
  {
    hide OnReply, OnName, OnConfirmation, Step, ToMaster, ToSlave, Since, Willing, Hello, MasterJoin, Sendable, Credentials,
         Accepted, CredentialParts;
    SuitedParts(m, dev, e1, e2);
    var s1 := Step(dev, s0, ToSlave(dev, s0, Hello(m), e1));
    FirstSucceeds(m, dev, s0, e1, e2);
    var select := Msg(0, MasterJoin([BASIC, [], m.name], SEPARATOR));
    SecondSucceeds(m, dev, s1, e1, e2);
    var s2 := Step(dev, s1, ToSlave(dev, s1, select, e2));
    NameIsTaken(m, dev, e1, e2);
    if Credentials(m).Some? {
      ThirdSucceedsIff(m, dev, s2, Credentials(m).value.0, Credentials(m).value.1, e3);
    }
  }

  lemma SuitedParts(m: Master, dev: Device, e1: Env, e2: Env)
    requires Willing(m, dev, e1, e2)
    ensures Suited(m, dev) && dev.size <= 256
  {}

  /** A user name that starts with the separator runs into the word before it. */
  lemma AuthIsReadIff(user: seq<byte>, password: seq<byte>)
    ensures CredentialParts(user, password)[0] == AUTH <==> StartsPlain(user)
  {
    hide Escaped, SplitResult, MasterJoin, JoinRaw, Parts;
    var ps := [AUTH, user, password];
    var rs := MasterRaws(ps);
    MasterJoinIsJoin(ps, SEPARATOR);
    SplitResultOfRaws(rs, SEPARATOR, false);
    assert rs == [AUTH] + rs[1..] && rs[1] == MasterRaw(user);
    JoinStarts(rs[1..], SEPARATOR);
    var behind := PlainStartsPart(AUTH, rs[1..]);
  }

  lemma ThirdSucceedsIff(m: Master, dev: Device, s2: Slave, user: seq<byte>, password: seq<byte>, e3: Env)
    requires Suited(m, dev) && dev.size <= 256 && s2.phase.AwaitAuth? && s2.handler == Basic && !s2.encrypted
    ensures var msg := Msg(0, MasterJoin([AUTH, user, password], SEPARATOR));
            var s3 := Step(dev, s2, ToSlave(dev, s2, msg, e3));
            OnConfirmation(ToMaster(m.np, Since(s2, s3))).ReturnsProtocol? <==>
            Sendable(msg, dev.size) && StartsPlain(user) && Accepted(e3, CredentialParts(user, password)) && e3.put == OK
  {
    hide Sendable, MasterJoin, SplitResult, ToMaster, OnConfirmation, Step, Since, ToSlave, Accepted, Admits, Took;
    var msg := Msg(0, MasterJoin([AUTH, user, password], SEPARATOR));
    AuthIsReadIff(user, password);
    ThirdExchange(m, dev, s2, msg, e3);
    CredentialsArriveIff(user, password);
    if Sendable(msg, dev.size) && StartsPlain(user) && Accepted(e3, CredentialParts(user, password)) {
      AgreementAnswers(m, dev, s2, msg, e3);
    }
  }

  lemma AgreementAnswers(m: Master, dev: Device, s2: Slave, msg: Msg, e3: Env)
    requires Suited(m, dev) && dev.size <= 256 && s2.phase.AwaitAuth? && !s2.encrypted && Sendable(msg, dev.size)
    requires var parts := SplitResult(msg.payload, SEPARATOR, false); |parts| <= 3 && parts[0] == AUTH && Accepted(e3, parts)
    ensures var s3 := Step(dev, s2, ToSlave(dev, s2, msg, e3));
            OnConfirmation(ToMaster(m.np, Since(s2, s3))).ReturnsProtocol? <==> e3.put == OK
  {
    hide Sendable, SendStatus, SentSince, Put, MasterSplit, JoinRaw, SplitResult, ToMaster, OnConfirmation;
    var parts := SplitResult(msg.payload, SEPARATOR, false);
    var s := Log(s2, Heard(msg)).(timeout := s2.savedTimeout);
    var known := Log(Log(s, Username(PartAt(parts, 1), OK)), Password(PartAt(parts, 2), OK));
    AgreementFits(dev.size);
    PutIsSent(dev, known, [AGREEMENT], e3.put, |s2.log|);
    PutSucceedsIff(dev, known, [AGREEMENT], e3.put);
    var p := Put(dev, known, [AGREEMENT], e3.put);
    if e3.put == OK {
      SentStaysFirst(p.1.log, |s2.log|, Entry(Callback(CONNECTED), true, p.1.encrypted, p.1.timeout));
      ConfirmationIsTaken(m, dev);
    } else {
      NoAnswerStops(m);
    }
  }

  lemma AgreementFits(size: nat)
    requires ValidSize(size)
    ensures SendStatus(0, [AGREEMENT], size) == OK
  {
    var ps := [AGREEMENT];
    assert Blanked(ps) == ps;
    SingleJoin(AGREEMENT);
    JoinFitsFrame(ps, 0, size);
  }

  lemma ConfirmationIsTaken(m: Master, dev: Device)
    requires Suited(m, dev) && dev.size <= 256
    ensures OnConfirmation(ToMaster(m.np, Some(Msg(0, Join([AGREEMENT], SEPARATOR))))).ReturnsProtocol?
  {
    hide ToMaster, SendStatus, MasterSplit;
    var ps := [AGREEMENT];
    AgreementFits(dev.size);
    assert Transparent(ps[0]);
    MasterReadsParts(m.np, ps, dev.size);
  }
}

/** What the master sends in a handshake and how it ends, for everything that can arrive: when it
    selects the protocol, what each refusal is, and when it returns the protocol. */
module MasterAnswers {
  import opened Constants
  import opened MasterHandshake
  import opened Numbers
  import opened Protocol
  import opened Strings
  import opened StringTools
  import opened Wire

  /** The parts of a message on the control channel. */
  function Parts(received: Option<Msg>): Option<seq<seq<byte>>> {
    if received.Some? && received.value.channel == 0 then Some(MasterSplit(received.value.payload, SEPARATOR)) else None
  }

  /** A device can always say goodbye, report an error or disagree. */
  predicate Goodbye(word: seq<byte>) { word == DISCONNECT || word == ERROR || word == DISAGREEMENT }

  // ------------------------------------------------------------ the reply

  /** A reply of six parts that begins with the word for it. */
  predicate IsReply(received: Option<Msg>) {
    var parts := Parts(received); parts.Some? && |parts.value| == 6 && parts.value[0] == HANDSHAKE
  }

  predicate OffersBasic(parts: seq<seq<byte>>)
    requires |parts| == 6
  {
    BASIC in MasterSplit(parts[5], COMMA)
  }

  /** A reply to which the master selects the protocol: a version that is a number and not beyond its
      own, flags that are a number, the basic protocol among those offered, and no encryption that it
      would require itself. */
  predicate Acceptable(m: Master, received: Option<Msg>) {
    && IsReply(received)
    && var parts := Parts(received).value;
       m.newer(parts[1]) == Some(false) && Stoi(parts[4]).Some? && OffersBasic(parts) && !EncryptionRequired(m.flags)
  }

  /** A reply which the master answers with a disagreement: of a newer version, or without the basic
      protocol and with nothing else to object to. */
  predicate Declined(m: Master, received: Option<Msg>) {
    && IsReply(received)
    && var parts := Parts(received).value;
       || m.newer(parts[1]) == Some(true)
       || (m.newer(parts[1]) == Some(false) && Stoi(parts[4]).Some? && !EncryptionRequired(m.flags) && !OffersBasic(parts))
  }

  function Selection(m: Master): Msg { Msg(0, MasterJoin([BASIC, [], m.name], SEPARATOR)) }

  const NOK := Msg(0, DISAGREEMENT)

  /** The exception for a reply that is not accepted. */
  function ReplyRefusal(m: Master, received: Option<Msg>): Why {
    var parts := Parts(received);
    if received.None? then TimedOut
    else if parts.None? then WrongChannel
    else if parts.value[0] == DISCONNECT then Disconnected
    else if parts.value[0] == ERROR then DeviceError
    else if parts.value[0] == DISAGREEMENT then CancelledByDevice
    else if |parts.value| != 6 then WrongPartCount
    else if parts.value[0] != HANDSHAKE then UnexpectedMessage
    else if m.newer(parts.value[1]).None? then VersionInvalid
    else if m.newer(parts.value[1]).value then VersionNotSupported
    else if Stoi(parts.value[4]).None? then FlagsInvalid
    else if EncryptionRequired(m.flags) then EncryptionMissing
    else NoSupportedProtocol
  }

  /** The first bytes tell the master's messages apart. */
  lemma {:induction false} JoinFront(ps: seq<seq<byte>>)
    requires ps != [] && ps[0] != [] && ps[0][0] != BLANK
    ensures var s := MasterJoin(ps, SEPARATOR); s != [] && s[0] == ps[0][0]
  {
    hide MasterJoin, JoinRaw;
    MasterJoinIsJoin(ps, SEPARATOR);
    JoinStarts(MasterRaws(ps), SEPARATOR);
  }

  lemma MessagesDiffer(m: Master, user: seq<byte>, password: seq<byte>)
    ensures Hello(m) != Selection(m) && NOK != Selection(m) && GOODBYE.value != Selection(m)
    ensures Msg(0, MasterJoin([AUTH, user, password], SEPARATOR)) != Selection(m)
  {
    hide MasterJoin;
    JoinFront([HANDSHAKE, VERSION, Signed(m.flags), []]);
    JoinFront([BASIC, [], m.name]);
    JoinFront([AUTH, user, password]);
  }

  /** Whatever arrives: the greeting goes out first; the selection is sent, and then as the second
      message, exactly if the first message received is an acceptable reply. */
  lemma SelectionIsSentIff(m: Master, inbox: seq<Option<Msg>>)
    ensures var run := MasterRun(m, inbox);
            && run.1 != [] && run.1[0] == Hello(m)
            && (Selection(m) in run.1 <==> Acceptable(m, First(inbox)))
            && (Acceptable(m, First(inbox)) ==> run.1[..2] == [Hello(m), Selection(m)])
  {
    hide OnName, OnConfirmation, Hello, Selection, MasterSplit, Stoi, Bit, OnReply;
    ReplyDecision(m, First(inbox));
    var c := Credentials(m);
    MessagesDiffer(m, [], []);
    if c.Some? {
      MessagesDiffer(m, c.value.0, c.value.1);
    }
    var reply := OnReply(m, First(inbox));
    if reply.Sends? {
      NameDecision(m, First(Rest(inbox)), reply.deviceFlags);
      ConfirmationDecision(First(Rest(Rest(inbox))));
    }
  }

  /** Any other reply: the greeting is followed by the disagreement, or by nothing, and the
      handshake fails for the reason. */
  lemma RefusedReply(m: Master, inbox: seq<Option<Msg>>)
    requires !Acceptable(m, First(inbox))
    ensures var run := MasterRun(m, inbox);
            && run.1 == [Hello(m)] + (if Declined(m, First(inbox)) then [NOK] else [])
            && run.0.Throws? && run.0.why == ReplyRefusal(m, First(inbox))
  {
    hide Hello, MasterSplit, Stoi, Bit, OnReply, OffersBasic;
    ReplyDecision(m, First(inbox));
  }

  lemma ReplyDecision(m: Master, received: Option<Msg>)
    ensures var r := OnReply(m, received);
            if Acceptable(m, received) then r == Sends(Selection(m), Stoi(Parts(received).value[4]).value)
            else r == Throws(ReplyRefusal(m, received), if Declined(m, received) then Some(NOK) else None)
  {
    hide MasterSplit, MasterJoin, Stoi, Bit;
  }

  // ------------------------------------------------------------ the name and the credentials

  /** The device agrees: two parts, the first one the word for it. */
  predicate Agrees(received: Option<Msg>) {
    var parts := Parts(received); parts.Some? && |parts.value| == 2 && parts.value[0] == AGREEMENT
  }

  predicate Confirms(received: Option<Msg>) { Parts(received) == Some([AGREEMENT]) }

  lemma NameDecision(m: Master, received: Option<Msg>, flags: int)
    ensures var r := OnName(m, received, flags);
            if Agrees(received) then
              if !AuthenticationRequired(flags) then r == ReturnsProtocol
              else if Credentials(m).None? then r == Throws(CancelledByUser, None)
              else r == Sends(Msg(0, MasterJoin([AUTH, Credentials(m).value.0, Credentials(m).value.1], SEPARATOR)), flags)
            else if Parts(received).Some? && |Parts(received).value| == 2 && !Goodbye(Parts(received).value[0]) then r == ReturnsNull
            else r.Throws? && r.last == None
  {
    hide MasterSplit, MasterJoin, Bit, Credentials;
  }

  lemma ConfirmationDecision(received: Option<Msg>)
    ensures var r := OnConfirmation(received);
            if Confirms(received) then r == ReturnsProtocol else r.Throws? && r.last == None
  {
    hide MasterSplit;
    var parts := Parts(received);
    if parts.Some? && |parts.value| == 1 {
      assert parts.value == [parts.value[0]];
    }
  }

  /** The flags an acceptable reply carries. */
  function ReplyFlags(received: Option<Msg>): int
    requires IsReply(received) && Stoi(Parts(received).value[4]).Some?
  {
    Stoi(Parts(received).value[4]).value
  }

  /** User and password: those the master has, if it has both, and else what the callback supplies. */
  function Supplied(m: Master): Option<(seq<byte>, seq<byte>)> {
    if |m.user| > 0 && |m.password| > 0 then Some((m.user, m.password)) else m.credentials
  }

  lemma SuppliedIsUsed(m: Master)
    ensures Credentials(m) == Supplied(m)
  {}

  /** The protocol is returned exactly if the reply is acceptable, the device agrees to the
      selection, and, if its flags ask for credentials, there are some and it confirms them. */
  lemma ProtocolIsReturnedIff(m: Master, inbox: seq<Option<Msg>>)
    ensures MasterRun(m, inbox).0.ReturnsProtocol? <==>
            && Acceptable(m, First(inbox)) && Agrees(First(Rest(inbox)))
            && (AuthenticationRequired(ReplyFlags(First(inbox))) ==> Supplied(m).Some? && Confirms(First(Rest(Rest(inbox)))))
  {
    hide OnReply, OnName, OnConfirmation, Hello, Selection, MasterSplit, MasterJoin, Stoi, Bit, Agrees, Confirms, Credentials, Supplied, OffersBasic;
    SuppliedIsUsed(m);
    ReplyDecision(m, First(inbox));
    if Acceptable(m, First(inbox)) {
      NameDecision(m, First(Rest(inbox)), ReplyFlags(First(inbox)));
      ConfirmationDecision(First(Rest(Rest(inbox))));
    }
  }

  /** All that is sent: the greeting; the selection or a disagreement; and the credentials exactly if
      the device agrees, its flags ask for them and there are some. */
  lemma SentInAll(m: Master, inbox: seq<Option<Msg>>)
    requires Acceptable(m, First(inbox))
    ensures var asked := Agrees(First(Rest(inbox))) && AuthenticationRequired(ReplyFlags(First(inbox))) && Supplied(m).Some?;
            MasterRun(m, inbox).1 == [Hello(m), Selection(m)] +
              if asked then [Msg(0, MasterJoin([AUTH, Supplied(m).value.0, Supplied(m).value.1], SEPARATOR))] else []
  {
    hide OnReply, OnName, OnConfirmation, Hello, Selection, MasterSplit, MasterJoin, Stoi, Bit, Agrees, Confirms, Credentials, Supplied, OffersBasic;
    SuppliedIsUsed(m);
    ReplyDecision(m, First(inbox));
    NameDecision(m, First(Rest(inbox)), ReplyFlags(First(inbox)));
    ConfirmationDecision(First(Rest(Rest(inbox))));
  }
}

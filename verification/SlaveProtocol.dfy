/** The slave's side of a connection (opdi_slave_protocol.c) as a state machine over the messages
    that arrive, and what holds in every run of it. */
module SlaveProtocol {
  import opened Constants
  import opened Numbers
  import opened Protocol
  import opened Strings
  import opened Wire

  // ------------------------------------------------------------ negotiating encryption

  /** The constants of a device. */
  datatype Device = Device(flags: nat, cipher: seq<byte>, hasProtocols: bool, size: nat)

  datatype Negotiation = Refused(code: Status, texts: seq<seq<byte>>) | Agreed(encrypted: bool)

  const NOT_SUPPORTED_TEXT: seq<byte> :=
    [69, 110, 99, 114, 121, 112, 116, 105, 111, 110, 32, 110, 111, 116, 32, 115, 117, 112, 112, 111, 114, 116, 101, 100, 58, 32]
  const REQUIRED_TEXT: seq<byte> :=
    [69, 110, 99, 114, 121, 112, 116, 105, 111, 110, 32, 114, 101, 113, 117, 105, 114, 101, 100, 58, 32]
  const BY_DEVICE_TEXT: seq<byte> := [98, 121, 32, 100, 101, 118, 105, 99, 101]
  const AUTH_FAILED_TEXT: seq<byte> :=
    [65, 117, 116, 104, 101, 110, 116, 105, 99, 97, 116, 105, 111, 110, 32, 102, 97, 105, 108, 101, 100]

  function Negotiate(flags: int, dev: Device, offered: seq<seq<byte>>): Negotiation {
    if EncryptionRequired(flags) then
      if EncryptionNotAllowed(dev.flags) || dev.cipher == [] then
        Refused(ENCRYPTION_NOT_SUPPORTED, [NOT_SUPPORTED_TEXT, BY_DEVICE_TEXT])
      else if dev.cipher !in offered then Refused(ENCRYPTION_NOT_SUPPORTED, [NOT_SUPPORTED_TEXT, dev.cipher])
      else Agreed(true)
    else if EncryptionRequired(dev.flags) then
      if EncryptionNotAllowed(flags) then Refused(ENCRYPTION_REQUIRED, [REQUIRED_TEXT, BY_DEVICE_TEXT])
      else if dev.cipher !in offered then Refused(ENCRYPTION_REQUIRED, [REQUIRED_TEXT, dev.cipher])
      else Agreed(true)
    else Agreed(!EncryptionNotAllowed(dev.flags) && dev.cipher in offered)
  }

  /** What either side requires is kept; what is used was offered; and the device's own prohibition
      holds unless the device requires encryption at the same time. */
  lemma NegotiationSound(flags: int, dev: Device, offered: seq<seq<byte>>)
    requires Negotiate(flags, dev, offered).Agreed?
    ensures var used := Negotiate(flags, dev, offered).encrypted;
            && (EncryptionRequired(flags) || EncryptionRequired(dev.flags) ==> used)
            && (used ==> dev.cipher in offered)
            && (used && EncryptionNotAllowed(dev.flags) ==> EncryptionRequired(dev.flags) && !EncryptionRequired(flags))
            && (!used ==> EncryptionNotAllowed(dev.flags) || dev.cipher !in offered)
  {}

  /** When the slave agrees: if the master requires encryption, the device must be allowed to use a
      method it has and the master offers; if only the device requires it, the master must offer the
      device's method and not prohibit it; and in no other case is there anything to refuse. Encryption
      is then used if either side requires it, or else if the device is allowed to use what is offered.
      A refusal tells which of the two required it. */
  lemma NegotiateIff(flags: int, dev: Device, offered: seq<seq<byte>>)
    ensures var n := Negotiate(flags, dev, offered);
            && (n.Agreed? <==>
                && (EncryptionRequired(flags) ==> !EncryptionNotAllowed(dev.flags) && dev.cipher != [] && dev.cipher in offered)
                && (EncryptionRequired(dev.flags) && !EncryptionRequired(flags) ==> !EncryptionNotAllowed(flags) && dev.cipher in offered))
            && (n.Agreed? ==>
                (n.encrypted <==> EncryptionRequired(flags) || EncryptionRequired(dev.flags) ||
                                  (!EncryptionNotAllowed(dev.flags) && dev.cipher in offered)))
            && (n.Refused? ==> n.code == if EncryptionRequired(flags) then ENCRYPTION_NOT_SUPPORTED else ENCRYPTION_REQUIRED)
  {}

  /** The master's prohibition is respected exactly when the master offers nothing the device
      would use, or one of the sides requires encryption. */
  lemma MasterProhibitionKeptIff(flags: int, dev: Device, offered: seq<seq<byte>>)
    requires EncryptionNotAllowed(flags) && !EncryptionRequired(flags)
    ensures Negotiate(flags, dev, offered) != Agreed(true) <==>
            EncryptionRequired(dev.flags) || EncryptionNotAllowed(dev.flags) || dev.cipher !in offered
  {}

  // ------------------------------------------------------------ states and what is observed

  datatype Handler = Basic | Extended | Custom(id: nat)

  datatype ProtocolEvent = START_HANDSHAKE | CONNECTED | DISCONNECTION

  datatype Event =
    | Callback(what: ProtocolEvent)
    | Heard(msg: Msg)
    | Sent(msg: Msg)
    | SendFailed
    | Username(part: Option<seq<byte>>, status: Status)
    | Password(part: Option<seq<byte>>, status: Status)
    | Handling(handler: Handler, channel: nat)

  /** An event, with the static variables at its time. */
  datatype Entry = Entry(event: Event, connected: bool, encrypted: bool, timeout: nat)

  datatype Phase = AwaitHandshake | AwaitSelect | AwaitAuth | Looping | Ended

  datatype Slave = Slave(phase: Phase, connected: bool, encrypted: bool, timeout: nat, savedTimeout: nat,
                         handler: Handler, status: Status, flags: int, offered: seq<seq<byte>>, log: seq<Entry>)

  datatype Answer = Answer(status: Status, text: seq<byte>)

  /** What the device's functions and the link answer while one message is dealt with; what is said
      to a user name or a password depends on the part that holds it. */
  datatype Env = Env(put: Status, encoding: Answer, protocols: Answer, name: Answer, masterName: Status,
                     languages: Status, protocol: Option<Handler>,
                     username: Option<seq<byte>> -> Status, password: Option<seq<byte>> -> Status,
                     debug: Status, handled: Status, messageHandled: Status)

  /** The outcome of one wait for a message. */
  datatype Input = Failed(status: Status) | Incoming(msg: Msg, env: Env)

  function Log(s: Slave, e: Event): Slave {
    s.(log := s.log + [Entry(e, s.connected, s.encrypted, s.timeout)])
  }

  function Fail(s: Slave, status: Status): Slave { s.(phase := Ended, status := status) }

  /** strings_join and opdi_put_message. */
  function Put(dev: Device, s: Slave, parts: seq<seq<byte>>, put: Status): (Status, Slave)
    requires ValidSize(dev.size)
  {
    var st := SendStatus(0, parts, dev.size);
    if st != OK then (st, s)
    else if put != OK then (put, Log(s, SendFailed))
    else (OK, Log(s, Sent(Msg(0, Join(parts, SEPARATOR)))))
  }

  /** send_disagreement; its own failure is not looked at. */
  function Disagree(dev: Device, s: Slave, code: Status, texts: seq<seq<byte>>, put: Status): Slave
    requires ValidSize(dev.size)
  {
    Fail(Put(dev, s, [DISAGREEMENT, Decimal(Code(code))] + texts, put).1, code)
  }

  // ------------------------------------------------------------ the steps of opdi_slave_start

  function OnHandshake(dev: Device, s0: Slave, msg: Msg, env: Env): Slave
    requires ValidSize(dev.size)
  {
    var s := Log(s0.(connected := false), Callback(START_HANDSHAKE));
    if msg.channel != 0 then Fail(s, PROTOCOL_ERROR)
    else
      var parts := SplitUpTo(msg.payload, SEPARATOR, MAX_MESSAGE_PARTS, true);
      if parts.None? then Fail(s, ERROR_PARTS_OVERFLOW)
      else if |parts.value| != 4 || parts.value[0] != HANDSHAKE || parts.value[1] != VERSION then Fail(s, PROTOCOL_ERROR)
      else
        var flags := StrToInt32(parts.value[2]);
        var offered := SplitUpTo(parts.value[3], COMMA, MAX_ENCRYPTIONS, true);
        if flags.None? then Fail(s, ERROR_CONVERSION)
        else if offered.None? then Fail(s, ERROR_PARTS_OVERFLOW)
        else Reply(dev, s.(flags := flags.value, offered := offered.value), env)
  }

  function Reply(dev: Device, s: Slave, env: Env): Slave
    requires ValidSize(dev.size)
  {
    match Negotiate(s.flags, dev, s.offered)
    case Refused(code, texts) => Disagree(dev, s, code, texts, env.put)
    case Agreed(encrypted) =>
      if env.encoding.status != OK then Fail(s, env.encoding.status)
      else if env.protocols.status != OK then Fail(s, env.protocols.status)
      else
        var (st, s') := Put(dev, s, ReplyParts(dev, encrypted, env), env.put);
        if st != OK then Fail(s', st) else s'.(phase := AwaitSelect, encrypted := encrypted)
  }

  function ReplyParts(dev: Device, encrypted: bool, env: Env): seq<seq<byte>> {
    [HANDSHAKE, VERSION, env.encoding.text, if encrypted then dev.cipher else [], Decimal(dev.flags), env.protocols.text]
  }

  function OnSelect(dev: Device, s0: Slave, msg: Msg, env: Env): Slave
    requires ValidSize(dev.size)
  {
    var s := Log(s0, Heard(msg));
    if msg.channel != 0 then Fail(s, PROTOCOL_ERROR)
    else
      var parts := SplitUpTo(msg.payload, SEPARATOR, MAX_MESSAGE_PARTS, true);
      if parts.None? then Fail(s, ERROR_PARTS_OVERFLOW)
      else if parts.value[0] == DISCONNECT then Fail(s, DISCONNECTED)
      else if parts.value[0] == ERROR then Fail(s, DEVICE_ERROR)
      else if |parts.value| != 3 then Fail(s, PROTOCOL_ERROR)
      else Selected(dev, s, parts.value[0], env)
  }

  function Selected(dev: Device, s: Slave, magic: seq<byte>, env: Env): Slave
    requires ValidSize(dev.size)
  {
    var handler := Choose(dev, magic, env);
    if handler.None? then Fail(s, PROTOCOL_NOT_SUPPORTED)
    else if env.masterName != OK then Fail(s, env.masterName)
    else if env.languages != OK then Fail(s, env.languages)
    else if env.name.status != OK then Fail(s, env.name.status)
    else Named(dev, s.(handler := handler.value), env)
  }

  function Named(dev: Device, s: Slave, env: Env): Slave
    requires ValidSize(dev.size)
  {
    var (st, s') := Put(dev, s, [AGREEMENT, env.name.text], env.put);
    if st != OK then Fail(s', st)
    else if AuthenticationRequired(dev.flags) then
      s'.(phase := AwaitAuth, savedTimeout := s'.timeout, timeout := AUTHENTICATION_TIMEOUT)
    else Connect(s')
  }

  /** The protocol handler; an unknown name falls back to the basic protocol. */
  function Choose(dev: Device, magic: seq<byte>, env: Env): Option<Handler> {
    if magic == EXTENDED then Some(Extended)
    else if magic == BASIC then Some(Basic)
    else if !dev.hasProtocols then None
    else if env.protocol.None? then Some(Basic) else env.protocol
  }

  function OnAuth(dev: Device, s0: Slave, msg: Msg, env: Env): Slave
    requires ValidSize(dev.size)
  {
    var s := Log(s0, Heard(msg)).(timeout := s0.savedTimeout);
    var parts := SplitUpTo(msg.payload, SEPARATOR, MAX_MESSAGE_PARTS, false);
    if parts.None? then Fail(s, ERROR_PARTS_OVERFLOW)
    else if parts.value[0] != AUTH then Disagree(dev, s, AUTHENTICATION_EXPECTED, [], env.put)
    else OnCredentials(dev, s, parts.value, env)
  }

  function OnCredentials(dev: Device, s: Slave, parts: seq<seq<byte>>, env: Env): Slave
    requires ValidSize(dev.size)
  {
    var user, password := PartAt(parts, 1), PartAt(parts, 2);
    var named := Log(s, Username(user, env.username(user)));
    if env.username(user) != OK then Disagree(dev, named, AUTHENTICATION_FAILED, [AUTH_FAILED_TEXT], env.put)
    else
      var known := Log(named, Password(password, env.password(password)));
      if env.password(password) != OK then Disagree(dev, known, AUTHENTICATION_FAILED, [AUTH_FAILED_TEXT], env.put)
      else
        var (st, s') := Put(dev, known, [AGREEMENT], env.put);
        if st != OK then Fail(s', st) else Connect(s')
  }

  function Connect(s: Slave): Slave {
    Log(s.(connected := true, phase := Looping), Callback(CONNECTED))
  }

  // ------------------------------------------------------------ the message loop

  function Leave(s: Slave, status: Status): Slave {
    Fail(Log(s, Callback(DISCONNECTION)).(connected := false), status)
  }

  /** send_error: the connection ends with the code, or with what kept it from being sent. */
  function LeaveWithError(dev: Device, s: Slave, code: Status, put: Status): Slave
    requires ValidSize(dev.size)
  {
    var (st, s') := Put(dev, s, [ERROR, Decimal(Code(code))], put);
    Leave(s', if st != OK then st else code)
  }

  function OnMessage(dev: Device, s0: Slave, msg: Msg, env: Env): Slave
    requires ValidSize(dev.size)
  {
    var s := Log(s0, Heard(msg));
    var parts := SplitUpTo(msg.payload, SEPARATOR, MAX_MESSAGE_PARTS, true);
    if parts.None? then Leave(s, ERROR_PARTS_OVERFLOW)
    else if msg.channel == 0 then OnControl(dev, s, parts.value[0], env)
    else OnRequest(dev, Log(s, Handling(s.handler, msg.channel)), env)
  }

  /** A message on the control channel. */
  function OnControl(dev: Device, s: Slave, word: seq<byte>, env: Env): Slave
    requires ValidSize(dev.size)
  {
    if word == DISCONNECT then Leave(s, DISCONNECTED)
    else if word == ERROR then Leave(s, DEVICE_ERROR)
    else if word == DEBUG && env.debug != OK then Leave(s, env.debug)
    else Handled(dev, s, env)
  }

  /** handle_message_result for what the protocol handler has returned. */
  function OnRequest(dev: Device, s: Slave, env: Env): Slave
    requires ValidSize(dev.size)
  {
    if env.handled == OK || env.handled == MESSAGE_UNKNOWN then Handled(dev, s, env)
    else if env.handled == DISCONNECTED then Leave(s, DISCONNECTED)
    else LeaveWithError(dev, s, env.handled, env.put)
  }

  /** opdi_message_handled. */
  function Handled(dev: Device, s: Slave, env: Env): Slave
    requires ValidSize(dev.size)
  {
    if env.messageHandled == OK then s
    else if env.messageHandled == DISCONNECTED then Leave(s, DISCONNECTED)
    else LeaveWithError(dev, s, env.messageHandled, env.put)
  }

  function Step(dev: Device, s: Slave, input: Input): Slave
    requires ValidSize(dev.size)
  {
    match input
    case Failed(status) =>
      if s.phase.Ended? || s.phase.AwaitHandshake? then s
      else if s.phase.Looping? then Leave(s, status)
      else Fail(if s.phase.AwaitAuth? then s.(timeout := s.savedTimeout) else s, status)
    case Incoming(msg, env) =>
      match s.phase
      case AwaitHandshake => OnHandshake(dev, s, msg, env)
      case AwaitSelect => OnSelect(dev, s, msg, env)
      case AwaitAuth => OnAuth(dev, s, msg, env)
      case Looping => OnMessage(dev, s, msg, env)
      case Ended => s
  }

  /** The state after any inputs. */
  function After(dev: Device, s: Slave, inputs: seq<Input>): Slave
    requires ValidSize(dev.size)
  {
    if inputs == [] then s else Step(dev, After(dev, s, inputs[..|inputs| - 1]), inputs[|inputs| - 1])
  }

  /** As a connection begins: encryption is off. */
  predicate Initial(s: Slave) { s.phase.AwaitHandshake? && !s.encrypted && s.log == [] }

  // ------------------------------------------------------------ what every run keeps

  /** The callbacks made so far. */
  function Callbacks(log: seq<Entry>): seq<ProtocolEvent> {
    if log == [] then []
    else
      var e := log[|log| - 1].event;
      Callbacks(log[..|log| - 1]) + if e.Callback? then [e.what] else []
  }

  predicate Credential(e: Event) { e.Username? || e.Password? }

  /** Not connected at any time so far. */
  ghost predicate NeverConnected(log: seq<Entry>) {
    forall i | 0 <= i < |log| :: !log[i].connected
  }

  /** Connected exactly from entry c on, which is the callback for it. */
  ghost predicate ConnectedFrom(log: seq<Entry>, c: nat) {
    && c < |log| && log[c].event == Callback(CONNECTED)
    && forall i | 0 <= i < |log| :: log[i].connected <==> c <= i
  }

  /** Entry r is the first message sent: the reply. It and all before it are plain, and all behind
      it are encrypted or not as was agreed. */
  ghost predicate RepliedAt(log: seq<Entry>, r: nat, encrypted: bool) {
    && r < |log| && log[r].event.Sent?
    && (forall i | 0 <= i < r :: !log[i].event.Sent?)
    && (forall i | 0 <= i < |log| :: log[i].encrypted == (encrypted && i > r))
  }

  ghost predicate AllPlain(log: seq<Entry>) {
    forall i | 0 <= i < |log| :: !log[i].encrypted
  }

  /** User name and password were taken, one right after the other, at entry a. */
  ghost predicate AuthenticatedAt(log: seq<Entry>, a: nat) {
    && a + 1 < |log| && log[a].event.Username? && log[a].event.status == OK
    && log[a + 1].event.Password? && log[a + 1].event.status == OK
  }

  ghost predicate NoCredentials(log: seq<Entry>) {
    forall i | 0 <= i < |log| :: !Credential(log[i].event)
  }

  /** The longer timeout is in force for the wait for the credentials and at no other time. */
  ghost predicate TimeoutsKept(log: seq<Entry>, timeout: nat) {
    forall i | 0 <= i < |log| :: log[i].timeout == timeout || (log[i].event.Heard? && log[i].timeout == AUTHENTICATION_TIMEOUT)
  }

  /** The reply is out, and what was agreed is in force. */
  ghost predicate Settled(dev: Device, s: Slave) {
    && Negotiate(s.flags, dev, s.offered) == Agreed(s.encrypted)
    && exists r: nat :: RepliedAt(s.log, r, s.encrypted)
  }

  /** The handshake is under way or has failed. */
  ghost predicate Before(s: Slave, timeout: nat) {
    && TimeoutsKept(s.log, timeout) && NeverConnected(s.log) && Callbacks(s.log) == [START_HANDSHAKE]
    && !s.connected && s.timeout == timeout
  }

  /** If the device asks for it, user and password were taken before entry c; if not, never. */
  ghost predicate Checked(dev: Device, log: seq<Entry>, c: nat) {
    if AuthenticationRequired(dev.flags) then exists a: nat :: a + 1 < c && AuthenticatedAt(log, a) else NoCredentials(log)
  }

  /** Every check is passed, and the connection was made. */
  ghost predicate Admitted(dev: Device, s: Slave, timeout: nat) {
    && Settled(dev, s) && TimeoutsKept(s.log, timeout) && s.timeout == timeout
    && exists c: nat :: ConnectedFrom(s.log, c) && Checked(dev, s.log, c) && RepliedBefore(s.log, c)
  }

  ghost predicate RepliedBefore(log: seq<Entry>, c: nat) {
    exists r: nat :: r < c && r < |log| && log[r].event.Sent?
  }

  ghost predicate Failure(dev: Device, s: Slave, timeout: nat) {
    Before(s, timeout) && (AllPlain(s.log) || Settled(dev, s))
  }

  ghost predicate Good(dev: Device, timeout: nat, s: Slave) {
    match s.phase
    case AwaitHandshake => s.log == [] && !s.encrypted && s.timeout == timeout
    case AwaitSelect => Settled(dev, s) && Before(s, timeout) && NoCredentials(s.log)
    case AwaitAuth =>
      && Settled(dev, s) && Before(s.(timeout := timeout), timeout) && NoCredentials(s.log)
      && s.savedTimeout == timeout && s.timeout == AUTHENTICATION_TIMEOUT && AuthenticationRequired(dev.flags)
    case Looping => Admitted(dev, s, timeout) && Callbacks(s.log) == [START_HANDSHAKE, CONNECTED] && s.connected
    case Ended =>
      || Failure(dev, s, timeout)
      || (Admitted(dev, s, timeout) && Callbacks(s.log) == [START_HANDSHAKE, CONNECTED, DISCONNECTION] && !s.connected)
  }

  // ------------------------------------------------------------ one more entry

  lemma CallbacksSnoc(log: seq<Entry>, e: Entry)
    ensures Callbacks(log + [e]) == Callbacks(log) + if e.event.Callback? then [e.event.what] else []
  {
    assert (log + [e])[..|log|] == log;
  }

  lemma LogBefore(s: Slave, e: Event, timeout: nat)
    requires Before(s, timeout) && !e.Callback?
    ensures Before(Log(s, e), timeout)
    ensures NoCredentials(s.log) && !Credential(e) ==> NoCredentials(Log(s, e).log)
    ensures AllPlain(s.log) && !s.encrypted ==> AllPlain(Log(s, e).log)
  {
    CallbacksSnoc(s.log, Entry(e, s.connected, s.encrypted, s.timeout));
  }

  lemma LogSettled(dev: Device, s: Slave, e: Event)
    requires Settled(dev, s)
    ensures Settled(dev, Log(s, e))
  {
    var r: nat :| RepliedAt(s.log, r, s.encrypted);
    assert RepliedAt(Log(s, e).log, r, s.encrypted);
  }

  lemma LogAdmitted(dev: Device, s: Slave, e: Event, timeout: nat)
    requires Admitted(dev, s, timeout) && s.connected && !Credential(e)
    ensures Admitted(dev, Log(s, e), timeout)
    ensures Callbacks(Log(s, e).log) == Callbacks(s.log) + if e.Callback? then [e.what] else []
  {
    LogSettled(dev, s, e);
    var entry := Entry(e, s.connected, s.encrypted, s.timeout);
    CallbacksSnoc(s.log, entry);
    var c: nat :| ConnectedFrom(s.log, c) && Checked(dev, s.log, c) && RepliedBefore(s.log, c);
    assert ConnectedFrom(s.log + [entry], c);
    var r: nat :| r < c && r < |s.log| && s.log[r].event.Sent?;
    assert (s.log + [entry])[r].event.Sent?;
    if AuthenticationRequired(dev.flags) {
      var a: nat :| a + 1 < c && AuthenticatedAt(s.log, a);
      assert AuthenticatedAt(s.log + [entry], a);
    }
    assert Checked(dev, s.log + [entry], c);
  }

  lemma PutBefore(dev: Device, s: Slave, parts: seq<seq<byte>>, put: Status, timeout: nat)
    requires ValidSize(dev.size) && Before(s, timeout)
    ensures var s' := Put(dev, s, parts, put).1;
            && Before(s', timeout) && s'.phase == s.phase && s'.encrypted == s.encrypted
            && (NoCredentials(s.log) ==> NoCredentials(s'.log)) && (Settled(dev, s) ==> Settled(dev, s'))
            && (AllPlain(s.log) && !s.encrypted ==> AllPlain(s'.log))
  {
    hide Before, NoCredentials, Settled, AllPlain, SendStatus;
    LogBefore(s, SendFailed, timeout);
    LogBefore(s, Sent(Msg(0, Join(parts, SEPARATOR))), timeout);
    if Settled(dev, s) {
      LogSettled(dev, s, SendFailed);
      LogSettled(dev, s, Sent(Msg(0, Join(parts, SEPARATOR))));
    }
  }

  /** A handshake that ends early leaves nothing behind. */
  lemma FailIsFailure(dev: Device, s: Slave, status: Status, timeout: nat)
    requires Before(s, timeout) && (AllPlain(s.log) || Settled(dev, s))
    ensures Good(dev, timeout, Fail(s, status))
  {}

  // ------------------------------------------------------------ every step keeps the invariant

  lemma StartBefore(s0: Slave, timeout: nat)
    requires s0.log == [] && !s0.encrypted && s0.timeout == timeout
    ensures var s := Log(s0.(connected := false), Callback(START_HANDSHAKE));
            Before(s, timeout) && AllPlain(s.log) && NoCredentials(s.log) && s.log[0].event == Callback(START_HANDSHAKE)
  {
    CallbacksSnoc([], Entry(Callback(START_HANDSHAKE), false, false, timeout));
    assert Callbacks([]) == [];
    assert [] + [START_HANDSHAKE] == [START_HANDSHAKE];
  }

  lemma DisagreeGood(dev: Device, s: Slave, code: Status, texts: seq<seq<byte>>, put: Status, timeout: nat)
    requires ValidSize(dev.size) && Before(s, timeout) && ((AllPlain(s.log) && !s.encrypted) || Settled(dev, s))
    ensures Good(dev, timeout, Disagree(dev, s, code, texts, put))
  {
    hide Before, AllPlain, Settled, Put, Good;
    var parts := [DISAGREEMENT, Decimal(Code(code))] + texts;
    PutBefore(dev, s, parts, put, timeout);
    FailIsFailure(dev, Put(dev, s, parts, put).1, code, timeout);
  }

  /** The reply goes out plain; from then on what was agreed is in force. */
  lemma ReplyGood(dev: Device, s: Slave, env: Env, timeout: nat)
    requires ValidSize(dev.size) && Before(s, timeout) && AllPlain(s.log) && NoCredentials(s.log) && !s.encrypted
    requires |s.log| == 1 && !s.log[0].event.Sent?
    ensures Good(dev, timeout, Reply(dev, s, env))
  {
    hide SendStatus, Callbacks, Negotiate;
    match Negotiate(s.flags, dev, s.offered)
    case Refused(code, texts) => DisagreeGood(dev, s, code, texts, env.put, timeout);
    case Agreed(encrypted) =>
      var p := Put(dev, s, ReplyParts(dev, encrypted, env), env.put);
      PutBefore(dev, s, ReplyParts(dev, encrypted, env), env.put, timeout);
      if p.0 == OK {
        assert RepliedAt(p.1.log, 1, encrypted);
      }
  }

  lemma HandshakeGood(dev: Device, s0: Slave, msg: Msg, env: Env, timeout: nat)
    requires ValidSize(dev.size) && s0.log == [] && !s0.encrypted && s0.timeout == timeout
    ensures Good(dev, timeout, OnHandshake(dev, s0, msg, env))
  {
    hide Reply, Before, AllPlain, NoCredentials, SplitUpTo, StrToInt32, Good, Settled;
    StartBefore(s0, timeout);
    var s := Log(s0.(connected := false), Callback(START_HANDSHAKE));
    FailIsFailure(dev, s, PROTOCOL_ERROR, timeout);
    FailIsFailure(dev, s, ERROR_PARTS_OVERFLOW, timeout);
    FailIsFailure(dev, s, ERROR_CONVERSION, timeout);
    forall flags: int, offered: seq<seq<byte>>
      ensures Good(dev, timeout, Reply(dev, s.(flags := flags, offered := offered), env))
    {
      var s' := s.(flags := flags, offered := offered);
      assert Before(s', timeout) by { SameLog(dev, s, s', timeout); }
      ReplyGood(dev, s', env, timeout);
    }
  }

  /** The predicates look at nothing else. */
  lemma SameLog(dev: Device, s: Slave, s': Slave, timeout: nat)
    requires s.log == s'.log && s.connected == s'.connected && s.timeout == s'.timeout
    ensures Before(s, timeout) <==> Before(s', timeout)
    ensures s.encrypted == s'.encrypted && s.flags == s'.flags && s.offered == s'.offered ==> (Settled(dev, s) <==> Settled(dev, s'))
  {}

  /** The connection is made: all that was asked for is in the log by now. */
  lemma ConnectGood(dev: Device, s: Slave, timeout: nat)
    requires Before(s, timeout) && Settled(dev, s) && Checked(dev, s.log, |s.log|)
    ensures Good(dev, timeout, Connect(s))
  {
    hide Negotiate, Callbacks;
    var s' := Connect(s);
    var entry := Entry(Callback(CONNECTED), true, s.encrypted, s.timeout);
    assert s'.log == s.log + [entry];
    CallbacksSnoc(s.log, entry);
    var r: nat :| RepliedAt(s.log, r, s.encrypted);
    assert RepliedAt(s'.log, r, s.encrypted);
    assert ConnectedFrom(s'.log, |s.log|);
    assert s'.log[r].event.Sent? && RepliedBefore(s'.log, |s.log|);
    if AuthenticationRequired(dev.flags) {
      var a: nat :| a + 1 < |s.log| && AuthenticatedAt(s.log, a);
      assert AuthenticatedAt(s'.log, a);
    }
    assert Checked(dev, s'.log, |s.log|);
  }

  lemma SelectGood(dev: Device, s0: Slave, msg: Msg, env: Env, timeout: nat)
    requires ValidSize(dev.size) && s0.phase.AwaitSelect? && Good(dev, timeout, s0)
    ensures Good(dev, timeout, OnSelect(dev, s0, msg, env))
  {
    hide Before, Settled, NoCredentials, SplitUpTo, Selected;
    LogBefore(s0, Heard(msg), timeout);
    LogSettled(dev, s0, Heard(msg));
    var s := Log(s0, Heard(msg));
    forall status: Status
      ensures Good(dev, timeout, Fail(s, status))
    {
      FailIsFailure(dev, s, status, timeout);
    }
    forall magic: seq<byte>
      ensures Good(dev, timeout, Selected(dev, s, magic, env))
    {
      SelectedGood(dev, s, magic, env, timeout);
    }
  }

  lemma SelectedGood(dev: Device, s: Slave, magic: seq<byte>, env: Env, timeout: nat)
    requires ValidSize(dev.size) && Before(s, timeout) && Settled(dev, s) && NoCredentials(s.log)
    ensures Good(dev, timeout, Selected(dev, s, magic, env))
  {
    hide Before, Settled, NoCredentials, Named, Good;
    forall status: Status
      ensures Good(dev, timeout, Fail(s, status))
    {
      FailIsFailure(dev, s, status, timeout);
    }
    forall h: Handler
      ensures Good(dev, timeout, Named(dev, s.(handler := h), env))
    {
      SameLog(dev, s, s.(handler := h), timeout);
      NamedGood(dev, s.(handler := h), env, timeout);
    }
  }

  lemma NamedGood(dev: Device, s: Slave, env: Env, timeout: nat)
    requires ValidSize(dev.size) && Before(s, timeout) && Settled(dev, s) && NoCredentials(s.log)
    ensures Good(dev, timeout, Named(dev, s, env))
  {
    hide Before, Settled, NoCredentials, Put, Connect;
    var parts := [AGREEMENT, env.name.text];
    PutBefore(dev, s, parts, env.put, timeout);
    var p := Put(dev, s, parts, env.put);
    FailIsFailure(dev, p.1, p.0, timeout);
    if AuthenticationRequired(dev.flags) {
      var s' := p.1.(phase := AwaitAuth, savedTimeout := p.1.timeout, timeout := AUTHENTICATION_TIMEOUT);
      BeforeTimeout(p.1, timeout);
      SameLog(dev, p.1, s'.(timeout := timeout), timeout);
      SameLogSettled(dev, p.1, s');
    } else {
      ConnectGood(dev, p.1, timeout);
    }
  }

  lemma BeforeTimeout(s: Slave, timeout: nat)
    requires Before(s, timeout)
    ensures s.timeout == timeout && !s.connected
  {}

  lemma SameLogSettled(dev: Device, s: Slave, s': Slave)
    requires s.log == s'.log && s.encrypted == s'.encrypted && s.flags == s'.flags && s.offered == s'.offered
    ensures Settled(dev, s) <==> Settled(dev, s')
  {}

  /** The wait for the credentials ends, and with it the longer timeout. */
  lemma HeardCredentials(dev: Device, s0: Slave, msg: Msg, timeout: nat)
    requires s0.phase.AwaitAuth? && Good(dev, timeout, s0)
    ensures var s := Log(s0, Heard(msg)).(timeout := s0.savedTimeout);
            Before(s, timeout) && Settled(dev, s) && NoCredentials(s.log)
  {
    hide Negotiate, Callbacks;
    LogSettled(dev, s0, Heard(msg));
    CallbacksSnoc(s0.log, Entry(Heard(msg), s0.connected, s0.encrypted, s0.timeout));
    SameLogSettled(dev, Log(s0, Heard(msg)), Log(s0, Heard(msg)).(timeout := s0.savedTimeout));
  }

  lemma AuthGood(dev: Device, s0: Slave, msg: Msg, env: Env, timeout: nat)
    requires ValidSize(dev.size) && s0.phase.AwaitAuth? && Good(dev, timeout, s0)
    ensures Good(dev, timeout, OnAuth(dev, s0, msg, env))
  {
    hide Before, Settled, NoCredentials, SplitUpTo, Disagree, Connect;
    HeardCredentials(dev, s0, msg, timeout);
    var s := Log(s0, Heard(msg)).(timeout := s0.savedTimeout);
    var parts := SplitUpTo(msg.payload, SEPARATOR, MAX_MESSAGE_PARTS, false);
    if parts.None? {
      FailIsFailure(dev, s, ERROR_PARTS_OVERFLOW, timeout);
    } else if parts.value[0] != AUTH {
      DisagreeGood(dev, s, AUTHENTICATION_EXPECTED, [], env.put, timeout);
    } else {
      CredentialsGood(dev, s, parts.value, env, timeout);
    }
  }

  lemma CredentialsGood(dev: Device, s: Slave, parts: seq<seq<byte>>, env: Env, timeout: nat)
    requires ValidSize(dev.size) && Before(s, timeout) && Settled(dev, s) && AuthenticationRequired(dev.flags)
    ensures Good(dev, timeout, OnCredentials(dev, s, parts, env))
  {
    hide Before, Settled, Put, Disagree, Connect;
    var user := Username(PartAt(parts, 1), env.username(PartAt(parts, 1)));
    var password := Password(PartAt(parts, 2), env.password(PartAt(parts, 2)));
    LogBefore(s, user, timeout);
    LogSettled(dev, s, user);
    var named := Log(s, user);
    if user.status != OK {
      DisagreeGood(dev, named, AUTHENTICATION_FAILED, [AUTH_FAILED_TEXT], env.put, timeout);
    } else {
      LogBefore(named, password, timeout);
      LogSettled(dev, named, password);
      var known := Log(named, password);
      if password.status != OK {
        DisagreeGood(dev, known, AUTHENTICATION_FAILED, [AUTH_FAILED_TEXT], env.put, timeout);
      } else {
        assert AuthenticatedAt(known.log, |s.log|);
        AgreedGood(dev, known, |s.log|, env, timeout);
      }
    }
  }

  lemma AgreedGood(dev: Device, s: Slave, a: nat, env: Env, timeout: nat)
    requires ValidSize(dev.size) && Before(s, timeout) && Settled(dev, s)
    requires AuthenticationRequired(dev.flags) && AuthenticatedAt(s.log, a)
    ensures var p := Put(dev, s, [AGREEMENT], env.put);
            Good(dev, timeout, if p.0 != OK then Fail(p.1, p.0) else Connect(p.1))
  {
    hide Before, Settled, Connect, SendStatus;
    var p := Put(dev, s, [AGREEMENT], env.put);
    PutBefore(dev, s, [AGREEMENT], env.put, timeout);
    FailIsFailure(dev, p.1, p.0, timeout);
    if p.0 == OK {
      assert a + 1 < |p.1.log| && AuthenticatedAt(p.1.log, a);
      ConnectGood(dev, p.1, timeout);
    }
  }

  // ------------------------------------------------------------ the loop keeps it

  ghost predicate InLoop(dev: Device, s: Slave, timeout: nat) {
    Admitted(dev, s, timeout) && Callbacks(s.log) == [START_HANDSHAKE, CONNECTED] && s.connected
  }

  lemma LogInLoop(dev: Device, s: Slave, e: Event, timeout: nat)
    requires InLoop(dev, s, timeout) && !e.Callback? && !Credential(e)
    ensures InLoop(dev, Log(s, e), timeout)
  {
    hide Admitted, Callbacks;
    LogAdmitted(dev, s, e, timeout);
  }

  lemma LeaveGood(dev: Device, s: Slave, status: Status, timeout: nat)
    requires InLoop(dev, s, timeout)
    ensures Good(dev, timeout, Leave(s, status))
  {
    hide Callbacks;
    var l := Log(s, Callback(DISCONNECTION));
    LogAdmitted(dev, s, Callback(DISCONNECTION), timeout);
    SameLogSettled(dev, l, Leave(s, status));
  }

  lemma LeaveWithErrorGood(dev: Device, s: Slave, code: Status, put: Status, timeout: nat)
    requires ValidSize(dev.size) && InLoop(dev, s, timeout)
    ensures Good(dev, timeout, LeaveWithError(dev, s, code, put))
  {
    hide InLoop, Good, Leave, SendStatus;
    var parts := [ERROR, Decimal(Code(code))];
    LogInLoop(dev, s, SendFailed, timeout);
    LogInLoop(dev, s, Sent(Msg(0, Join(parts, SEPARATOR))), timeout);
    var p := Put(dev, s, parts, put);
    LeaveGood(dev, p.1, if p.0 != OK then p.0 else code, timeout);
  }

  lemma HandledGood(dev: Device, s: Slave, env: Env, timeout: nat)
    requires ValidSize(dev.size) && InLoop(dev, s, timeout) && s.phase.Looping?
    ensures Good(dev, timeout, Handled(dev, s, env))
  {
    hide Leave, LeaveWithError;
    LeaveGood(dev, s, DISCONNECTED, timeout);
    LeaveWithErrorGood(dev, s, env.messageHandled, env.put, timeout);
  }

  lemma ControlGood(dev: Device, s: Slave, word: seq<byte>, env: Env, timeout: nat)
    requires ValidSize(dev.size) && s.phase.Looping? && InLoop(dev, s, timeout)
    ensures Good(dev, timeout, OnControl(dev, s, word, env))
  {
    hide Leave, Handled, InLoop, Good;
    HandledGood(dev, s, env, timeout);
    LeaveGood(dev, s, DISCONNECTED, timeout);
    LeaveGood(dev, s, DEVICE_ERROR, timeout);
    LeaveGood(dev, s, env.debug, timeout);
  }

  lemma RequestGood(dev: Device, s: Slave, env: Env, timeout: nat)
    requires ValidSize(dev.size) && s.phase.Looping? && InLoop(dev, s, timeout)
    ensures Good(dev, timeout, OnRequest(dev, s, env))
  {
    hide Leave, LeaveWithError, Handled, InLoop, Good;
    HandledGood(dev, s, env, timeout);
    LeaveGood(dev, s, DISCONNECTED, timeout);
    LeaveWithErrorGood(dev, s, env.handled, env.put, timeout);
  }

  lemma MessageGood(dev: Device, s0: Slave, msg: Msg, env: Env, timeout: nat)
    requires ValidSize(dev.size) && s0.phase.Looping? && Good(dev, timeout, s0)
    ensures Good(dev, timeout, OnMessage(dev, s0, msg, env))
  {
    assert InLoop(dev, s0, timeout);
    hide Leave, OnControl, OnRequest, InLoop, Good, SplitUpTo;
    LogInLoop(dev, s0, Heard(msg), timeout);
    var s := Log(s0, Heard(msg));
    var parts := SplitUpTo(msg.payload, SEPARATOR, MAX_MESSAGE_PARTS, true);
    if parts.None? {
      LeaveGood(dev, s, ERROR_PARTS_OVERFLOW, timeout);
    } else if msg.channel == 0 {
      ControlGood(dev, s, parts.value[0], env, timeout);
    } else {
      LogInLoop(dev, s, Handling(s.handler, msg.channel), timeout);
      RequestGood(dev, Log(s, Handling(s.handler, msg.channel)), env, timeout);
    }
  }

  lemma WaitFailedGood(dev: Device, s: Slave, status: Status, timeout: nat)
    requires ValidSize(dev.size) && Good(dev, timeout, s)
    ensures Good(dev, timeout, Step(dev, s, Failed(status)))
  {
    if s.phase.AwaitAuth? {
      SameLog(dev, s.(timeout := timeout), s.(timeout := s.savedTimeout), timeout);
      SameLogSettled(dev, s, s.(timeout := s.savedTimeout));
      FailIsFailure(dev, s.(timeout := s.savedTimeout), status, timeout);
    } else if s.phase.Looping? {
      hide Leave, Admitted;
      LeaveGood(dev, s, status, timeout);
    } else if s.phase.AwaitSelect? {
      hide Before, Settled;
      FailIsFailure(dev, s, status, timeout);
    }
  }

  lemma StepGood(dev: Device, s: Slave, input: Input, timeout: nat)
    requires ValidSize(dev.size) && Good(dev, timeout, s)
    ensures Good(dev, timeout, Step(dev, s, input))
  {
    hide OnHandshake, OnSelect, OnAuth, OnMessage, Before, Settled, Admitted, Failure;
    match input
    case Failed(status) => WaitFailedGood(dev, s, status, timeout);
    case Incoming(msg, env) =>
      match s.phase
      case AwaitHandshake => HandshakeGood(dev, s, msg, env, timeout);
      case AwaitSelect => SelectGood(dev, s, msg, env, timeout);
      case AwaitAuth => AuthGood(dev, s, msg, env, timeout);
      case Looping => MessageGood(dev, s, msg, env, timeout);
      case Ended =>
  }

  /** Every run from an unencrypted start: connected only in the message loop and only after every
      check, what was agreed in force from the reply on, the timeout as it was. */
  lemma {:induction false} RunGood(dev: Device, s: Slave, inputs: seq<Input>)
    requires ValidSize(dev.size) && Initial(s)
    ensures Good(dev, s.timeout, After(dev, s, inputs))
    decreases |inputs|
  {
    hide Good, Step;
    if inputs == [] {
      InitialGood(dev, s);
    } else {
      RunGood(dev, s, inputs[..|inputs| - 1]);
      StepGood(dev, After(dev, s, inputs[..|inputs| - 1]), inputs[|inputs| - 1], s.timeout);
    }
  }

  lemma InitialGood(dev: Device, s: Slave)
    requires Initial(s)
    ensures Good(dev, s.timeout, s)
  {}

  /** At any time at which a run is connected: the callback for it was made, encryption is on if
      either side requires it and then with a method that was offered, and if the device requires
      it, user name and password were accepted before. */
  lemma ConnectedIsChecked(dev: Device, s: Slave, inputs: seq<Input>, i: nat)
    requires ValidSize(dev.size) && Initial(s)
    requires var log := After(dev, s, inputs).log; i < |log| && log[i].connected
    ensures var t := After(dev, s, inputs);
            && (exists c: nat :: c <= i && t.log[c].event == Callback(CONNECTED))
            && (EncryptionRequired(t.flags) || EncryptionRequired(dev.flags) ==> t.log[i].encrypted)
            && (t.log[i].encrypted ==> dev.cipher in t.offered)
            && (AuthenticationRequired(dev.flags) ==> exists a: nat :: a + 1 < i && AuthenticatedAt(t.log, a))
  {
    hide After, Negotiate, Callbacks;
    RunGood(dev, s, inputs);
    var t := After(dev, s, inputs);
    assert Admitted(dev, t, s.timeout);
    var c: nat :| ConnectedFrom(t.log, c) && Checked(dev, t.log, c) && RepliedBefore(t.log, c);
    var first: nat :| first < c && first < |t.log| && t.log[first].event.Sent?;
    var r: nat :| RepliedAt(t.log, r, t.encrypted);
    assert r <= first;
    assert t.log[c].event == Callback(CONNECTED);
    NegotiationSound(t.flags, dev, t.offered);
  }

  /** However a run ends: not connected, the timeout restored, and the callbacks START, then
      CONNECTED and DISCONNECTED both or neither. */
  lemma EndIsClean(dev: Device, s: Slave, inputs: seq<Input>)
    requires ValidSize(dev.size) && Initial(s) && After(dev, s, inputs).phase.Ended?
    ensures var t := After(dev, s, inputs);
            && !t.connected && t.timeout == s.timeout
            && Callbacks(t.log) in {[START_HANDSHAKE], [START_HANDSHAKE, CONNECTED, DISCONNECTION]}
  {
    hide After, Callbacks, Settled;
    RunGood(dev, s, inputs);
  }
}

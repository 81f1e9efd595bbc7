/** What the slave does with each message that arrives: what it puts into the log, whether it goes on,
    and the status it ends with; and that over any run every request is handled, once. */
module SlaveAnswers {
  import opened Constants
  import opened Numbers
  import opened Protocol
  import opened SlaveProtocol
  import opened Strings
  import opened Wire

  // ------------------------------------------------------------ what a step adds to the log

  /** From s to t exactly these events were logged, all of them connected or not as at is. */
  ghost predicate Adds(s: Slave, t: Slave, es: seq<Event>) {
    && |t.log| == |s.log| + |es| && s.log <= t.log
    && forall i | 0 <= i < |es| :: t.log[|s.log| + i].event == es[i]
  }

  /** The connection is given up: the callback is made, and this is the status. */
  ghost predicate LeavesWith(s: Slave, t: Slave, es: seq<Event>, status: Status) {
    Adds(s, t, es + [Callback(DISCONNECTION)]) && t.phase.Ended? && !t.connected && t.status == status
  }

  /** The handshake is given up. */
  ghost predicate StopsWith(s: Slave, t: Slave, es: seq<Event>, status: Status) {
    Adds(s, t, es) && t.phase.Ended? && t.status == status
  }

  /** The message made of these parts can be joined and encoded. */
  ghost predicate Fits(dev: Device, parts: seq<seq<byte>>)
    requires ValidSize(dev.size)
  {
    SendStatus(0, parts, dev.size) == OK
  }

  /** What goes out, or is tried to, for these parts. */
  function Tried(dev: Device, parts: seq<seq<byte>>, put: Status): seq<Event>
    requires ValidSize(dev.size)
  {
    if SendStatus(0, parts, dev.size) != OK then []
    else if put != OK then [SendFailed] else [Sent(Msg(0, Join(parts, SEPARATOR)))]
  }

  lemma AddsNothing(s: Slave, t: Slave)
    requires t.log == s.log
    ensures Adds(s, t, [])
  {}

  lemma AddsMore(s: Slave, t: Slave, u: Slave, es: seq<Event>, fs: seq<Event>)
    requires Adds(s, t, es) && Adds(t, u, fs)
    ensures Adds(s, u, es + fs)
  {
    forall i | 0 <= i < |es + fs|
      ensures u.log[|s.log| + i].event == (es + fs)[i]
    {
      if i >= |es| {
        assert u.log[|t.log| + (i - |es|)].event == fs[i - |es|];
      } else {
        assert u.log[|s.log| + i] == t.log[|s.log| + i];
      }
    }
  }

  lemma AddsOne(s: Slave, e: Event)
    ensures Adds(s, Log(s, e), [e])
  {}

  lemma PutAdds(dev: Device, s: Slave, parts: seq<seq<byte>>, put: Status)
    requires ValidSize(dev.size)
    ensures var p := Put(dev, s, parts, put);
            && Adds(s, p.1, Tried(dev, parts, put)) && p.1 == s.(log := p.1.log)
            && p.0 == (if SendStatus(0, parts, dev.size) != OK then SendStatus(0, parts, dev.size) else put)
  {
    hide SendStatus;
  }

  lemma DisagreeAdds(dev: Device, s: Slave, code: Status, texts: seq<seq<byte>>, put: Status)
    requires ValidSize(dev.size)
    ensures StopsWith(s, Disagree(dev, s, code, texts, put), Tried(dev, [DISAGREEMENT, Decimal(Code(code))] + texts, put), code)
  {
    hide Put, Tried;
    PutAdds(dev, s, [DISAGREEMENT, Decimal(Code(code))] + texts, put);
  }

  // ------------------------------------------------------------ in the loop

  /** The slave goes on exactly if neither the handler nor the device objects. */
  predicate NobodyObjects(env: Env) {
    (env.handled == OK || env.handled == MESSAGE_UNKNOWN) && env.messageHandled == OK
  }

  /** Who objects first. */
  function Objection(env: Env): Status {
    if env.handled == OK || env.handled == MESSAGE_UNKNOWN then env.messageHandled else env.handled
  }

  /** How a connection ends for an objection: an intended disconnect is not an error; any other
      status goes out as an error, and is what the call returns if it does. */
  ghost predicate EndsFor(dev: Device, s: Slave, t: Slave, es: seq<Event>, code: Status, put: Status)
    requires ValidSize(dev.size)
  {
    var parts := [ERROR, Decimal(Code(code))];
    if code == DISCONNECTED then LeavesWith(s, t, es, DISCONNECTED)
    else if !Fits(dev, parts) then LeavesWith(s, t, es, SendStatus(0, parts, dev.size))
    else if put != OK then LeavesWith(s, t, es + [SendFailed], put)
    else LeavesWith(s, t, es + [Sent(Msg(0, Join(parts, SEPARATOR)))], code)
  }

  lemma LeaveAdds(s0: Slave, s: Slave, es: seq<Event>, status: Status)
    requires Adds(s0, s, es)
    ensures LeavesWith(s0, Leave(s, status), es, status)
  {
    AddsOne(s, Callback(DISCONNECTION));
    AddsMore(s0, s, Log(s, Callback(DISCONNECTION)), es, [Callback(DISCONNECTION)]);
  }

  lemma LeaveWithErrorAdds(dev: Device, s0: Slave, s: Slave, es: seq<Event>, code: Status, put: Status)
    requires ValidSize(dev.size) && Adds(s0, s, es) && code != DISCONNECTED
    ensures EndsFor(dev, s0, LeaveWithError(dev, s, code, put), es, code, put)
  {
    hide Put, Leave, LeavesWith, Adds, SendStatus;
    var parts := [ERROR, Decimal(Code(code))];
    PutAdds(dev, s, parts, put);
    var p := Put(dev, s, parts, put);
    AddsMore(s0, s, p.1, es, Tried(dev, parts, put));
    assert es + [] == es;
    LeaveAdds(s0, p.1, es + Tried(dev, parts, put), if p.0 != OK then p.0 else code);
  }

  lemma HandledAdds(dev: Device, s0: Slave, s: Slave, es: seq<Event>, env: Env)
    requires ValidSize(dev.size) && Adds(s0, s, es)
    ensures env.messageHandled == OK ==> Handled(dev, s, env) == s
    ensures env.messageHandled != OK ==> EndsFor(dev, s0, Handled(dev, s, env), es, env.messageHandled, env.put)
  {
    hide Leave, LeaveWithError, LeavesWith, Adds, SendStatus;
    LeaveAdds(s0, s, es, DISCONNECTED);
    if env.messageHandled != OK && env.messageHandled != DISCONNECTED {
      LeaveWithErrorAdds(dev, s0, s, es, env.messageHandled, env.put);
    }
  }

  /** A request: a message on a channel other than the control channel. The handler that was chosen
      gets it, once; the slave goes on, with nothing but the log changed, exactly if nobody objects;
      and if somebody does, the connection ends for that objection. */
  lemma RequestIsHandled(dev: Device, s: Slave, msg: Msg, env: Env)
    requires ValidSize(dev.size) && s.phase.Looping? && msg.channel != 0
    requires SplitUpTo(msg.payload, SEPARATOR, MAX_MESSAGE_PARTS, true).Some?
    ensures var t := Step(dev, s, Incoming(msg, env));
            var es := [Heard(msg), Handling(s.handler, msg.channel)];
            && (t.phase.Looping? <==> NobodyObjects(env))
            && if NobodyObjects(env) then Adds(s, t, es) && t == s.(log := t.log)
               else EndsFor(dev, s, t, es, Objection(env), env.put)
  {
    hide SplitUpTo, Leave, LeaveWithError, Handled, Adds, LeavesWith, SendStatus;
    var heard := Log(s, Heard(msg));
    var handling := Log(heard, Handling(s.handler, msg.channel));
    AddsOne(s, Heard(msg));
    AddsOne(heard, Handling(s.handler, msg.channel));
    AddsMore(s, heard, handling, [Heard(msg)], [Handling(s.handler, msg.channel)]);
    var es := [Heard(msg), Handling(s.handler, msg.channel)];
    assert [Heard(msg)] + [Handling(s.handler, msg.channel)] == es;
    HandledAdds(dev, s, handling, es, env);
    LeaveAdds(s, handling, es, DISCONNECTED);
    if env.handled != OK && env.handled != MESSAGE_UNKNOWN && env.handled != DISCONNECTED {
      LeaveWithErrorAdds(dev, s, handling, es, env.handled, env.put);
    }
    EndsEnded(dev, s, OnRequest(dev, handling, env), es, Objection(env), env.put);
  }

  lemma EndsEnded(dev: Device, s: Slave, t: Slave, es: seq<Event>, code: Status, put: Status)
    requires ValidSize(dev.size)
    ensures EndsFor(dev, s, t, es, code, put) ==> t.phase.Ended?
  {}

  /** A message on the control channel: a disconnect and an error end the connection, a debug message
      if the device objects to it, everything else if the device objects to that. No handler is called. */
  lemma ControlIsObeyed(dev: Device, s: Slave, msg: Msg, env: Env)
    requires ValidSize(dev.size) && s.phase.Looping? && msg.channel == 0
    requires SplitUpTo(msg.payload, SEPARATOR, MAX_MESSAGE_PARTS, true).Some?
    ensures var t := Step(dev, s, Incoming(msg, env));
            var word := SplitUpTo(msg.payload, SEPARATOR, MAX_MESSAGE_PARTS, true).value[0];
            if word == DISCONNECT then LeavesWith(s, t, [Heard(msg)], DISCONNECTED)
            else if word == ERROR then LeavesWith(s, t, [Heard(msg)], DEVICE_ERROR)
            else if word == DEBUG && env.debug != OK then LeavesWith(s, t, [Heard(msg)], env.debug)
            else if env.messageHandled == OK then Adds(s, t, [Heard(msg)]) && t == s.(log := t.log)
            else EndsFor(dev, s, t, [Heard(msg)], env.messageHandled, env.put)
  {
    hide SplitUpTo, Leave, LeaveWithError, Handled, Adds, LeavesWith, SendStatus;
    var heard := Log(s, Heard(msg));
    AddsOne(s, Heard(msg));
    HandledAdds(dev, s, heard, [Heard(msg)], env);
    LeaveAdds(s, heard, [Heard(msg)], DISCONNECTED);
    LeaveAdds(s, heard, [Heard(msg)], DEVICE_ERROR);
    LeaveAdds(s, heard, [Heard(msg)], env.debug);
  }

  /** A message with too many parts, and a wait that fails, end the connection without a word. */
  lemma LoopEnds(dev: Device, s: Slave, msg: Msg, env: Env, status: Status)
    requires ValidSize(dev.size) && s.phase.Looping?
    ensures SplitUpTo(msg.payload, SEPARATOR, MAX_MESSAGE_PARTS, true).None? ==>
              LeavesWith(s, Step(dev, s, Incoming(msg, env)), [Heard(msg)], ERROR_PARTS_OVERFLOW)
    ensures LeavesWith(s, Step(dev, s, Failed(status)), [], status)
  {
    hide SplitUpTo, Leave, OnControl, OnRequest;
    AddsOne(s, Heard(msg));
    LeaveAdds(s, Log(s, Heard(msg)), [Heard(msg)], ERROR_PARTS_OVERFLOW);
    AddsNothing(s, s);
    LeaveAdds(s, s, [], status);
  }

  // ------------------------------------------------------------ before the loop

  /** A greeting the slave understands: on the control channel, four parts, the right words, numeric
      flags and not too many methods. */
  ghost predicate Greeting(msg: Msg) {
    var parts := SplitUpTo(msg.payload, SEPARATOR, MAX_MESSAGE_PARTS, true);
    && msg.channel == 0 && parts.Some? && |parts.value| == 4
    && parts.value[0] == HANDSHAKE && parts.value[1] == VERSION
    && StrToInt32(parts.value[2]).Some? && SplitUpTo(parts.value[3], COMMA, MAX_ENCRYPTIONS, true).Some?
  }

  /** What the slave replies to, and with what, is sent and makes it wait for the selection; a
      refusal is sent with its code; a text the device cannot give ends the call with its status. */
  lemma GreetingIsAnswered(dev: Device, s: Slave, msg: Msg, env: Env)
    requires ValidSize(dev.size) && s.phase.AwaitHandshake? && Greeting(msg)
    ensures var t := Step(dev, s, Incoming(msg, env));
            var greeting := SplitUpTo(msg.payload, SEPARATOR, MAX_MESSAGE_PARTS, true).value;
            var flags, offered := StrToInt32(greeting[2]).value, SplitUpTo(greeting[3], COMMA, MAX_ENCRYPTIONS, true).value;
            match Negotiate(flags, dev, offered)
            case Refused(code, texts) =>
              StopsWith(s, t, [Callback(START_HANDSHAKE)] + Tried(dev, [DISAGREEMENT, Decimal(Code(code))] + texts, env.put), code)
            case Agreed(encrypted) =>
              var parts := [HANDSHAKE, VERSION, env.encoding.text, if encrypted then dev.cipher else [], Decimal(dev.flags), env.protocols.text];
              var st := SendStatus(0, parts, dev.size);
              var es := [Callback(START_HANDSHAKE)] + Tried(dev, parts, env.put);
              if env.encoding.status != OK then StopsWith(s, t, [Callback(START_HANDSHAKE)], env.encoding.status)
              else if env.protocols.status != OK then StopsWith(s, t, [Callback(START_HANDSHAKE)], env.protocols.status)
              else if st != OK then StopsWith(s, t, es, st)
              else if env.put != OK then StopsWith(s, t, es, env.put)
              else Adds(s, t, es) && t.phase.AwaitSelect? && t.encrypted == encrypted && t.flags == flags && t.offered == offered
  {
    hide SplitUpTo, StrToInt32, Negotiate, Put, Disagree, Adds, Tried, SendStatus;
    var greeting := SplitUpTo(msg.payload, SEPARATOR, MAX_MESSAGE_PARTS, true).value;
    var flags, offered := StrToInt32(greeting[2]).value, SplitUpTo(greeting[3], COMMA, MAX_ENCRYPTIONS, true).value;
    var start := Log(s.(connected := false), Callback(START_HANDSHAKE));
    var ready := start.(flags := flags, offered := offered);
    var first := [Callback(START_HANDSHAKE)];
    StartAdds(s, flags, offered);
    match Negotiate(flags, dev, offered)
    case Refused(code, texts) =>
      DisagreeAdds(dev, ready, code, texts, env.put);
      AddsMore(s, ready, Disagree(dev, ready, code, texts, env.put), first, Tried(dev, [DISAGREEMENT, Decimal(Code(code))] + texts, env.put));
    case Agreed(encrypted) =>
      var parts := ReplyParts(dev, encrypted, env);
      PutAdds(dev, ready, parts, env.put);
      var p := Put(dev, ready, parts, env.put);
      AddsMore(s, ready, p.1, first, Tried(dev, parts, env.put));
      SameLogAdds(s, p.1, first + Tried(dev, parts, env.put));
      SameLogAdds(s, ready, first);
  }

  lemma StartAdds(s: Slave, flags: int, offered: seq<seq<byte>>)
    ensures Adds(s, Log(s.(connected := false), Callback(START_HANDSHAKE)).(flags := flags, offered := offered), [Callback(START_HANDSHAKE)])
  {}

  lemma SameLogAdds(s: Slave, t: Slave, es: seq<Event>)
    requires Adds(s, t, es)
    ensures forall u: Slave | u.log == t.log :: Adds(s, u, es)
  {}

  /** Anything else ends the call, with nothing sent. */
  lemma NoGreetingStops(dev: Device, s: Slave, msg: Msg, env: Env)
    requires ValidSize(dev.size) && s.phase.AwaitHandshake? && !Greeting(msg)
    ensures var t := Step(dev, s, Incoming(msg, env));
            var parts := SplitUpTo(msg.payload, SEPARATOR, MAX_MESSAGE_PARTS, true);
            StopsWith(s, t, [Callback(START_HANDSHAKE)],
                      if msg.channel != 0 then PROTOCOL_ERROR
                      else if parts.None? then ERROR_PARTS_OVERFLOW
                      else if |parts.value| != 4 || parts.value[0] != HANDSHAKE || parts.value[1] != VERSION then PROTOCOL_ERROR
                      else if StrToInt32(parts.value[2]).None? then ERROR_CONVERSION
                      else ERROR_PARTS_OVERFLOW)
  {
    hide SplitUpTo, StrToInt32, Reply;
    StartAdds(s, s.flags, s.offered);
  }

  /** The handler for a protocol name: the two the slave has itself, or what the device's function
      gives, and for a name that this does not know, the basic one. */
  ghost predicate HandlerFor(dev: Device, name: seq<byte>, env: Env, h: Handler) {
    if name == EXTENDED then h == Extended
    else if name == BASIC then h == Basic
    else dev.hasProtocols && h == if env.protocol.Some? then env.protocol.value else Basic
  }

  /** A protocol for which there is a handler. */
  predicate Known(dev: Device, name: seq<byte>) { name == EXTENDED || name == BASIC || dev.hasProtocols }

  /** The selection is accepted exactly if it has three parts on the control channel, the first one
      no goodbye and the name of a protocol for which there is a handler, the device takes the
      master's name and languages and gives its own, and the agreement goes out. Then the handler
      stays, and the slave waits for credentials if the device asks for them and is connected if not. */
  lemma SelectionIsAnswered(dev: Device, s: Slave, msg: Msg, env: Env)
    requires ValidSize(dev.size) && s.phase.AwaitSelect?
    ensures var t := Step(dev, s, Incoming(msg, env));
            var parts := SplitUpTo(msg.payload, SEPARATOR, MAX_MESSAGE_PARTS, true);
            var reply := [AGREEMENT, env.name.text];
            var accepted := && msg.channel == 0 && parts.Some? && |parts.value| == 3
                            && parts.value[0] != DISCONNECT && parts.value[0] != ERROR && Known(dev, parts.value[0])
                            && env.masterName == OK && env.languages == OK && env.name.status == OK
                            && SendStatus(0, reply, dev.size) == OK && env.put == OK;
            && (accepted ==> HandlerFor(dev, parts.value[0], env, t.handler))
            && if !accepted then t.phase.Ended? && t.status == SelectionRefusal(dev, msg, env)
               else if AuthenticationRequired(dev.flags) then
                 && Adds(s, t, [Heard(msg), Sent(Msg(0, Join(reply, SEPARATOR)))]) && t.phase.AwaitAuth?
                 && t.savedTimeout == s.timeout && t.timeout == AUTHENTICATION_TIMEOUT
               else
                 && Adds(s, t, [Heard(msg), Sent(Msg(0, Join(reply, SEPARATOR))), Callback(CONNECTED)])
                 && t.phase.Looping? && t.connected && t.timeout == s.timeout
  {
    hide SplitUpTo, Bit, SendStatus, Choose, Known;
    var parts := SplitUpTo(msg.payload, SEPARATOR, MAX_MESSAGE_PARTS, true);
    if parts.Some? {
      ChosenHandler(dev, parts.value[0], env);
    }
  }

  lemma ChosenHandler(dev: Device, name: seq<byte>, env: Env)
    ensures var h := Choose(dev, name, env); h.Some? ==> HandlerFor(dev, name, env, h.value)
    ensures Choose(dev, name, env).Some? <==> Known(dev, name)
  {}

  /** The status for a selection that is not accepted. */
  function SelectionRefusal(dev: Device, msg: Msg, env: Env): Status
    requires ValidSize(dev.size)
  {
    var parts := SplitUpTo(msg.payload, SEPARATOR, MAX_MESSAGE_PARTS, true);
    if msg.channel != 0 then PROTOCOL_ERROR
    else if parts.None? then ERROR_PARTS_OVERFLOW
    else if parts.value[0] == DISCONNECT then DISCONNECTED
    else if parts.value[0] == ERROR then DEVICE_ERROR
    else if |parts.value| != 3 then PROTOCOL_ERROR
    else if !Known(dev, parts.value[0]) then PROTOCOL_NOT_SUPPORTED
    else if env.masterName != OK then env.masterName
    else if env.languages != OK then env.languages
    else if env.name.status != OK then env.name.status
    else
      var st := SendStatus(0, [AGREEMENT, env.name.text], dev.size);
      if st != OK then st else env.put
  }

  /** The credentials are accepted exactly if the message, not trimmed, begins with the word for
      them, the device takes the next two parts, and the agreement goes out. The timeout is set back
      in any case. */
  lemma CredentialsAreChecked(dev: Device, s: Slave, msg: Msg, env: Env)
    requires ValidSize(dev.size) && s.phase.AwaitAuth?
    ensures var t := Step(dev, s, Incoming(msg, env));
            var parts := SplitUpTo(msg.payload, SEPARATOR, MAX_MESSAGE_PARTS, false);
            && t.timeout == s.savedTimeout
            && if parts.None? then StopsWith(s, t, [Heard(msg)], ERROR_PARTS_OVERFLOW)
               else if parts.value[0] != AUTH then
                 StopsWith(s, t, [Heard(msg)] + Tried(dev, [DISAGREEMENT, Decimal(Code(AUTHENTICATION_EXPECTED))], env.put), AUTHENTICATION_EXPECTED)
               else
                 var user, password := PartAt(parts.value, 1), PartAt(parts.value, 2);
                 var refusal := Tried(dev, [DISAGREEMENT, Decimal(Code(AUTHENTICATION_FAILED)), AUTH_FAILED_TEXT], env.put);
                 var st := SendStatus(0, [AGREEMENT], dev.size);
                 if env.username(user) != OK then
                   StopsWith(s, t, [Heard(msg), Username(user, env.username(user))] + refusal, AUTHENTICATION_FAILED)
                 else if env.password(password) != OK then
                   StopsWith(s, t, [Heard(msg), Username(user, OK), Password(password, env.password(password))] + refusal, AUTHENTICATION_FAILED)
                 else
                   var es := [Heard(msg), Username(user, OK), Password(password, OK)] + Tried(dev, [AGREEMENT], env.put);
                   if st != OK then StopsWith(s, t, es, st)
                   else if env.put != OK then StopsWith(s, t, es, env.put)
                   else Adds(s, t, es + [Callback(CONNECTED)]) && t.phase.Looping? && t.connected
  {
    hide SplitUpTo, SendStatus, OnCredentials, Disagree, Adds, Tried, Put;
    var heard := Log(s, Heard(msg)).(timeout := s.savedTimeout);
    AddsOne(s, Heard(msg));
    SameLogAdds(s, Log(s, Heard(msg)), [Heard(msg)]);
    var parts := SplitUpTo(msg.payload, SEPARATOR, MAX_MESSAGE_PARTS, false);
    if parts.Some? && parts.value[0] != AUTH {
      var refusal := [DISAGREEMENT, Decimal(Code(AUTHENTICATION_EXPECTED))];
      assert refusal + [] == refusal;
      DisagreeAdds(dev, heard, AUTHENTICATION_EXPECTED, [], env.put);
      AddsMore(s, heard, Disagree(dev, heard, AUTHENTICATION_EXPECTED, [], env.put), [Heard(msg)], Tried(dev, refusal, env.put));
      DisagreeKeepsTimeout(dev, heard, AUTHENTICATION_EXPECTED, [], env.put);
    } else if parts.Some? {
      var user, password := PartAt(parts.value, 1), PartAt(parts.value, 2);
      var u, p := Username(user, env.username(user)), Password(password, env.password(password));
      assert [Heard(msg)] + [u] == [Heard(msg), u] && [Heard(msg)] + [u, p] == [Heard(msg), u, p];
      CredentialsAdd(dev, s, heard, [Heard(msg)], parts.value, env);
    }
  }

  /** A wait that fails ends the handshake with its status; the longer timeout goes with it. */
  lemma EarlyWaitEnds(dev: Device, s: Slave, status: Status)
    requires ValidSize(dev.size) && (s.phase.AwaitSelect? || s.phase.AwaitAuth?)
    ensures var t := Step(dev, s, Failed(status));
            StopsWith(s, t, [], status) && t.timeout == if s.phase.AwaitAuth? then s.savedTimeout else s.timeout
  {}

  lemma CredentialsAdd(dev: Device, s0: Slave, s: Slave, es: seq<Event>, parts: seq<seq<byte>>, env: Env)
    requires ValidSize(dev.size) && Adds(s0, s, es)
    ensures var t := OnCredentials(dev, s, parts, env);
            var user, password := PartAt(parts, 1), PartAt(parts, 2);
            var refusal := Tried(dev, [DISAGREEMENT, Decimal(Code(AUTHENTICATION_FAILED)), AUTH_FAILED_TEXT], env.put);
            var st := SendStatus(0, [AGREEMENT], dev.size);
            && t.timeout == s.timeout
            && if env.username(user) != OK then
                 StopsWith(s0, t, es + [Username(user, env.username(user))] + refusal, AUTHENTICATION_FAILED)
               else if env.password(password) != OK then
                 StopsWith(s0, t, es + [Username(user, OK), Password(password, env.password(password))] + refusal, AUTHENTICATION_FAILED)
               else
                 var all := es + [Username(user, OK), Password(password, OK)] + Tried(dev, [AGREEMENT], env.put);
                 if st != OK then StopsWith(s0, t, all, st)
                 else if env.put != OK then StopsWith(s0, t, all, env.put)
                 else Adds(s0, t, all + [Callback(CONNECTED)]) && t.phase.Looping? && t.connected
  {
    hide SendStatus, Disagree, Adds, Tried, Put;
    var user := Username(PartAt(parts, 1), env.username(PartAt(parts, 1)));
    var password := Password(PartAt(parts, 2), env.password(PartAt(parts, 2)));
    var named := Log(s, user);
    var known := Log(named, password);
    var texts := [AUTH_FAILED_TEXT];
    var refusal := [DISAGREEMENT, Decimal(Code(AUTHENTICATION_FAILED)), AUTH_FAILED_TEXT];
    assert [DISAGREEMENT, Decimal(Code(AUTHENTICATION_FAILED))] + texts == refusal;
    AddsOne(s, user);
    AddsMore(s0, s, named, es, [user]);
    AddsOne(named, password);
    AddsMore(s0, named, known, es + [user], [password]);
    assert es + [user] + [password] == es + [user, password];
    if user.status != OK {
      DisagreeAdds(dev, named, AUTHENTICATION_FAILED, texts, env.put);
      AddsMore(s0, named, Disagree(dev, named, AUTHENTICATION_FAILED, texts, env.put), es + [user], Tried(dev, refusal, env.put));
      DisagreeKeepsTimeout(dev, named, AUTHENTICATION_FAILED, texts, env.put);
    } else if password.status != OK {
      DisagreeAdds(dev, known, AUTHENTICATION_FAILED, texts, env.put);
      AddsMore(s0, known, Disagree(dev, known, AUTHENTICATION_FAILED, texts, env.put), es + [user, password], Tried(dev, refusal, env.put));
      DisagreeKeepsTimeout(dev, known, AUTHENTICATION_FAILED, texts, env.put);
    } else {
      AgreementAdds(dev, s0, known, es + [user, password], env);
    }
  }

  lemma AgreementAdds(dev: Device, s0: Slave, s: Slave, es: seq<Event>, env: Env)
    requires ValidSize(dev.size) && Adds(s0, s, es)
    ensures var p := Put(dev, s, [AGREEMENT], env.put);
            var t := if p.0 != OK then Fail(p.1, p.0) else Connect(p.1);
            var st := SendStatus(0, [AGREEMENT], dev.size);
            var all := es + Tried(dev, [AGREEMENT], env.put);
            && t.timeout == s.timeout
            && if st != OK then StopsWith(s0, t, all, st)
               else if env.put != OK then StopsWith(s0, t, all, env.put)
               else Adds(s0, t, all + [Callback(CONNECTED)]) && t.phase.Looping? && t.connected
  {
    hide SendStatus, Adds, Tried, Put;
    var p := Put(dev, s, [AGREEMENT], env.put);
    var all := es + Tried(dev, [AGREEMENT], env.put);
    PutAdds(dev, s, [AGREEMENT], env.put);
    AddsMore(s0, s, p.1, es, Tried(dev, [AGREEMENT], env.put));
    SameLogAdds(s0, p.1, all);
    ConnectAdds(p.1);
    AddsMore(s0, p.1, Connect(p.1), all, [Callback(CONNECTED)]);
  }

  lemma ConnectAdds(s: Slave)
    ensures Adds(s, Connect(s), [Callback(CONNECTED)])
  {}

  lemma DisagreeKeepsTimeout(dev: Device, s: Slave, code: Status, texts: seq<seq<byte>>, put: Status)
    requires ValidSize(dev.size)
    ensures Disagree(dev, s, code, texts, put).timeout == s.timeout
  {
    hide SendStatus;
  }

  // ------------------------------------------------------------ every request, in every run

  /** A message on a channel other than the control channel, heard while connected. */
  ghost predicate RequestAt(log: seq<Entry>, i: nat) {
    && i < |log| && log[i].connected && log[i].event.Heard? && log[i].event.msg.channel != 0
    && SplitUpTo(log[i].event.msg.payload, SEPARATOR, MAX_MESSAGE_PARTS, true).Some?
  }

  /** Every request is followed at once by the call of the handler for its channel, and the handler
      is called for nothing else. */
  ghost predicate AllHandled(log: seq<Entry>, handler: Handler) {
    && (forall i: nat | RequestAt(log, i) :: i + 1 < |log| && log[i + 1].event == Handling(handler, log[i].event.msg.channel))
    && (forall i | 0 <= i < |log| && log[i].event.Handling? ::
          i > 0 && RequestAt(log, i - 1) && log[i].event == Handling(handler, log[i - 1].event.msg.channel))
  }

  /** No request yet, and no handler called. */
  ghost predicate NoRequests(log: seq<Entry>) {
    forall i | 0 <= i < |log| :: !log[i].event.Handling? && !(log[i].connected && log[i].event.Heard?)
  }

  lemma NoRequestsAllHandled(log: seq<Entry>, handler: Handler)
    requires NoRequests(log)
    ensures AllHandled(log, handler)
  {
    hide SplitUpTo;
  }

  /** Before the loop nothing of the kind is logged. */
  ghost predicate Quiet(s: Slave, t: Slave) {
    && s.log <= t.log
    && forall i | |s.log| <= i < |t.log| :: !t.log[i].event.Handling? && !(t.log[i].connected && t.log[i].event.Heard?)
  }

  lemma QuietThen(s: Slave, t: Slave, u: Slave)
    requires Quiet(s, t) && Quiet(t, u)
    ensures Quiet(s, u)
  {}

  lemma QuietKeeps(s: Slave, t: Slave)
    requires Quiet(s, t) && NoRequests(s.log)
    ensures NoRequests(t.log)
  {}

  lemma PutIsQuiet(dev: Device, s: Slave, parts: seq<seq<byte>>, put: Status)
    requires ValidSize(dev.size)
    ensures var p := Put(dev, s, parts, put); Quiet(s, p.1) && p.1 == s.(log := p.1.log)
  {
    hide SendStatus;
  }

  lemma DisagreeIsQuiet(dev: Device, s: Slave, code: Status, texts: seq<seq<byte>>, put: Status)
    requires ValidSize(dev.size)
    ensures Quiet(s, Disagree(dev, s, code, texts, put))
  {
    hide Put;
    PutIsQuiet(dev, s, [DISAGREEMENT, Decimal(Code(code))] + texts, put);
  }

  lemma HandshakeIsQuiet(dev: Device, s0: Slave, msg: Msg, env: Env)
    requires ValidSize(dev.size)
    ensures Quiet(s0, OnHandshake(dev, s0, msg, env))
  {
    hide Reply, SplitUpTo, StrToInt32;
    var s := Log(s0.(connected := false), Callback(START_HANDSHAKE));
    forall flags: int, offered: seq<seq<byte>>
      ensures Quiet(s, Reply(dev, s.(flags := flags, offered := offered), env))
    {
      ReplyIsQuiet(dev, s.(flags := flags, offered := offered), env);
    }
  }

  lemma ReplyIsQuiet(dev: Device, s: Slave, env: Env)
    requires ValidSize(dev.size)
    ensures Quiet(s, Reply(dev, s, env))
  {
    hide Put, Disagree, Negotiate;
    match Negotiate(s.flags, dev, s.offered)
    case Refused(code, texts) => DisagreeIsQuiet(dev, s, code, texts, env.put);
    case Agreed(encrypted) => PutIsQuiet(dev, s, ReplyParts(dev, encrypted, env), env.put);
  }

  lemma SelectIsQuiet(dev: Device, s0: Slave, msg: Msg, env: Env)
    requires ValidSize(dev.size) && !s0.connected
    ensures Quiet(s0, OnSelect(dev, s0, msg, env))
  {
    hide Put, SplitUpTo;
    var s := Log(s0, Heard(msg));
    PutIsQuiet(dev, s, [AGREEMENT, env.name.text], env.put);
    forall h: Handler
      ensures Put(dev, s.(handler := h), [AGREEMENT, env.name.text], env.put).1.log == Put(dev, s, [AGREEMENT, env.name.text], env.put).1.log
    {
      SameEntries(dev, s, s.(handler := h), [AGREEMENT, env.name.text], env.put);
    }
  }

  lemma SameEntries(dev: Device, s: Slave, s': Slave, parts: seq<seq<byte>>, put: Status)
    requires ValidSize(dev.size) && s' == s.(handler := s'.handler)
    ensures Put(dev, s', parts, put).1.log == Put(dev, s, parts, put).1.log
  {}

  lemma AuthIsQuiet(dev: Device, s0: Slave, msg: Msg, env: Env)
    requires ValidSize(dev.size) && !s0.connected
    ensures Quiet(s0, OnAuth(dev, s0, msg, env))
  {
    hide Put, SplitUpTo, Disagree;
    var s := Log(s0, Heard(msg)).(timeout := s0.savedTimeout);
    DisagreeIsQuiet(dev, s, AUTHENTICATION_EXPECTED, [], env.put);
    var parts := SplitUpTo(msg.payload, SEPARATOR, MAX_MESSAGE_PARTS, false);
    if parts.Some? {
      CredentialsAreQuiet(dev, s, parts.value, env);
    }
  }

  lemma CredentialsAreQuiet(dev: Device, s: Slave, parts: seq<seq<byte>>, env: Env)
    requires ValidSize(dev.size)
    ensures Quiet(s, OnCredentials(dev, s, parts, env))
  {
    hide Put, Disagree;
    var named := Log(s, Username(PartAt(parts, 1), env.username(PartAt(parts, 1))));
    var known := Log(named, Password(PartAt(parts, 2), env.password(PartAt(parts, 2))));
    DisagreeIsQuiet(dev, named, AUTHENTICATION_FAILED, [AUTH_FAILED_TEXT], env.put);
    DisagreeIsQuiet(dev, known, AUTHENTICATION_FAILED, [AUTH_FAILED_TEXT], env.put);
    PutIsQuiet(dev, known, [AGREEMENT], env.put);
  }

  /** In the loop: a request and its handler first, then only what goes out and the callback. */
  lemma LoopHandles(dev: Device, s: Slave, input: Input)
    requires ValidSize(dev.size) && s.phase.Looping? && s.connected && AllHandled(s.log, s.handler)
    ensures var t := Step(dev, s, input); AllHandled(t.log, t.handler) && t.handler == s.handler
  {
    hide SplitUpTo, AllHandled, Put;
    match input
    case Failed(status) => PlainEntryKeeps(s.log, s.handler, Entry(Callback(DISCONNECTION), s.connected, s.encrypted, s.timeout));
    case Incoming(msg, env) =>
      var heard := Log(s, Heard(msg));
      if SplitUpTo(msg.payload, SEPARATOR, MAX_MESSAGE_PARTS, true).Some? && msg.channel != 0 {
        var handling := Log(heard, Handling(s.handler, msg.channel));
        RequestKeeps(s, msg);
        TailKeeps(dev, handling, env.handled, env.put);
        TailKeeps(dev, handling, env.messageHandled, env.put);
      } else {
        PlainEntryKeeps(s.log, s.handler, Entry(Heard(msg), s.connected, s.encrypted, s.timeout));
        TailKeeps(dev, heard, env.messageHandled, env.put);
      }
  }

  lemma RequestKeeps(s: Slave, msg: Msg)
    requires s.connected && AllHandled(s.log, s.handler) && msg.channel != 0
    requires SplitUpTo(msg.payload, SEPARATOR, MAX_MESSAGE_PARTS, true).Some?
    ensures AllHandled(Log(Log(s, Heard(msg)), Handling(s.handler, msg.channel)).log, s.handler)
  {
    hide SplitUpTo;
    var log := Log(Log(s, Heard(msg)), Handling(s.handler, msg.channel)).log;
    forall i: nat | RequestAt(log, i)
      ensures i + 1 < |log| && log[i + 1].event == Handling(s.handler, log[i].event.msg.channel)
    {
      if i < |s.log| {
        assert RequestAt(s.log, i);
      }
    }
    forall i | 0 <= i < |log| && log[i].event.Handling?
      ensures i > 0 && RequestAt(log, i - 1) && log[i].event == Handling(s.handler, log[i - 1].event.msg.channel)
    {
      if i < |s.log| {
        assert s.log[i].event.Handling? && RequestAt(s.log, i - 1);
      }
    }
  }

  /** An entry that is neither a request nor a call of the handler. */
  lemma PlainEntryKeeps(log: seq<Entry>, handler: Handler, e: Entry)
    requires AllHandled(log, handler) && !e.event.Handling? && !RequestAt([e], 0)
    ensures AllHandled(log + [e], handler)
  {
    hide SplitUpTo;
    assert (log + [e])[|log|] == [e][0];
    assert !RequestAt(log + [e], |log|);
    forall i: nat | RequestAt(log + [e], i)
      ensures i + 1 < |log| && (log + [e])[i + 1].event == Handling(handler, (log + [e])[i].event.msg.channel)
    {
      assert RequestAt(log, i);
    }
    forall i | 0 <= i < |log + [e]| && (log + [e])[i].event.Handling?
      ensures i > 0 && RequestAt(log + [e], i - 1) && (log + [e])[i].event == Handling(handler, (log + [e])[i - 1].event.msg.channel)
    {
      assert log[i].event.Handling? && RequestAt(log, i - 1);
    }
  }

  lemma LeaveKeeps(s: Slave, handler: Handler)
    requires AllHandled(s.log, handler)
    ensures forall status: Status :: AllHandled(Leave(s, status).log, handler) && Leave(s, status).handler == s.handler
  {
    hide AllHandled;
    PlainEntryKeeps(s.log, handler, Entry(Callback(DISCONNECTION), s.connected, s.encrypted, s.timeout));
  }

  lemma PutKeeps(dev: Device, s: Slave, parts: seq<seq<byte>>, put: Status, handler: Handler)
    requires ValidSize(dev.size) && AllHandled(s.log, handler)
    ensures var p := Put(dev, s, parts, put); AllHandled(p.1.log, handler) && p.1.handler == s.handler
  {
    hide AllHandled, SendStatus;
    PlainEntryKeeps(s.log, handler, Entry(Sent(Msg(0, Join(parts, SEPARATOR))), s.connected, s.encrypted, s.timeout));
    PlainEntryKeeps(s.log, handler, Entry(SendFailed, s.connected, s.encrypted, s.timeout));
  }

  /** What is logged behind a message in the loop. */
  lemma TailKeeps(dev: Device, s: Slave, code: Status, put: Status)
    requires ValidSize(dev.size) && AllHandled(s.log, s.handler)
    ensures forall status: Status :: AllHandled(Leave(s, status).log, s.handler) && Leave(s, status).handler == s.handler
    ensures AllHandled(LeaveWithError(dev, s, code, put).log, s.handler) && LeaveWithError(dev, s, code, put).handler == s.handler
  {
    hide AllHandled, Put, Leave;
    var parts := [ERROR, Decimal(Code(code))];
    LeaveKeeps(s, s.handler);
    PutKeeps(dev, s, parts, put, s.handler);
    LeaveKeeps(Put(dev, s, parts, put).1, s.handler);
  }

  /** As far as a run has come. */
  ghost predicate HandledSoFar(s: Slave) {
    if s.phase.AwaitHandshake? || s.phase.AwaitSelect? || s.phase.AwaitAuth? then NoRequests(s.log) else AllHandled(s.log, s.handler)
  }

  lemma StepHandles(dev: Device, s: Slave, input: Input, timeout: nat)
    requires ValidSize(dev.size) && Good(dev, timeout, s) && HandledSoFar(s)
    ensures HandledSoFar(Step(dev, s, input))
  {
    PhaseConnected(dev, s, timeout);
    hide OnHandshake, OnSelect, OnAuth, OnMessage, Leave, Good, NoRequests, AllHandled, Quiet;
    var t := Step(dev, s, input);
    if s.phase.Looping? {
      LoopHandles(dev, s, input);
      LoopStays(dev, s, input);
    } else if !s.phase.Ended? {
      match input {
        case Failed(status) => NoRequestsAllHandled(t.log, t.handler);
        case Incoming(msg, env) =>
          if s.phase.AwaitHandshake? {
            HandshakeIsQuiet(dev, s, msg, env);
          } else if s.phase.AwaitSelect? {
            SelectIsQuiet(dev, s, msg, env);
          } else {
            AuthIsQuiet(dev, s, msg, env);
          }
          QuietKeeps(s, t);
          NoRequestsAllHandled(t.log, t.handler);
      }
    }
  }

  lemma PhaseConnected(dev: Device, s: Slave, timeout: nat)
    requires Good(dev, timeout, s)
    ensures s.phase.Looping? ==> s.connected
    ensures s.phase.AwaitSelect? || s.phase.AwaitAuth? ==> !s.connected
  {}

  lemma LoopStays(dev: Device, s: Slave, input: Input)
    requires ValidSize(dev.size) && s.phase.Looping?
    ensures var t := Step(dev, s, input); t.phase.Looping? || t.phase.Ended?
  {
    hide SplitUpTo, Put;
  }

  /** In every run: each request that is heard once the connection stands is followed at once by
      exactly one call of the handler, for the channel of the request, and the handler is called at no
      other time. */
  lemma {:induction false} RequestsAreHandled(dev: Device, s: Slave, inputs: seq<Input>)
    requires ValidSize(dev.size) && Initial(s)
    ensures var t := After(dev, s, inputs); AllHandled(t.log, t.handler) && HandledSoFar(t)
    decreases |inputs|
  {
    hide Step, NoRequests, AllHandled, Good;
    if inputs == [] {
      assert NoRequests(s.log) by { NothingLogged(); }
    } else {
      RequestsAreHandled(dev, s, inputs[..|inputs| - 1]);
      RunGood(dev, s, inputs[..|inputs| - 1]);
      StepHandles(dev, After(dev, s, inputs[..|inputs| - 1]), inputs[|inputs| - 1], s.timeout);
    }
    var t := After(dev, s, inputs);
    if NoRequests(t.log) {
      NoRequestsAllHandled(t.log, t.handler);
    }
  }

  lemma NothingLogged()
    ensures NoRequests([])
  {}

  /** The handler chosen by the selection is the one to the end. */
  lemma {:induction false} HandlerStays(dev: Device, s: Slave, inputs: seq<Input>)
    requires ValidSize(dev.size) && (s.phase.AwaitAuth? || s.phase.Looping? || s.phase.Ended?)
    ensures var t := After(dev, s, inputs);
            t.handler == s.handler && (t.phase.AwaitAuth? || t.phase.Looping? || t.phase.Ended?)
    decreases |inputs|
  {
    hide Step;
    if inputs != [] {
      HandlerStays(dev, s, inputs[..|inputs| - 1]);
      StepKeepsHandler(dev, After(dev, s, inputs[..|inputs| - 1]), inputs[|inputs| - 1]);
    }
  }

  ghost predicate Chosen(s: Slave, t: Slave) {
    t.handler == s.handler && (t.phase.AwaitAuth? || t.phase.Looping? || t.phase.Ended?)
  }

  lemma StepKeepsHandler(dev: Device, s: Slave, input: Input)
    requires ValidSize(dev.size) && (s.phase.AwaitAuth? || s.phase.Looping? || s.phase.Ended?)
    ensures Chosen(s, Step(dev, s, input))
  {
    hide OnAuth, OnMessage;
    if input.Incoming? && s.phase.AwaitAuth? {
      AuthKeepsHandler(dev, s, input.msg, input.env);
    } else if input.Incoming? && s.phase.Looping? {
      MessageKeepsHandler(dev, s, input.msg, input.env);
    }
  }

  lemma EndKeepsHandler(dev: Device, s: Slave, code: Status, texts: seq<seq<byte>>, put: Status)
    requires ValidSize(dev.size)
    ensures Chosen(s, Disagree(dev, s, code, texts, put)) && Chosen(s, LeaveWithError(dev, s, code, put))
  {
    hide Put;
    PutAdds(dev, s, [DISAGREEMENT, Decimal(Code(code))] + texts, put);
    PutAdds(dev, s, [ERROR, Decimal(Code(code))], put);
  }

  lemma AuthKeepsHandler(dev: Device, s: Slave, msg: Msg, env: Env)
    requires ValidSize(dev.size)
    ensures Chosen(s, OnAuth(dev, s, msg, env))
  {
    hide SplitUpTo, Put, Disagree, OnCredentials;
    var heard := Log(s, Heard(msg)).(timeout := s.savedTimeout);
    EndKeepsHandler(dev, heard, AUTHENTICATION_EXPECTED, [], env.put);
    forall parts: seq<seq<byte>>
      ensures Chosen(heard, OnCredentials(dev, heard, parts, env))
    {
      CredentialsKeepHandler(dev, heard, parts, env);
    }
  }

  lemma CredentialsKeepHandler(dev: Device, s: Slave, parts: seq<seq<byte>>, env: Env)
    requires ValidSize(dev.size)
    ensures Chosen(s, OnCredentials(dev, s, parts, env))
  {
    hide Put, Disagree;
    var named := Log(s, Username(PartAt(parts, 1), env.username(PartAt(parts, 1))));
    var known := Log(named, Password(PartAt(parts, 2), env.password(PartAt(parts, 2))));
    EndKeepsHandler(dev, named, AUTHENTICATION_FAILED, [AUTH_FAILED_TEXT], env.put);
    EndKeepsHandler(dev, known, AUTHENTICATION_FAILED, [AUTH_FAILED_TEXT], env.put);
    PutAdds(dev, known, [AGREEMENT], env.put);
  }

  lemma MessageKeepsHandler(dev: Device, s: Slave, msg: Msg, env: Env)
    requires ValidSize(dev.size) && s.phase.Looping?
    ensures Chosen(s, OnMessage(dev, s, msg, env))
  {
    hide SplitUpTo, LeaveWithError;
    var heard := Log(s, Heard(msg));
    var handling := Log(heard, Handling(s.handler, msg.channel));
    EndKeepsHandler(dev, heard, env.messageHandled, [], env.put);
    EndKeepsHandler(dev, handling, env.messageHandled, [], env.put);
    EndKeepsHandler(dev, handling, env.handled, [], env.put);
  }
}

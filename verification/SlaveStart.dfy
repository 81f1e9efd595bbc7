/** opdi_slave_start and the message loop as they run: one call that goes from check to check and
    leaves at the first that fails. */
module SlaveStart {
  import opened Constants
  import opened Numbers
  import opened Protocol
  import opened SlaveProtocol
  import opened Strings
  import opened Wire

  class OpdiSlave {
    const dev: Device

    var connected: bool
    var encryption: bool
    var timeout: nat

    /** The outcomes of the waits for messages still to come; when there are none left the link
        fails with fault. */
    var inbox: seq<Input>
    const fault: Status

    /** Local variables of opdi_slave_start that outlive one of its sections. */
    var savedTimeout: nat
    var handler: Handler
    var flags: int
    var offered: seq<seq<byte>>

    ghost var phase: Phase
    ghost var status: Status
    ghost var log: seq<Entry>
    ghost var taken: seq<Input>

    ghost function Snapshot(): Slave
      reads this
    {
      Slave(phase, connected, encryption, timeout, savedTimeout, handler, status, flags, offered, log)
    }

    ghost predicate Valid() { ValidSize(dev.size) && fault != OK }

    /** A wait that fails does so with a status that says so. */
    ghost predicate LinkFails()
      reads `inbox
    {
      forall i | 0 <= i < |inbox| && inbox[i].Failed? :: inbox[i].status != OK
    }

    /** opdi_slave_init: the handshake starts unencrypted. */
    constructor (dev: Device, timeout: nat, inbox: seq<Input>, fault: Status)
      requires ValidSize(dev.size) && fault != OK
      ensures Valid() && this.dev == dev && Initial(Snapshot()) && this.timeout == timeout && this.inbox == inbox && taken == []
    {
      this.dev, this.timeout, this.inbox, this.fault := dev, timeout, inbox, fault;
      connected, encryption, savedTimeout, handler, flags, offered := false, false, 0, Basic, 0, [];
      phase, status, log, taken := AwaitHandshake, OK, [], [];
    }

    // ---------------------------------------------------------- parts of the work

    ghost method Note(e: Event)
      modifies `log
      ensures Snapshot() == Log(old(Snapshot()), e)
    {
      log := log + [Entry(e, connected, encryption, timeout)];
    }

    ghost method Stop(code: Status)
      modifies `phase, `status
      ensures Snapshot() == Fail(old(Snapshot()), code)
    {
      phase, status := Ended, code;
    }

    /** opdi_get_message. */
    method GetMessage() returns (input: Input)
      modifies `inbox, `taken
      ensures old(inbox) != [] ==> input == old(inbox)[0] && inbox == old(inbox)[1..]
      ensures old(inbox) == [] ==> input == Failed(fault) && inbox == []
      ensures taken == old(taken) + [input]
    {
      if |inbox| == 0 {
        input := Failed(fault);
      } else {
        input, inbox := inbox[0], inbox[1..];
      }
      taken := taken + [input];
    }

    method PutParts(parts: seq<seq<byte>>, put: Status) returns (result: Status)
      requires Valid()
      modifies `log
      ensures (result, Snapshot()) == Put(dev, old(Snapshot()), parts, put)
    {
      result := SendStatus(0, parts, dev.size);
      if result != OK {
        return;
      }
      if put != OK {
        Note(SendFailed);
        return put;
      }
      Note(Sent(Msg(0, Join(parts, SEPARATOR))));
    }

    /** Tells the master why, and leaves with the code. */
    method Refuse(code: Status, texts: seq<seq<byte>>, put: Status) returns (result: Status)
      requires Valid()
      modifies `log, `phase, `status
      ensures Snapshot() == Disagree(dev, old(Snapshot()), code, texts, put) && result == code
      ensures phase.Ended? && status == code
    {
      var ignored := PutParts([DISAGREEMENT, Decimal(Code(code))] + texts, put);
      Stop(code);
      return code;
    }

    /** Whether the device's encryption method is among those offered. */
    method Supported() returns (found: bool)
      ensures found <==> dev.cipher in offered
    {
      var i := 0;
      while i < |offered|
        invariant 0 <= i <= |offered| && dev.cipher !in offered[..i]
      {
        if offered[i] == dev.cipher {
          return true;
        }
        assert offered[..i + 1] == offered[..i] + [offered[i]];
        i := i + 1;
      }
      assert offered[..i] == offered;
      return false;
    }

    method NegotiateEncryption() returns (n: Negotiation)
      ensures n == Negotiate(flags, dev, offered)
    {
      var supported;
      if EncryptionRequired(flags) {
        if EncryptionNotAllowed(dev.flags) || dev.cipher == [] {
          return Refused(ENCRYPTION_NOT_SUPPORTED, [NOT_SUPPORTED_TEXT, BY_DEVICE_TEXT]);
        }
        supported := Supported();
        return if supported then Agreed(true) else Refused(ENCRYPTION_NOT_SUPPORTED, [NOT_SUPPORTED_TEXT, dev.cipher]);
      } else if EncryptionRequired(dev.flags) {
        if EncryptionNotAllowed(flags) {
          return Refused(ENCRYPTION_REQUIRED, [REQUIRED_TEXT, BY_DEVICE_TEXT]);
        }
        supported := Supported();
        return if supported then Agreed(true) else Refused(ENCRYPTION_REQUIRED, [REQUIRED_TEXT, dev.cipher]);
      }
      if EncryptionNotAllowed(dev.flags) {
        return Agreed(false);
      }
      supported := Supported();
      return Agreed(supported);
    }

    // ---------------------------------------------------------- the sections

    /** From the handshake message to the reply. */
    method Handshake(msg: Msg, env: Env) returns (result: Status)
      requires Valid() && phase.AwaitHandshake?
      modifies this
      ensures inbox == old(inbox) && taken == old(taken)
      ensures Snapshot() == OnHandshake(dev, old(Snapshot()), msg, env)
      ensures (result == OK <==> phase.AwaitSelect?) && (result != OK ==> phase.Ended? && status == result)
    {
      hide SplitUpTo, StrToInt32, Reply;
      connected := false;
      Note(Callback(START_HANDSHAKE));
      if msg.channel != 0 {
        Stop(PROTOCOL_ERROR);
        return PROTOCOL_ERROR;
      }
      var parts := SplitUpTo(msg.payload, SEPARATOR, MAX_MESSAGE_PARTS, true);
      if parts.None? {
        Stop(ERROR_PARTS_OVERFLOW);
        return ERROR_PARTS_OVERFLOW;
      }
      if |parts.value| != 4 || parts.value[0] != HANDSHAKE || parts.value[1] != VERSION {
        Stop(PROTOCOL_ERROR);
        return PROTOCOL_ERROR;
      }
      var number := StrToInt32(parts.value[2]);
      if number.None? {
        Stop(ERROR_CONVERSION);
        return ERROR_CONVERSION;
      }
      var encryptions := SplitUpTo(parts.value[3], COMMA, MAX_ENCRYPTIONS, true);
      if encryptions.None? {
        Stop(ERROR_PARTS_OVERFLOW);
        return ERROR_PARTS_OVERFLOW;
      }
      flags, offered := number.value, encryptions.value;
      result := SendReply(env);
    }

    method SendReply(env: Env) returns (result: Status)
      requires Valid() && phase.AwaitHandshake?
      modifies this
      ensures inbox == old(inbox) && taken == old(taken)
      ensures Snapshot() == Reply(dev, old(Snapshot()), env)
      ensures (result == OK <==> phase.AwaitSelect?) && (result != OK ==> phase.Ended? && status == result)
    {
      hide Negotiate, Put;
      var n := NegotiateEncryption();
      if n.Refused? {
        RefusalHasCode(flags, dev, offered);
        result := Refuse(n.code, n.texts, env.put);
        return;
      }
      if env.encoding.status != OK {
        Stop(env.encoding.status);
        return env.encoding.status;
      }
      if env.protocols.status != OK {
        Stop(env.protocols.status);
        return env.protocols.status;
      }
      result := PutParts(ReplyParts(dev, n.encrypted, env), env.put);
      PutKeepsPhase(dev, old(Snapshot()), ReplyParts(dev, n.encrypted, env), env.put);
      if result != OK {
        Stop(result);
        return;
      }
      encryption := n.encrypted;
      phase := AwaitSelect;
    }

    /** From the protocol select message to the name of the slave. */
    method ProtocolSelect(msg: Msg, env: Env) returns (result: Status)
      requires Valid() && phase.AwaitSelect?
      modifies this
      ensures inbox == old(inbox) && taken == old(taken)
      ensures Snapshot() == OnSelect(dev, old(Snapshot()), msg, env)
      ensures if result != OK then phase.Ended? && status == result
              else if AuthenticationRequired(dev.flags) then phase.AwaitAuth? else phase.Looping?
    {
      hide SplitUpTo, Choose, Named;
      Note(Heard(msg));
      if msg.channel != 0 {
        Stop(PROTOCOL_ERROR);
        return PROTOCOL_ERROR;
      }
      var parts := SplitUpTo(msg.payload, SEPARATOR, MAX_MESSAGE_PARTS, true);
      if parts.None? {
        Stop(ERROR_PARTS_OVERFLOW);
        return ERROR_PARTS_OVERFLOW;
      }
      if parts.value[0] == DISCONNECT {
        Stop(DISCONNECTED);
        return DISCONNECTED;
      }
      if parts.value[0] == ERROR {
        Stop(DEVICE_ERROR);
        return DEVICE_ERROR;
      }
      if |parts.value| != 3 {
        Stop(PROTOCOL_ERROR);
        return PROTOCOL_ERROR;
      }
      result := TakeSelection(parts.value[0], env);
    }

    method TakeSelection(magic: seq<byte>, env: Env) returns (result: Status)
      requires Valid() && phase.AwaitSelect?
      modifies this
      ensures inbox == old(inbox) && taken == old(taken)
      ensures Snapshot() == Selected(dev, old(Snapshot()), magic, env)
      ensures if result != OK then phase.Ended? && status == result
              else if AuthenticationRequired(dev.flags) then phase.AwaitAuth? else phase.Looping?
    {
      hide Choose, Named;
      var chosen := Choose(dev, magic, env);
      if chosen.None? {
        Stop(PROTOCOL_NOT_SUPPORTED);
        return PROTOCOL_NOT_SUPPORTED;
      }
      if env.masterName != OK {
        Stop(env.masterName);
        return env.masterName;
      }
      if env.languages != OK {
        Stop(env.languages);
        return env.languages;
      }
      if env.name.status != OK {
        Stop(env.name.status);
        return env.name.status;
      }
      handler := chosen.value;
      result := SendName(env);
    }

    method SendName(env: Env) returns (result: Status)
      requires Valid() && phase.AwaitSelect?
      modifies this
      ensures inbox == old(inbox) && taken == old(taken)
      ensures Snapshot() == Named(dev, old(Snapshot()), env)
      ensures if result != OK then phase.Ended? && status == result
              else if AuthenticationRequired(dev.flags) then phase.AwaitAuth? else phase.Looping?
    {
      hide Put;
      PutKeepsPhase(dev, Snapshot(), [AGREEMENT, env.name.text], env.put);
      result := PutParts([AGREEMENT, env.name.text], env.put);
      if result != OK {
        Stop(result);
        return;
      }
      if AuthenticationRequired(dev.flags) {
        savedTimeout, timeout := timeout, AUTHENTICATION_TIMEOUT;
        phase := AwaitAuth;
      } else {
        Established();
      }
    }

    method Established()
      modifies this
      ensures inbox == old(inbox) && taken == old(taken)
      ensures Snapshot() == Connect(old(Snapshot())) && phase.Looping?
    {
      connected, phase := true, Looping;
      Note(Callback(CONNECTED));
    }

    /** From the credentials to the agreement. */
    method Authenticate(msg: Msg, env: Env) returns (result: Status)
      requires Valid() && phase.AwaitAuth?
      modifies this
      ensures inbox == old(inbox) && taken == old(taken)
      ensures Snapshot() == OnAuth(dev, old(Snapshot()), msg, env)
      ensures (result == OK <==> phase.Looping?) && (result != OK ==> phase.Ended? && status == result)
    {
      hide SplitUpTo, Disagree, OnCredentials;
      Note(Heard(msg));
      timeout := savedTimeout;
      var parts := SplitUpTo(msg.payload, SEPARATOR, MAX_MESSAGE_PARTS, false);
      if parts.None? {
        Stop(ERROR_PARTS_OVERFLOW);
        return ERROR_PARTS_OVERFLOW;
      }
      if parts.value[0] != AUTH {
        result := Refuse(AUTHENTICATION_EXPECTED, [], env.put);
        return;
      }
      result := TakeCredentials(parts.value, env);
    }

    method TakeCredentials(parts: seq<seq<byte>>, env: Env) returns (result: Status)
      requires Valid() && phase.AwaitAuth?
      modifies this
      ensures inbox == old(inbox) && taken == old(taken)
      ensures Snapshot() == OnCredentials(dev, old(Snapshot()), parts, env)
      ensures (result == OK <==> phase.Looping?) && (result != OK ==> phase.Ended? && status == result)
    {
      hide Put, Disagree;
      result := env.username(PartAt(parts, 1));
      Note(Username(PartAt(parts, 1), result));
      if result == OK {
        result := env.password(PartAt(parts, 2));
        Note(Password(PartAt(parts, 2), result));
      }
      if result != OK {
        result := Refuse(AUTHENTICATION_FAILED, [AUTH_FAILED_TEXT], env.put);
        return;
      }
      PutKeepsPhase(dev, Snapshot(), [AGREEMENT], env.put);
      result := PutParts([AGREEMENT], env.put);
      if result != OK {
        Stop(result);
        return;
      }
      Established();
    }

    // ---------------------------------------------------------- the message loop

    /** The loop ends: the callback, and the flag is cleared. */
    method Finish(code: Status) returns (result: Status)
      modifies this
      ensures inbox == old(inbox) && taken == old(taken)
      ensures Snapshot() == Leave(old(Snapshot()), code) && result == code && phase.Ended? && status == code
    {
      Note(Callback(DISCONNECTION));
      connected := false;
      Stop(code);
      return code;
    }

    method FinishWithError(code: Status, put: Status) returns (result: Status)
      requires Valid() && code != OK
      modifies this
      ensures inbox == old(inbox) && taken == old(taken)
      ensures Snapshot() == LeaveWithError(dev, old(Snapshot()), code, put)
      ensures result != OK && phase.Ended? && status == result
    {
      hide Put;
      var sent := PutParts([ERROR, Decimal(Code(code))], put);
      result := Finish(if sent != OK then sent else code);
    }

    /** What is left to do for a message that was dealt with. */
    method NotifyHandled(env: Env) returns (result: Status)
      requires Valid() && phase.Looping?
      modifies this
      ensures inbox == old(inbox) && taken == old(taken)
      ensures Snapshot() == Handled(dev, old(Snapshot()), env)
      ensures if result == OK then phase.Looping? else phase.Ended? && status == result
    {
      hide Leave, LeaveWithError;
      result := env.messageHandled;
      if result == OK {
        return;
      }
      if result == DISCONNECTED {
        result := Finish(DISCONNECTED);
      } else {
        result := FinishWithError(env.messageHandled, env.put);
      }
    }

    /** One message in the loop. */
    method HandleMessage(msg: Msg, env: Env) returns (result: Status)
      requires Valid() && phase.Looping?
      modifies this
      ensures inbox == old(inbox) && taken == old(taken)
      ensures Snapshot() == OnMessage(dev, old(Snapshot()), msg, env)
      ensures if result == OK then phase.Looping? else phase.Ended? && status == result
    {
      hide SplitUpTo, Leave, LeaveWithError, Handled;
      Note(Heard(msg));
      var parts := SplitUpTo(msg.payload, SEPARATOR, MAX_MESSAGE_PARTS, true);
      if parts.None? {
        result := Finish(ERROR_PARTS_OVERFLOW);
      } else if msg.channel == 0 {
        if parts.value[0] == DISCONNECT {
          result := Finish(DISCONNECTED);
        } else if parts.value[0] == ERROR {
          result := Finish(DEVICE_ERROR);
        } else if parts.value[0] == DEBUG && env.debug != OK {
          result := Finish(env.debug);
        } else {
          result := NotifyHandled(env);
        }
      } else {
        Note(Handling(handler, msg.channel));
        if env.handled == OK || env.handled == MESSAGE_UNKNOWN {
          result := NotifyHandled(env);
        } else if env.handled == DISCONNECTED {
          result := Finish(DISCONNECTED);
        } else {
          result := FinishWithError(env.handled, env.put);
        }
      }
    }

    /** message_loop: it ends at the latest when the link fails. */
    method MessageLoop(ghost first: Slave) returns (result: Status)
      requires Valid() && LinkFails() && phase.Looping? && Snapshot() == After(dev, first, taken)
      modifies this
      ensures phase.Ended? && status == result && Snapshot() == After(dev, first, taken) && old(taken) <= taken
    {
      hide OnMessage, Leave, Step, After;
      while true
        invariant LinkFails() && phase.Looping? && Snapshot() == After(dev, first, taken) && old(taken) <= taken
        decreases |inbox|
      {
        ghost var before, s := taken, Snapshot();
        var input := GetMessage();
        AfterSnoc(dev, first, before, input);
        LoopStep(dev, s, input);
        match input
        case Failed(code) =>
          result := Finish(code);
          return;
        case Incoming(msg, env) =>
          result := HandleMessage(msg, env);
          if result != OK {
            return;
          }
      }
    }

    /** The wait for the protocol select message, and the section behind it. */
    method AwaitSelection(ghost first: Slave) returns (result: Status)
      requires Valid() && LinkFails() && phase.AwaitSelect? && Snapshot() == After(dev, first, taken)
      modifies this
      ensures LinkFails() && Snapshot() == After(dev, first, taken) && old(taken) <= taken
      ensures if result != OK then phase.Ended? && status == result
              else if AuthenticationRequired(dev.flags) then phase.AwaitAuth? else phase.Looping?
    {
      hide OnSelect, Step, After;
      ghost var before, s := taken, Snapshot();
      var input := GetMessage();
      AfterSnoc(dev, first, before, input);
      SelectStep(dev, s, input);
      if input.Failed? {
        Stop(input.status);
        return input.status;
      }
      result := ProtocolSelect(input.msg, input.env);
    }

    /** The wait for the credentials, and the section behind it. */
    method AwaitCredentials(ghost first: Slave) returns (result: Status)
      requires Valid() && LinkFails() && phase.AwaitAuth? && Snapshot() == After(dev, first, taken)
      modifies this
      ensures LinkFails() && Snapshot() == After(dev, first, taken) && old(taken) <= taken
      ensures if result != OK then phase.Ended? && status == result else phase.Looping?
    {
      hide OnAuth, Step, After;
      ghost var before, s := taken, Snapshot();
      var input := GetMessage();
      AfterSnoc(dev, first, before, input);
      AuthStep(dev, s, input);
      if input.Failed? {
        timeout := savedTimeout;
        Stop(input.status);
        return input.status;
      }
      result := Authenticate(input.msg, input.env);
    }

    /** opdi_slave_start for the message that was received: it takes inputs until it ends, and does
        with each what the state machine does. */
    method Start(msg: Msg, env: Env) returns (result: Status)
      requires Valid() && LinkFails() && Initial(Snapshot()) && taken == []
      modifies this
      ensures phase.Ended? && status == result
      ensures taken != [] && taken[0] == Incoming(msg, env) && Snapshot() == After(dev, old(Snapshot()), taken)
    {
      hide OnHandshake, Step, After;
      ghost var first := Snapshot();
      HandshakeIsFirst(dev, first, msg, env);
      taken := [Incoming(msg, env)];
      result := Handshake(msg, env);
      if result != OK {
        return;
      }
      result := AwaitSelection(first);
      if result != OK {
        return;
      }
      if AuthenticationRequired(dev.flags) {
        result := AwaitCredentials(first);
        if result != OK {
          return;
        }
      }
      result := MessageLoop(first);
    }
  }

  lemma AfterSnoc(dev: Device, s: Slave, inputs: seq<Input>, input: Input)
    requires ValidSize(dev.size)
    ensures After(dev, s, inputs + [input]) == Step(dev, After(dev, s, inputs), input)
  {
    assert (inputs + [input])[..|inputs|] == inputs;
  }

  lemma SelectStep(dev: Device, s: Slave, input: Input)
    requires ValidSize(dev.size) && s.phase.AwaitSelect?
    ensures input.Failed? ==> Step(dev, s, input) == Fail(s, input.status)
    ensures input.Incoming? ==> Step(dev, s, input) == OnSelect(dev, s, input.msg, input.env)
  {}

  lemma AuthStep(dev: Device, s: Slave, input: Input)
    requires ValidSize(dev.size) && s.phase.AwaitAuth?
    ensures input.Failed? ==> Step(dev, s, input) == Fail(s.(timeout := s.savedTimeout), input.status)
    ensures input.Incoming? ==> Step(dev, s, input) == OnAuth(dev, s, input.msg, input.env)
  {}

  lemma LoopStep(dev: Device, s: Slave, input: Input)
    requires ValidSize(dev.size) && s.phase.Looping?
    ensures input.Failed? ==> Step(dev, s, input) == Leave(s, input.status)
    ensures input.Incoming? ==> Step(dev, s, input) == OnMessage(dev, s, input.msg, input.env)
  {}

  lemma HandshakeIsFirst(dev: Device, s: Slave, msg: Msg, env: Env)
    requires ValidSize(dev.size) && s.phase.AwaitHandshake?
    ensures After(dev, s, [Incoming(msg, env)]) == OnHandshake(dev, s, msg, env)
  {
    assert [Incoming(msg, env)][..0] == [];
  }

  lemma RefusalHasCode(flags: int, dev: Device, offered: seq<seq<byte>>)
    ensures Negotiate(flags, dev, offered).Refused? ==> Negotiate(flags, dev, offered).code != OK
  {}

  lemma PutKeepsPhase(dev: Device, s: Slave, parts: seq<seq<byte>>, put: Status)
    requires ValidSize(dev.size)
    ensures Put(dev, s, parts, put).1.phase == s.phase
  {}
}

/** One handshake without and one with credentials, to show that what the handshake needs can be
    had. */
module HandshakeExample {
  import opened Constants
  import opened Frames
  import opened MasterHandshake
  import opened MasterMessages
  import opened Numbers
  import opened Protocol
  import opened SlaveProtocol
  import opened Strings
  import opened StringTools
  import opened Wire

  const SIZE := 256
  const LONGEST := 10

  // ------------------------------------------------------------ the two sides

  function ParseHex(s: seq<byte>): Option<int> {
    if |s| != 4 || Hex4Value(s).None? then None else Some(Hex4Value(s).value)
  }

  /** A master named M that knows user u with password p. */
  function ExampleMaster(): Master {
    Master(0, [77], [117], [112], None, NumberParser(ParseHex, Number), _ => Some(false))
  }

  /** A device with a method called A. */
  function ExampleDevice(flags: nat): Device { Device(flags, [65], false, SIZE) }

  /** All answers are good, the protocol is the basic one, and only user u with password p is
      accepted. */
  function ExampleEnv(): Env {
    Env(OK, Answer(OK, []), Answer(OK, BASIC), Answer(OK, [68]), OK, OK, None,
        part => if part == Some([117]) then OK else AUTHENTICATION_FAILED,
        part => if part == Some([112]) then OK else AUTHENTICATION_FAILED, OK, OK, OK)
  }

  function ExampleSlave(): Slave {
    Slave(AwaitHandshake, false, false, 10000, 0, Basic, OK, 0, [], [])
  }

  // ------------------------------------------------------------ short messages fit

  ghost predicate Short(ps: seq<seq<byte>>) {
    0 < |ps| <= 6 && forall i | 0 <= i < |ps| :: |ps[i]| <= LONGEST && NUL !in ps[i] && TERMINATOR !in ps[i]
  }

  lemma ShortJoin(rs: seq<seq<byte>>)
    requires 0 < |rs| <= 6 && forall i | 0 <= i < |rs| :: 0 < |rs[i]| <= LONGEST + 2 && NUL !in rs[i] && TERMINATOR !in rs[i]
    ensures var s := JoinRaw(rs, SEPARATOR); s != [] && |s| <= 150 && NUL !in s && TERMINATOR !in s
  {
    JoinStarts(rs, SEPARATOR);
    JoinAtMost(rs, SEPARATOR, LONGEST + 2);
    JoinHasNo(rs, SEPARATOR, NUL);
    JoinHasNo(rs, SEPARATOR, TERMINATOR);
  }

  lemma ShortIsSendable(ps: seq<seq<byte>>)
    requires Short(ps)
    ensures Sendable(Msg(0, MasterJoin(ps, SEPARATOR)), SIZE)
  {
    hide MasterJoin, JoinRaw, Decimal;
    MasterJoinIsJoin(ps, SEPARATOR);
    ShortJoin(MasterRaws(ps));
    DecimalLength(0);
  }

  lemma ShortIsSent(ps: seq<seq<byte>>)
    requires Short(ps)
    ensures SendStatus(0, ps, SIZE) == OK
  {
    hide JoinRaw, Decimal, EncodeStatus;
    ShortJoin(Blanked(ps));
    JoinFitsFrame(ps, 0, SIZE);
  }

  // ------------------------------------------------------------ they come to an agreement

  lemma ExampleReadsDigits()
    ensures ReadsDigits(ExampleMaster().np)
  {
    forall v: nat | v < 0x1_0000
      ensures ParseHex(Hex4(v)) == Some(v)
    {
      Hex4RoundTrip(v);
    }
    forall n: nat | n < 0x8000_0000
      ensures Number(Decimal(n)) == Some(n)
    {
      NumberOfSigned(n);
    }
  }

  lemma BasicIsOffered()
    ensures BASIC in MasterSplit(BASIC, COMMA)
  {
    EscapedPlain(BASIC, COMMA);
    PartsOfJoin([BASIC], COMMA);
    assert MasterSplit(BASIC, COMMA)[0] == BASIC;
  }

  lemma ExampleIsWilling(flags: nat)
    requires flags == 0 || flags == 4
    ensures Willing(ExampleMaster(), ExampleDevice(flags), ExampleEnv(), ExampleEnv())
  {
    hide ReadsDigits, Sendable, SendStatus, MasterSplit, MasterJoin;
    ExampleReadsDigits();
    BasicIsOffered();
    ShortIsSendable([HANDSHAKE, VERSION, Signed(0), []]);
    ShortIsSendable([BASIC, [], [77]]);
    ShortIsSent(ReplyParts(ExampleDevice(flags), false, ExampleEnv()));
    ShortIsSent([AGREEMENT, [68]]);
  }

  /** Both handshakes end with the protocol, for a device that asks for no credentials and for one
      that does. */
  lemma ExampleSucceeds(flags: nat)
    requires flags == 0 || flags == 4
    ensures var e := ExampleEnv();
            Converse(ExampleMaster(), ExampleDevice(flags), ExampleSlave(), e, e, e).0.ReturnsProtocol?
  {
    hide Willing, Sendable, MasterJoin, SplitResult, Converse;
    var m, dev, s, e := ExampleMaster(), ExampleDevice(flags), ExampleSlave(), ExampleEnv();
    ExampleIsWilling(flags);
    if flags == 0 {
      HandshakeSucceeds(m, dev, s, e, e, e);
    } else {
      var ps := [AUTH, [117], [112]];
      ShortIsSendable(ps);
      CredentialsArriveIff([117], [112]);
      assert Accepted(e, ps);
      AuthenticationSucceedsIff(m, dev, s, e, e, e);
    }
  }
}

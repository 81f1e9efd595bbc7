/** The interrupt driven UART (uart.c) as a state machine: the steps of the main program, each up to
    its next access to something an interrupt uses as well, interleaved at will with whole
    interrupts. */
module UartRings {
  import opened Constants

  // ------------------------------------------------------------ rings

  /** A ring buffer: head is the last byte written, tail the last one read. */
  datatype Ring = Ring(buf: seq<byte>, head: nat, tail: nat)

  ghost predicate ValidRing(r: Ring) {
    |r.buf| >= 2 && r.head < |r.buf| && r.tail < |r.buf|
  }

  /** (i + 1) & MASK. */
  function Next(i: nat, n: nat): (j: nat)
    requires i < n
    ensures j < n
  {
    if i + 1 == n then 0 else i + 1
  }

  /** The mask does that for every size that passes the test of the source, 256 included. */
  lemma MaskIsNext(i: bv16, n: bv16)
    requires i < n && n & (n - 1) == 0
    ensures (i + 1) & (n - 1) == if i + 1 == n then 0 else i + 1
  {}

  function Count(r: Ring): nat
    requires r.head < |r.buf| && r.tail < |r.buf|
  {
    if r.head >= r.tail then r.head - r.tail else r.head + |r.buf| - r.tail
  }

  /** Where the unread byte number j stands. */
  function Slot(r: Ring, j: nat): (k: nat)
    requires r.head < |r.buf| && r.tail < |r.buf| && j < |r.buf|
    ensures k < |r.buf|
  {
    if r.tail + 1 + j < |r.buf| then r.tail + 1 + j else r.tail + 1 + j - |r.buf|
  }

  /** The unread bytes, oldest first. */
  function Contents(r: Ring): (s: seq<byte>)
    requires r.head < |r.buf| && r.tail < |r.buf|
    ensures |s| == Count(r)
  {
    seq(Count(r), j requires 0 <= j < Count(r) => r.buf[Slot(r, j)])
  }

  predicate Full(r: Ring)
    requires r.head < |r.buf| && r.tail < |r.buf|
  {
    Next(r.head, |r.buf|) == r.tail
  }

  /** The free slot behind the head is none that is still to be read. */
  lemma StoreKeepsContents(r: Ring, b: byte)
    requires ValidRing(r) && !Full(r)
    ensures Contents(r.(buf := r.buf[Next(r.head, |r.buf|) := b])) == Contents(r)
  {
    var r' := r.(buf := r.buf[Next(r.head, |r.buf|) := b]);
    forall j | 0 <= j < Count(r)
      ensures Contents(r')[j] == Contents(r)[j]
    {
      assert Slot(r, j) != Next(r.head, |r.buf|);
    }
  }

  lemma AdvanceHead(r: Ring)
    requires ValidRing(r) && !Full(r)
    ensures Contents(r.(head := Next(r.head, |r.buf|))) == Contents(r) + [r.buf[Next(r.head, |r.buf|)]]
  {}

  lemma AdvanceTail(r: Ring)
    requires ValidRing(r) && r.head != r.tail
    ensures var t := Next(r.tail, |r.buf|);
            Contents(r) == [r.buf[t]] + Contents(r.(tail := t)) && !Full(r.(tail := t))
  {}

  lemma FullIsAllButOne(r: Ring)
    requires ValidRing(r)
    ensures Full(r) <==> Count(r) == |r.buf| - 1
    ensures Count(r) < |r.buf|
  {}

  lemma FullIsNotEmpty(r: Ring)
    requires ValidRing(r) && Full(r)
    ensures Contents(r) != [] && r.head != r.tail
  {}

  // ------------------------------------------------------------ states and steps

  /** Where the main program is: outside, in uart_putc or in uart_getc. */
  datatype Main =
    | Idle
    | PutWaiting(data: byte, tmphead: nat)
    | PutStoring(data: byte, tmphead: nat)
    | PutPublishing(data: byte, tmphead: nat)
    | PutEnabling
    | GetReading(tmptail: nat)
    | GetStoring(tmptail: nat, data: byte)

  /** requested, accepted, sent: the bytes uart_putc was called with, those it has published, and
      those that went to the data register. received, delivered: what the receive interrupt has
      stored, and what uart_getc has returned. */
  datatype State = State(tx: Ring, rx: Ring, udrie: bool, main: Main, requested: seq<byte>,
                         accepted: seq<byte>, sent: seq<byte>, received: seq<byte>, delivered: seq<byte>)

  /** All indices point into their buffers. */
  ghost predicate Shaped(s: State) {
    && ValidRing(s.tx) && ValidRing(s.rx)
    && match s.main
       case PutWaiting(_, h) => h < |s.tx.buf|
       case PutStoring(_, h) => h < |s.tx.buf|
       case PutPublishing(_, h) => h < |s.tx.buf|
       case GetReading(t) => t < |s.rx.buf|
       case GetStoring(t, _) => t < |s.rx.buf|
       case _ => true
  }

  ghost const START := State(Ring([0, 0], 0, 0), Ring([0, 0], 0, 0), false, Idle, [], [], [], [], [])

  type Machine = s: State | Shaped(s) ghost witness START

  datatype Event =
    | CallPut(data: byte)
    | CallGet
    | Advance
    | TransmitInterrupt
    | ReceiveInterrupt(data: byte)

  /** The transmit interrupt is taken only when it is enabled, and the main program calls nothing
      while it is inside a call. */
  predicate Enabled(main: Main, udrie: bool, e: Event) {
    match e
    case CallPut(_) => main.Idle?
    case CallGet => main.Idle?
    case Advance => !main.Idle?
    case TransmitInterrupt => udrie
    case ReceiveInterrupt(_) => true
  }

  ghost function OnTransmit(s: Machine): Machine {
    if s.tx.head != s.tx.tail then
      var t := Next(s.tx.tail, |s.tx.buf|);
      s.(tx := s.tx.(tail := t), sent := s.sent + [s.tx.buf[t]])
    else s.(udrie := false)
  }

  ghost function OnReceive(s: Machine, data: byte): Machine {
    var h := Next(s.rx.head, |s.rx.buf|);
    if h == s.rx.tail then s
    else s.(rx := s.rx.(head := h, buf := s.rx.buf[h := data]), received := s.received + [data])
  }

  ghost function OnAdvance(s: Machine): Machine {
    match s.main
    case Idle => s
    case PutWaiting(b, h) => if h == s.tx.tail then s else s.(main := PutStoring(b, h))
    case PutStoring(b, h) => s.(tx := s.tx.(buf := s.tx.buf[h := b]), main := PutPublishing(b, h))
    case PutPublishing(b, h) => s.(tx := s.tx.(head := h), main := PutEnabling, accepted := s.accepted + [b])
    case PutEnabling => s.(udrie := true, main := Idle)
    case GetReading(t) => s.(main := GetStoring(t, s.rx.buf[t]))
    case GetStoring(t, b) => s.(rx := s.rx.(tail := t), main := Idle, delivered := s.delivered + [b])
  }

  /** What an event does; one that is not enabled does not happen. */
  ghost function Step(s: Machine, e: Event): Machine {
    if !Enabled(s.main, s.udrie, e) then s
    else
      match e
      case CallPut(b) => s.(main := PutWaiting(b, Next(s.tx.head, |s.tx.buf|)), requested := s.requested + [b])
      case CallGet => if s.rx.head == s.rx.tail then s else s.(main := GetReading(Next(s.rx.tail, |s.rx.buf|)))
      case Advance => OnAdvance(s)
      case TransmitInterrupt => OnTransmit(s)
      case ReceiveInterrupt(b) => OnReceive(s, b)
  }

  /** The state after any interleaving of events. */
  ghost function After(s: Machine, events: seq<Event>): Machine {
    if events == [] then s else Step(After(s, events[..|events| - 1]), events[|events| - 1])
  }

  /** After uart_init, whatever the buffers hold. */
  ghost predicate Initial(s: Machine) {
    && s.main == Idle && !s.udrie
    && s.tx.head == s.tx.tail == 0 && s.rx.head == s.rx.tail == 0
    && s.requested == s.accepted == s.sent == s.received == s.delivered == []
  }

  // ------------------------------------------------------------ the invariant

  /** The byte a call of uart_putc has not published yet. */
  function Pending(main: Main): seq<byte> {
    match main
    case PutWaiting(b, _) => [b]
    case PutStoring(b, _) => [b]
    case PutPublishing(b, _) => [b]
    case _ => []
  }

  /** What the main program may rely on where it is, whatever the interrupts do. */
  ghost predicate MainGood(s: Machine) {
    match s.main
    case PutWaiting(_, h) => h == Next(s.tx.head, |s.tx.buf|)
    case PutStoring(_, h) => h == Next(s.tx.head, |s.tx.buf|) && h != s.tx.tail
    case PutPublishing(b, h) => h == Next(s.tx.head, |s.tx.buf|) && h != s.tx.tail && s.tx.buf[h] == b
    case GetReading(t) => t == Next(s.rx.tail, |s.rx.buf|) && s.rx.head != s.rx.tail
    case GetStoring(t, b) => t == Next(s.rx.tail, |s.rx.buf|) && s.rx.head != s.rx.tail && b == s.rx.buf[t]
    case _ => true
  }

  /** Nothing is lost, doubled or out of order on either side; and but for the moment between
      publishing a byte and enabling the interrupt, unsent bytes have it enabled. */
  ghost predicate Good(s: Machine) {
    && s.requested == s.accepted + Pending(s.main)
    && s.accepted == s.sent + Contents(s.tx)
    && s.received == s.delivered + Contents(s.rx)
    && MainGood(s)
    && (s.tx.head != s.tx.tail && !s.main.PutEnabling? ==> s.udrie)
  }

  lemma InitialIsGood(s: Machine)
    requires Initial(s)
    ensures Good(s)
  {}

  lemma TransmitKeepsGood(s: Machine)
    requires Good(s)
    ensures Good(OnTransmit(s))
  {
    hide Contents;
    if s.tx.head != s.tx.tail {
      AdvanceTail(s.tx);
    }
  }

  lemma ReceiveKeepsGood(s: Machine, data: byte)
    requires Good(s)
    ensures Good(OnReceive(s, data))
  {
    hide Contents;
    var h := Next(s.rx.head, |s.rx.buf|);
    if h != s.rx.tail {
      StoreKeepsContents(s.rx, data);
      AdvanceHead(s.rx.(buf := s.rx.buf[h := data]));
    }
  }

  lemma AdvanceKeepsGood(s: Machine)
    requires Good(s)
    ensures Good(OnAdvance(s))
  {
    hide Contents;
    match s.main
    case PutStoring(b, h) => StoreKeepsContents(s.tx, b);
    case PutPublishing(b, h) => AdvanceHead(s.tx);
    case GetStoring(t, b) => AdvanceTail(s.rx);
    case _ =>
  }

  /** Every step of the main program and every interrupt keeps the invariant. */
  lemma StepKeepsGood(s: Machine, e: Event)
    requires Good(s)
    ensures Good(Step(s, e))
  {
    hide Contents;
    match e
    case Advance => AdvanceKeepsGood(s);
    case TransmitInterrupt => TransmitKeepsGood(s);
    case ReceiveInterrupt(b) => ReceiveKeepsGood(s, b);
    case _ =>
  }

  /** It holds after any interleaving. */
  lemma {:induction false} RunIsGood(s: Machine, events: seq<Event>)
    requires Good(s)
    ensures Good(After(s, events))
    decreases |events|
  {
    if events != [] {
      RunIsGood(s, events[..|events| - 1]);
      StepKeepsGood(After(s, events[..|events| - 1]), events[|events| - 1]);
    }
  }

  // ------------------------------------------------------------ what a user may rely on

  /** After any interleaving from the start: the bytes sent are the first ones of those uart_putc
      was called with, and those delivered the first ones of those received, in order. */
  lemma FirstInFirstOut(s: Machine, events: seq<Event>)
    requires Initial(s)
    ensures var t := After(s, events); t.sent <= t.accepted <= t.requested && t.delivered <= t.received
  {
    InitialIsGood(s);
    RunIsGood(s, events);
  }

  /** The busy wait of uart_putc never waits for nothing: if there is no room, the interrupt that
      makes room is enabled, and once it has run the wait is over. */
  lemma WaitCanEnd(s: Machine)
    requires Good(s) && s.main.PutWaiting?
    ensures var free := Step(s, Advance).main.PutStoring?;
            free || (s.udrie && Step(Step(s, TransmitInterrupt), Advance).main.PutStoring?)
  {
    if Full(s.tx) {
      FullIsNotEmpty(s.tx);
      AdvanceTail(s.tx);
    }
  }

  function Interrupts(n: nat): seq<Event> { seq(n, _ => TransmitInterrupt) }

  /** No wakeup is lost: while the main program is not between publishing and enabling, the
      transmit interrupts alone bring out every byte published. */
  lemma {:induction false} TransmitDrains(s: Machine)
    requires Good(s) && !s.main.PutEnabling?
    ensures After(s, Interrupts(Count(s.tx))).sent == s.accepted
    decreases Count(s.tx)
  {
    hide Contents;
    var n := Count(s.tx);
    if n == 0 {
      assert Interrupts(n) == [];
    } else {
      AdvanceTail(s.tx);
      TransmitKeepsGood(s);
      var s' := Step(s, TransmitInterrupt);
      assert s' == OnTransmit(s);
      TransmitDrains(s');
      AfterFirst(s, Interrupts(n));
      assert Interrupts(n)[1..] == Interrupts(n - 1);
    }
  }

  lemma {:induction false} AfterFirst(s: Machine, events: seq<Event>)
    requires events != []
    ensures After(s, events) == After(Step(s, events[0]), events[1..])
    decreases |events|
  {
    var n := |events| - 1;
    if n == 0 {
      assert events[..0] == [] && events[1..] == [];
    } else {
      AfterFirst(s, events[..n]);
      assert events[..n][1..] == events[1..][..n - 1];
    }
  }

  lemma {:induction false} AfterConcat(s: Machine, first: seq<Event>, later: seq<Event>)
    ensures After(s, first + later) == After(After(s, first), later)
    decreases |later|
  {
    if later == [] {
      assert first + later == first;
    } else {
      var n := |later| - 1;
      assert (first + later)[..|first| + n] == first + later[..n];
      AfterConcat(s, first, later[..n]);
    }
  }

  // ------------------------------------------------------------ nothing is lost while there is room

  /** How many bytes are received and not yet delivered. */
  function Undelivered(s: State): int { |s.received| - |s.delivered| }

  /** A byte that arrives is received exactly if all but one slot of the ring are not yet taken by
      bytes that wait to be delivered; otherwise nothing happens at all. */
  lemma ReceivedIff(s: Machine, data: byte)
    requires Good(s)
    ensures var t := Step(s, ReceiveInterrupt(data));
            && 0 <= Undelivered(s) < |s.rx.buf|
            && t == s.(rx := t.rx, received := t.received) && |t.rx.buf| == |s.rx.buf|
            && if Undelivered(s) < |s.rx.buf| - 1 then t.received == s.received + [data] else t == s
  {
    hide Contents;
    FullIsAllButOne(s.rx);
  }

  /** The bytes that arrive in a run. */
  function Arrivals(events: seq<Event>): seq<byte> {
    if events == [] then []
    else
      var e := events[|events| - 1];
      Arrivals(events[..|events| - 1]) + if e.ReceiveInterrupt? then [e.data] else []
  }

  /** At every arrival there is room. */
  ghost predicate Roomy(s: Machine, events: seq<Event>) {
    forall i | 0 <= i < |events| && events[i].ReceiveInterrupt? ::
      Undelivered(After(s, events[..i])) < |After(s, events[..i]).rx.buf| - 1
  }

  /** Whatever else happens in between: as long as there is room for each, all bytes that arrive are
      received, in order. */
  lemma {:induction false} AllReceived(s: Machine, events: seq<Event>)
    requires Good(s) && Roomy(s, events)
    ensures After(s, events).received == s.received + Arrivals(events)
    decreases |events|
  {
    if events == [] {
    } else {
      hide Good, Step;
      var n := |events| - 1;
      var before, e := After(s, events[..n]), events[n];
      RoomyBefore(s, events);
      AllReceived(s, events[..n]);
      RunIsGood(s, events[..n]);
      if e.ReceiveInterrupt? {
        ReceivedIff(before, e.data);
      } else {
        OthersReceiveNothing(before, e);
      }
    }
  }

  lemma RoomyBefore(s: Machine, events: seq<Event>)
    requires events != [] && Roomy(s, events)
    ensures Roomy(s, events[..|events| - 1])
  {
    var front := events[..|events| - 1];
    forall i | 0 <= i < |front| && front[i].ReceiveInterrupt?
      ensures Undelivered(After(s, front[..i])) < |After(s, front[..i]).rx.buf| - 1
    {
      assert front[..i] == events[..i] && events[i].ReceiveInterrupt?;
    }
  }

  lemma OthersReceiveNothing(s: Machine, e: Event)
    requires !e.ReceiveInterrupt?
    ensures Step(s, e).received == s.received
  {}

  function Burst(bytes: seq<byte>): (events: seq<Event>)
    ensures |events| == |bytes|
  {
    seq(|bytes|, i requires 0 <= i < |bytes| => ReceiveInterrupt(bytes[i]))
  }

  /** So a ring takes as many bytes in a row as it has slots left but one, without a single read. */
  lemma {:induction false} BurstReceived(s: Machine, bytes: seq<byte>)
    requires Good(s) && Undelivered(s) + |bytes| < |s.rx.buf|
    ensures var t := After(s, Burst(bytes));
            && t.received == s.received + bytes && t.delivered == s.delivered
            && |t.rx.buf| == |s.rx.buf|
    decreases |bytes|
  {
    var n := |bytes| - 1;
    if bytes != [] {
      assert Burst(bytes)[..n] == Burst(bytes[..n]);
      BurstReceived(s, bytes[..n]);
      RunIsGood(s, Burst(bytes[..n]));
      ReceivedIff(After(s, Burst(bytes[..n])), bytes[n]);
      assert bytes == bytes[..n] + [bytes[n]];
    }
  }

  /** The transmit interrupt sends the oldest byte that is not sent yet, and turns itself off
      exactly if there is none. */
  lemma SentByInterrupt(s: Machine)
    requires Good(s) && s.udrie
    ensures var t := Step(s, TransmitInterrupt);
            && t == s.(tx := t.tx, sent := t.sent, udrie := t.udrie) && t.tx.buf == s.tx.buf
            && if s.sent != s.accepted then t.sent == s.sent + [s.accepted[|s.sent|]] && t.udrie
               else t.sent == s.sent && !t.udrie
  {
    hide Contents;
    if s.tx.head != s.tx.tail {
      AdvanceTail(s.tx);
      assert Contents(s.tx)[0] == s.tx.buf[Next(s.tx.tail, |s.tx.buf|)];
    }
  }

  // ------------------------------------------------------------ calls, interrupted anywhere

  ghost predicate OnlyInterrupts(events: seq<Event>) {
    forall i | 0 <= i < |events| :: events[i].TransmitInterrupt? || events[i].ReceiveInterrupt?
  }

  /** Interrupts leave the main program where it is; there is never less room to send, nor less to
      read, and what was received before is still the first of what is. */
  lemma {:induction false} InterruptsLeaveMain(s: Machine, events: seq<Event>)
    requires Good(s) && OnlyInterrupts(events)
    ensures var t := After(s, events);
            && Good(t) && t.main == s.main && t.delivered == s.delivered && t.accepted == s.accepted && t.requested == s.requested
            && s.received <= t.received && s.sent <= t.sent && |t.tx.buf| == |s.tx.buf| && t.tx.head == s.tx.head
    decreases |events|
  {
    hide Contents, Good;
    RunIsGood(s, events);
    if events != [] {
      var n := |events| - 1;
      InterruptsLeaveMain(s, events[..n]);
      InterruptLeavesMain(After(s, events[..n]), events[n]);
    }
  }

  lemma InterruptLeavesMain(s: Machine, e: Event)
    requires e.TransmitInterrupt? || e.ReceiveInterrupt?
    ensures var t := Step(s, e);
            && t.main == s.main && t.delivered == s.delivered && t.accepted == s.accepted && t.requested == s.requested
            && s.received <= t.received && s.sent <= t.sent && |t.tx.buf| == |s.tx.buf| && t.tx.head == s.tx.head
  {}

  /** uart_getc from call to return delivers the oldest byte received that is not yet delivered,
      whatever interrupts come in between. */
  lemma GetDelivers(s: Machine, i1: seq<Event>, i2: seq<Event>)
    requires Good(s) && s.main.Idle? && Undelivered(s) > 0 && OnlyInterrupts(i1) && OnlyInterrupts(i2)
    ensures var t := After(s, [CallGet] + i1 + [Advance] + i2 + [Advance]);
            t.main.Idle? && t.delivered == s.delivered + [s.received[|s.delivered|]]
  {
    hide Contents, Good;
    var s1 := Step(s, CallGet);
    GetStarts(s);
    InterruptsLeaveMain(s1, i1);
    var s2 := After(s1, i1);
    GetReads(s2);
    var s3 := Step(s2, Advance);
    InterruptsLeaveMain(s3, i2);
    GetEnds(After(s3, i2));
    AfterSteps(s, [CallGet], i1, Advance, i2, Advance);
    assert After(s, [CallGet]) == s1 by { AfterOne(s, CallGet); }
  }

  lemma GetStarts(s: Machine)
    requires Good(s) && s.main.Idle? && Undelivered(s) > 0
    ensures var t := Step(s, CallGet);
            Good(t) && t.main.GetReading? && t.delivered == s.delivered && t.received == s.received
  {
    StepKeepsGood(s, CallGet);
  }

  lemma GetReads(s: Machine)
    requires Good(s) && s.main.GetReading?
    ensures var t := Step(s, Advance);
            Good(t) && t.main.GetStoring? && t.delivered == s.delivered && t.received == s.received
  {
    StepKeepsGood(s, Advance);
  }

  lemma GetEnds(s: Machine)
    requires Good(s) && s.main.GetStoring?
    ensures |s.delivered| < |s.received|
    ensures var t := Step(s, Advance); t.main.Idle? && t.delivered == s.delivered + [s.received[|s.delivered|]]
  {
    hide Contents;
    AdvanceTail(s.rx);
    assert Contents(s.rx)[0] == s.rx.buf[Next(s.rx.tail, |s.rx.buf|)];
  }

  lemma AfterOne(s: Machine, e: Event)
    ensures After(s, [e]) == Step(s, e)
  {
    assert [e][..0] == [];
  }

  lemma AfterSteps(s: Machine, first: seq<Event>, i1: seq<Event>, e1: Event, i2: seq<Event>, e2: Event)
    ensures After(s, first + i1 + [e1] + i2 + [e2]) ==
            Step(After(Step(After(After(s, first), i1), e1), i2), e2)
  {
    hide Step;
    AfterConcat(s, first, i1);
    AfterConcat(s, first + i1, [e1]);
    AfterOne(After(s, first + i1), e1);
    AfterConcat(s, first + i1 + [e1], i2);
    AfterConcat(s, first + i1 + [e1] + i2, [e2]);
    AfterOne(After(s, first + i1 + [e1] + i2), e2);
  }

  /** Called with an empty ring, uart_getc changes nothing. */
  lemma NothingToGet(s: Machine)
    requires Good(s) && s.main.Idle? && Undelivered(s) == 0
    ensures Step(s, CallGet) == s
  {}

  /** uart_putc from call to return, if there is room: the byte is published behind all others, and
      the interrupt that sends it is enabled, whatever interrupts come in between. */
  lemma PutPublishes(s: Machine, b: byte, i1: seq<Event>, i2: seq<Event>, i3: seq<Event>, i4: seq<Event>)
    requires Good(s) && s.main.Idle? && !Full(s.tx)
    requires OnlyInterrupts(i1) && OnlyInterrupts(i2) && OnlyInterrupts(i3) && OnlyInterrupts(i4)
    ensures var t := After(s, [CallPut(b)] + i1 + [Advance] + i2 + [Advance] + i3 + [Advance] + i4 + [Advance]);
            t.main.Idle? && t.udrie && t.accepted == s.accepted + [b] && t.requested == t.accepted
  {
    hide Contents, Good;
    var s1 := Step(s, CallPut(b));
    StepKeepsGood(s, CallPut(b));
    AfterOne(s, CallPut(b));
    InterruptsLeaveMain(s1, i1);
    RoomStays(s1, After(s1, i1));
    PutFindsRoom(After(s1, i1));
    var s2 := Step(After(s1, i1), Advance);
    InterruptsLeaveMain(s2, i2);
    StepKeepsGood(After(s2, i2), Advance);
    var s3 := Step(After(s2, i2), Advance);
    InterruptsLeaveMain(s3, i3);
    StepKeepsGood(After(s3, i3), Advance);
    var s4 := Step(After(s3, i3), Advance);
    InterruptsLeaveMain(s4, i4);
    RequestedIsAccepted(After(s4, i4));
    var front := [CallPut(b)] + i1 + [Advance] + i2 + [Advance];
    AfterSteps(s, [CallPut(b)], i1, Advance, i2, Advance);
    AfterSteps(s, front, i3, Advance, i4, Advance);
  }

  lemma RequestedIsAccepted(s: Machine)
    requires Good(s) && s.main.PutEnabling?
    ensures s.requested == s.accepted
  {}

  /** Room that was there when the call began is there still. */
  lemma RoomStays(s: Machine, t: Machine)
    requires Good(s) && Good(t) && !Full(s.tx) && s.accepted == t.accepted && |s.sent| <= |t.sent| && |s.tx.buf| == |t.tx.buf|
    ensures !Full(t.tx)
  {
    hide Contents;
    FullIsAllButOne(s.tx);
    FullIsAllButOne(t.tx);
  }

  lemma PutFindsRoom(s: Machine)
    requires Good(s) && s.main.PutWaiting? && !Full(s.tx)
    ensures var t := Step(s, Advance); Good(t) && t.main == PutStoring(s.main.data, s.main.tmphead) && t.accepted == s.accepted
  {
    StepKeepsGood(s, Advance);
  }

  // ------------------------------------------------------------ the code

  class Uart {
    const TxBuf: array<byte>
    const RxBuf: array<byte>
    var TxHead: nat
    var TxTail: nat
    var RxHead: nat
    var RxTail: nat
    var UDRIE: bool

    /** Where the main program is, with its local variables. */
    var main: Main

    ghost var requested: seq<byte>
    ghost var accepted: seq<byte>
    ghost var sent: seq<byte>
    ghost var received: seq<byte>
    ghost var delivered: seq<byte>

    ghost function Snapshot(): State
      reads this, TxBuf, RxBuf
    {
      State(Ring(TxBuf[..], TxHead, TxTail), Ring(RxBuf[..], RxHead, RxTail), UDRIE, main,
            requested, accepted, sent, received, delivered)
    }

    ghost predicate Valid()
      reads this, TxBuf, RxBuf
    {
      TxBuf != RxBuf && Shaped(Snapshot())
    }

    /** uart_init. */
    constructor (txSize: nat, rxSize: nat)
      requires 2 <= txSize && 2 <= rxSize
      ensures Valid() && Initial(Snapshot()) && fresh(TxBuf) && fresh(RxBuf)
    {
      TxBuf, RxBuf := new byte[txSize], new byte[rxSize];
      TxHead, TxTail, RxHead, RxTail := 0, 0, 0, 0;
      UDRIE, main := false, Idle;
      requested, accepted, sent, received, delivered := [], [], [], [], [];
    }

    /** The UART0_TRANSMIT_INTERRUPT routine. */
    method TransmitRoutine()
      requires Valid()
      modifies this
      ensures Valid() && Snapshot() == OnTransmit(old(Snapshot()))
    {
      if TxHead != TxTail {
        var tmptail := Next(TxTail, TxBuf.Length);
        TxTail := tmptail;
        sent := sent + [TxBuf[tmptail]];
      } else {
        UDRIE := false;
      }
    }

    /** The UART0_RECEIVE_INTERRUPT routine for a byte in the data register. */
    method ReceiveRoutine(data: byte)
      requires Valid()
      modifies this, RxBuf
      ensures Valid() && Snapshot() == OnReceive(old(Snapshot()), data)
    {
      var tmphead := Next(RxHead, RxBuf.Length);
      if tmphead != RxTail {
        ghost var before := RxBuf[..];
        RxHead := tmphead;
        RxBuf[tmphead] := data;
        assert RxBuf[..] == before[tmphead := data];
        received := received + [data];
      }
    }

    /** uart_putc and uart_getc from one access of shared data to the next. */
    method MainStep()
      requires Valid()
      modifies this, TxBuf
      ensures Valid() && Snapshot() == OnAdvance(old(Snapshot()))
    {
      match main
      case Idle =>
      case PutWaiting(data, tmphead) =>
        if tmphead != TxTail {
          main := PutStoring(data, tmphead);
        }
      case PutStoring(data, tmphead) =>
        ghost var before := TxBuf[..];
        TxBuf[tmphead] := data;
        assert TxBuf[..] == before[tmphead := data];
        main := PutPublishing(data, tmphead);
      case PutPublishing(data, tmphead) =>
        TxHead := tmphead;
        main, accepted := PutEnabling, accepted + [data];
      case PutEnabling =>
        UDRIE, main := true, Idle;
      case GetReading(tmptail) =>
        main := GetStoring(tmptail, RxBuf[tmptail]);
      case GetStoring(tmptail, data) =>
        RxTail := tmptail;
        main, delivered := Idle, delivered + [data];
    }

    /** One event, if it can happen. */
    method Take(e: Event)
      requires Valid()
      modifies this, TxBuf, RxBuf
      ensures Valid() && Snapshot() == Step(old(Snapshot()), e)
    {
      if Enabled(main, UDRIE, e) {
        match e
        case CallPut(data) =>
          main, requested := PutWaiting(data, Next(TxHead, TxBuf.Length)), requested + [data];
        case CallGet =>
          if RxHead != RxTail {
            main := GetReading(Next(RxTail, RxBuf.Length));
          }
        case Advance => MainStep();
        case TransmitInterrupt => TransmitRoutine();
        case ReceiveInterrupt(data) => ReceiveRoutine(data);
      }
    }

    /** Any interleaving of the main program and the interrupts. */
    method Run(events: seq<Event>)
      requires Valid() && Good(Snapshot())
      modifies this, TxBuf, RxBuf
      ensures Valid() && Good(Snapshot()) && Snapshot() == After(old(Snapshot()), events)
    {
      hide Good;
      RunIsGood(Snapshot(), events);
      var i := 0;
      while i < |events|
        invariant 0 <= i <= |events| && Valid() && Snapshot() == After(old(Snapshot()), events[..i])
      {
        assert events[..i + 1][..i] == events[..i];
        Take(events[i]);
        i := i + 1;
      }
      assert events[..|events|] == events;
    }

    /** uart_has_data: exactly when something received is not yet delivered. */
    method HasData() returns (yes: bool)
      requires Valid() && Good(Snapshot())
      ensures yes <==> delivered != received
    {
      return RxHead != RxTail;
    }
  }
}

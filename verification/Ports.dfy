/** The ports of a device and the bindings of streaming ports to channels (opdi_port.c). */
module Ports {
  import opened Constants

  class Port {
    const id: seq<byte>
    const streaming: bool
    /** Whether the streaming info names a function for the data. */
    const receives: bool
    var next: Port?

    /** The channel in the streaming info, 0 for none. */
    var channel: nat

    constructor (id: seq<byte>, streaming: bool, receives: bool)
      ensures this.id == id && this.streaming == streaming && this.receives == receives && channel == 0
    {
      this.id, this.streaming, this.receives, next, channel := id, streaming, receives, null, 0;
    }
  }

  datatype Binding = Binding(channel: nat, port: Port?)

  // ------------------------------------------------------------ bindings as a sequence

  ghost predicate DistinctChannels(bs: seq<Binding>) {
    forall i, j | 0 <= i < j < |bs| :: bs[i].channel != bs[j].channel
  }

  /** Where the channel is bound: the first place, or none. */
  ghost predicate BoundAt(bs: seq<Binding>, channel: nat, k: nat) {
    k < |bs| && bs[k].channel == channel
  }

  ghost predicate Unbound(bs: seq<Binding>, channel: nat) {
    forall i | 0 <= i < |bs| :: bs[i].channel != channel
  }

  function Without(bs: seq<Binding>, k: nat): (r: seq<Binding>)
    requires k < |bs|
  {
    bs[..k] + bs[k + 1..]
  }

  /** Taking one binding out keeps the others, in their order, and their channels distinct. */
  lemma WithoutKeepsOrder(bs: seq<Binding>, k: nat)
    requires k < |bs| && DistinctChannels(bs)
    ensures DistinctChannels(Without(bs, k)) && Unbound(Without(bs, k), bs[k].channel)
    ensures forall i | 0 <= i < |bs| && i != k :: bs[i] in Without(bs, k)
  {
    var r := Without(bs, k);
    forall i | 0 <= i < |bs| && i != k
      ensures bs[i] in r
    {
      assert r[if i < k then i else i - 1] == bs[i];
    }
  }

  /** A channel that is not bound yet can be added. */
  lemma AddedStaysDistinct(bs: seq<Binding>, b: Binding)
    requires DistinctChannels(bs) && Unbound(bs, b.channel)
    ensures DistinctChannels(bs + [b]) && BoundAt(bs + [b], b.channel, |bs|)
  {}

  // ------------------------------------------------------------ the tables

  class PortTable {
    const maxPorts: nat
    var portCount: nat
    var portHead: Port?
    var portTail: Port?

    /** The ports in the list. */
    ghost var list: seq<Port>

    const sPortBinds: array<Binding>
    var sPortBindCount: nat

    ghost predicate Linked()
      reads this, list
    {
      && (forall i, j | 0 <= i < j < |list| :: list[i] != list[j])
      && portHead == (if list == [] then null else list[0])
      && portTail == (if list == [] then null else list[|list| - 1])
      && (forall i | 0 <= i < |list| - 1 :: list[i].next == list[i + 1])
      && (list != [] ==> list[|list| - 1].next == null)
      && |list| <= portCount && |list| <= maxPorts
    }

    /** No port was added twice. */
    ghost predicate Counted()
      reads `portCount, `list
    {
      |list| == if portCount <= maxPorts then portCount else maxPorts
    }

    function Bindings(): (bs: seq<Binding>)
      requires sPortBindCount <= sPortBinds.Length
      reads `sPortBindCount, sPortBinds
    {
      sPortBinds[..sPortBindCount]
    }

    /** Never more bindings than there is room for, all on different channels, all of them of
        streaming ports. */
    ghost predicate Bound()
      reads `sPortBindCount, sPortBinds
    {
      && sPortBindCount <= sPortBinds.Length < 256 && DistinctChannels(Bindings())
      && forall i | 0 <= i < sPortBindCount :: sPortBinds[i].port != null && sPortBinds[i].port.streaming
    }

    constructor (maxPorts: nat, streamingPorts: nat)
      requires streamingPorts < 256
      ensures Linked() && Counted() && Bound() && list == [] && Bindings() == [] && fresh(sPortBinds)
      ensures this.maxPorts == maxPorts && sPortBinds.Length == streamingPorts
    {
      this.maxPorts, portCount, portHead, portTail, list := maxPorts, 0, null, null, [];
      sPortBinds, sPortBindCount := new Binding[streamingPorts], 0;
    }

    /** opdi_add_port: a new port comes last. One that is in the list already cuts off all ports
        behind it. */
    method AddPort(port: Port) returns (added: bool)
      requires Linked()
      modifies `portCount, `portHead, `portTail, `list, list`next, port`next
      ensures Linked() && portCount == old(portCount) + 1 && added == (old(portCount) < maxPorts)
      ensures !added ==> list == old(list)
      ensures added && port !in old(list) ==> list == old(list) + [port]
      ensures added && port in old(list) ==>
                exists k: nat :: k < |old(list)| && old(list)[k] == port && list == old(list)[..k + 1]
      ensures port !in old(list) && old(Counted()) ==> Counted() && added == (old(|list|) < maxPorts)
    {
      portCount := portCount + 1;
      if portCount > maxPorts {
        return false;
      }
      ghost var k: nat := |list|;
      if port in list {
        k :| 0 <= k < |list| && list[k] == port;
      }
      if portHead == null {
        portHead := port;
      }
      if portTail != null {
        portTail.next := port;
      }
      portTail := port;
      port.next := null;
      list := list[..k] + [port];
      assert k < |old(list)| ==> list == old(list)[..k + 1];
      return true;
    }

    /** opdi_find_port_by_id: the first port with that name. */
    method FindPortById(id: seq<byte>) returns (port: Port?)
      requires Linked()
      ensures port != null ==> port in list && port.id == id
      ensures port == null ==> forall p | p in list :: p.id != id
      ensures port != null ==> exists k: nat :: k < |list| && list[k] == port && forall i | 0 <= i < k :: list[i].id != id
    {
      port := portHead;
      ghost var k: nat := 0;
      while port != null
        invariant k <= |list| && port == (if k < |list| then list[k] else null)
        invariant forall i | 0 <= i < k :: list[i].id != id
        decreases |list| - k
      {
        if port.id == id {
          return;
        }
        port, k := port.next, k + 1;
      }
    }

    /** opdi_clear_ports. */
    method ClearPorts()
      requires Bound()
      modifies this, set b | b in Bindings() :: b.port
      ensures Linked() && Counted() && list == [] && Bound() && Bindings() == []
      ensures forall b | b in old(Bindings()) && b.port != null :: b.port.channel == 0
    {
      portCount, portHead, portTail, list := 0, null, null, [];
      ResetBindings();
    }

    /** opdi_bind_port. */
    method BindPort(port: Port, channel: nat) returns (status: Status)
      requires Bound()
      modifies `sPortBindCount, sPortBinds, port`channel
      ensures Bound()
      ensures !port.streaming ==> status == WRONG_PORT_TYPE
      ensures port.streaming && !Unbound(old(Bindings()), channel) ==>
                status == if Binding(channel, port) in old(Bindings()) then OK else CHANNEL_INVALID
      ensures port.streaming && Unbound(old(Bindings()), channel) ==>
                status == if old(sPortBindCount) < sPortBinds.Length then OK else TOO_MANY_BINDINGS
      ensures var added := port.streaming && Unbound(old(Bindings()), channel) && status == OK;
              && Bindings() == (if added then old(Bindings()) + [Binding(channel, port)] else old(Bindings()))
              && port.channel == (if added then channel else old(port.channel))
    {
      if !port.streaming {
        return WRONG_PORT_TYPE;
      }
      var i: nat := 0;
      while i < sPortBindCount
        invariant i <= sPortBindCount && forall k | 0 <= k < i :: sPortBinds[k].channel != channel
      {
        if sPortBinds[i].channel == channel {
          assert BoundAt(Bindings(), channel, i);
          OnlyAt(Bindings(), channel, i);
          return if sPortBinds[i].port != port then CHANNEL_INVALID else OK;
        }
        i := i + 1;
      }
      assert Unbound(Bindings(), channel);
      if sPortBindCount >= sPortBinds.Length {
        return TOO_MANY_BINDINGS;
      }
      ghost var before := Bindings();
      AddedStaysDistinct(before, Binding(channel, port));
      sPortBinds[sPortBindCount] := Binding(channel, port);
      port.channel := channel;
      sPortBindCount := sPortBindCount + 1;
      assert Bindings() == before + [Binding(channel, port)];
      return OK;
    }

    /** opdi_unbind_port: the port's first binding goes, and the later ones move up. */
    method UnbindPort(port: Port) returns (status: Status)
      requires Bound()
      modifies `sPortBindCount, sPortBinds, port`channel
      ensures Bound() && status == if port.streaming then OK else WRONG_PORT_TYPE
      ensures !port.streaming || PortUnbound(old(Bindings()), port) ==>
                Bindings() == old(Bindings()) && port.channel == old(port.channel)
      ensures port.streaming && !PortUnbound(old(Bindings()), port) ==>
                port.channel == 0 && exists k: nat :: FirstOf(old(Bindings()), port, k) && Bindings() == Without(old(Bindings()), k)
    {
      if !port.streaming {
        return WRONG_PORT_TYPE;
      }
      var i: nat := 0;
      while i < sPortBindCount && sPortBinds[i].port != port
        invariant i <= sPortBindCount && forall k | 0 <= k < i :: sPortBinds[k].port != port
      {
        i := i + 1;
      }
      if i == sPortBindCount {
        return OK;
      }
      assert FirstOf(Bindings(), port, i);
      port.channel := 0;
      RemoveBinding(i);
      return OK;
    }

    /** Shifts the bindings behind position k to the left. */
    method ShiftLeft(k: nat)
      requires k < sPortBindCount <= sPortBinds.Length
      modifies sPortBinds
      ensures sPortBinds[..sPortBindCount - 1] == Without(old(Bindings()), k)
    {
      hide Shifted;
      ghost var was := sPortBinds[..];
      NothingShifted(was, k);
      var i: nat := k + 1;
      while i < sPortBindCount
        invariant k < i <= sPortBindCount && Shifted(was, sPortBinds[..], k, i)
      {
        ghost var before := sPortBinds[..];
        ShiftedStep(was, before, k, i);
        sPortBinds[i - 1] := sPortBinds[i];
        assert sPortBinds[..] == before[i - 1 := before[i]];
        i := i + 1;
      }
      AllShifted(was, sPortBinds[..], k, i);
      assert sPortBinds[..][..i - 1] == sPortBinds[..i - 1] && was[..i] == old(Bindings());
    }

    method RemoveBinding(k: nat)
      requires Bound() && k < sPortBindCount
      modifies `sPortBindCount, sPortBinds
      ensures Bound() && Bindings() == Without(old(Bindings()), k)
    {
      ghost var before := Bindings();
      WithoutKeepsOrder(before, k);
      ShiftLeft(k);
      sPortBindCount := sPortBindCount - 1;
      forall j | 0 <= j < sPortBindCount
        ensures sPortBinds[j].port != null && sPortBinds[j].port.streaming
      {
        assert sPortBinds[j] == Bindings()[j] == before[if j < k then j else j + 1];
      }
    }

    /** opdi_try_dispatch_stream: the port that gets the data is the one bound to the channel;
        received is what its function returns. */
    method TryDispatchStream(channel: nat, received: Status) returns (status: Status, port: Port?)
      requires Bound()
      ensures port == null <==> Unbound(Bindings(), channel)
      ensures port == null ==> status == NO_BINDING
      ensures port != null ==> Binding(channel, port) in Bindings() && status == if port.receives then received else OK
    {
      port := null;
      var i: nat := 0;
      while i < sPortBindCount
        invariant i <= sPortBindCount && forall k | 0 <= k < i :: sPortBinds[k].channel != channel
      {
        if sPortBinds[i].channel == channel {
          assert Bindings()[i] == sPortBinds[i];
          port := sPortBinds[i].port;
          return if port.receives then received else OK, port;
        }
        i := i + 1;
      }
      return NO_BINDING, port;
    }

    /** opdi_reset_bindings. */
    method ResetBindings()
      requires Bound()
      modifies `sPortBindCount, set b | b in Bindings() :: b.port
      ensures Bound() && Bindings() == []
      ensures forall b | b in old(Bindings()) && b.port != null :: b.port.channel == 0
    {
      ghost var before := Bindings();
      var i: nat := 0;
      while i < sPortBindCount
        invariant i <= sPortBindCount == old(sPortBindCount) && Bindings() == before
        invariant forall k | 0 <= k < i :: before[k].port != null ==> before[k].port.channel == 0
      {
        assert Bindings()[i] == sPortBinds[i];
        sPortBinds[i].port.channel := 0;
        i := i + 1;
      }
      sPortBindCount := 0;
    }
  }

  /** The entries behind position k and before i have moved up. */
  ghost predicate Shifted(was: seq<Binding>, now: seq<Binding>, k: nat, i: nat) {
    && |now| == |was| && k < i <= |was|
    && (forall j | 0 <= j < k || i - 1 <= j < |was| :: now[j] == was[j])
    && (forall j | k <= j < i - 1 :: now[j] == was[j + 1])
  }

  lemma NothingShifted(was: seq<Binding>, k: nat)
    requires k < |was|
    ensures Shifted(was, was, k, k + 1)
  {}

  lemma ShiftedStep(was: seq<Binding>, now: seq<Binding>, k: nat, i: nat)
    requires Shifted(was, now, k, i) && i < |was|
    ensures Shifted(was, now[i - 1 := now[i]], k, i + 1)
  {}

  lemma AllShifted(was: seq<Binding>, now: seq<Binding>, k: nat, i: nat)
    requires Shifted(was, now, k, i)
    ensures now[..i - 1] == Without(was[..i], k)
  {}

  ghost predicate PortUnbound(bs: seq<Binding>, port: Port) {
    forall i | 0 <= i < |bs| :: bs[i].port != port
  }

  ghost predicate FirstOf(bs: seq<Binding>, port: Port, k: nat) {
    k < |bs| && bs[k].port == port && forall i | 0 <= i < k :: bs[i].port != port
  }

  lemma OnlyAt(bs: seq<Binding>, channel: nat, k: nat)
    requires DistinctChannels(bs) && BoundAt(bs, channel, k)
    ensures forall p: Port :: Binding(channel, p) in bs <==> bs[k].port == p
  {
    forall p: Port | Binding(channel, p) in bs
      ensures bs[k].port == p
    {
      var i :| 0 <= i < |bs| && bs[i] == Binding(channel, p);
      assert i == k;
    }
  }
}

/**
  The life of a session: start, datagrams, timers, user calls and teardown, in any order.  The strand
  makes each event atomic.  Policy callbacks and control packets are logged; what a channel hands to
  its receive queue for a data packet is left open.
 */
module Session {
  import opened Packets
  import Queue = ReceiveQueue
  import Codec
  import Protocol
  import Receiver = ReliableReceiver

  const MAX_CHANNELS := 8

  datatype Endpoint = Endpoint(address: int, port: nat)

  /** When the caller of a disconnect is answered, and with which error if at once. */
  datatype Answer = Now(error: Option<Error>) | WhenSent

  datatype PolicyEvent = OnConnected | OnDisconnected(reason: Option<Error>)

  /** `ops` is history: the operations each channel's queue has seen. */
  datatype Session = Session(
    started: bool, closed: bool, remote: Option<Endpoint>, lastRecv: int,
    open: seq<bool>, queues: seq<Queue.Queue>, policy: seq<PolicyEvent>, sent: seq<Packet>,
    ops: seq<seq<Queue.Op>>)

  predicate HasShape(s: Session) {
    |s.open| == |s.queues| == |s.ops| == MAX_CHANNELS
  }

  /** The channels named in the configuration; ids of 8 and above are ignored. */
  function Init(channels: seq<nat>): Session {
    Session(false, false, None, 0, seq(MAX_CHANNELS, ch => ch in channels),
            seq(MAX_CHANNELS, _ => Queue.EMPTY), [], [], seq(MAX_CHANNELS, _ => []))
  }

  predicate IsOpen(s: Session, ch: nat)
    requires HasShape(s)
  {
    ch < MAX_CHANNELS && s.open[ch]
  }

  // ----- Teardown -----

  /** Channels are closed with the reason given, or with `ChannelClosed` when there is none. */
  function ChannelReason(reason: Option<Error>): Error {
    if reason.Some? then reason.value else ChannelClosed
  }

  function ClosedQueue(open: bool, q: Queue.Queue, reason: Option<Error>): Queue.Queue {
    if open then Queue.Close(q, ChannelReason(reason)) else q
  }

  function Close(s: Session, reason: Option<Error>): Session
    requires HasShape(s)
  {
    if s.closed then s
    else
      s.(closed := true,
         queues := seq(MAX_CHANNELS, ch requires 0 <= ch < MAX_CHANNELS => ClosedQueue(s.open[ch], s.queues[ch], reason)),
         ops := seq(MAX_CHANNELS, ch requires 0 <= ch < MAX_CHANNELS =>
                    if s.open[ch] then s.ops[ch] + [Queue.OpClose(ChannelReason(reason))] else s.ops[ch]),
         policy := s.policy + [OnDisconnected(reason)])
  }

  // ----- Events -----

  /** What a channel does with a data packet: what it hands to its queue, and the ACK it then builds, if any. */
  datatype Handled = Handled(deliveries: seq<Payload>, ack: Option<Packet>)

  function AckOf(handled: Handled): seq<Packet> {
    match handled.ack case None => [] case Some(packet) => [packet]
  }

  datatype Event =
    /** The policy's `onConnected` may cancel the session from inside the callback. */
    | Start(remote: Endpoint, now: int, policyCancels: bool)
    | SocketFailed(error: Error)
    /** `handled` is what the channel makes of it if this is a data packet for it. */
    | Datagram(sender: Endpoint, bytes: seq<Byte>, now: int, handled: Handled)
    | KeepaliveTimer(now: int, timeout: nat)
    | RetransmitTimer
    | Receive(channel: nat, capacity: nat)
    | Disconnect(encodes: bool)
    | DisconnectSent
    | Cancel

  function AfterStart(s: Session, remote: Endpoint, now: int, policyCancels: bool): Session
    requires HasShape(s)
  {
    if s.started || s.closed then s
    else
      var t := s.(started := true, remote := Some(remote), lastRecv := now, policy := s.policy + [OnConnected]);
      if policyCancels then Close(t, Some(OperationAborted)) else t
  }

  /** A data or unknown packet for a channel. */
  function AfterChannelPacket(s: Session, packet: Packet, handled: Handled): Session
    requires HasShape(s)
  {
    var ch := packet.channel;
    if !IsOpen(s, ch) || packet.kind != DATA then s
    else s.(queues := s.queues[ch := Queue.DeliverAll(s.queues[ch], handled.deliveries)],
            ops := s.ops[ch := s.ops[ch] + Delivers(handled.deliveries)],
            sent := s.sent + AckOf(handled))
  }

  function Delivers(payloads: seq<Payload>): seq<Queue.Op> {
    seq(|payloads|, i requires 0 <= i < |payloads| => Queue.OpDeliver(payloads[i]))
  }

  function AfterPacket(s: Session, bytes: seq<Byte>, now: int, handled: Handled): Session
    requires HasShape(s)
  {
    match Codec.Decode(bytes)
    case Err(_) => s
    case Ok(packet) =>
      var t := s.(lastRecv := now);
      if packet.kind == DISCONNECT then Close(t, Some(ConnectionReset))
      else if packet.kind == KEEPALIVE || packet.kind == HANDSHAKE_ACK then t
      else if packet.kind == HANDSHAKE_INIT then
        t.(sent := t.sent + [Packet(HANDSHAKE_ACK, 0, packet.sequence, 0, 0, [], 0)])
      else AfterChannelPacket(t, packet, handled)
  }

  function AfterDatagram(s: Session, sender: Endpoint, bytes: seq<Byte>, now: int, handled: Handled): Session
    requires HasShape(s)
  {
    if s.closed || s.remote != Some(sender) then s else AfterPacket(s, bytes, now, handled)
  }

  function AfterKeepalive(s: Session, now: int, timeout: nat): Session
    requires HasShape(s)
  {
    if s.closed then s
    else if now - s.lastRecv > timeout then Close(s, Some(Timeout))
    else s.(sent := s.sent + [Packet(KEEPALIVE, 0, 0, 0, 0, [], 0)])
  }

  /** A receive on a channel that is not open is answered at once and leaves no trace. */
  function AfterReceive(s: Session, ch: nat, capacity: nat): Session
    requires HasShape(s)
  {
    if !IsOpen(s, ch) then s
    else s.(queues := s.queues[ch := Queue.Receive(s.queues[ch], Queue.Issued(s.ops[ch]), capacity)],
            ops := s.ops[ch := s.ops[ch] + [Queue.OpReceive(capacity)]])
  }

  /** The DISCONNECT packet is sent first; the session closes when that send completes. */
  function AfterDisconnect(s: Session, encodes: bool): Session
    requires HasShape(s)
  {
    if s.closed then s
    else if !encodes then Close(s, Some(BadPacket))
    else s.(sent := s.sent + [Packet(DISCONNECT, 0, 0, 0, 0, [], 0)])
  }

  function Apply(s: Session, event: Event): Session
    requires HasShape(s)
  {
    match event
    case Start(remote, now, policyCancels) => AfterStart(s, remote, now, policyCancels)
    case SocketFailed(error) => Close(s, Some(error))
    case Datagram(sender, bytes, now, handled) => AfterDatagram(s, sender, bytes, now, handled)
    case KeepaliveTimer(now, timeout) => AfterKeepalive(s, now, timeout)
    case RetransmitTimer => s
    case Receive(channel, capacity) => AfterReceive(s, channel, capacity)
    case Disconnect(encodes) => AfterDisconnect(s, encodes)
    case DisconnectSent => Close(s, None)
    case Cancel => Close(s, Some(OperationAborted))
  }

  /** The answer to a send, before the channel sees it. */
  function SendRefusal(s: Session, ch: nat, size: nat, mtu: nat): Option<Error>
    requires HasShape(s)
  {
    if s.closed || !IsOpen(s, ch) then Some(ChannelClosed)
    else if size + Codec.OVERHEAD > mtu then Some(MessageTooLarge)
    else None
  }

  lemma ApplyKeepsShape(s: Session, event: Event)
    requires HasShape(s)
    ensures HasShape(Apply(s, event)) && Apply(s, event).open == s.open
  {
  }

  function Run(channels: seq<nat>, events: seq<Event>): (s: Session)
    ensures HasShape(s)
  {
    if events == [] then Init(channels)
    else
      var before := Run(channels, events[..|events| - 1]);
      ApplyKeepsShape(before, events[|events| - 1]);
      Apply(before, events[|events| - 1])
  }

  // ----- The session object -----

  class BasicSession {
    var started: bool
    var closed: bool
    var remote: Option<Endpoint>
    var lastRecv: int
    var channelOpen: seq<bool>
    var queues: seq<Queue.Queue>
    var policy: seq<PolicyEvent>
    var sent: seq<Packet>
    ghost var ops: seq<seq<Queue.Op>>

    ghost function View(): Session
      reads this
    {
      Session(started, closed, remote, lastRecv, channelOpen, queues, policy, sent, ops)
    }

    constructor (channels: seq<nat>)
      ensures View() == Init(channels)
    {
      started, closed, remote, lastRecv, policy, sent := false, false, None, 0, [], [];
      queues := seq(MAX_CHANNELS, _ => Queue.EMPTY);
      ops := seq(MAX_CHANNELS, _ => []);
      var open := seq(MAX_CHANNELS, _ => false);
      for i := 0 to |channels|
        invariant |open| == MAX_CHANNELS
        invariant forall ch :: 0 <= ch < MAX_CHANNELS ==> (open[ch] <==> ch in channels[..i])
      {
        assert channels[..i + 1] == channels[..i] + [channels[i]];
        if channels[i] < MAX_CHANNELS {
          open := open[channels[i] := true];
        }
      }
      assert channels[..|channels|] == channels;
      channelOpen := open;
    }

    /** Tears the session down exactly once. */
    method CloseSession(reason: Option<Error>)
      requires HasShape(View())
      modifies this
      ensures HasShape(View()) && View() == Close(old(View()), reason)
    {
      if closed {
        return;
      }
      closed := true;
      ghost var s := old(View());
      for ch := 0 to MAX_CHANNELS
        invariant HasShape(View())
        invariant View() == s.(closed := true, queues := queues, ops := ops)
        invariant forall c :: 0 <= c < MAX_CHANNELS ==>
                    queues[c] == if c < ch then ClosedQueue(s.open[c], s.queues[c], reason) else s.queues[c]
        invariant forall c :: 0 <= c < MAX_CHANNELS ==>
                    ops[c] == if c < ch && s.open[c]
                              then s.ops[c] + [Queue.OpClose(ChannelReason(reason))] else s.ops[c]
      {
        if channelOpen[ch] {
          queues := queues[ch := Queue.Close(queues[ch], ChannelReason(reason))];
          ops := ops[ch := ops[ch] + [Queue.OpClose(ChannelReason(reason))]];
        }
      }
      policy := policy + [OnDisconnected(reason)];
      assert View() == Close(s, reason);
    }

    method StartSession(peer: Endpoint, now: int, policyCancels: bool)
      requires HasShape(View())
      modifies this
      ensures HasShape(View()) && View() == AfterStart(old(View()), peer, now, policyCancels)
    {
      if started || closed {
        return;
      }
      started, remote, lastRecv := true, Some(peer), now;
      policy := policy + [OnConnected];
      if policyCancels {
        CloseSession(Some(OperationAborted));
      }
    }

    method OnSocketRecv(sender: Endpoint, bytes: seq<Byte>, now: int, handled: Handled)
      requires HasShape(View())
      modifies this
      ensures HasShape(View()) && View() == AfterDatagram(old(View()), sender, bytes, now, handled)
    {
      if closed || remote != Some(sender) {
        return;
      }
      var decoded := Codec.Decode(bytes);
      if decoded.Err? {
        return;
      }
      lastRecv := now;
      var packet := decoded.value;
      if packet.kind == DISCONNECT {
        CloseSession(Some(ConnectionReset));
      } else if packet.kind == KEEPALIVE || packet.kind == HANDSHAKE_ACK {
        return;
      } else if packet.kind == HANDSHAKE_INIT {
        sent := sent + [Packet(HANDSHAKE_ACK, 0, packet.sequence, 0, 0, [], 0)];
      } else if packet.channel < MAX_CHANNELS && channelOpen[packet.channel] && packet.kind == DATA {
        queues := queues[packet.channel := Queue.DeliverAll(queues[packet.channel], handled.deliveries)];
        ops := ops[packet.channel := ops[packet.channel] + Delivers(handled.deliveries)];
        sent := sent + AckOf(handled);
      }
    }

    method OnKeepaliveTimer(now: int, timeout: nat)
      requires HasShape(View())
      modifies this
      ensures HasShape(View()) && View() == AfterKeepalive(old(View()), now, timeout)
    {
      if closed {
        return;
      }
      if now - lastRecv > timeout {
        CloseSession(Some(Timeout));
        return;
      }
      sent := sent + [Packet(KEEPALIVE, 0, 0, 0, 0, [], 0)];
    }

    /** Whether the receive reached its channel; if not, it was refused with `ChannelClosed`. */
    method AsyncRecv(ch: nat, handler: nat, capacity: nat) returns (reached: bool)
      requires HasShape(View())
      requires IsOpen(View(), ch) ==> handler == Queue.Issued(ops[ch])
      modifies this
      ensures HasShape(View()) && View() == AfterReceive(old(View()), ch, capacity)
      ensures reached == IsOpen(old(View()), ch)
    {
      if ch >= MAX_CHANNELS || !channelOpen[ch] {
        return false;
      }
      queues := queues[ch := Queue.Receive(queues[ch], handler, capacity)];
      ops := ops[ch := ops[ch] + [Queue.OpReceive(capacity)]];
      return true;
    }

    /** The caller is told at once on a closed session or when the packet does not encode, otherwise when it is sent. */
    method AsyncDisconnect(encodes: bool) returns (answer: Answer)
      requires HasShape(View())
      modifies this
      ensures HasShape(View()) && View() == AfterDisconnect(old(View()), encodes)
      ensures answer == if old(closed) then Now(None) else if encodes then WhenSent else Now(Some(BadPacket))
    {
      if closed {
        return Now(None);
      }
      if !encodes {
        CloseSession(Some(BadPacket));
        return Now(Some(BadPacket));
      }
      sent := sent + [Packet(DISCONNECT, 0, 0, 0, 0, [], 0)];
      return WhenSent;
    }

    /** The DISCONNECT packet has been sent, or failed to be: the session closes and the caller is told which. */
    method OnDisconnectSent(error: Option<Error>) returns (answer: Answer)
      requires HasShape(View())
      modifies this
      ensures HasShape(View()) && View() == Close(old(View()), None)
      ensures answer == Now(error)
    {
      CloseSession(None);
      return Now(error);
    }
  }

  // ----- What holds in every run -----

  /** `onConnected` fired once if started, `onDisconnected` once if closed, in that order, and nothing else. */
  ghost predicate PolicyInv(s: Session) {
    if s.closed then
      exists reason :: s.policy == (if s.started then [OnConnected] else []) + [OnDisconnected(reason)]
    else
      s.policy == if s.started then [OnConnected] else []
  }

  /** Each channel's queue is what its operations make of it; it is closed if and only if the session is. */
  ghost predicate ChannelInv(s: Session, ch: nat)
    requires HasShape(s) && ch < MAX_CHANNELS
  {
    && s.queues[ch] == Queue.Run(s.ops[ch])
    && (s.open[ch] ==> s.queues[ch].closed == s.closed)
    && (s.open[ch] && s.closed ==>
          exists reason :: OnDisconnected(reason) in s.policy && s.queues[ch].reason == ChannelReason(reason))
    && (!s.open[ch] ==> s.ops[ch] == [])
  }

  ghost predicate ChannelsInv(s: Session)
    requires HasShape(s)
  {
    forall ch {:trigger ChannelInv(s, ch)} :: 0 <= ch < MAX_CHANNELS ==> ChannelInv(s, ch)
  }

  ghost predicate Inv(s: Session) {
    HasShape(s) && PolicyInv(s) && ChannelsInv(s)
  }

  lemma RunOfSnoc(ops: seq<Queue.Op>, op: Queue.Op)
    ensures Queue.Run(ops + [op]) == Queue.Apply(Queue.Run(ops), Queue.Issued(ops), op)
  {
    assert (ops + [op])[..|ops|] == ops;
  }

  lemma {:induction false} RunOfDeliveries(ops: seq<Queue.Op>, payloads: seq<Payload>)
    ensures Queue.Run(ops + Delivers(payloads)) == Queue.DeliverAll(Queue.Run(ops), payloads)
    ensures Queue.DeliverAll(Queue.Run(ops), payloads).closed == Queue.Run(ops).closed
  {
    if payloads == [] {
      assert ops + Delivers(payloads) == ops;
    } else {
      var n := |payloads| - 1;
      RunOfDeliveries(ops, payloads[..n]);
      assert ops + Delivers(payloads) == (ops + Delivers(payloads[..n])) + [Queue.OpDeliver(payloads[n])];
      RunOfSnoc(ops + Delivers(payloads[..n]), Queue.OpDeliver(payloads[n]));
    }
  }

  lemma CloseKeepsInv(s: Session, reason: Option<Error>)
    requires Inv(s)
    ensures Inv(Close(s, reason)) && Close(s, reason).closed
  {
    if !s.closed {
      var t := Close(s, reason);
      forall ch {:trigger ChannelInv(t, ch)} | 0 <= ch < MAX_CHANNELS ensures ChannelInv(t, ch) {
        assert ChannelInv(s, ch);
        RunOfSnoc(s.ops[ch], Queue.OpClose(ChannelReason(reason)));
        assert OnDisconnected(reason) in t.policy;
      }
    }
  }

  /** One channel's queue moved on; it was not closed by it, nor reopened. */
  lemma ChannelMoves(s: Session, t: Session, ch: nat)
    requires Inv(s) && HasShape(t) && ch < MAX_CHANNELS && s.open[ch]
    requires t == s.(queues := s.queues[ch := t.queues[ch]], ops := s.ops[ch := t.ops[ch]], sent := t.sent)
    requires t.queues[ch] == Queue.Run(t.ops[ch])
    requires t.queues[ch].closed == s.queues[ch].closed
    requires s.closed ==> t.queues[ch].reason == s.queues[ch].reason
    ensures Inv(t)
  {
    forall c {:trigger ChannelInv(t, c)} | 0 <= c < MAX_CHANNELS ensures ChannelInv(t, c) {
      assert ChannelInv(s, c);
    }
  }

  /** Only the clock, the peer, the start flag or the log of control packets changed. */
  lemma ChannelsUntouched(s: Session, t: Session)
    requires Inv(s) && HasShape(t) && PolicyInv(t)
    requires t.open == s.open && t.queues == s.queues && t.ops == s.ops && t.closed == s.closed
    requires forall e :: e in s.policy ==> e in t.policy
    ensures Inv(t)
  {
    forall c {:trigger ChannelInv(t, c)} | 0 <= c < MAX_CHANNELS ensures ChannelInv(t, c) {
      assert ChannelInv(s, c);
    }
  }

  lemma StartKeepsInv(s: Session, remote: Endpoint, now: int, policyCancels: bool)
    requires Inv(s)
    ensures Inv(AfterStart(s, remote, now, policyCancels))
  {
    if !s.started && !s.closed {
      var t := s.(started := true, remote := Some(remote), lastRecv := now, policy := s.policy + [OnConnected]);
      ChannelsUntouched(s, t);
      CloseKeepsInv(t, Some(OperationAborted));
    }
  }

  lemma ChannelPacketKeepsInv(s: Session, packet: Packet, handled: Handled)
    requires Inv(s) && !s.closed
    ensures Inv(AfterChannelPacket(s, packet, handled))
  {
    var ch := packet.channel;
    if packet.kind == DATA && IsOpen(s, ch) {
      assert ChannelInv(s, ch);
      RunOfDeliveries(s.ops[ch], handled.deliveries);
      ChannelMoves(s, AfterChannelPacket(s, packet, handled), ch);
    }
  }

  lemma PacketKeepsInv(s: Session, bytes: seq<Byte>, now: int, handled: Handled)
    requires Inv(s) && !s.closed
    ensures Inv(AfterPacket(s, bytes, now, handled))
  {
    match Codec.Decode(bytes)
    case Err(_) =>
    case Ok(packet) =>
      var t := s.(lastRecv := now);
      ChannelsUntouched(s, t);
      if packet.kind == DISCONNECT {
        CloseKeepsInv(t, Some(ConnectionReset));
      } else if packet.kind == HANDSHAKE_INIT {
        ChannelsUntouched(t, AfterPacket(s, bytes, now, handled));
      } else {
        ChannelPacketKeepsInv(t, packet, handled);
      }
  }

  lemma ReceiveKeepsInv(s: Session, ch: nat, capacity: nat)
    requires Inv(s)
    ensures Inv(AfterReceive(s, ch, capacity))
  {
    if IsOpen(s, ch) {
      assert ChannelInv(s, ch);
      RunOfSnoc(s.ops[ch], Queue.OpReceive(capacity));
      ChannelMoves(s, AfterReceive(s, ch, capacity), ch);
    }
  }

  lemma ApplyKeepsInv(s: Session, event: Event)
    requires Inv(s)
    ensures Inv(Apply(s, event))
  {
    match event
    case Start(remote, now, policyCancels) => StartKeepsInv(s, remote, now, policyCancels);
    case SocketFailed(error) => CloseKeepsInv(s, Some(error));
    case Datagram(sender, bytes, now, handled) =>
      if !s.closed { PacketKeepsInv(s, bytes, now, handled); }
    case KeepaliveTimer(now, timeout) =>
      CloseKeepsInv(s, Some(Timeout));
      if !s.closed && now - s.lastRecv <= timeout { ChannelsUntouched(s, Apply(s, event)); }
    case RetransmitTimer =>
    case Receive(channel, capacity) => ReceiveKeepsInv(s, channel, capacity);
    case Disconnect(encodes) =>
      CloseKeepsInv(s, Some(BadPacket));
      if !s.closed && encodes { ChannelsUntouched(s, Apply(s, event)); }
    case DisconnectSent => CloseKeepsInv(s, None);
    case Cancel => CloseKeepsInv(s, Some(OperationAborted));
  }

  lemma {:induction false} RunKeepsInv(channels: seq<nat>, events: seq<Event>)
    ensures Inv(Run(channels, events))
  {
    if events == [] {
      var s := Init(channels);
      forall ch {:trigger ChannelInv(s, ch)} | 0 <= ch < MAX_CHANNELS ensures ChannelInv(s, ch) {
      }
    } else {
      RunKeepsInv(channels, events[..|events| - 1]);
      ApplyKeepsInv(Run(channels, events[..|events| - 1]), events[|events| - 1]);
    }
  }

  function Count(policy: seq<PolicyEvent>, connected: bool): nat {
    if policy == [] then 0
    else Count(policy[..|policy| - 1], connected) + if policy[|policy| - 1].OnConnected? == connected then 1 else 0
  }

  /**
    Over every interleaving of events: `onConnected` has fired once if the session started and never
    otherwise, never after `onDisconnected`, which has fired exactly once if and only if the session
    is closed.
   */
  lemma PolicyFiresOnce(channels: seq<nat>, events: seq<Event>)
    ensures var s := Run(channels, events);
            && Count(s.policy, true) == (if s.started then 1 else 0)
            && Count(s.policy, false) == (if s.closed then 1 else 0)
            && (forall i, j :: 0 <= i < j < |s.policy| ==> s.policy[i].OnConnected? && s.policy[j].OnDisconnected?)
  {
    var s := Run(channels, events);
    RunKeepsInv(channels, events);
    if s.closed {
      var reason :| s.policy == (if s.started then [OnConnected] else []) + [OnDisconnected(reason)];
      assert s.policy[..|s.policy| - 1] == if s.started then [OnConnected] else [];
    }
    assert [OnConnected][..0] == [];
  }

  /**
    In every run, on every channel: no receive is parked on a closed session, every receive issued has
    been answered once (except a parked one), and messages are served in order without loss.
   */
  lemma ChannelsAreAccounted(channels: seq<nat>, events: seq<Event>, ch: nat)
    requires ch < MAX_CHANNELS
    ensures var s := Run(channels, events);
            && (s.closed ==> s.queues[ch].pending.None?)
            && Queue.Conserves(s.queues[ch], Queue.Delivered(s.ops[ch]))
            && Queue.Answers(s.queues[ch], Queue.Issued(s.ops[ch]))
  {
    var s := Run(channels, events);
    RunKeepsInv(channels, events);
    assert ChannelInv(s, ch);
    Queue.RunConserves(s.ops[ch]);
    assert Queue.Run([]) == Queue.EMPTY;
  }

  // ----- Silence -----

  /** The session hears of its peer: at the start, and by every datagram from the peer that decodes. */
  predicate Hears(s: Session, event: Event) {
    && !s.closed
    && match event
       case Start(_, _, _) => !s.started
       case Datagram(sender, bytes, _, _) => s.remote == Some(sender) && Codec.Decode(bytes).Ok?
       case _ => false
  }

  /** The times at which it heard, in order. */
  function Heard(channels: seq<nat>, events: seq<Event>): seq<int> {
    if events == [] then []
    else
      var n := |events| - 1;
      var before := Heard(channels, events[..n]);
      if !Hears(Run(channels, events[..n]), events[n]) then before
      else before + [match events[n] case Start(_, now, _) => now case Datagram(_, _, now, _) => now case _ => 0]
  }

  ghost predicate KnowsLast(s: Session, heard: seq<int>) {
    && (s.remote.Some? ==> s.started)
    && (s.started <==> heard != [])
    && (heard != [] ==> s.lastRecv == heard[|heard| - 1])
  }

  lemma StepHears(s: Session, event: Event)
    requires HasShape(s) && (s.remote.Some? ==> s.started)
    ensures var t := Apply(s, event);
            && (t.remote.Some? ==> t.started)
            && t.started == (s.started || Hears(s, event))
            && (!Hears(s, event) ==> t.lastRecv == s.lastRecv)
            && (Hears(s, event) && event.Start? ==> t.lastRecv == event.now)
            && (Hears(s, event) && event.Datagram? ==> t.lastRecv == event.now)
  {
  }

  lemma {:induction false} RunKnowsLast(channels: seq<nat>, events: seq<Event>)
    ensures KnowsLast(Run(channels, events), Heard(channels, events))
  {
    if events != [] {
      var n := |events| - 1;
      RunKnowsLast(channels, events[..n]);
      StepHears(Run(channels, events[..n]), events[n]);
    }
  }

  ghost predicate InOrder(times: seq<int>) {
    forall i, j :: 0 <= i < j < |times| ==> times[i] <= times[j]
  }

  /** Each of these times is longer ago than the timeout. */
  ghost predicate AllLongAgo(times: seq<int>, now: int, timeout: int) {
    forall t :: t in times ==> now - t > timeout
  }

  lemma LastIsLargest(times: seq<int>, now: int, timeout: int)
    requires times != [] && InOrder(times)
    ensures AllLongAgo(times, now, timeout) <==> now - times[|times| - 1] > timeout
  {
    assert times[|times| - 1] in times;
    forall t | t in times ensures t <= times[|times| - 1] {
      var i :| 0 <= i < |times| && times[i] == t;
    }
  }

  lemma KeepaliveCloses(s: Session, now: int, timeout: nat)
    requires HasShape(s) && s.started && !s.closed
    ensures Apply(s, KeepaliveTimer(now, timeout)).closed <==> now - s.lastRecv > timeout
  {
  }

  /**
    A keepalive timer ends a running session if and only if the start and every valid datagram of the peer
    are longer ago than the timeout.  Junk and strangers do not keep a session alive.
   */
  lemma TimesOutIffSilent(channels: seq<nat>, events: seq<Event>, now: int, timeout: nat)
    requires InOrder(Heard(channels, events))
    requires Run(channels, events).started && !Run(channels, events).closed
    ensures Apply(Run(channels, events), KeepaliveTimer(now, timeout)).closed <==>
            AllLongAgo(Heard(channels, events), now, timeout)
  {
    RunKnowsLast(channels, events);
    LastIsLargest(Heard(channels, events), now, timeout);
    KeepaliveCloses(Run(channels, events), now, timeout);
  }

  // ----- After the close -----

  /** Nothing but receives on open channels changes a closed session. */
  lemma ClosedStays(s: Session, event: Event)
    requires HasShape(s) && s.closed && !event.Receive?
    ensures Apply(s, event) == s
  {
  }

  /**
    Whatever happens after the close, the session stays closed, calls no policy callback again, emits no
    control packet, and refuses every send.
   */
  lemma {:induction false} ClosedIsForever(channels: seq<nat>, events: seq<Event>, more: seq<Event>)
    requires Run(channels, events).closed
    ensures var s, t := Run(channels, events), Run(channels, events + more);
            && t.closed && t.policy == s.policy && t.sent == s.sent && t.started == s.started
            && forall ch, size, mtu :: SendRefusal(t, ch, size, mtu) == Some(ChannelClosed)
  {
    if more == [] {
      assert events + more == events;
    } else {
      var n := |more| - 1;
      ClosedIsForever(channels, events, more[..n]);
      assert (events + more)[..|events| + n] == events + more[..n];
      var before := Run(channels, events + more[..n]);
      if !more[n].Receive? { ClosedStays(before, more[n]); }
    }
  }

  function Receives(ch: nat, capacities: seq<nat>): seq<Event> {
    seq(|capacities|, i requires 0 <= i < |capacities| => Receive(ch, capacities[i]))
  }

  function RunFrom(s: Session, events: seq<Event>): (t: Session)
    requires HasShape(s)
    ensures HasShape(t)
  {
    if events == [] then s
    else
      var before := RunFrom(s, events[..|events| - 1]);
      ApplyKeepsShape(before, events[|events| - 1]);
      Apply(before, events[|events| - 1])
  }

  lemma {:induction false} ReceivesReachQueue(s: Session, ch: nat, capacities: seq<nat>)
    requires HasShape(s) && IsOpen(s, ch)
    ensures var t := RunFrom(s, Receives(ch, capacities));
            && t.open == s.open
            && t.queues[ch] == Queue.ReceiveEach(s.queues[ch], Queue.Issued(s.ops[ch]), capacities)
            && Queue.Issued(t.ops[ch]) == Queue.Issued(s.ops[ch]) + |capacities|
  {
    if capacities != [] {
      var n := |capacities| - 1;
      ReceivesReachQueue(s, ch, capacities[..n]);
      assert Receives(ch, capacities)[..n] == Receives(ch, capacities[..n]);
      var t := RunFrom(s, Receives(ch, capacities[..n]));
      var op := Queue.OpReceive(capacities[n]);
      assert (t.ops[ch] + [op])[..|t.ops[ch]|] == t.ops[ch];
    }
  }

  /** The queue `r` is `q` after receives with these capacities, all answered as after a close. */
  ghost predicate DrainedFirst(q: Queue.Queue, r: Queue.Queue, capacities: seq<nat>) {
    && |r.log| == |q.log| + |capacities|
    && forall i :: 0 <= i < |capacities| ==>
         r.log[|q.log| + i].result ==
         if i < |q.queued| then Ok(Queue.Cut(q.queued[i], capacities[i])) else Err(q.reason)
  }

  lemma ReceivesDrainFirst(s: Session, ch: nat, capacities: seq<nat>)
    requires HasShape(s) && IsOpen(s, ch) && s.queues[ch].closed && s.queues[ch].pending.None?
    ensures DrainedFirst(s.queues[ch], RunFrom(s, Receives(ch, capacities)).queues[ch], capacities)
  {
    ReceivesReachQueue(s, ch, capacities);
    var q, first := s.queues[ch], Queue.Issued(s.ops[ch]);
    Queue.ClosedDrainsThenFails(q, first, capacities);
    var r := Queue.ReceiveEach(q, first, capacities);
    forall i | 0 <= i < |capacities|
      ensures r.log[|q.log| + i].result ==
              if i < |q.queued| then Ok(Queue.Cut(q.queued[i], capacities[i])) else Err(q.reason)
    {
      assert r.log[|q.log| + i] ==
             Queue.Completion(first + i, capacities[i], Queue.AnswerAfterClose(q, i, capacities[i]));
    }
  }

  /**
    Receives issued after the close are answered with the messages buffered on their channel, in order,
    and only then with the reason for which the session was closed.
   */
  lemma LateReceivesDrainFirst(channels: seq<nat>, events: seq<Event>, ch: nat, capacities: seq<nat>)
    requires IsOpen(Run(channels, events), ch) && Run(channels, events).closed
    ensures var s := Run(channels, events);
            var q := s.queues[ch];
            && (exists reason :: OnDisconnected(reason) in s.policy && q.reason == ChannelReason(reason))
            && DrainedFirst(q, RunFrom(s, Receives(ch, capacities)).queues[ch], capacities)
  {
    var s := Run(channels, events);
    RunKeepsInv(channels, events);
    assert ChannelInv(s, ch);
    ChannelsAreAccounted(channels, events, ch);
    ReceivesDrainFirst(s, ch, capacities);
  }

  // ----- Junk -----

  /** What a reliable channel, receiving as `r`, makes of a data packet. */
  function HandledBy(r: Receiver.Receiver, ordered: bool, id: Byte, packet: Packet): Handled
    requires Receiver.HasShape(r)
  {
    var (q, out) := Receiver.Receive(r, ordered, packet.sequence, packet.payload);
    Handled(out, Receiver.AckPacket(q.tracker, id))
  }

  /**
    The session around a reliable channel takes the step of the two-party system: for a data packet on the
    network it queues what the receiver delivers, and sends exactly the ACK that goes on the network there.
   */
  lemma DataIsAnswered(c: Protocol.Config, p: Protocol.System, d: Protocol.Datagram, s: Session, sender: Endpoint, now: int)
    requires Protocol.HasShape(p) && HasShape(s) && !s.closed && s.remote == Some(sender)
    requires Codec.Decode(d.frame).Ok? && Codec.Decode(d.frame).value.kind == DATA
    requires IsOpen(s, Codec.Decode(d.frame).value.channel)
    ensures var packet := Codec.Decode(d.frame).value;
            var handled := HandledBy(p.receiver, c.ordered, c.id, packet);
            var t := AfterDatagram(s, sender, d.frame, now, handled);
            var u := Protocol.AfterData(c, p, d);
            && t.queues[packet.channel] == Queue.DeliverAll(s.queues[packet.channel], handled.deliveries)
            && u.delivered == p.delivered + handled.deliveries
            && t.sent == s.sent + AckOf(handled)
            && u.acks == p.acks + set ack | ack in AckOf(handled) :: Protocol.AckDatagram(u.top, Codec.Frame(ack))
  {
  }

  /** A datagram from elsewhere, or one that does not decode, changes nothing. */
  lemma JunkIsIgnored(s: Session, sender: Endpoint, bytes: seq<Byte>, now: int, handled: Handled)
    requires HasShape(s) && (s.remote != Some(sender) || Codec.Decode(bytes).Err?)
    ensures AfterDatagram(s, sender, bytes, now, handled) == s
  {
  }

  /** In particular any frame damaged in one byte or two neighbouring bytes, wherever it comes from. */
  lemma DamagedFrameIsIgnored(s: Session, sender: Endpoint, packet: Packet, bytes: seq<Byte>, i: nat, now: int,
                              handled: Handled)
    requires HasShape(s)
    requires Codec.AgreeOutside(Codec.Frame(packet), bytes, i) && bytes != Codec.Frame(packet)
    ensures AfterDatagram(s, sender, bytes, now, handled) == s
  {
    Codec.DecodeOfFrame(packet);
    Codec.AdjacentCorruptionRejected(Codec.Frame(packet), bytes, i);
    JunkIsIgnored(s, sender, bytes, now, handled);
  }
}

/**
  What a session does over a whole run, told from the events alone: who its peer is, when it ends and why,
  which packets it sends, and what reaches each channel's queue.
 */
module SessionRuns {
  import opened Packets
  import opened Session
  import Queue = ReceiveQueue
  import Codec

  // ----- Told from the events -----

  /** The peer of the first start. */
  function Peer(events: seq<Event>): Option<Endpoint> {
    if events == [] then None
    else
      var before, last := events[..|events| - 1], events[|events| - 1];
      if Peer(before).Some? then Peer(before)
      else if last.Start? then Some(last.remote)
      else None
  }

  /** A datagram from the peer that decodes. */
  predicate FromPeer(before: seq<Event>, event: Event) {
    event.Datagram? && Peer(before) == Some(event.sender) && Codec.Decode(event.bytes).Ok?
  }

  /** When the peer was last heard of: at the start, or by a datagram that decodes. */
  function LastHeard(events: seq<Event>): int {
    if events == [] then 0
    else
      var before, last := events[..|events| - 1], events[|events| - 1];
      if last.Start? && Peer(before).None? then last.now
      else if FromPeer(before, last) then last.now
      else LastHeard(before)
  }

  /** Whether an event ends a session that is still open, and with which reason. */
  function Ending(before: seq<Event>, event: Event): Option<Option<Error>> {
    match event
    case Start(_, _, policyCancels) =>
      if Peer(before).None? && policyCancels then Some(Some(OperationAborted)) else None
    case SocketFailed(error) => Some(Some(error))
    case Datagram(_, bytes, _, _) =>
      if FromPeer(before, event) && Codec.Decode(bytes).value.kind == 0x30 then Some(Some(ConnectionReset)) else None
    case KeepaliveTimer(now, timeout) => if now - LastHeard(before) > timeout then Some(Some(Timeout)) else None
    case Disconnect(encodes) => if encodes then None else Some(Some(BadPacket))
    case DisconnectSent => Some(None)
    case Cancel => Some(Some(OperationAborted))
    case RetransmitTimer => None
    case Receive(_, _) => None
  }

  /** The first ending of a run. */
  function FirstEnding(events: seq<Event>): Option<Option<Error>> {
    if events == [] then None
    else
      var before := events[..|events| - 1];
      if FirstEnding(before).Some? then FirstEnding(before) else Ending(before, events[|events| - 1])
  }

  /** The peer when the session ended, or now if it is still open. */
  function PeerAtEnd(events: seq<Event>): Option<Endpoint> {
    if events == [] then None
    else
      var before := events[..|events| - 1];
      if FirstEnding(before).Some? then PeerAtEnd(before) else Peer(events)
  }

  function Configured(channels: seq<nat>, ch: nat): bool {
    ch < 8 && ch in channels
  }

  /** The packets an open session sends at an event that does not end it. */
  function Sends(channels: seq<nat>, before: seq<Event>, event: Event): seq<Packet> {
    match event
    case Datagram(_, bytes, _, handled) =>
      if !FromPeer(before, event) then []
      else
        var packet := Codec.Decode(bytes).value;
        if packet.kind == 0x01 then [Packet(0x02, 0, packet.sequence, 0, 0, [], 0)]
        else if packet.kind == 0x10 && Configured(channels, packet.channel) then AckOf(handled)
        else []
    case KeepaliveTimer(_, _) => [Packet(0x20, 0, 0, 0, 0, [], 0)]
    case Disconnect(_) => [Packet(0x30, 0, 0, 0, 0, [], 0)]
    case _ => []
  }

  function Sent(channels: seq<nat>, events: seq<Event>): seq<Packet> {
    if events == [] then []
    else
      var before, last := events[..|events| - 1], events[|events| - 1];
      Sent(channels, before) + if FirstEnding(events).Some? then [] else Sends(channels, before, last)
  }

  /** What an event means for the queue of an open channel. */
  function Reaches(before: seq<Event>, event: Event, ch: nat): seq<Queue.Op> {
    if event.Receive? then
      if event.channel == ch then [Queue.OpReceive(event.capacity)] else []
    else if FirstEnding(before).Some? then []
    else
      match Ending(before, event)
      case Some(reason) => [Queue.OpClose(if reason.Some? then reason.value else ChannelClosed)]
      case None =>
        if FromPeer(before, event) && Codec.Decode(event.bytes).value.kind == 0x10 &&
           Codec.Decode(event.bytes).value.channel == ch
        then Delivers(event.handled.deliveries) else []
  }

  function QueueOps(channels: seq<nat>, events: seq<Event>, ch: nat): seq<Queue.Op> {
    if events == [] then []
    else
      var before, last := events[..|events| - 1], events[|events| - 1];
      QueueOps(channels, before, ch) + if Configured(channels, ch) then Reaches(before, last, ch) else []
  }

  // ----- The run -----

  function PolicyCalls(events: seq<Event>): seq<PolicyEvent> {
    (if PeerAtEnd(events).Some? then [OnConnected] else []) +
    match FirstEnding(events)
    case None => []
    case Some(reason) => [OnDisconnected(reason)]
  }

  /** The life of the session is as the events tell. */
  ghost predicate LivesAsTold(events: seq<Event>, s: Session) {
    && s.closed == FirstEnding(events).Some?
    && s.remote == PeerAtEnd(events) && s.started == PeerAtEnd(events).Some?
    && s.policy == PolicyCalls(events)
    && (!s.closed ==> s.lastRecv == LastHeard(events) && PeerAtEnd(events) == Peer(events))
  }

  /** The channels are the configured ones, and their queues have seen what the events tell. */
  ghost predicate ChannelAsTold(channels: seq<nat>, events: seq<Event>, s: Session, ch: nat)
    requires HasShape(s) && ch < 8
  {
    s.open[ch] == Configured(channels, ch) && s.ops[ch] == QueueOps(channels, events, ch)
  }

  /** What the references make of one more event. */
  lemma OneMoreEvent(events: seq<Event>, event: Event)
    ensures var all := events + [event];
            && FirstEnding(all) == (if FirstEnding(events).Some? then FirstEnding(events) else Ending(events, event))
            && PeerAtEnd(all) == (if FirstEnding(events).Some? then PeerAtEnd(events) else Peer(all))
            && Peer(all) == (if Peer(events).Some? then Peer(events)
                             else if event.Start? then Some(event.remote) else None)
            && LastHeard(all) == (if event.Start? && Peer(events).None? then event.now
                                  else if FromPeer(events, event) then event.now else LastHeard(events))
  {
    var all := events + [event];
    assert all[..|all| - 1] == events && all[|all| - 1] == event;
  }

  lemma EndedLives(events: seq<Event>, s: Session, event: Event)
    requires HasShape(s) && LivesAsTold(events, s) && s.closed
    ensures LivesAsTold(events + [event], Apply(s, event))
  {
    OneMoreEvent(events, event);
  }

  lemma DatagramLives(events: seq<Event>, s: Session, event: Event)
    requires HasShape(s) && LivesAsTold(events, s) && !s.closed && event.Datagram?
    ensures LivesAsTold(events + [event], Apply(s, event))
  {
    OneMoreEvent(events, event);
  }

  lemma StepLives(events: seq<Event>, s: Session, event: Event)
    requires HasShape(s) && LivesAsTold(events, s)
    ensures LivesAsTold(events + [event], Apply(s, event))
  {
    if s.closed {
      EndedLives(events, s, event);
    } else if event.Datagram? {
      DatagramLives(events, s, event);
    } else {
      OneMoreEvent(events, event);
    }
  }

  lemma OneMoreSent(channels: seq<nat>, events: seq<Event>, event: Event)
    ensures Sent(channels, events + [event]) ==
            Sent(channels, events) + if FirstEnding(events).Some? || Ending(events, event).Some? then []
                                     else Sends(channels, events, event)
  {
    var all := events + [event];
    assert all[..|all| - 1] == events && all[|all| - 1] == event;
    OneMoreEvent(events, event);
  }

  lemma EventSends(channels: seq<nat>, events: seq<Event>, s: Session, event: Event)
    requires HasShape(s) && LivesAsTold(events, s) && !s.closed && !event.Datagram?
    ensures Apply(s, event).sent == s.sent + if Ending(events, event).Some? then [] else Sends(channels, events, event)
  {
  }

  lemma StepSends(channels: seq<nat>, events: seq<Event>, s: Session, event: Event)
    requires HasShape(s) && LivesAsTold(events, s) && s.sent == Sent(channels, events)
    requires forall ch {:trigger s.open[ch]} :: 0 <= ch < 8 ==> s.open[ch] == Configured(channels, ch)
    ensures Apply(s, event).sent == Sent(channels, events + [event])
  {
    OneMoreSent(channels, events, event);
    if s.closed {
      assert Apply(s, event).sent == s.sent;
    } else if !event.Datagram? {
      EventSends(channels, events, s, event);
    } else if FromPeer(events, event) {
      DatagramSends(channels, events, s, event);
    } else {
      JunkIsIgnored(s, event.sender, event.bytes, event.now, event.handled);
    }
  }

  lemma DatagramSends(channels: seq<nat>, events: seq<Event>, s: Session, event: Event)
    requires HasShape(s) && LivesAsTold(events, s) && !s.closed && event.Datagram? && FromPeer(events, event)
    requires forall ch {:trigger s.open[ch]} :: 0 <= ch < 8 ==> s.open[ch] == Configured(channels, ch)
    ensures Ending(events, event).None? ==> Apply(s, event).sent == s.sent + Sends(channels, events, event)
    ensures Ending(events, event).Some? ==> Apply(s, event).sent == s.sent
  {
  }

  lemma StepReaches(channels: seq<nat>, events: seq<Event>, s: Session, event: Event, ch: nat)
    requires HasShape(s) && LivesAsTold(events, s) && ch < 8 && ChannelAsTold(channels, events, s, ch)
    ensures HasShape(Apply(s, event)) && ChannelAsTold(channels, events + [event], Apply(s, event), ch)
  {
    var all := events + [event];
    assert all[..|all| - 1] == events && all[|all| - 1] == event;
    ApplyKeepsShape(s, event);
    if s.open[ch] { EventReaches(events, s, event, ch); } else { NothingReachesClosed(s, event, ch); }
  }

  lemma NothingReachesClosed(s: Session, event: Event, ch: nat)
    requires HasShape(s) && ch < 8 && !s.open[ch]
    ensures HasShape(Apply(s, event)) && Apply(s, event).ops[ch] == s.ops[ch]
  {
    ApplyKeepsShape(s, event);
  }

  lemma EventReaches(events: seq<Event>, s: Session, event: Event, ch: nat)
    requires HasShape(s) && LivesAsTold(events, s) && ch < 8 && s.open[ch]
    ensures HasShape(Apply(s, event)) && Apply(s, event).ops[ch] == s.ops[ch] + Reaches(events, event, ch)
  {
    ApplyKeepsShape(s, event);
    if event.Datagram? && !s.closed && s.remote == Some(event.sender) && Codec.Decode(event.bytes).Ok? {
      DatagramReaches(events, s, event, ch);
    }
  }

  lemma DatagramReaches(events: seq<Event>, s: Session, event: Event, ch: nat)
    requires HasShape(s) && LivesAsTold(events, s) && !s.closed && ch < 8 && s.open[ch]
    requires event.Datagram? && FromPeer(events, event)
    ensures HasShape(Apply(s, event)) && Apply(s, event).ops[ch] == s.ops[ch] + Reaches(events, event, ch)
  {
    ApplyKeepsShape(s, event);
  }

  lemma {:induction false} RunIsAsTold(channels: seq<nat>, events: seq<Event>)
    ensures var s := Run(channels, events);
            && LivesAsTold(events, s) && s.sent == Sent(channels, events)
            && forall ch {:trigger s.open[ch]} :: 0 <= ch < 8 ==> ChannelAsTold(channels, events, s, ch)
  {
    if events != [] {
      var before, last := events[..|events| - 1], events[|events| - 1];
      RunIsAsTold(channels, before);
      var s := Run(channels, before);
      assert events == before + [last];
      StepLives(before, s, last);
      StepSends(channels, before, s, last);
      forall ch | 0 <= ch < 8 ensures ChannelAsTold(channels, events, Run(channels, events), ch) {
        StepReaches(channels, before, s, last, ch);
      }
    } else {
      forall ch | 0 <= ch < 8 ensures ChannelAsTold(channels, events, Init(channels), ch) {
        assert Init(channels).open[ch] == (ch in channels);
        assert Init(channels).ops[ch] == [];
      }
    }
  }

  /**
    Over every interleaving of events: the session is closed exactly if an ending happened, and its policy was
    told, once each, of the start and of the reason of the first ending.
   */
  lemma EndsWithFirstEnding(channels: seq<nat>, events: seq<Event>)
    ensures var s := Run(channels, events);
            && (s.closed <==> FirstEnding(events).Some?)
            && s.policy == PolicyCalls(events)
            && (s.closed ==> s.policy[|s.policy| - 1] == OnDisconnected(FirstEnding(events).value))
  {
    RunIsAsTold(channels, events);
  }

  /**
    In every run the session listens to the peer of its first start, sends exactly the replies, keepalives and
    farewell that the events call for, and passes to each configured channel's queue exactly what is for it.
   */
  lemma DoesWhatEventsCallFor(channels: seq<nat>, events: seq<Event>, ch: nat)
    requires ch < 8
    ensures var s := Run(channels, events);
            && s.remote == PeerAtEnd(events)
            && s.sent == Sent(channels, events)
            && s.open[ch] == (ch in channels)
            && s.queues[ch] == Queue.Run(QueueOps(channels, events, ch))
  {
    RunIsAsTold(channels, events);
    RunKeepsInv(channels, events);
    assert ChannelAsTold(channels, events, Run(channels, events), ch);
    assert ChannelInv(Run(channels, events), ch);
  }

  /** In every run a send is refused on an ended session, on a channel not configured, or if its frame exceeds the MTU. */
  lemma SendsRefusedIff(channels: seq<nat>, events: seq<Event>, ch: nat, size: nat, mtu: nat)
    ensures SendRefusal(Run(channels, events), ch, size, mtu) ==
            if FirstEnding(events).Some? || ch >= 8 || ch !in channels then Some(ChannelClosed)
            else if size + 14 > mtu then Some(MessageTooLarge)
            else None
  {
    RunIsAsTold(channels, events);
    if ch < 8 { assert ChannelAsTold(channels, events, Run(channels, events), ch); }
  }
}

/**
  One direction of a reliable channel as a two-party system: a sender, a receiver, and a network
  that may lose, duplicate and reorder datagrams without limit.  Losing is never delivering,
  duplicating is delivering again: the network is the set of everything ever sent.

  Beside the real state, which only knows 16-bit numbers, the system carries history: the unbounded
  number of everything sent, what was accepted, reported failed, recorded as received, delivered.
  No step's effect on the real state depends on the history, except through the explicit freshness
  guards, which say what the 16-bit numbers cannot tell.
 */
module Protocol {
  import opened Serial
  import opened Packets
  import opened AckTracker
  import opened ReliableSender
  import Receiver = ReliableReceiver
  import Codec

  /** The two ends may be configured with different windows. */
  datatype Config = Config(sendWindow: nat, recvWindow: nat, timeout: nat, id: Byte, ordered: bool)
  {
    predicate Valid() {
      1 <= sendWindow <= MAX_WINDOW && 1 <= recvWindow <= MAX_WINDOW
    }
  }

  /** A data frame on the network and the absolute number of its packet. */
  datatype Datagram = Datagram(number: int, frame: seq<Byte>)

  /** An ACK frame and the absolute number of the newest arrival its summary had taken in when it was built. */
  datatype AckDatagram = AckDatagram(top: int, frame: seq<Byte>)

  datatype System = System(
    sender: Sender,
    receiver: Receiver.Receiver,
    data: set<Datagram>,
    acks: set<AckDatagram>,
    delivered: seq<Payload>,
    // history
    next: int,
    slotNumbers: seq<int>,
    accepted: map<int, Payload>,
    log: seq<int>,
    failed: set<int>,
    refused: set<int>,
    expected: int,
    arrived: map<int, Payload>,
    top: int,
    deliveredNumbers: seq<int>)

  function Start(c: Config): System {
    System(Init(c.sendWindow, c.timeout), Receiver.Init(c.recvWindow), {}, {}, [],
           0, seq(c.sendWindow, _ => 0), map[], [], {}, {}, 0, map[], 0, [])
  }

  datatype Step =
    | DoSend(payload: Payload, congestionWindow: nat, encodes: bool, received: Tracker, now: int)
    | DoSendFailed(number: int)
    | DoTick(now: int)
    | DoFlush
    | DoDeliverData(datagram: Datagram)
    | DoDeliverAck(ack: AckDatagram)

  // ----- The steps -----

  function Context(c: Config, step: Step): SendContext
    requires step.DoSend?
  {
    SendContext(step.congestionWindow, step.encodes, c.id, step.received, step.now)
  }

  /** `asyncSend`; an accepted packet goes on the network. */
  function AfterSend(c: Config, s: System, step: Step): System
    requires step.DoSend? && HasShape(s)
  {
    var (sender, outcome) := Send(s.sender, step.payload, Context(c, step));
    match outcome
    case Refused(error) =>
      s.(sender := sender,
         next := if sender.nextSeq == s.sender.nextSeq then s.next else s.next + 1,
         refused := if error == BadPacket then s.refused + {s.next} else s.refused)
    case Accepted(sequence, frame) =>
      s.(sender := sender,
         data := s.data + {Datagram(s.next, frame)},
         next := s.next + 1,
         slotNumbers := s.slotNumbers[sequence % s.sender.window := s.next],
         accepted := s.accepted[s.next := step.payload],
         log := s.log + [s.next])
  }

  /** The failure callback of an accepted send; the user is told. */
  function AfterSendFailed(s: System, number: int): System
    requires HasShape(s)
  {
    s.(sender := Erase(s.sender, Wrap(number)), failed := s.failed + {number})
  }

  /** The frames a tick or a flush puts on the network again. */
  function Resent(s: System, now: int, all: bool): set<Datagram>
    requires HasShape(s)
  {
    set i | 0 <= i < |s.sender.slots| && s.sender.slots[i].Some? && (all || IsDue(s.sender.slots[i], now))
      :: Datagram(s.slotNumbers[i], s.sender.slots[i].value.frame)
  }

  /** Those are exactly the frames that the channel's tick and flush hand to the socket. */
  lemma ResentAreTheFrames(s: System, now: int, frame: seq<Byte>)
    requires HasShape(s)
    ensures (exists d :: d in Resent(s, now, false) && d.frame == frame) <==> frame in Due(s.sender.slots, now)
    ensures (exists d :: d in Resent(s, now, true) && d.frame == frame) <==> frame in InFlightFrames(s.sender.slots)
  {
    var slots := s.sender.slots;
    DueFrames(slots, now, frame);
    FlushedFrames(slots, frame);
    if i :| 0 <= i < |slots| && IsDue(slots[i], now) && slots[i].value.frame == frame {
      assert Datagram(s.slotNumbers[i], frame) in Resent(s, now, false);
    }
    if i :| 0 <= i < |slots| && slots[i].Some? && slots[i].value.frame == frame {
      assert Datagram(s.slotNumbers[i], frame) in Resent(s, now, true);
    }
  }

  function AfterTick(s: System, now: int): System
    requires HasShape(s)
  {
    s.(sender := Tick(s.sender, now), data := s.data + Resent(s, now, false))
  }

  function AfterFlush(s: System): System
    requires HasShape(s)
  {
    s.(data := s.data + Resent(s, 0, true))
  }

  /** Whether the receiver records the arrival of number `a` as received. */
  predicate Records(c: Config, s: System, a: int)
    requires HasShape(s)
  {
    if c.ordered then Receiver.InOrderedWindow(s.receiver, Wrap(a))
    else !Receiver.DuplicateOrStale(s.receiver.tracker, Wrap(a))
  }

  /** Whether the summary takes an arrival for its newest number; its absolute number moves with it. */
  predicate MovesSummary(t: Tracker, s: Seq16) {
    !t.hasReceived || IsNewerSequence(s, t.latest)
  }

  /** The session answers every data packet with the receive side's current ACK state. */
  function AckAfter(c: Config, r: Receiver.Receiver, top: int): set<AckDatagram> {
    match Receiver.AckPacket(r.tracker, c.id)
    case None => {}
    case Some(packet) => {AckDatagram(top, Codec.Frame(packet))}
  }

  /** A data frame arrives: it is decoded, received, and acknowledged. */
  function AfterData(c: Config, s: System, d: Datagram): System
    requires HasShape(s)
  {
    match Codec.Decode(d.frame)
    case Err(_) => s
    case Ok(packet) =>
      if packet.kind != DATA then s
      else
        var (r, out) := Receiver.Receive(s.receiver, c.ordered, packet.sequence, packet.payload);
        var records := Records(c, s, d.number);
        var top := if records && MovesSummary(s.receiver.tracker, packet.sequence) then d.number else s.top;
        s.(receiver := r,
           delivered := s.delivered + out,
           acks := s.acks + AckAfter(c, r, top),
           expected := if c.ordered then s.expected + |out| else s.expected,
           arrived := if records then s.arrived[d.number := packet.payload] else s.arrived,
           top := top,
           deliveredNumbers := if !c.ordered && out != [] then s.deliveredNumbers + [d.number]
                               else s.deliveredNumbers)
  }

  /** An ACK frame arrives at the sender. */
  function AfterAck(s: System, k: AckDatagram): System
    requires HasShape(s)
  {
    match Codec.Decode(k.frame)
    case Err(_) => s
    case Ok(packet) =>
      if packet.kind != ACK then s
      else s.(sender := ProcessAck(s.sender, packet.ack, packet.ackBits))
  }

  // ----- Guards -----

  predicate HasShape(s: System) {
    && 1 <= s.sender.window == |s.sender.slots| == |s.slotNumbers|
    && Receiver.HasShape(s.receiver)
  }

  /**
    No datagram is so old that its 16-bit number has come round again: an ordered receiver does not
    mistake it for a number of its window, an unordered one compares it with the newest number
    within half a turn.
   */
  ghost predicate FreshData(c: Config, s: System, d: Datagram) {
    if c.ordered then NotAliased(d.number, s.expected, s.receiver.window)
    else s.receiver.tracker.hasReceived ==> -HALF <= d.number - s.top < HALF
  }

  /** No packet in flight is mistaken for one of the 33 numbers an ACK speaks about. */
  ghost predicate FreshAck(s: System, k: AckDatagram)
    requires HasShape(s)
  {
    forall i :: 0 <= i < |s.sender.slots| && s.sender.slots[i].Some? ==>
      NotAliased(s.slotNumbers[i], k.top - HISTORY, HISTORY + 1)
  }

  /** A failure is reported for an accepted packet, before its number comes round again. */
  ghost predicate FreshFailure(s: System, number: int) {
    number in s.accepted && s.next <= number + MODULUS
  }

  ghost predicate Enabled(c: Config, s: System, step: Step)
    requires HasShape(s)
  {
    match step
    case DoSendFailed(number) => FreshFailure(s, number)
    case DoDeliverData(d) => d in s.data && FreshData(c, s, d)
    case DoDeliverAck(k) => k in s.acks && FreshAck(s, k)
    case _ => true
  }

  function ApplyStep(c: Config, s: System, step: Step): System
    requires HasShape(s)
  {
    match step
    case DoSend(_, _, _, _, _) => AfterSend(c, s, step)
    case DoSendFailed(number) => AfterSendFailed(s, number)
    case DoTick(now) => AfterTick(s, now)
    case DoFlush => AfterFlush(s)
    case DoDeliverData(d) => AfterData(c, s, d)
    case DoDeliverAck(k) => AfterAck(s, k)
  }

  lemma ApplyStepKeepsShape(c: Config, s: System, step: Step)
    requires HasShape(s)
    ensures var t := ApplyStep(c, s, step);
            HasShape(t) && t.sender.window == s.sender.window && t.receiver.window == s.receiver.window
  {
    match step
    case DoDeliverData(d) =>
      match Codec.Decode(d.frame) {
        case Ok(packet) => Receiver.ReceiveKeepsShape(s.receiver, c.ordered, packet.sequence, packet.payload);
        case Err(_) =>
      }
    case _ =>
  }

  /** One step of the system; a step whose guard fails does nothing. */
  ghost function Next(c: Config, s: System, step: Step): (t: System)
    requires HasShape(s)
    ensures HasShape(t) && t.sender.window == s.sender.window && t.receiver.window == s.receiver.window
  {
    ApplyStepKeepsShape(c, s, step);
    if Enabled(c, s, step) then ApplyStep(c, s, step) else s
  }

  ghost function RunFrom(c: Config, s: System, steps: seq<Step>): (t: System)
    requires HasShape(s)
    ensures HasShape(t) && t.sender.window == s.sender.window && t.receiver.window == s.receiver.window
  {
    if steps == [] then s
    else Next(c, RunFrom(c, s, steps[..|steps| - 1]), steps[|steps| - 1])
  }

  /** The state after any list of steps: these are the reachable states. */
  ghost function Reached(c: Config, steps: seq<Step>): (t: System)
    requires c.Valid()
    ensures HasShape(t) && t.sender.window == c.sendWindow && t.receiver.window == c.recvWindow
  {
    RunFrom(c, Start(c), steps)
  }

  lemma {:induction false} RunFromConcat(c: Config, s: System, first: seq<Step>, second: seq<Step>)
    requires HasShape(s)
    ensures RunFrom(c, s, first + second) == RunFrom(c, RunFrom(c, s, first), second)
  {
    if second == [] {
      assert first + second == first;
    } else {
      var n := |second| - 1;
      assert (first + second)[..|first| + n] == first + second[..n];
      RunFromConcat(c, s, first, second[..n]);
    }
  }
}

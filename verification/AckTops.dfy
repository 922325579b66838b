/**
  What every reachable state keeps, whatever the windows: the summary's newest number was recorded, every
  ACK on the network names a recorded number as its newest, and that number never falls.
 */
module AckTops {
  import opened Serial
  import opened Words
  import opened Packets
  import opened AckTracker
  import opened OrderedReceiver
  import opened Protocol
  import opened OrderedDelivery
  import opened NoSilentLoss
  import Receiver = ReliableReceiver
  import Codec

  /** What an ACK covers is at most 32 below its newest number. */
  lemma AckedIsNear(a: int, top: int, ackBits: U32)
    requires NotAliased(a, top - HISTORY, HISTORY + 1) && IsAcknowledged(Wrap(a), Wrap(top), ackBits)
    ensures top - HISTORY <= a <= top
  {
    DistanceBack(a, top);
  }

  /** The window only ever moves up, and an arrival recorded is inside it. */
  lemma DataKeepsWindowInv(c: Config, s: System, d: Datagram)
    requires c.ordered && SenderInv(s) && OrderedInv(s) && WindowInv(s) && d in s.data && FreshData(c, s, d)
    ensures WindowInv(AfterData(c, s, d))
  {
    var packet := DataFrame(s, d);
    WindowDistance(s.receiver, s.expected, d.number);
    Receiver.ReceiveKeepsShape(s.receiver, true, packet.sequence, packet.payload);
  }

  /** An ACK names a recorded number as its newest. */
  ghost predicate AckTop(k: AckDatagram, received: set<int>) {
    match Codec.Decode(k.frame)
    case Err(_) => false
    case Ok(packet) => packet.kind == ACK && packet.ack == Wrap(k.top) && k.top in received
  }

  ghost predicate TopsInv(s: System) {
    && (s.receiver.tracker.hasReceived ==> s.receiver.tracker.latest == Wrap(s.top) && s.top in s.arrived)
    && forall k :: k in s.acks ==> AckTop(k, s.arrived.Keys)
  }

  lemma BuiltAckTop(c: Config, r: Receiver.Receiver, top: int, received: set<int>)
    requires r.tracker.hasReceived ==> r.tracker.latest == Wrap(top) && top in received
    ensures forall k :: k in AckAfter(c, r, top) ==> AckTop(k, received)
  {
    if r.tracker.hasReceived {
      Codec.DecodeOfFrame(Receiver.AckPacket(r.tracker, c.id).value);
    }
  }

  lemma TrackerMoves(t: Tracker, a: Seq16)
    ensures Marked(t, a).hasReceived && Marked(t, a).latest == if MovesSummary(t, a) then a else t.latest
  {
  }

  lemma DataKeepsTopsInv(c: Config, s: System, d: Datagram)
    requires c.ordered && SenderInv(s) && OrderedInv(s) && TopsInv(s) && d in s.data && FreshData(c, s, d)
    ensures TopsInv(AfterData(c, s, d))
  {
    var a := d.number;
    var packet := DataFrame(s, d);
    var t := AfterData(c, s, d);
    WindowDistance(s.receiver, s.expected, a);
    var arrived' := s.arrived[a := packet.payload];
    InPlaceInMore(s.receiver, s.expected, s.arrived, arrived');
    var _, _ := OrderedStep(s.receiver, s.expected, arrived', a);
    TrackerMoves(s.receiver.tracker, Wrap(a));
    BuiltAckTop(c, t.receiver, t.top, t.arrived.Keys);
  }

  /** An exact summary and sound ACKs are more than that. */
  lemma SoundTopsInv(s: System)
    requires SummaryInv(s) && AcksInv(s)
    ensures TopsInv(s)
  {
    forall k | k in s.acks ensures AckTop(k, s.arrived.Keys) { assert AckSound(k, s.arrived.Keys); }
  }

  lemma NextKeepsTops(c: Config, s: System, step: Step)
    requires c.ordered && SenderInv(s) && OrderedInv(s) && WindowInv(s) && TopsInv(s)
    ensures WindowInv(Next(c, s, step)) && TopsInv(Next(c, s, step))
  {
    if Enabled(c, s, step) {
      if step.DoDeliverData? {
        DataKeepsWindowInv(c, s, step.datagram);
        DataKeepsTopsInv(c, s, step.datagram);
      } else {
        SendingStepKeepsReceiver(c, s, step);
      }
    }
  }

  lemma {:induction false} ReachedOrderedTops(c: Config, steps: seq<Step>)
    requires c.Valid() && c.ordered
    ensures WindowInv(Reached(c, steps)) && TopsInv(Reached(c, steps))
  {
    if steps != [] {
      var before := steps[..|steps| - 1];
      ReachedOrderedTops(c, before);
      ReachedInv(c, before);
      NextKeepsTops(c, Reached(c, before), steps[|steps| - 1]);
    }
  }

  lemma ReachedTops(c: Config, steps: seq<Step>)
    requires c.Valid()
    ensures TopsInv(Reached(c, steps)) && (c.ordered ==> WindowInv(Reached(c, steps)))
  {
    if c.ordered {
      ReachedOrderedTops(c, steps);
    } else {
      StartInv(c);
      RunFromKeepsInv(c, Start(c), steps);
      SoundTopsInv(Reached(c, steps));
    }
  }

  /** An arrival moves the newest number up or not at all: it is never half a turn below it. */
  lemma TopNeverFalls(c: Config, s: System, d: Datagram)
    requires SenderInv(s) && TopsInv(s) && d in s.data && FreshData(c, s, d)
    requires c.ordered ==> OrderedInv(s) && WindowInv(s) && s.receiver.window <= HALF
    ensures s.receiver.tracker.hasReceived ==> AfterData(c, s, d).top >= s.top
  {
    var a := d.number;
    var packet := DataFrame(s, d);
    if c.ordered { WindowDistance(s.receiver, s.expected, a); }
    if s.receiver.tracker.hasReceived && Records(c, s, a) && a <= s.top { NewerIffGreater(a, s.top); }
  }

  /** An arrival is answered with the newest number as it then is. */
  lemma AnsweredWithTop(c: Config, s: System, d: Datagram)
    requires SenderInv(s) && d in s.data
    ensures var t := AfterData(c, s, d); forall k :: k in t.acks ==> k in s.acks || k.top == t.top
    ensures var t := AfterData(c, s, d); s.receiver.tracker.hasReceived ==> t.receiver.tracker.hasReceived
  {
    var packet := DataFrame(s, d);
    var r := s.receiver;
    if c.ordered && Receiver.InOrderedWindow(r, packet.sequence) {
      TrackerAfter(r, packet.sequence, packet.payload);
    }
  }

  lemma TrackerAfter(r: Receiver.Receiver, a: Seq16, payload: Payload)
    requires Receiver.HasShape(r) && Receiver.InOrderedWindow(r, a)
    ensures Receiver.ReceiveOrdered(r, a, payload).0.tracker == Marked(r.tracker, a)
  {
    if r.buffer[a % r.window].None? {
      Receiver.DrainSpec(r.(tracker := Marked(r.tracker, a),
                            buffer := r.buffer[a % r.window := Some(Receiver.Buffered(a, payload))]));
    }
  }
}

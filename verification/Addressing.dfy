/**
  What is on the network, decoded: every data frame is a data packet of the channel under its own number, and
  every ACK frame an ACK of the channel, in every reachable state.
 */
module Addressing {
  import opened Serial
  import opened Packets
  import opened ReliableSender
  import opened Protocol
  import opened OrderedDelivery
  import opened NoSilentLoss
  import opened AckTops
  import Receiver = ReliableReceiver
  import Codec

  /** A packet of kind `kind` for channel `id`, as the peer decodes it; an ACK has no number of its own and no payload. */
  predicate Names(frame: seq<Byte>, kind: Byte, id: Byte) {
    match Codec.Decode(frame)
    case Err(_) => false
    case Ok(packet) =>
      && packet.kind == kind && packet.channel == id
      && (kind == ACK ==> packet.sequence == 0 && packet.payload == [])
  }

  ghost predicate AllNamed(c: Config, s: System) {
    && (forall d :: d in s.data ==> Names(d.frame, DATA, c.id))
    && (forall k :: k in s.acks ==> Names(k.frame, ACK, c.id))
  }

  lemma SendNames(c: Config, s: System, step: Step)
    requires SenderInv(s) && AllNamed(c, s) && step.DoSend?
    ensures AllNamed(c, AfterSend(c, s, step))
  {
    SendOutcomes(c, s, step);
    Codec.DecodeOfFrame(DataPacket(Wrap(s.next), c.id, step.received, step.payload));
  }

  lemma DataNames(c: Config, s: System, d: Datagram)
    requires SenderInv(s) && AllNamed(c, s) && d in s.data
    ensures AllNamed(c, AfterData(c, s, d))
  {
    var packet := DataFrame(s, d);
    var r := Receiver.Receive(s.receiver, c.ordered, packet.sequence, packet.payload).0;
    if r.tracker.hasReceived { Codec.DecodeOfFrame(Receiver.AckPacket(r.tracker, c.id).value); }
  }

  lemma NextNames(c: Config, s: System, step: Step)
    requires SenderInv(s) && AllNamed(c, s)
    ensures AllNamed(c, Next(c, s, step))
  {
    if Enabled(c, s, step) {
      match step
      case DoSend(_, _, _, _, _) => SendNames(c, s, step);
      case DoTick(now) => ResentIsKnown(s, now, false);
      case DoFlush => ResentIsKnown(s, 0, true);
      case DoDeliverData(d) => DataNames(c, s, d);
      case _ =>
    }
  }

  lemma {:induction false} ReachedNames(c: Config, steps: seq<Step>)
    requires c.Valid()
    ensures AllNamed(c, Reached(c, steps))
  {
    if steps != [] {
      var before, step := steps[..|steps| - 1], steps[|steps| - 1];
      ReachedNames(c, before);
      ReachedInv(c, before);
      NextNames(c, Reached(c, before), step);
    }
  }

  /**
    In every reachable state every datagram decodes to a data packet of the channel with the number and the
    message accepted under it, and every ACK datagram to an ACK of the channel for the newest number.
   */
  lemma FramesNameTheirChannel(c: Config, steps: seq<Step>)
    requires c.Valid()
    ensures var s := Reached(c, steps);
            && (forall d :: d in s.data ==>
                  && Names(d.frame, 0x10, c.id)
                  && d.number in s.accepted && Carries(d.frame, d.number, s.accepted[d.number]))
            && (forall k :: k in s.acks ==>
                  && Names(k.frame, 0x11, c.id)
                  && k.top in s.arrived && Codec.Decode(k.frame).value.ack == Wrap(k.top))
  {
    var s := Reached(c, steps);
    ReachedNames(c, steps);
    ReachedInv(c, steps);
    ReachedTops(c, steps);
    forall k | k in s.acks ensures k.top in s.arrived && Codec.Decode(k.frame).value.ack == Wrap(k.top) {
      assert AckTop(k, s.arrived.Keys);
    }
  }
}

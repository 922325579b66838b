/**
  No accepted message is lost silently: in every reachable state it is still in a slot of the
  sender, or its send was reported as failed, or the peer has it.  So an ACK only ever frees
  packets that the peer really has.
 */
module NoSilentLoss {
  import opened Serial
  import opened Packets
  import opened AckTracker
  import opened OrderedReceiver
  import opened Protocol
  import opened OrderedDelivery
  import Receiver = ReliableReceiver
  import UnorderedReceiver
  import Codec

  // ----- What the receiver has recorded -----

  /** The ACK summary describes exactly the numbers recorded as received. */
  ghost predicate SummaryInv(s: System) {
    Exact(s.receiver.tracker, s.arrived.Keys, s.top)
  }

  ghost predicate WindowInv(s: System) {
    forall x :: x in s.arrived ==> 0 <= x < s.expected + s.receiver.window
  }

  ghost predicate UnorderedInv(s: System) {
    && SubMap(s.arrived, s.accepted)
    && Elements(s.deliveredNumbers) == s.arrived.Keys
    && (forall i, j :: 0 <= i < j < |s.deliveredNumbers| ==> s.deliveredNumbers[i] != s.deliveredNumbers[j])
    && |s.delivered| == |s.deliveredNumbers|
    && (forall i {:trigger s.delivered[i]} :: 0 <= i < |s.delivered| ==>
          IsContent(s.arrived, s.deliveredNumbers[i], s.delivered[i]))
  }

  ghost predicate AckSound(k: AckDatagram, received: set<int>) {
    match Codec.Decode(k.frame)
    case Err(_) => false
    case Ok(packet) => packet.kind == ACK && Sound(Tracker(true, packet.ack, packet.ackBits), received, k.top)
  }

  ghost predicate AcksInv(s: System) {
    forall k :: k in s.acks ==> AckSound(k, s.arrived.Keys)
  }

  // ----- Where an accepted message can be -----

  predicate InSlot(s: System, a: int)
    requires HasShape(s)
  {
    var i := Wrap(a) % s.sender.window;
    s.sender.slots[i].Some? && s.slotNumbers[i] == a
  }

  ghost predicate LossInv(s: System)
    requires HasShape(s)
  {
    forall a {:trigger InSlot(s, a)} :: a in s.accepted ==> InSlot(s, a) || a in s.failed || a in s.arrived
  }

  ghost predicate Inv(c: Config, s: System) {
    && SenderInv(s)
    && (if c.ordered then OrderedInv(s) && WindowInv(s) else UnorderedInv(s))
    && SummaryInv(s)
    && AcksInv(s)
    && LossInv(s)
  }

  // ----- Receiving -----

  /** Inside the window, an arrival is timely for the summary. */
  lemma TimelyInWindow(s: System, a: int)
    requires OrderedInv(s) && WindowInv(s) && SummaryInv(s) && s.receiver.window < HALF
    requires s.expected <= a < s.expected + s.receiver.window && s.arrived.Keys != {}
    ensures -HALF <= a - s.top < HALF
  {
    ArrivedBelowExpected(s);
    assert s.top in s.arrived;
    if s.expected > 0 { assert s.expected - 1 in s.arrived.Keys; }
  }

  /** A data frame from the network decodes to what was accepted under its number. */
  lemma DataFrame(s: System, d: Datagram) returns (packet: Packet)
    requires SenderInv(s) && d in s.data
    ensures Codec.Decode(d.frame) == Ok(packet) && packet.kind == DATA
    ensures packet.sequence == Wrap(d.number)
    ensures d.number in s.accepted && packet.payload == s.accepted[d.number]
  {
    packet := Codec.Decode(d.frame).value;
  }

  /** The summary moves to a timely arrival exactly when that is the newest so far. */
  lemma NewTopIsMax(s: System, a: int)
    requires SummaryInv(s) && (s.arrived.Keys != {} ==> -HALF <= a - s.top < HALF)
    ensures MovesSummary(s.receiver.tracker, Wrap(a)) <==> s.arrived.Keys == {} || a > s.top
  {
    if s.arrived.Keys != {} { NewerIffGreater(a, s.top); }
  }

  lemma OrderedDataSummary(c: Config, s: System, d: Datagram)
    requires c.ordered && Inv(c, s) && s.receiver.window < HALF
    requires d in s.data && FreshData(c, s, d)
    ensures var t := AfterData(c, s, d); OrderedInv(t) && WindowInv(t) && SummaryInv(t)
  {
    var a := d.number;
    var packet := DataFrame(s, d);
    var t := AfterData(c, s, d);
    DataKeepsOrderedInv(c, s, d);
    WindowDistance(s.receiver, s.expected, a);
    Receiver.ReceiveKeepsShape(s.receiver, true, packet.sequence, packet.payload);
    var arrived' := s.arrived[a := packet.payload];
    InPlaceInMore(s.receiver, s.expected, s.arrived, arrived');
    var _, _ := OrderedStep(s.receiver, s.expected, arrived', a);
    if Records(c, s, a) {
      if s.arrived.Keys != {} { TimelyInWindow(s, a); }
      NewTopIsMax(s, a);
      MarkedKeepsExact(s.receiver.tracker, s.arrived.Keys, s.top, a);
      assert t.arrived.Keys == s.arrived.Keys + {a};
    }
  }

  lemma UnorderedGrows(s: System, t: System, a: int, payload: Payload)
    requires UnorderedInv(s) && a !in s.arrived && a in s.accepted && s.accepted[a] == payload
    requires t.accepted == s.accepted && t.arrived == s.arrived[a := payload]
    requires t.delivered == s.delivered + [payload] && t.deliveredNumbers == s.deliveredNumbers + [a]
    ensures UnorderedInv(t) && t.arrived.Keys == s.arrived.Keys + {a}
  {
    assert t.arrived.Keys == s.arrived.Keys + {a};
    ElementsOfSnoc(s.deliveredNumbers, a);
    forall i | 0 <= i < |s.deliveredNumbers| ensures s.deliveredNumbers[i] != a {
      assert s.deliveredNumbers[i] in Elements(s.deliveredNumbers);
    }
    forall i {:trigger t.delivered[i]} | 0 <= i < |t.delivered|
      ensures IsContent(t.arrived, t.deliveredNumbers[i], t.delivered[i])
    {
      if i < |s.delivered| { assert IsContent(s.arrived, s.deliveredNumbers[i], s.delivered[i]); }
    }
  }

  lemma UnorderedDataSummary(c: Config, s: System, d: Datagram)
    requires !c.ordered && Inv(c, s)
    requires d in s.data && FreshData(c, s, d)
    ensures var t := AfterData(c, s, d); UnorderedInv(t) && SummaryInv(t)
  {
    var a := d.number;
    var packet := DataFrame(s, d);
    var t := AfterData(c, s, d);
    var q, out := UnorderedReceiver.UnorderedStep(s.receiver, s.arrived.Keys, s.top, a, packet.payload);
    if Records(c, s, a) {
      NewTopIsMax(s, a);
      UnorderedGrows(s, t, a, packet.payload);
    } else {
      assert s.delivered + [] == s.delivered;
    }
  }

  /** An ACK built from a sound summary is sound. */
  lemma BuiltAckIsSound(c: Config, r: Receiver.Receiver, top: int, received: set<int>)
    requires Sound(r.tracker, received, top)
    ensures forall k :: k in AckAfter(c, r, top) ==> AckSound(k, received)
  {
    if r.tracker.hasReceived {
      var packet := Receiver.AckPacket(r.tracker, c.id).value;
      Codec.DecodeOfFrame(packet);
      assert Tracker(true, packet.ack, packet.ackBits) == r.tracker;
    }
  }

  lemma AckSoundInMore(k: AckDatagram, small: set<int>, big: set<int>)
    requires AckSound(k, small) && small <= big
    ensures AckSound(k, big)
  {
  }

  lemma DataKeepsInv(c: Config, s: System, d: Datagram)
    requires Inv(c, s) && (c.ordered ==> s.receiver.window < HALF)
    requires d in s.data && FreshData(c, s, d)
    ensures Inv(c, AfterData(c, s, d))
  {
    var packet := DataFrame(s, d);
    var t := AfterData(c, s, d);
    DataKeepsSenderInv(c, s, d);
    if c.ordered { OrderedDataSummary(c, s, d); } else { UnorderedDataSummary(c, s, d); }
    BuiltAckIsSound(c, t.receiver, t.top, t.arrived.Keys);
    forall k | k in t.acks ensures AckSound(k, t.arrived.Keys) {
      if k in s.acks { AckSoundInMore(k, s.arrived.Keys, t.arrived.Keys); }
    }
    DataKeepsLossInv(c, s, d);
  }

  lemma DataKeepsLossInv(c: Config, s: System, d: Datagram)
    requires HasShape(s) && LossInv(s)
    ensures var t := AfterData(c, s, d); HasShape(t) && LossInv(t)
  {
    ApplyStepKeepsShape(c, s, DoDeliverData(d));
    var t := AfterData(c, s, d);
    forall a {:trigger InSlot(t, a)} | a in t.accepted ensures InSlot(t, a) || a in t.failed || a in t.arrived {
      assert InSlot(s, a) || a in s.failed || a in s.arrived;
    }
  }

  // ----- Sending and freeing -----

  lemma SendKeepsLossInv(c: Config, s: System, step: Step)
    requires SenderInv(s) && LossInv(s) && step.DoSend?
    ensures LossInv(AfterSend(c, s, step))
  {
    var t := AfterSend(c, s, step);
    SendOutcomes(c, s, step);
    forall a {:trigger InSlot(t, a)} | a in t.accepted ensures InSlot(t, a) || a in t.failed || a in t.arrived {
      if a != s.next || t.accepted == s.accepted {
        assert InSlot(s, a) || a in s.failed || a in s.arrived;
      }
    }
  }

  lemma FailureKeepsLossInv(s: System, number: int)
    requires SenderInv(s) && LossInv(s) && FreshFailure(s, number)
    ensures LossInv(AfterSendFailed(s, number))
  {
    var t := AfterSendFailed(s, number);
    FailureErasesItsPacket(s, number);
    forall a {:trigger InSlot(t, a)} | a in t.accepted ensures InSlot(t, a) || a in t.failed || a in t.arrived {
      assert InSlot(s, a) || a in s.failed || a in s.arrived;
    }
  }

  /** An ACK frees a slot only if its packet has been recorded by the peer. */
  lemma FreedIsReceived(s: System, k: AckDatagram, i: nat)
    requires SenderInv(s) && AcksInv(s) && k in s.acks
    requires i < |s.sender.slots| && s.sender.slots[i].Some?
    requires NotAliased(s.slotNumbers[i], k.top - HISTORY, HISTORY + 1)
    requires i < |AfterAck(s, k).sender.slots| && AfterAck(s, k).sender.slots[i].None?
    ensures s.slotNumbers[i] in s.arrived
  {
    var packet := Codec.Decode(k.frame).value;
    assert AckSound(k, s.arrived.Keys);
    assert SlotInv(s, i);
    SoundAcknowledges(packet.ack, packet.ackBits, s.arrived.Keys, k.top, s.slotNumbers[i]);
  }

  /** The ACK empties no slot of a number that was not recorded. */
  ghost predicate FreesOnlyArrived(s: System, k: AckDatagram)
    requires HasShape(s)
  {
    var t := AfterAck(s, k);
    forall i :: 0 <= i < |s.sender.slots| <= |t.sender.slots| && s.sender.slots[i].Some? && t.sender.slots[i].None? ==>
      s.slotNumbers[i] in s.arrived
  }

  lemma SoundAckFreesOnlyArrived(s: System, k: AckDatagram)
    requires SenderInv(s) && AcksInv(s) && k in s.acks && FreshAck(s, k)
    ensures FreesOnlyArrived(s, k)
  {
    var t := AfterAck(s, k);
    forall i | 0 <= i < |s.sender.slots| <= |t.sender.slots| && s.sender.slots[i].Some? && t.sender.slots[i].None?
      ensures s.slotNumbers[i] in s.arrived
    {
      FreedIsReceived(s, k, i);
    }
  }

  lemma AckKeepsLossInv(s: System, k: AckDatagram)
    requires SenderInv(s) && LossInv(s) && FreesOnlyArrived(s, k)
    ensures LossInv(AfterAck(s, k))
  {
    var t := AfterAck(s, k);
    forall a {:trigger InSlot(t, a)} | a in t.accepted ensures InSlot(t, a) || a in t.failed || a in t.arrived {
      assert InSlot(s, a) || a in s.failed || a in s.arrived;
    }
  }

  lemma TickKeepsLossInv(s: System, now: int)
    requires SenderInv(s) && LossInv(s)
    ensures LossInv(AfterTick(s, now))
  {
    var t := AfterTick(s, now);
    forall a {:trigger InSlot(t, a)} | a in t.accepted ensures InSlot(t, a) || a in t.failed || a in t.arrived {
      assert InSlot(s, a) || a in s.failed || a in s.arrived;
    }
  }

  lemma FlushKeepsLossInv(s: System)
    requires SenderInv(s) && LossInv(s)
    ensures LossInv(AfterFlush(s))
  {
    var t := AfterFlush(s);
    forall a {:trigger InSlot(t, a)} | a in t.accepted ensures InSlot(t, a) || a in t.failed || a in t.arrived {
      assert InSlot(s, a) || a in s.failed || a in s.arrived;
    }
  }

  /** A step that leaves the receiving side alone only has to look after the sending side. */
  lemma ReceiverUntouched(c: Config, s: System, t: System)
    requires Inv(c, s) && SenderInv(t) && LossInv(t)
    requires t.receiver == s.receiver && t.delivered == s.delivered && t.acks == s.acks
    requires t.expected == s.expected && t.arrived == s.arrived && t.top == s.top
    requires t.deliveredNumbers == s.deliveredNumbers && SubMap(s.accepted, t.accepted)
    ensures Inv(c, t)
  {
  }

  /** The steps of the sending side and the ACKs it receives. */
  lemma SendingStepKeepsLossInv(c: Config, s: System, step: Step)
    requires SenderInv(s) && LossInv(s) && Enabled(c, s, step) && !step.DoDeliverData?
    requires step.DoDeliverAck? ==> FreesOnlyArrived(s, step.ack)
    ensures LossInv(ApplyStep(c, s, step))
  {
    match step
    case DoSend(_, _, _, _, _) => SendKeepsLossInv(c, s, step);
    case DoSendFailed(number) => FailureKeepsLossInv(s, number);
    case DoTick(now) => TickKeepsLossInv(s, now);
    case DoFlush => FlushKeepsLossInv(s);
    case DoDeliverAck(k) => AckKeepsLossInv(s, k);
  }

  lemma SendingStepKeepsReceiver(c: Config, s: System, step: Step)
    requires SenderInv(s) && !step.DoDeliverData?
    ensures var t := ApplyStep(c, s, step);
            && t.receiver == s.receiver && t.delivered == s.delivered && t.acks == s.acks
            && t.expected == s.expected && t.arrived == s.arrived && t.top == s.top
            && t.deliveredNumbers == s.deliveredNumbers && SubMap(s.accepted, t.accepted)
  {
    if step.DoSend? { SendOutcomes(c, s, step); }
  }

  lemma NextKeepsInv(c: Config, s: System, step: Step)
    requires Inv(c, s) && (c.ordered ==> s.receiver.window < HALF)
    ensures Inv(c, Next(c, s, step))
  {
    if Enabled(c, s, step) {
      if step.DoDeliverData? {
        DataKeepsInv(c, s, step.datagram);
      } else {
        NextKeepsSenderInv(c, s, step);
        if step.DoDeliverAck? { SoundAckFreesOnlyArrived(s, step.ack); }
        SendingStepKeepsLossInv(c, s, step);
        SendingStepKeepsReceiver(c, s, step);
        ReceiverUntouched(c, s, ApplyStep(c, s, step));
      }
    }
  }

  lemma StartInv(c: Config)
    requires c.Valid()
    ensures Inv(c, Start(c))
  {
    StartSenderInv(c);
    StartOrderedInv(c);
  }

  lemma {:induction false} RunFromKeepsInv(c: Config, s: System, steps: seq<Step>)
    requires Inv(c, s) && (c.ordered ==> s.receiver.window < HALF)
    ensures Inv(c, RunFrom(c, s, steps))
  {
    if steps != [] {
      var before := steps[..|steps| - 1];
      RunFromKeepsInv(c, s, before);
      NextKeepsInv(c, RunFrom(c, s, before), steps[|steps| - 1]);
    }
  }

  // ----- The peer really has it -----

  /** With a window dividing 65536, what was recorded was also kept. */
  lemma DataKeepsRepresents(c: Config, s: System, d: Datagram)
    requires c.ordered && SenderInv(s) && OrderedInv(s) && MODULUS % s.receiver.window == 0
    requires Represents(s.receiver, s.expected, s.arrived)
    requires d in s.data && FreshData(c, s, d)
    ensures var t := AfterData(c, s, d); Represents(t.receiver, t.expected, t.arrived)
  {
    var a := d.number;
    var packet := DataFrame(s, d);
    WindowDistance(s.receiver, s.expected, a);
    var _, _ := RepresentsStep(s.receiver, s.expected, s.arrived, a, packet.payload);
    if a in s.arrived {
      assert s.arrived[a := packet.payload] == s.arrived;
    }
  }

  lemma NextKeepsRepresents(c: Config, s: System, step: Step)
    requires c.ordered && SenderInv(s) && OrderedInv(s) && MODULUS % s.receiver.window == 0
    requires Represents(s.receiver, s.expected, s.arrived)
    ensures var t := Next(c, s, step); Represents(t.receiver, t.expected, t.arrived)
  {
    if Enabled(c, s, step) {
      if step.DoDeliverData? {
        DataKeepsRepresents(c, s, step.datagram);
      } else {
        SendingStepKeepsReceiver(c, s, step);
      }
    }
  }

  lemma {:induction false} ReachedRepresents(c: Config, steps: seq<Step>)
    requires c.Valid() && c.ordered && MODULUS % c.recvWindow == 0
    ensures var s := Reached(c, steps); Represents(s.receiver, s.expected, s.arrived)
  {
    if steps == [] {
      InitRepresents(c.recvWindow);
    } else {
      var before := steps[..|steps| - 1];
      ReachedRepresents(c, before);
      ReachedInv(c, before);
      NextKeepsRepresents(c, Reached(c, before), steps[|steps| - 1]);
    }
  }

  /** The peer has the message: delivered, or waiting in its slot of the buffer. */
  ghost predicate PeerHas(c: Config, s: System, a: int, payload: Payload)
    requires HasShape(s)
  {
    if c.ordered then
      (0 <= a < |s.delivered| && s.delivered[a] == payload) ||
      (s.expected <= a < s.expected + s.receiver.window && Receiver.HoldsPayload(s.receiver, Wrap(a), payload))
    else
      exists i :: 0 <= i < |s.deliveredNumbers| == |s.delivered| &&
                  s.deliveredNumbers[i] == a && s.delivered[i] == payload
  }

  /** The message is in flight, reported failed, or with the peer. */
  ghost predicate Safe(c: Config, s: System, a: int)
    requires HasShape(s) && a in s.accepted
  {
    InSlot(s, a) || a in s.failed || PeerHas(c, s, a, s.accepted[a])
  }

  lemma OrderedArrivedIsHeld(c: Config, s: System, a: int)
    requires c.ordered && HasShape(s) && OrderedInv(s) && WindowInv(s)
    requires Represents(s.receiver, s.expected, s.arrived) && a in s.arrived
    ensures a in s.accepted && PeerHas(c, s, a, s.accepted[a])
  {
    if a < s.expected {
      ArrivedBelowExpected(s);
    } else {
      assert Receiver.Holds(s.receiver, Wrap(a));
      var i := Wrap(a) % s.receiver.window;
      assert SlotInPlace(s.receiver, s.expected, s.arrived, i);
      WindowDistance(s.receiver, s.expected, a);
    }
  }

  lemma UnorderedArrivedIsDelivered(c: Config, s: System, a: int)
    requires !c.ordered && Inv(c, s) && a in s.arrived
    ensures a in s.accepted && PeerHas(c, s, a, s.accepted[a])
  {
    assert a in Elements(s.deliveredNumbers);
    var i :| 0 <= i < |s.deliveredNumbers| && s.deliveredNumbers[i] == a;
    assert IsContent(s.arrived, s.deliveredNumbers[i], s.delivered[i]);
  }

  /** An unordered channel, or a receive window that is a power of two up to 16384; `ExactLoss` has the rest. */
  predicate SafeWindow(c: Config)
    requires c.Valid()
  {
    c.ordered ==> c.recvWindow < HALF && MODULUS % c.recvWindow == 0
  }

  /**
    In every reachable state every accepted message is still in a sender slot, was reported failed,
    or is with the peer: delivered when the channel is unordered, delivered or buffered when it is
    ordered and its window is a power of two up to 16384.
   */
  lemma AcceptedIsNeverLost(c: Config, steps: seq<Step>, a: int)
    requires c.Valid() && SafeWindow(c) && a in Reached(c, steps).accepted
    ensures Safe(c, Reached(c, steps), a)
  {
    var s := Reached(c, steps);
    StartInv(c);
    RunFromKeepsInv(c, Start(c), steps);
    assert InSlot(s, a) || a in s.failed || a in s.arrived;
    if a in s.arrived {
      if c.ordered {
        ReachedRepresents(c, steps);
        OrderedArrivedIsHeld(c, s, a);
      } else {
        UnorderedArrivedIsDelivered(c, s, a);
      }
    }
  }

  /** In every reachable state, an ACK only ever frees a packet that the peer really has. */
  lemma AckFreesOnlyWhatPeerHas(c: Config, steps: seq<Step>, k: AckDatagram, i: nat)
    requires c.Valid() && SafeWindow(c)
    requires var s := Reached(c, steps);
             && k in s.acks && FreshAck(s, k)
             && i < |s.sender.slots| && s.sender.slots[i].Some?
             && |AfterAck(s, k).sender.slots| == |s.sender.slots|
             && AfterAck(s, k).sender.slots[i].None?
    ensures var s := Reached(c, steps);
            s.slotNumbers[i] in s.accepted && PeerHas(c, s, s.slotNumbers[i], s.accepted[s.slotNumbers[i]])
  {
    var s := Reached(c, steps);
    StartInv(c);
    RunFromKeepsInv(c, Start(c), steps);
    FreedIsReceived(s, k, i);
    if c.ordered {
      ReachedRepresents(c, steps);
      OrderedArrivedIsHeld(c, s, s.slotNumbers[i]);
    } else {
      UnorderedArrivedIsDelivered(c, s, s.slotNumbers[i]);
    }
  }

  /** One ACK built from an exact summary empties exactly the slots of recorded numbers in its history. */
  lemma ExactAckFrees(c: Config, s: System, built: Packet, i: nat)
    requires SenderInv(s) && SummaryInv(s)
    requires Receiver.AckPacket(s.receiver.tracker, c.id) == Some(built)
    requires i < |s.sender.slots| && s.sender.slots[i].Some?
    requires NotAliased(s.slotNumbers[i], s.top - HISTORY, HISTORY + 1)
    ensures var t := AfterAck(s, AckDatagram(s.top, Codec.Frame(built)));
            && |t.sender.slots| == |s.sender.slots|
            && (t.sender.slots[i].None? <==> s.slotNumbers[i] in s.arrived && s.top - HISTORY <= s.slotNumbers[i])
  {
    Codec.DecodeOfFrame(built);
    assert SlotInv(s, i);
    ExactAcknowledges(s.receiver.tracker, s.arrived.Keys, s.top, s.slotNumbers[i]);
  }

  /**
    In every reachable state, the ACK the receiver would build now frees a fresh packet in flight if and
    only if the receiver has recorded it and it is at most 32 below the newest number recorded.
   */
  lemma CurrentAckFreesIff(c: Config, steps: seq<Step>, built: Packet, i: nat)
    requires c.Valid() && (c.ordered ==> c.recvWindow < HALF)
    requires var s := Reached(c, steps);
             && Receiver.AckPacket(s.receiver.tracker, c.id) == Some(built)
             && i < |s.sender.slots| && s.sender.slots[i].Some?
             && NotAliased(s.slotNumbers[i], s.top - HISTORY, HISTORY + 1)
    ensures var s := Reached(c, steps);
            var t := AfterAck(s, AckDatagram(s.top, Codec.Frame(built)));
            && |t.sender.slots| == |s.sender.slots|
            && (t.sender.slots[i].None? <==> s.slotNumbers[i] in s.arrived && s.top - HISTORY <= s.slotNumbers[i])
  {
    StartInv(c);
    RunFromKeepsInv(c, Start(c), steps);
    ExactAckFrees(c, Reached(c, steps), built, i);
  }

  /**
    The unordered channel, end to end: what is delivered was accepted, each message at most once, and
    the delivered numbers are exactly those the ACK summary has recorded.
   */
  lemma UnorderedDeliversAtMostOnce(c: Config, steps: seq<Step>)
    requires c.Valid() && !c.ordered
    ensures var s := Reached(c, steps);
            && |s.delivered| == |s.deliveredNumbers|
            && (forall i, j :: 0 <= i < j < |s.deliveredNumbers| ==> s.deliveredNumbers[i] != s.deliveredNumbers[j])
            && (forall i {:trigger s.delivered[i]} :: 0 <= i < |s.delivered| ==>
                  IsContent(s.accepted, s.deliveredNumbers[i], s.delivered[i]))
            && Exact(s.receiver.tracker, Elements(s.deliveredNumbers), s.top)
  {
    var s := Reached(c, steps);
    StartInv(c);
    RunFromKeepsInv(c, Start(c), steps);
    forall i {:trigger s.delivered[i]} | 0 <= i < |s.delivered|
      ensures IsContent(s.accepted, s.deliveredNumbers[i], s.delivered[i])
    {
      assert IsContent(s.arrived, s.deliveredNumbers[i], s.delivered[i]);
    }
  }
}

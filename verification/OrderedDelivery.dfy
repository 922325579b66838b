/**
  End-to-end safety of the ordered channel, for every window size: what the receiver delivers is
  always a prefix, in order, of what the sender accepted.  The last part shows the price of a
  number that was used up by a refused send.
 */
module OrderedDelivery {
  import opened Serial
  import opened Packets
  import opened AckTracker
  import opened ReliableSender
  import opened OrderedReceiver
  import opened Protocol
  import Receiver = ReliableReceiver
  import Codec

  // ----- The sending side and the network -----

  /** The frame decodes to the data packet number `a` with this payload. */
  ghost predicate Carries(frame: seq<Byte>, a: int, payload: Payload) {
    match Codec.Decode(frame)
    case Err(_) => false
    case Ok(packet) => packet.kind == DATA && packet.sequence == Wrap(a) && packet.payload == payload
  }

  /** A packet in flight is an accepted one, under its own number, and is already on the network. */
  ghost predicate SlotInv(s: System, i: nat)
    requires HasShape(s) && i < |s.sender.slots| && s.sender.slots[i].Some?
  {
    var p := s.sender.slots[i].value;
    && s.slotNumbers[i] in s.accepted
    && p.sequenceNumber == Wrap(s.slotNumbers[i])
    && Datagram(s.slotNumbers[i], p.frame) in s.data
  }

  /** The log lists the accepted numbers in increasing order. */
  ghost predicate LogInv(s: System) {
    && (forall i, j :: 0 <= i < j < |s.log| ==> s.log[i] < s.log[j])
    && (forall i :: 0 <= i < |s.log| ==> s.log[i] in s.accepted)
    && (forall x {:trigger x in s.accepted} :: x in s.accepted ==> x in s.log)
  }

  ghost predicate SlotsInv(s: System)
    requires HasShape(s)
  {
    forall i {:trigger SlotInv(s, i)} ::
      0 <= i < |s.sender.slots| && s.sender.slots[i].Some? ==> SlotInv(s, i)
  }

  /** Numbers in use are below the next one, and a slot's number is the newest accepted into it. */
  ghost predicate NumbersInv(s: System)
    requires HasShape(s)
  {
    && 0 <= s.next
    && s.sender.nextSeq == Wrap(s.next)
    && (forall x :: x in s.accepted ==> 0 <= x < s.next && x <= s.slotNumbers[Wrap(x) % s.sender.window])
  }

  ghost predicate DataInv(s: System) {
    forall d :: d in s.data ==> d.number in s.accepted && Carries(d.frame, d.number, s.accepted[d.number])
  }

  ghost predicate SenderInv(s: System) {
    HasShape(s) && Accounted(s.sender) && NumbersInv(s) && SlotsInv(s) && LogInv(s) && DataInv(s)
  }

  lemma StartSenderInv(c: Config)
    requires c.Valid()
    ensures SenderInv(Start(c))
  {
    InitAccounted(c.sendWindow, c.timeout);
  }

  lemma FrameCarries(a: int, id: Byte, received: Tracker, payload: Payload)
    ensures Carries(Codec.Frame(DataPacket(Wrap(a), id, received, payload)), a, payload)
  {
    Codec.DecodeOfFrame(DataPacket(Wrap(a), id, received, payload));
  }

  /** `t` is `s` with one more packet accepted: number `s.next`, stored as `p`. */
  ghost predicate AcceptedOneMore(s: System, t: System, p: SentPacket, payload: Payload)
    requires HasShape(s)
  {
    var i := Wrap(s.next) % s.sender.window;
    && HasShape(t) && t.sender.window == s.sender.window
    && p.sequenceNumber == Wrap(s.next)
    && t.sender.nextSeq == Succ(s.sender.nextSeq)
    && t.sender.slots == s.sender.slots[i := Some(p)]
    && t.slotNumbers == s.slotNumbers[i := s.next]
    && t.data == s.data + {Datagram(s.next, p.frame)}
    && t.next == s.next + 1
    && t.accepted == s.accepted[s.next := payload]
    && t.log == s.log + [s.next]
  }

  lemma AcceptKeepsSlotsInv(s: System, t: System, p: SentPacket, payload: Payload)
    requires HasShape(s) && SlotsInv(s) && AcceptedOneMore(s, t, p, payload)
    ensures SlotsInv(t)
  {
    forall i {:trigger SlotInv(t, i)} | 0 <= i < |t.sender.slots| && t.sender.slots[i].Some? ensures SlotInv(t, i) {
      if i != Wrap(s.next) % s.sender.window { assert SlotInv(s, i); }
    }
  }

  lemma AcceptKeepsNumbers(s: System, t: System, p: SentPacket, payload: Payload)
    requires HasShape(s) && NumbersInv(s) && DataInv(s) && AcceptedOneMore(s, t, p, payload)
    requires Carries(p.frame, s.next, payload)
    ensures NumbersInv(t) && DataInv(t)
  {
    SuccOfWrap(s.next);
  }

  /** What a send does to the system, by its outcome. */
  lemma SendOutcomes(c: Config, s: System, step: Step)
    requires SenderInv(s) && step.DoSend?
    ensures var t := AfterSend(c, s, step);
            var open := s.sender.inFlight < EffectiveWindow(s.sender.window, step.congestionWindow);
            var free := s.sender.slots[s.sender.nextSeq % s.sender.window].None?;
            var p := SentPacket(Wrap(s.next), Codec.Frame(DataPacket(Wrap(s.next), c.id, step.received, step.payload)),
                                step.now, step.now + s.sender.timeout, 0);
            && (!open ==> t == s)
            && (open && !(free && step.encodes) ==>
                  t == s.(sender := s.sender.(nextSeq := Succ(s.sender.nextSeq)), next := s.next + 1,
                          refused := if step.encodes then s.refused else s.refused + {s.next}))
            && (open && free && step.encodes ==>
                  AcceptedOneMore(s, t, p, step.payload) &&
                  t == s.(sender := t.sender, data := t.data, next := t.next, slotNumbers := t.slotNumbers,
                          accepted := t.accepted, log := t.log))
  {
  }

  lemma SendKeepsSenderInv(c: Config, s: System, step: Step)
    requires SenderInv(s) && step.DoSend?
    ensures SenderInv(AfterSend(c, s, step))
  {
    var t := AfterSend(c, s, step);
    var frame := Codec.Frame(DataPacket(Wrap(s.next), c.id, step.received, step.payload));
    SendOutcomes(c, s, step);
    SendAccounted(s.sender, step.payload, Context(c, step));
    if t.log != s.log {
      var p := SentPacket(Wrap(s.next), frame, step.now, step.now + s.sender.timeout, 0);
      FrameCarries(s.next, c.id, step.received, step.payload);
      AcceptKeepsSlotsInv(s, t, p, step.payload);
      AcceptKeepsNumbers(s, t, p, step.payload);
      LogGrows(s, t, s.next, step.payload);
    } else {
      SuccOfWrap(s.next);
      SameSlotsInv(s, t);
    }
  }

  /** Nothing about the slots changed. */
  lemma SameSlotsInv(s: System, t: System)
    requires HasShape(s) && HasShape(t) && SlotsInv(s)
    requires t.sender.slots == s.sender.slots && t.slotNumbers == s.slotNumbers
    requires t.accepted == s.accepted && t.data == s.data
    ensures SlotsInv(t)
  {
    forall i {:trigger SlotInv(t, i)} | 0 <= i < |t.sender.slots| && t.sender.slots[i].Some? ensures SlotInv(t, i) {
      assert SlotInv(s, i);
    }
  }

  lemma LogGrows(s: System, t: System, a: int, payload: Payload)
    requires LogInv(s) && forall x :: x in s.accepted ==> x < a
    requires (t.log == s.log && t.accepted == s.accepted) ||
             (t.log == s.log + [a] && t.accepted == s.accepted[a := payload])
    ensures LogInv(t)
  {
    if t.log != s.log {
      assert t.log[|s.log|] == a;
      forall x {:trigger x in t.accepted} | x in t.accepted ensures x in t.log {
        if x != a { assert x in s.log; }
      }
    }
  }

  /** A failure callback only ever empties the slot of its own packet. */
  lemma FailureErasesItsPacket(s: System, number: int)
    requires SenderInv(s) && FreshFailure(s, number)
    ensures var i := Wrap(number) % s.sender.window;
            var t := Erase(s.sender, Wrap(number));
            t != s.sender ==> s.sender.slots[i].Some? && s.slotNumbers[i] == number
                              && t.slots == s.sender.slots[i := None]
  {
    var i := Wrap(number) % s.sender.window;
    if s.sender.slots[i].Some? && s.sender.slots[i].value.sequenceNumber == Wrap(number) {
      assert SlotInv(s, i);
      WrapInjectiveInWindow(s.slotNumbers[i], number, number, MODULUS);
    }
  }

  /** Slots may be freed and timers moved; no packet changes its frame or number. */
  ghost predicate OnlyFreesSlots(before: Sender, after: Sender) {
    && after.window == before.window && after.nextSeq == before.nextSeq
    && |after.slots| == |before.slots|
    && forall i :: 0 <= i < |after.slots| && after.slots[i].Some? ==>
         && before.slots[i].Some?
         && after.slots[i].value.sequenceNumber == before.slots[i].value.sequenceNumber
         && after.slots[i].value.frame == before.slots[i].value.frame
  }

  lemma SlotsShrinkKeepsSenderInv(s: System, t: System)
    requires SenderInv(s) && Accounted(t.sender) && OnlyFreesSlots(s.sender, t.sender)
    requires t == s.(sender := t.sender, failed := t.failed)
    ensures SenderInv(t)
  {
    forall i {:trigger SlotInv(t, i)} | 0 <= i < |t.sender.slots| && t.sender.slots[i].Some? ensures SlotInv(t, i) {
      assert SlotInv(s, i);
    }
  }

  /** Whatever a tick or a flush sends is on the network already. */
  lemma ResentIsKnown(s: System, now: int, all: bool)
    requires SenderInv(s)
    ensures s.data + Resent(s, now, all) == s.data
  {
    forall d | d in Resent(s, now, all) ensures d in s.data {
      var i :| 0 <= i < |s.sender.slots| && s.sender.slots[i].Some? &&
               d == Datagram(s.slotNumbers[i], s.sender.slots[i].value.frame);
      assert SlotInv(s, i);
    }
  }

  lemma FailureKeepsSenderInv(s: System, number: int)
    requires SenderInv(s)
    ensures SenderInv(AfterSendFailed(s, number))
  {
    EraseAccounted(s.sender, Wrap(number));
    SlotsShrinkKeepsSenderInv(s, AfterSendFailed(s, number));
  }

  lemma TickKeepsSenderInv(s: System, now: int)
    requires SenderInv(s)
    ensures SenderInv(AfterTick(s, now))
  {
    TickAccounted(s.sender, now);
    ResentIsKnown(s, now, false);
    SlotsShrinkKeepsSenderInv(s, AfterTick(s, now));
  }

  lemma AckKeepsSenderInv(s: System, k: AckDatagram)
    requires SenderInv(s)
    ensures SenderInv(AfterAck(s, k))
  {
    match Codec.Decode(k.frame)
    case Err(_) =>
    case Ok(packet) =>
      ProcessAckAccounted(s.sender, packet.ack, packet.ackBits);
      if packet.kind == ACK { SlotsShrinkKeepsSenderInv(s, AfterAck(s, k)); }
  }

  lemma DataKeepsSenderInv(c: Config, s: System, d: Datagram)
    requires SenderInv(s)
    ensures SenderInv(AfterData(c, s, d))
  {
    ApplyStepKeepsShape(c, s, DoDeliverData(d));
    SameSlotsInv(s, AfterData(c, s, d));
  }

  lemma NextKeepsSenderInv(c: Config, s: System, step: Step)
    requires SenderInv(s)
    ensures SenderInv(Next(c, s, step))
  {
    if Enabled(c, s, step) {
      match step
      case DoSend(_, _, _, _, _) => SendKeepsSenderInv(c, s, step);
      case DoSendFailed(number) => FailureKeepsSenderInv(s, number);
      case DoTick(now) => TickKeepsSenderInv(s, now);
      case DoFlush => ResentIsKnown(s, 0, true);
      case DoDeliverData(d) => DataKeepsSenderInv(c, s, d);
      case DoDeliverAck(k) => AckKeepsSenderInv(s, k);
    }
  }

  // ----- The ordered receiving side -----

  ghost predicate SubMap(small: map<int, Payload>, big: map<int, Payload>) {
    forall x {:trigger x in small} :: x in small ==> x in big && big[x] == small[x]
  }

  /** The receiver holds and has delivered only what arrived, in order and without a gap. */
  ghost predicate OrderedInv(s: System) {
    && InPlace(s.receiver, s.expected, s.arrived)
    && SubMap(s.arrived, s.accepted)
    && |s.delivered| == s.expected
    && Delivers(s.arrived, 0, s.delivered)
  }

  lemma DataKeepsOrderedInv(c: Config, s: System, d: Datagram)
    requires c.ordered && SenderInv(s) && OrderedInv(s)
    requires d in s.data && FreshData(c, s, d)
    ensures OrderedInv(AfterData(c, s, d))
  {
    var packet := Codec.Decode(d.frame).value;
    WindowDistance(s.receiver, s.expected, d.number);
    if Records(c, s, d.number) {
      var q, out := OrderedArrival(s, d.number, packet.payload);
    } else {
      assert s.delivered + [] == s.delivered;
    }
  }

  /** A packet of the window arrives under number `a`, with the payload accepted under it. */
  lemma OrderedArrival(s: System, a: int, payload: Payload) returns (q: Receiver.Receiver, out: seq<Payload>)
    requires OrderedInv(s) && NotAliased(a, s.expected, s.receiver.window)
    requires a in s.accepted && s.accepted[a] == payload
    ensures (q, out) == Receiver.ReceiveOrdered(s.receiver, Wrap(a), payload)
    ensures InPlace(q, s.expected + |out|, s.arrived[a := payload])
    ensures Delivers(s.arrived[a := payload], 0, s.delivered + out)
    ensures SubMap(s.arrived[a := payload], s.accepted)
  {
    var arrived' := s.arrived[a := payload];
    InPlaceInMore(s.receiver, s.expected, s.arrived, arrived');
    q, out := OrderedStep(s.receiver, s.expected, arrived', a);
    DeliversMore(s.arrived, arrived', s.delivered, out);
  }

  lemma NextKeepsOrderedInv(c: Config, s: System, step: Step)
    requires c.ordered && SenderInv(s) && OrderedInv(s)
    ensures OrderedInv(Next(c, s, step))
  {
    if Enabled(c, s, step) && step.DoDeliverData? {
      DataKeepsOrderedInv(c, s, step.datagram);
    }
  }

  lemma StartOrderedInv(c: Config)
    requires c.Valid()
    ensures OrderedInv(Start(c))
  {
  }

  lemma {:induction false} RunFromInv(c: Config, s: System, steps: seq<Step>)
    requires SenderInv(s) && (c.ordered ==> OrderedInv(s))
    ensures var t := RunFrom(c, s, steps); SenderInv(t) && (c.ordered ==> OrderedInv(t))
  {
    if steps != [] {
      var before := steps[..|steps| - 1];
      RunFromInv(c, s, before);
      NextKeepsSenderInv(c, RunFrom(c, s, before), steps[|steps| - 1]);
      if c.ordered { NextKeepsOrderedInv(c, RunFrom(c, s, before), steps[|steps| - 1]); }
    }
  }

  lemma ReachedInv(c: Config, steps: seq<Step>)
    requires c.Valid()
    ensures var s := Reached(c, steps); SenderInv(s) && (c.ordered ==> OrderedInv(s))
  {
    StartSenderInv(c);
    StartOrderedInv(c);
    RunFromInv(c, Start(c), steps);
  }

  // ----- End-to-end order -----

  /** The accepted payloads in the order in which the sends were accepted. */
  ghost function AcceptedPayloads(s: System): seq<Payload>
    requires forall i :: 0 <= i < |s.log| ==> s.log[i] in s.accepted
  {
    seq(|s.log|, i requires 0 <= i < |s.log| => s.accepted[s.log[i]])
  }

  lemma {:induction false} LogAtLeastIndex(s: System, i: nat)
    requires LogInv(s) && i < |s.log|
    requires forall x :: x in s.accepted ==> 0 <= x
    ensures s.log[i] >= i
  {
    if i > 0 { LogAtLeastIndex(s, i - 1); }
  }

  /** An increasing log of naturals that contains everything below `n` starts 0, 1, ..., n - 1. */
  lemma {:induction false} LogStartsWithNumbers(s: System, n: nat)
    requires LogInv(s)
    requires forall x :: x in s.accepted ==> 0 <= x
    requires forall x :: 0 <= x < n ==> x in s.accepted
    ensures n <= |s.log| && forall i :: 0 <= i < n ==> s.log[i] == i
  {
    if n > 0 {
      LogStartsWithNumbers(s, n - 1);
      assert n - 1 in s.accepted;
      var j :| 0 <= j < |s.log| && s.log[j] == n - 1;
      LogAtLeastIndex(s, j);
    }
  }

  lemma ArrivedBelowExpected(s: System)
    requires OrderedInv(s)
    ensures forall x :: 0 <= x < s.expected ==> x in s.arrived && x in s.accepted && s.delivered[x] == s.accepted[x]
  {
    forall x | 0 <= x < s.expected ensures x in s.arrived && x in s.accepted && s.delivered[x] == s.accepted[x] {
      assert IsContent(s.arrived, 0 + x, s.delivered[x]);
    }
  }

  /**
    For every window size and every run over the lossy, duplicating, reordering network, across any
    number of wraps: the payloads delivered are exactly a prefix of the accepted payloads, in order,
    and no number below the expected one was skipped.
   */
  lemma DeliveredIsPrefixOfAccepted(c: Config, steps: seq<Step>)
    requires c.Valid() && c.ordered
    ensures var s := Reached(c, steps);
            && (forall i :: 0 <= i < |s.log| ==> s.log[i] in s.accepted)
            && s.delivered <= AcceptedPayloads(s)
            && |s.delivered| == s.expected
            && s.receiver.expected == Wrap(s.expected)
            && (forall x :: 0 <= x < s.expected ==> x in s.accepted && s.log[x] == x)
  {
    var s := Reached(c, steps);
    ReachedInv(c, steps);
    ArrivedBelowExpected(s);
    LogStartsWithNumbers(s, s.expected);
  }

  // ----- A number used up by a refused send -----

  ghost predicate IsHole(s: System, hole: int) {
    hole < s.next && hole !in s.accepted
  }

  lemma NextKeepsHole(c: Config, s: System, step: Step, hole: int)
    requires SenderInv(s) && IsHole(s, hole)
    ensures IsHole(Next(c, s, step), hole)
  {
    if step.DoSend? { SendOutcomes(c, s, step); }
  }

  /** A number used up without being accepted stays so. */
  lemma {:induction false} HoleStays(c: Config, s: System, steps: seq<Step>, hole: int)
    requires SenderInv(s) && (c.ordered ==> OrderedInv(s)) && IsHole(s, hole)
    ensures IsHole(RunFrom(c, s, steps), hole)
  {
    if steps != [] {
      var before := steps[..|steps| - 1];
      HoleStays(c, s, before, hole);
      RunFromInv(c, s, before);
      NextKeepsHole(c, RunFrom(c, s, before), steps[|steps| - 1], hole);
    }
  }

  lemma HoleBoundsDelivery(s: System, hole: int)
    requires OrderedInv(s) && IsHole(s, hole) && 0 <= hole
    ensures s.expected <= hole && |s.delivered| <= hole
  {
    ArrivedBelowExpected(s);
  }

  lemma BlockedFrom(c: Config, s: System, more: seq<Step>, hole: int)
    requires c.ordered && SenderInv(s) && OrderedInv(s) && IsHole(s, hole) && 0 <= hole
    ensures var t := RunFrom(c, s, more); IsHole(t, hole) && t.expected <= hole && |t.delivered| <= hole
  {
    HoleStays(c, s, more, hole);
    RunFromInv(c, s, more);
    HoleBoundsDelivery(RunFrom(c, s, more), hole);
  }

  lemma ReachedAppend(c: Config, steps: seq<Step>, step: Step, more: seq<Step>)
    requires c.Valid()
    ensures Reached(c, steps + [step]) == Next(c, Reached(c, steps), step)
    ensures Reached(c, steps + [step] + more) == RunFrom(c, Reached(c, steps + [step]), more)
  {
    assert (steps + [step])[..|steps|] == steps;
    RunFromConcat(c, Start(c), steps + [step], more);
  }

  /** The send would be let through by the window, but the slot of its number is taken or the codec refuses. */
  ghost predicate UsesUpNumber(s: System, send: Step)
    requires HasShape(s) && send.DoSend?
  {
    && s.sender.inFlight < EffectiveWindow(s.sender.window, send.congestionWindow)
    && (s.sender.slots[s.sender.nextSeq % s.sender.window].Some? || !send.encodes)
  }

  /**
    A send that finds the window open, but its slot still taken or its packet refused by the codec, is
    refused and yet uses up its number.  From then on, whatever happens, the receiver never gets past that number: every later
    accepted message is never delivered.
   */
  lemma BusySlotBlocksForever(c: Config, steps: seq<Step>, send: Step, more: seq<Step>)
    requires c.Valid() && c.ordered && send.DoSend? && UsesUpNumber(Reached(c, steps), send)
    ensures var hole := Reached(c, steps).next;
            var t := Reached(c, steps + [send] + more);
            IsHole(t, hole) && t.expected <= hole && |t.delivered| <= hole
  {
    var s := Reached(c, steps);
    ReachedInv(c, steps);
    ReachedInv(c, steps + [send]);
    ReachedAppend(c, steps, send, more);
    SendOutcomes(c, s, send);
    assert IsHole(Next(c, s, send), s.next);
    BlockedFrom(c, Reached(c, steps + [send]), more, s.next);
  }

  /**
    A send uses up a number without accepting its message exactly when the window is open and the
    slot is taken or the codec refuses; otherwise it is accepted, or refused without a trace.
   */
  lemma NumberUsedUpIff(c: Config, steps: seq<Step>, send: Step)
    requires c.Valid() && send.DoSend?
    ensures var s, t := Reached(c, steps), Reached(c, steps + [send]);
            && (IsHole(t, s.next) <==> UsesUpNumber(s, send))
            && (t == s || IsHole(t, s.next) || t.accepted == s.accepted[s.next := send.payload])
  {
    ReachedInv(c, steps);
    ReachedAppend(c, steps, send, []);
    SendOutcomes(c, Reached(c, steps), send);
  }
}

/**
  A refused send can block an ordered channel for good (`OrderedDelivery.BusySlotBlocksForever`).  Here
  is when that can happen: with every send window of two or more, and never with a window of one.  If no
  send ever failed and no number was used up before, it still can, except behind a receive window of one
  when the send window is a power of two up to 32.
 */
module BlockedChannel {
  import opened Serial
  import opened Words
  import opened Packets
  import opened Slots
  import opened AckTracker
  import opened ReliableSender
  import opened Protocol
  import opened OrderedDelivery
  import opened NoSilentLoss
  import opened AckTops
  import opened Runs
  import opened WindowMustDivide
  import opened LargestWindowSafe
  import Receiver = ReliableReceiver
  import Codec

  /** Nothing failed and every number used was accepted, and yet the next send is refused and uses up its number. */
  ghost predicate BlockedCleanly(c: Config, s: System)
    requires HasShape(s)
  {
    s.failed == {} && NoneUsedUp(s) && UsesUpNumber(s, SendStep(c))
  }

  /** The window is open, but the slot of the next number is not free. */
  lemma OpenButBusy(c: Config, s: System, busy: nat, free: nat)
    requires c.Valid() && SenderInv(s) && s.sender.window == c.sendWindow && busy < |s.sender.slots| && free < |s.sender.slots|
    requires Wrap(s.next) % s.sender.window == busy
    requires s.sender.slots[busy].Some? && s.sender.slots[free].None?
    ensures UsesUpNumber(s, SendStep(c))
  {
    CountBounds(s.sender.slots);
  }

  /** The next send finds its slot taken, and its number is used up. */
  lemma UsedUp(c: Config, s: System) returns (t: System)
    requires SenderInv(s) && s.sender.window == c.sendWindow && UsesUpNumber(s, SendStep(c))
    ensures t == Next(c, s, SendStep(c)) && t == s.(sender := t.sender, next := s.next + 1)
    ensures t.sender.slots == s.sender.slots && t.sender.window == s.sender.window
  {
    t := Next(c, s, SendStep(c));
    SendOutcomes(c, s, SendStep(c));
  }

  lemma SmallSlots(w: nat)
    requires 1 <= w <= HALF
    ensures Turn(w, 0, w) && Wrap(w) % w == 0
  {
    forall i {:trigger InTurn(w, 0, i)} | 0 <= i < w ensures InTurn(w, 0, i) {
      assert Wrap(i) == i;
      ModUnique(i, 0, i, w);
    }
    assert Wrap(w) == w;
    ModUnique(w, 1, 0, w);
  }

  /** The whole window is in flight, each number in its slot, and none was used up or failed. */
  ghost predicate AllInFlight(s: System)
    requires HasShape(s)
  {
    && s.next == s.sender.window && s.failed == {} && NoneUsedUp(s)
    && forall i :: 0 <= i < s.sender.window ==> s.sender.slots[i].Some? && s.slotNumbers[i] == i
  }

  /** The whole window is in flight and nothing has arrived. */
  lemma WindowFull(c: Config) returns (s: System)
    requires c.Valid()
    ensures Reachable(c, s) && AllInFlight(s) && InOrderUpTo(c, s, 0)
    ensures s.next == c.sendWindow == s.sender.window && Wrap(s.next) % s.sender.window == 0
  {
    ReachableStart(c);
    SmallSlots(c.sendWindow);
    s := Fill(c, Start(c), c.sendWindow);
  }

  // ----- With a reported failure -----

  /** The window is full; the send in slot 1 is reported failed. */
  lemma SecondFailed(c: Config, s: System) returns (t: System)
    requires SenderInv(s) && s.sender.window >= 2 && s.next == s.sender.window <= HALF
    requires s.sender.slots[0].Some? && s.sender.slots[1].Some? && s.slotNumbers[1] == 1
    ensures t == Next(c, s, DoSendFailed(1))
    ensures t.next == s.next && t.sender.slots[1].None? && t.sender.slots[0].Some?
  {
    assert SlotInv(s, 1);
    t := Next(c, s, DoSendFailed(1));
  }

  lemma FailureOpensAHole(c: Config)
    requires c.Valid() && c.sendWindow >= 2
    ensures exists steps :: UsesUpNumber(Reached(c, steps), SendStep(c))
  {
    var s := WindowFull(c);
    ReachableInv(c, s);
    assert s.sender.slots[0].Some? && s.sender.slots[1].Some?;
    var t := SecondFailed(c, s);
    ReachableNext(c, s, DoSendFailed(1));
    ReachableInv(c, t);
    OpenButBusy(c, t, 0, 1);
    var steps :| Reached(c, steps) == t;
    assert UsesUpNumber(Reached(c, steps), SendStep(c));
  }

  /**
    On every channel, whatever the windows of the two ends, a send that would encode can be refused and
    still use up its number exactly when the send window is at least two.
   */
  lemma BlockableIffWindowAtLeastTwo(c: Config)
    requires c.Valid()
    ensures (exists steps :: UsesUpNumber(Reached(c, steps), SendStep(c))) <==> c.sendWindow >= 2
  {
    if c.sendWindow >= 2 {
      FailureOpensAHole(c);
    } else {
      forall steps ensures !UsesUpNumber(Reached(c, steps), SendStep(c)) {
        ReachedInv(c, steps);
        CountBounds(Reached(c, steps).sender.slots);
      }
    }
  }

  // ----- Without any failure: one message overtakes another -----

  /** With an empty history, an ACK covers its newest number only. */
  lemma EmptyHistory(a: Seq16, ack: Seq16)
    ensures IsAcknowledged(a, ack, 0) <==> a == ack
  {
    var back := Delta(ack, a);
    if 1 <= back <= HISTORY {
      TestBitIsBit(0, back - 1);
      BitOfZero(back - 1);
    }
  }

  lemma AckLeavesFirst(c: Config, s: System, free: nat) returns (t: System, k: AckDatagram)
    requires SenderInv(s) && AllInFlight(s) && 1 <= free < s.sender.window <= HALF && s.top == free
    requires var r := s.receiver.tracker;
             r.hasReceived && IsAcknowledged(Wrap(free), r.latest, r.ackBits) && !IsAcknowledged(Wrap(0), r.latest, r.ackBits)
    requires AckAfter(c, s.receiver, s.top) <= s.acks
    ensures t == Next(c, s, DoDeliverAck(k)) && t == s.(sender := t.sender) && |t.sender.slots| == |s.sender.slots|
    ensures t.sender.slots[0].Some? && t.sender.slots[free].None?
  {
    forall i | 0 <= i < |s.sender.slots| && s.sender.slots[i].Some?
      ensures s.top - HALF <= s.slotNumbers[i] <= s.top + HALF
    {
      assert s.slotNumbers[i] == i;
    }
    t, k := AckEffects(c, s);
    assert s.slotNumbers[0] == 0 && s.slotNumbers[free] == free;
  }

  /** The ACK that the receiver has just built frees slot `free` and leaves slot 0 occupied. */
  lemma FirstLeftBehind(c: Config, s: System, free: nat) returns (t: System)
    requires Reachable(c, s) && AllInFlight(s) && 1 <= free < s.sender.window && s.top == free
    requires Wrap(s.next) % s.sender.window == 0
    requires var r := s.receiver.tracker;
             r.hasReceived && IsAcknowledged(Wrap(free), r.latest, r.ackBits) && !IsAcknowledged(Wrap(0), r.latest, r.ackBits)
    requires AckAfter(c, s.receiver, s.top) <= s.acks
    ensures Reachable(c, t) && BlockedCleanly(c, t)
  {
    ReachableInv(c, s);
    var k;
    t, k := AckLeavesFirst(c, s, free);
    ReachableNext(c, s, DoDeliverAck(k));
    ReachableInv(c, t);
    OpenButBusy(c, t, 0, free);
  }

  lemma JustTooOld(ackBits: U32)
    ensures IsAcknowledged(Wrap(HISTORY + 1), Wrap(HISTORY + 1), ackBits)
    ensures !IsAcknowledged(Wrap(0), Wrap(HISTORY + 1), ackBits)
  {
  }

  /** The second message arrives first and is acknowledged. */
  lemma OvertakenIsBlocked(c: Config) returns (t: System)
    requires c.Valid() && c.sendWindow >= 2 && (c.ordered ==> c.recvWindow >= 2)
    ensures Reachable(c, t) && BlockedCleanly(c, t)
  {
    var s := WindowFull(c);
    var u := ArrivesFirst(c, s, 1);
    EmptyHistory(Wrap(0), Wrap(1));
    t := FirstLeftBehind(c, u, 1);
  }

  /** A burst of 34 messages arrives in order, and only the last ACK comes back: it is too late for the first. */
  lemma BurstIsBlocked(c: Config) returns (t: System)
    requires c.Valid() && c.sendWindow >= HISTORY + 2
    ensures Reachable(c, t) && BlockedCleanly(c, t)
  {
    var s := WindowFull(c);
    var u := AllInOrder(c, s, 0, HISTORY + 2);
    JustTooOld(u.receiver.tracker.ackBits);
    t := FirstLeftBehind(c, u, HISTORY + 1);
  }

  /** Two numbers of one window share a slot at the wrap. */
  lemma WrapIsBlocked(c: Config, first: nat, r: nat) returns (t: System)
    requires c.Valid() && MODULUS == first + r && 1 <= r < c.sendWindow && Turn(c.sendWindow, first, r)
    ensures Reachable(c, t) && BlockedCleanly(c, t)
  {
    var quiet := QuietReachable(c, first);
    t := Fill(c, quiet, r);
    ReachableInv(c, t);
    ZeroSlot(c.sendWindow);
    assert t.sender.slots[0].Some? && t.sender.slots[r].None?;
    OpenButBusy(c, t, 0, r);
  }

  // ----- Behind a receive window of one -----

  /** A receive window of one, and a send window for which the slots never get mixed up. */
  ghost predicate InStep(c: Config) {
    c.Valid() && c.ordered && c.recvWindow == 1 && c.sendWindow <= HISTORY && MODULUS % c.sendWindow == 0
  }

  /** The ACK covers everything in its history. */
  ghost predicate AckFull(k: AckDatagram) {
    match Codec.Decode(k.frame)
    case Err(_) => false
    case Ok(packet) =>
      && packet.kind == ACK && packet.ack == Wrap(k.top)
      && forall x {:trigger Wrap(x)} :: 0 <= x && k.top - HISTORY <= x <= k.top ==>
           IsAcknowledged(Wrap(x), packet.ack, packet.ackBits)
  }

  ghost predicate AcksFull(s: System) {
    forall k :: k in s.acks ==> AckFull(k)
  }

  /** Exactly the numbers from `low` on are in flight, and they fit in the window. */
  ghost predicate InFlightSince(s: System, low: int)
    requires HasShape(s)
  {
    && low <= s.next <= low + s.sender.window
    && (forall x {:trigger InSlot(s, x)} :: low <= x < s.next ==> InSlot(s, x))
    && (forall i :: 0 <= i < |s.sender.slots| && s.sender.slots[i].Some? ==> low <= s.slotNumbers[i])
  }

  ghost predicate InStepInv(s: System) {
    HasShape(s) && s.failed == {} && NoneUsedUp(s) && AcksFull(s) && exists low :: InFlightSince(s, low)
  }

  /** Everything below the expected number has arrived, and nothing else. */
  lemma ArrivedInStep(c: Config, steps: seq<Step>)
    requires InStep(c)
    ensures var s := Reached(c, steps);
            Inv(c, s) && forall x {:trigger x in s.arrived} :: x in s.arrived <==> 0 <= x < s.expected
  {
    var s := Reached(c, steps);
    StartInv(c);
    RunFromKeepsInv(c, Start(c), steps);
    ReachedRepresents(c, steps);
    ArrivedBelowExpected(s);
    assert s.expected !in s.arrived;
  }

  /** An ACK built from an exact summary of a gapless history is full. */
  lemma BuiltAckFull(c: Config, s: System)
    requires SummaryInv(s) && forall x {:trigger x in s.arrived} :: x in s.arrived <==> 0 <= x < s.expected
    ensures forall k :: k in AckAfter(c, s.receiver, s.top) ==> AckFull(k)
  {
    var r := s.receiver.tracker;
    if r.hasReceived {
      var built := Receiver.AckPacket(r, c.id).value;
      Codec.DecodeOfFrame(built);
      assert s.top in s.arrived.Keys;
      forall x {:trigger Wrap(x)} | 0 <= x && s.top - HISTORY <= x <= s.top ensures IsAcknowledged(Wrap(x), r.latest, r.ackBits) {
        NearIsNotAliased(x, s.top - HISTORY, HISTORY + 1);
        ExactAcknowledges(r, s.arrived.Keys, s.top, x);
        assert x in s.arrived;
      }
    }
  }

  /** Some number of a window falls into any given slot. */
  lemma NumberInSlot(low: int, w: nat, j: nat) returns (x: int)
    requires j < w
    ensures low <= x < low + w && x % w == j
  {
    var q, r := (j - low) / w, (j - low) % w;
    x := low + r;
    assert x == j + w * -q by { assert w * -q == -(w * q); }
    ModOfSum(j, -q, w);
    ModUnique(j, 0, j, w);
  }

  lemma FullWindow(s: System, low: int)
    requires SenderInv(s) && InFlightSince(s, low) && MODULUS % s.sender.window == 0 && s.next == low + s.sender.window
    ensures s.sender.inFlight == s.sender.window
  {
    var w := s.sender.window;
    forall j | 0 <= j < w ensures s.sender.slots[j].Some? {
      var x := NumberInSlot(low, w, j);
      SlotOfWrap(x, w);
      assert InSlot(s, x);
    }
    CountBounds(s.sender.slots);
  }

  /** If the slot of the next number is taken, all are. */
  lemma BusyMeansFull(s: System, low: int)
    requires SenderInv(s) && InFlightSince(s, low) && MODULUS % s.sender.window == 0
    requires s.sender.slots[Wrap(s.next) % s.sender.window].Some?
    ensures s.next == low + s.sender.window && s.sender.inFlight == s.sender.window
  {
    var w := s.sender.window;
    var i := Wrap(s.next) % w;
    assert SlotInv(s, i);
    var y := s.slotNumbers[i];
    SlotOfWrap(s.next, w);
    SlotOfWrap(y, w);
    assert Wrap(y) % w == i by { SlotHasNumber(s, i); }
    if s.next < low + w { SlotInjectiveInWindow(y, s.next, low, w); }
    FullWindow(s, low);
  }

  lemma SlotHasNumber(s: System, i: nat)
    requires SenderInv(s) && i < |s.sender.slots| && s.sender.slots[i].Some?
    ensures Wrap(s.slotNumbers[i]) % s.sender.window == i
  {
    assert SlotInv(s, i);
  }

  lemma SendStaysInStep(c: Config, s: System, step: Step, low: int)
    requires SenderInv(s) && MODULUS % s.sender.window == 0 && step.DoSend?
    requires NoneUsedUp(s) && InFlightSince(s, low) && NoneUsedUp(AfterSend(c, s, step))
    ensures var t := AfterSend(c, s, step); HasShape(t) && InFlightSince(t, low)
  {
    ApplyStepKeepsShape(c, s, step);
    SendOutcomes(c, s, step);
    if s.next == low + s.sender.window { FullWindow(s, low); }
    var t := AfterSend(c, s, step);
    assert s.next !in s.accepted;
    forall x {:trigger InSlot(t, x)} | low <= x < t.next ensures InSlot(t, x) {
      if x < s.next { assert InSlot(s, x); }
    }
  }

  lemma TickStaysInStep(s: System, now: int, low: int)
    requires SenderInv(s) && InFlightSince(s, low)
    ensures var t := AfterTick(s, now); HasShape(t) && InFlightSince(t, low)
  {
    var t := AfterTick(s, now);
    forall x {:trigger InSlot(t, x)} | low <= x < t.next ensures InSlot(t, x) { assert InSlot(s, x); }
  }

  /** A packet in flight is freed exactly when it is not above the newest number of the ACK. */
  lemma FullAckFrees(s: System, k: AckDatagram, packet: Packet, i: nat)
    requires SenderInv(s) && AckFull(k) && FreshAck(s, k) && Codec.Decode(k.frame) == Ok(packet)
    requires i < |s.sender.slots| && s.sender.slots[i].Some? && k.top - HISTORY <= s.slotNumbers[i]
    ensures IsFreed(s.sender.slots[i], packet.ack, packet.ackBits) <==> s.slotNumbers[i] <= k.top
  {
    assert SlotInv(s, i);
    var y := s.slotNumbers[i];
    assert NotAliased(y, k.top - HISTORY, HISTORY + 1);
    if IsAcknowledged(Wrap(y), Wrap(k.top), packet.ackBits) { AckedIsNear(y, k.top, packet.ackBits); }
  }

  lemma AckStaysInStep(s: System, k: AckDatagram, low: int)
    requires SenderInv(s) && AckFull(k) && FreshAck(s, k) && k.top < s.next
    requires InFlightSince(s, low) && s.sender.window <= HISTORY
    ensures var t := AfterAck(s, k); HasShape(t) && InFlightSince(t, Max(low, k.top + 1))
  {
    var t := AfterAck(s, k);
    var packet := Codec.Decode(k.frame).value;
    forall i | 0 <= i < |s.sender.slots| && s.sender.slots[i].Some?
      ensures IsFreed(s.sender.slots[i], packet.ack, packet.ackBits) <==> s.slotNumbers[i] <= k.top
    {
      FullAckFrees(s, k, packet, i);
    }
    forall x {:trigger InSlot(t, x)} | Max(low, k.top + 1) <= x < t.next ensures InSlot(t, x) { assert InSlot(s, x); }
  }

  lemma SendingStepStaysInStep(c: Config, s: System, step: Step)
    requires Inv(c, s) && c.ordered && s.sender.window <= HISTORY && MODULUS % s.sender.window == 0
    requires InStepInv(s) && Enabled(c, s, step) && !step.DoDeliverData? && !step.DoSendFailed?
    requires NoneUsedUp(Next(c, s, step))
    ensures InStepInv(Next(c, s, step))
  {
    var low :| InFlightSince(s, low);
    var t := Next(c, s, step);
    SendingStepKeepsReceiver(c, s, step);
    match step
    case DoSend(_, _, _, _, _) =>
      SendOutcomes(c, s, step);
      SendStaysInStep(c, s, step, low);
      assert InFlightSince(t, low);
    case DoTick(now) =>
      TickStaysInStep(s, now, low);
      assert InFlightSince(t, low);
    case DoFlush =>
      ResentIsKnown(s, 0, true);
    case DoDeliverAck(k) =>
      assert AckSound(k, s.arrived.Keys);
      assert k.top in s.arrived;
      AckStaysInStep(s, k, low);
      assert InFlightSince(t, Max(low, k.top + 1));
  }

  lemma DataStaysInStep(c: Config, s: System, d: Datagram)
    requires SenderInv(s) && InStepInv(s) && d in s.data
    requires var t := AfterData(c, s, d);
             SummaryInv(t) && forall x {:trigger x in t.arrived} :: x in t.arrived <==> 0 <= x < t.expected
    ensures InStepInv(AfterData(c, s, d))
  {
    var packet := DataFrame(s, d);
    ApplyStepKeepsShape(c, s, DoDeliverData(d));
    var t := AfterData(c, s, d);
    BuiltAckFull(c, t);
    var low :| InFlightSince(s, low);
    forall x {:trigger InSlot(t, x)} | low <= x < t.next ensures InSlot(t, x) { assert InSlot(s, x); }
    assert InFlightSince(t, low);
  }

  lemma NoneUsedUpBefore(c: Config, s: System, step: Step)
    requires SenderInv(s) && NoneUsedUp(Next(c, s, step))
    ensures NoneUsedUp(s)
  {
    forall x {:trigger x in s.accepted} | 0 <= x < s.next ensures x in s.accepted {
      if IsHole(s, x) { NextKeepsHole(c, s, step, x); }
    }
  }

  lemma {:induction false} StaysInStep(c: Config, steps: seq<Step>)
    requires InStep(c) && Reached(c, steps).failed == {} && NoneUsedUp(Reached(c, steps))
    ensures InStepInv(Reached(c, steps))
  {
    if steps == [] {
      assert InFlightSince(Start(c), 0);
    } else {
      var before, step := steps[..|steps| - 1], steps[|steps| - 1];
      var s := Reached(c, before);
      ArrivedInStep(c, before);
      FailedGrows(c, s, step);
      NoneUsedUpBefore(c, s, step);
      StaysInStep(c, before);
      if Enabled(c, s, step) {
        if step.DoDeliverData? {
          ArrivedInStep(c, steps);
          DataStaysInStep(c, s, step.datagram);
        } else {
          SendingStepStaysInStep(c, s, step);
        }
      }
    }
  }

  lemma InStepNeverBlocked(c: Config, steps: seq<Step>)
    requires InStep(c)
    ensures !BlockedCleanly(c, Reached(c, steps))
  {
    var s := Reached(c, steps);
    if s.failed == {} && NoneUsedUp(s) {
      StaysInStep(c, steps);
      ReachedInv(c, steps);
      var low :| InFlightSince(s, low);
      if s.sender.slots[Wrap(s.next) % s.sender.window].Some? { BusyMeansFull(s, low); }
    }
  }

  /**
    Every channel, any two windows: a run in which no send failed and no number was used up can come to a
    send that is refused and uses up its number, if and only if the send window is at least two and not,
    behind an ordered receive window of one, a power of two up to 32.
   */
  lemma BlockableWithoutFailureIff(c: Config)
    requires c.Valid()
    ensures (exists steps :: BlockedCleanly(c, Reached(c, steps))) <==> c.sendWindow >= 2 && !InStep(c)
  {
    if c.sendWindow < 2 {
      forall steps ensures !BlockedCleanly(c, Reached(c, steps)) {
        BlockableIffWindowAtLeastTwo(c);
      }
    } else if InStep(c) {
      forall steps ensures !BlockedCleanly(c, Reached(c, steps)) { InStepNeverBlocked(c, steps); }
    } else {
      var t := SomeBlockedState(c);
      var steps :| Reached(c, steps) == t;
    }
  }

  lemma SomeBlockedState(c: Config) returns (t: System)
    requires c.Valid() && c.sendWindow >= 2 && !InStep(c)
    ensures Reachable(c, t) && BlockedCleanly(c, t)
  {
    if c.ordered ==> c.recvWindow >= 2 {
      t := OvertakenIsBlocked(c);
    } else if c.sendWindow >= HISTORY + 2 {
      t := BurstIsBlocked(c);
    } else {
      var q, r := DivideWithRemainder(c.sendWindow);
      SlotsOfTurn(c.sendWindow, q, r);
      t := WrapIsBlocked(c, MODULUS - r, r);
    }
  }
}

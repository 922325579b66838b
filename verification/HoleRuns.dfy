/**
  Runs in which the codec refuses no packet and no send fails.  A send window of two or more still leaves a
  number used up: its slot is busy while another slot is free.  Behind such a hole two numbers of a receive
  window that does not divide 65536 can meet.  With a send window of one nothing is ever lost.
 */
module HoleRuns {
  import opened Serial
  import opened Packets
  import opened AckTracker
  import opened OrderedReceiver
  import opened Protocol
  import opened OrderedDelivery
  import opened NoSilentLoss
  import opened LargestWindowSafe
  import opened Runs
  import opened BlockedChannel
  import opened StuckSlot
  import opened WindowMustDivide
  import opened Collisions
  import Receiver = ReliableReceiver
  import Slots

  // ----- A number used up at `e` -----

  lemma DifferentInWindow(x: int, n: int, low: int, w: nat)
    requires 0 <= low <= x < n < low + w && n < MODULUS
    ensures Wrap(x) % w != Wrap(n) % w
  {
    assert Wrap(x) == x && Wrap(n) == n;
    if x % w == n % w { SlotInjectiveInWindow(x, n, low, w); }
  }

  lemma NumberInSlotIs(s: System, low: int, i: nat)
    requires SenderInv(s) && InFlightSince(s, low) && i < |s.sender.slots| && s.sender.slots[i].Some?
    ensures low <= s.slotNumbers[i] < s.next && Wrap(s.slotNumbers[i]) % s.sender.window == i
  {
    assert SlotInv(s, i);
    SlotHasNumber(s, i);
  }

  lemma SlotOfNextIsFree(s: System, low: int)
    requires SenderInv(s) && InFlightSince(s, low) && 0 <= low && s.next < low + s.sender.window && s.next < MODULUS
    ensures s.sender.slots[Wrap(s.next) % s.sender.window].None?
  {
    var w := s.sender.window;
    var i := Wrap(s.next) % w;
    if s.sender.slots[i].Some? {
      NumberInSlotIs(s, low, i);
      DifferentInWindow(s.slotNumbers[i], s.next, low, w);
    }
  }

  lemma {:induction false} FillSince(c: Config, s: System, low: nat, n: int) returns (t: System)
    requires Reachable(c, s) && InFlightSince(s, low) && s.next <= n <= low + s.sender.window && n <= MODULUS
    requires NoneUsedUp(s)
    ensures Reachable(c, t) && InFlightSince(t, low) && t.next == n && SameReceiver(s, t) && NoneUsedUp(t)
    ensures t.failed == s.failed && t.refused == s.refused && t.sender.window == s.sender.window
    decreases n - s.next
  {
    t := s;
    if s.next < n {
      ReachableInv(c, s);
      SlotOfNextIsFree(s, low);
      var u := SendNext(c, s);
      forall x {:trigger InSlot(u, x)} | low <= x < u.next ensures InSlot(u, x) {
        if x < s.next { assert InSlot(s, x); }
      }
      t := FillSince(c, u, low, n);
    }
  }

  /** Nothing failed and the codec refused nothing. */
  predicate Untroubled(s: System) {
    s.failed == {} && s.refused == {}
  }

  /** The window is full from `low` on, and nothing of it has arrived. */
  lemma WindowFullAt(c: Config, low: nat) returns (s: System)
    requires c.Valid() && low + c.sendWindow <= MODULUS
    ensures Reachable(c, s) && InFlightSince(s, low) && s.next == low + c.sendWindow && s.sender.window == c.sendWindow
    ensures InOrderUpTo(c, s, low) && NoneUsedUp(s) && Untroubled(s)
  {
    var quiet := QuietReachable(c, low);
    ReachableInv(c, quiet);
    s := FillSince(c, quiet, low, low + c.sendWindow);
  }

  /** Number `low` is missing, and `low + 1` waits in the buffer. */
  ghost predicate SecondWaits(c: Config, s: System, low: nat) {
    && Missing(c, s, low) && low in s.accepted && s.receiver.window == c.recvWindow && 2 <= c.recvWindow <= HALF
    && (forall x {:trigger x in s.arrived} :: x in s.arrived <==> 0 <= x < low || x == low + 1)
    && Receiver.Holds(s.receiver, Wrap(low + 1))
    && s.receiver.tracker.hasReceived && s.top == low + 1 && Exact(s.receiver.tracker, s.arrived.Keys, low + 1)
  }

  /** The second message of the window arrives first. */
  lemma SecondArrives(c: Config, s: System, low: nat) returns (t: System)
    requires c.ordered && Reachable(c, s) && InOrderUpTo(c, s, low) && low >= 1 && 2 <= c.recvWindow <= HALF
    requires low in s.accepted && low + 1 in s.accepted
    ensures SecondWaits(c, t, low) && SameSender(s, t) && AckAfter(c, t.receiver, t.top) <= t.acks
  {
    ReachableInv(c, s);
    BufferIsEmpty(c, s, low, Wrap(low + 1) % c.recvWindow);
    t := ArrivesBehind(c, s, low, low + 1);
    NewerIffGreater(low + 1, low - 1);
    MarkedKeepsExact(s.receiver.tracker, s.arrived.Keys, s.top, low + 1);
    assert t.arrived.Keys == s.arrived.Keys + {low + 1};
  }

  /** An ACK built from an exact summary frees only what has arrived, and what is newest. */
  lemma ExactAckEffects(c: Config, s: System) returns (t: System, k: AckDatagram)
    requires SenderInv(s) && s.receiver.tracker.hasReceived && AckAfter(c, s.receiver, s.top) <= s.acks
    requires Exact(s.receiver.tracker, s.arrived.Keys, s.top)
    requires forall i :: 0 <= i < |s.sender.slots| && s.sender.slots[i].Some? ==>
               s.top - HALF <= s.slotNumbers[i] <= s.top + HALF
    ensures t == Next(c, s, DoDeliverAck(k)) && t == s.(sender := t.sender)
    ensures t.sender.window == s.sender.window && |t.sender.slots| == |s.sender.slots|
    ensures forall i {:trigger t.sender.slots[i]} :: 0 <= i < |s.sender.slots| ==>
              if s.sender.slots[i].None? || (s.slotNumbers[i] in s.arrived && s.top - HISTORY <= s.slotNumbers[i])
              then t.sender.slots[i].None? else t.sender.slots[i] == s.sender.slots[i]
  {
    t, k := AckEffects(c, s);
    var r := s.receiver.tracker;
    forall i | 0 <= i < |s.sender.slots| && s.sender.slots[i].Some?
      ensures IsAcknowledged(Wrap(s.slotNumbers[i]), r.latest, r.ackBits) <==>
              s.slotNumbers[i] in s.arrived && s.top - HISTORY <= s.slotNumbers[i]
    {
      NearIsNotAliased(s.slotNumbers[i], s.top - HISTORY, HISTORY + 1);
      ExactAcknowledges(r, s.arrived.Keys, s.top, s.slotNumbers[i]);
    }
  }

  /** The numbers in flight are from `low` up to `high - 1`. */
  ghost predicate InFlightWithin(s: System, low: int, high: int)
    requires HasShape(s)
  {
    forall i {:trigger s.sender.slots[i]} :: 0 <= i < |s.sender.slots| && s.sender.slots[i].Some? ==>
      low <= s.slotNumbers[i] < high
  }

  lemma SecondAckEffects(c: Config, s: System, low: nat) returns (t: System, k: AckDatagram)
    requires SenderInv(s) && InFlightWithin(s, low, s.next) && s.next <= low + HALF && InSlot(s, low) && InSlot(s, low + 1)
    requires s.receiver.tracker.hasReceived && s.top == low + 1 && AckAfter(c, s.receiver, s.top) <= s.acks
    requires Exact(s.receiver.tracker, s.arrived.Keys, s.top) && low !in s.arrived && low + 1 in s.arrived
    ensures t == Next(c, s, DoDeliverAck(k)) && t == s.(sender := t.sender) && t.sender.window == s.sender.window
    ensures |t.sender.slots| == |s.sender.slots|
    ensures InSlot(t, low) && InFlightWithin(t, low, s.next) && t.sender.slots[Wrap(low + 1) % t.sender.window].None?
  {
    t, k := ExactAckEffects(c, s);
  }

  /** Its ACK frees the second message, and the first of the window keeps its slot. */
  lemma SecondAcknowledged(c: Config, s: System, low: nat) returns (t: System)
    requires Reachable(c, s) && InFlightSince(s, low) && s.next == low + s.sender.window <= MODULUS && s.sender.window >= 2
    requires SecondWaits(c, s, low) && AckAfter(c, s.receiver, s.top) <= s.acks
    ensures SecondWaits(c, t, low) && t == s.(sender := t.sender) && t.sender.window == s.sender.window
    ensures InSlot(t, low) && InFlightWithin(t, low, s.next) && t.sender.slots[Wrap(low + 1) % t.sender.window].None?
  {
    ReachableInv(c, s);
    assert InSlot(s, low) && InSlot(s, low + 1);
    forall i {:trigger s.sender.slots[i]} | 0 <= i < |s.sender.slots| && s.sender.slots[i].Some?
      ensures low <= s.slotNumbers[i] < s.next
    {
      NumberInSlotIs(s, low, i);
    }
    var k;
    t, k := SecondAckEffects(c, s, low);
    ReachableNext(c, s, DoDeliverAck(k));
  }

  /** The number after the window shares the slot of the first: it is used up. */
  lemma NextIsUsedUp(c: Config, s: System, low: nat) returns (t: System)
    requires Reachable(c, s) && InSlot(s, low) && s.next == low + s.sender.window < MODULUS && c.sendWindow >= 2
    requires s.sender.slots[Wrap(low + 1) % s.sender.window].None?
    ensures Reachable(c, t) && t == s.(sender := t.sender, next := s.next + 1)
    ensures t.sender.slots == s.sender.slots && t.sender.window == s.sender.window
  {
    ReachableInv(c, s);
    NextSlotInTurn(low, s.sender.window);
    BusyIsUsedUp(c, s, Wrap(low) % s.sender.window, Wrap(low + 1) % s.sender.window);
    t := UsedUp(c, s);
    ReachableNext(c, s, SendStep(c));
  }

  lemma BusyIsUsedUp(c: Config, s: System, busy: nat, free: nat)
    requires c.Valid() && SenderInv(s) && s.sender.window == c.sendWindow && busy < |s.sender.slots| && free < |s.sender.slots|
    requires Wrap(s.next) % s.sender.window == busy && s.sender.slots[busy].Some? && s.sender.slots[free].None?
    ensures UsesUpNumber(s, SendStep(c))
  {
    OpenButBusy(c, s, busy, free);
  }

  // ----- The rest of the window arrives -----

  /** If the expected packet comes and the next one is buffered, both are delivered. */
  lemma TwoDelivered(r: Receiver.Receiver, e: int, payload: Payload)
    requires Receiver.HasShape(r) && r.expected == Wrap(e) && r.window >= 2
    requires r.buffer[Wrap(e) % r.window].None? && Receiver.Holds(r, Wrap(e + 1))
    ensures |Receiver.ReceiveOrdered(r, Wrap(e), payload).1| >= 2
  {
    SuccOfWrap(e);
    assert Receiver.InOrderedWindow(r, Wrap(e));
    var stored := r.(tracker := Marked(r.tracker, Wrap(e)),
                     buffer := r.buffer[Wrap(e) % r.window := Some(Receiver.Buffered(Wrap(e), payload))]);
    assert Receiver.Holds(stored, stored.expected);
    var q := Receiver.TakeExpected(stored);
    assert q.expected == Wrap(e + 1);
    assert Receiver.Holds(q, q.expected);
    assert Receiver.Drain(q).1 != [];
    assert |Receiver.Drain(stored).1| == 1 + |Receiver.Drain(q).1|;
  }

  lemma FirstSlotIsEmpty(c: Config, s: System, low: nat)
    requires SecondWaits(c, s, low) && low + 1 < MODULUS
    ensures s.receiver.buffer[Wrap(low) % c.recvWindow].None?
  {
    ReachableInv(c, s);
    var i := Wrap(low) % c.recvWindow;
    if s.receiver.buffer[i].Some? {
      var a := HeldNumber(s, i);
      assert a == low + 1;
      DifferentInWindow(low, low + 1, low, c.recvWindow);
    }
  }

  /** The first message arrives, and both are delivered. */
  lemma FirstArrives(c: Config, s: System, low: nat) returns (t: System)
    requires SecondWaits(c, s, low) && low + 1 < MODULUS
    ensures Reachable(c, t) && InOrderUpTo(c, t, low + 2) && SameSender(s, t)
  {
    ReachableInv(c, s);
    FirstSlotIsEmpty(c, s, low);
    TwoDelivered(s.receiver, low, s.accepted[low]);
    t := ArrivesInWindow(c, s, low);
    BothRecorded(s, t, low);
    ReachableInv(c, t);
    NotPastMissing(t, low + 2);
  }

  lemma BothRecorded(s: System, t: System, low: nat)
    requires forall x {:trigger x in s.arrived} :: x in s.arrived <==> 0 <= x < low || x == low + 1
    requires s.receiver.tracker.hasReceived && s.top == low + 1 && Exact(s.receiver.tracker, s.arrived.Keys, low + 1)
    requires t.receiver.tracker == Marked(s.receiver.tracker, Wrap(low)) && t.arrived.Keys == s.arrived.Keys + {low}
    requires t.top == if MovesSummary(s.receiver.tracker, Wrap(low)) then low else s.top
    ensures t.top == low + 1 && t.receiver.tracker.hasReceived && t.receiver.tracker.latest == Wrap(low + 1)
    ensures Exact(t.receiver.tracker, t.arrived.Keys, low + 1)
    ensures forall x {:trigger x in t.arrived} :: x in t.arrived <==> 0 <= x < low + 2
  {
    assert low + 1 in s.arrived.Keys;
    NewerIffGreater(low, low + 1);
    MarkedKeepsExact(s.receiver.tracker, s.arrived.Keys, low + 1, low);
    forall x {:trigger x in t.arrived} ensures x in t.arrived <==> 0 <= x < low + 2 {
      assert x in t.arrived <==> x in t.arrived.Keys;
      assert x in s.arrived <==> x in s.arrived.Keys;
    }
  }

  // ----- Each is acknowledged -----

  /** Everything below `x` was delivered; what is in flight is from `x` up to `e - 1`, and `e` was used up. */
  ghost predicate Draining(c: Config, s: System, x: nat, e: nat) {
    && Reachable(c, s) && InOrderUpTo(c, s, x) && InFlightWithin(s, x, e) && s.next == e + 1
    && (forall z {:trigger z in s.accepted} :: z in s.accepted <==> 0 <= z < e)
    && Untroubled(s) && x <= e
  }

  lemma DeliveredIsFreed(c: Config, s: System, x: nat, e: nat) returns (t: System)
    requires Reachable(c, s) && InOrderUpTo(c, s, x) && x >= 2 && x <= e <= x + HALF - 2
    requires InFlightWithin(s, x - 2, e)
    ensures Reachable(c, t) && t == s.(sender := t.sender) && InFlightWithin(t, x, e)
  {
    ReachableInv(c, s);
    var k;
    t, k := ExactAckEffects(c, s);
    ReachableNext(c, s, DoDeliverAck(k));
  }

  lemma DrainOne(c: Config, s: System, x: nat, e: nat) returns (t: System)
    requires Draining(c, s, x, e) && 1 <= x < e <= x + HALF - 2
    ensures Draining(c, t, x + 1, e)
  {
    var u := NextInOrder(c, s, x);
    t := DeliveredIsFreed(c, u, x + 1, e);
  }

  lemma {:induction false} DrainAll(c: Config, s: System, x: nat, e: nat) returns (t: System)
    requires Draining(c, s, x, e) && 1 <= x <= e <= x + HALF - 2
    ensures Draining(c, t, e, e)
    decreases e - x
  {
    t := s;
    if x < e {
      var u := DrainOne(c, s, x, e);
      t := DrainAll(c, u, x + 1, e);
    }
  }

  /** The number after the window from `low` on was used up; the first of the window is still missing. */
  ghost predicate HoleMade(c: Config, s: System, low: nat, e: nat) {
    && SecondWaits(c, s, low) && InFlightWithin(s, low, e) && s.next == e + 1 && Untroubled(s)
    && forall z {:trigger z in s.accepted} :: z in s.accepted <==> 0 <= z < e
  }

  lemma StillInFlight(s: System, t: System, low: int)
    requires HasShape(s) && HasShape(t) && SameSender(s, t) && InFlightSince(s, low)
    ensures InFlightSince(t, low)
  {
    forall x {:trigger InSlot(t, x)} | low <= x < t.next ensures InSlot(t, x) { assert InSlot(s, x); }
  }

  lemma SecondFreed(c: Config, low: nat) returns (s: System)
    requires c.Valid() && c.ordered && c.sendWindow >= 2 && c.recvWindow >= 2 && 1 <= low && low + c.sendWindow < MODULUS
    ensures SecondWaits(c, s, low) && InFlightWithin(s, low, s.next) && InSlot(s, low) && s.sender.window == c.sendWindow
    ensures s.next == low + c.sendWindow && NoneUsedUp(s) && Untroubled(s)
    ensures s.sender.slots[Wrap(low + 1) % s.sender.window].None?
  {
    var full := WindowFullAt(c, low);
    var second := SecondArrives(c, full, low);
    StillInFlight(full, second, low);
    s := SecondAcknowledged(c, second, low);
  }

  lemma MakeHole(c: Config, low: nat) returns (s: System)
    requires c.Valid() && c.ordered && c.sendWindow >= 2 && c.recvWindow >= 2 && 1 <= low && low + c.sendWindow < MODULUS
    ensures HoleMade(c, s, low, low + c.sendWindow)
  {
    var freed := SecondFreed(c, low);
    s := NextIsUsedUp(c, freed, low);
  }

  /** Number `e` was used up, everything before it is done, and nothing is in flight. */
  lemma HoleAt(c: Config, e: nat) returns (s: System)
    requires c.Valid() && c.ordered && c.sendWindow >= 2 && c.recvWindow >= 2 && c.sendWindow < e < MODULUS
    ensures JustMissing(c, s, e) && Idle(s) && Untroubled(s)
  {
    var low := e - c.sendWindow;
    var used := MakeHole(c, low);
    var both := FirstArrives(c, used, low);
    var x := DeliveredIsFreed(c, both, low + 2, e);
    s := DrainAll(c, x, low + 2, e);
  }

  // ----- Behind the hole two numbers meet -----

  /** With a send window of two or more, a receive window that does not divide 65536 loses a message in such a run. */
  lemma SomeUntroubledRunLosesAMessage(c: Config)
    requires c.Valid() && c.ordered && c.sendWindow >= 2 && MODULUS % c.recvWindow != 0
    ensures exists steps, a :: var s := Reached(c, steps); Untroubled(s) && a in s.accepted && !Safe(c, s, a)
  {
    var q, r := DivideWithRemainder(c.recvWindow);
    TurnIsShort(c.recvWindow, q, r);
    MeetAtTheWrap(c.recvWindow, q, r);
    var e := MODULUS - r - 1;
    var s := HoleAt(c, e);
    var t := SecondIsLost(c, s, e, MODULUS - r, MODULUS);
    var steps :| Reached(c, steps) == t;
    assert MODULUS in Reached(c, steps).accepted && !Safe(c, Reached(c, steps), MODULUS);
  }

  // ----- One packet in flight at a time -----

  /** Every number used was accepted, everything that arrived was delivered, and at most the last one is under way. */
  ghost predicate OneByOne(s: System) {
    NoneUsedUp(s) && s.next <= s.expected + 1 && forall x :: x in s.arrived ==> x < s.expected
  }

  lemma RefusedGrows(c: Config, s: System, step: Step)
    requires SenderInv(s)
    ensures s.refused <= Next(c, s, step).refused
  {
    if step.DoSend? { SendOutcomes(c, s, step); }
  }

  lemma SendOneByOne(c: Config, s: System, step: Step)
    requires SenderInv(s) && OrderedInv(s) && LossInv(s) && s.sender.window == 1 && OneByOne(s) && step.DoSend? && Untroubled(s)
    requires AfterSend(c, s, step).refused == {}
    ensures OneByOne(AfterSend(c, s, step))
  {
    SendOutcomes(c, s, step);
    Slots.CountBounds(s.sender.slots);
    var t := AfterSend(c, s, step);
    assert s.next in (s.refused + {s.next});
    assert s.expected in s.accepted ==> InSlot(s, s.expected) || s.expected in s.failed || s.expected in s.arrived;
  }

  lemma DataOneByOne(c: Config, s: System, d: Datagram)
    requires c.ordered && SenderInv(s) && OrderedInv(s) && OneByOne(s) && d in s.data && FreshData(c, s, d)
    ensures OneByOne(AfterData(c, s, d))
  {
    var a := d.number;
    var packet := DataFrame(s, d);
    WindowDistance(s.receiver, s.expected, a);
    if Records(c, s, a) {
      assert a == s.expected;
      var i := Wrap(a) % s.receiver.window;
      if s.receiver.buffer[i].Some? { var held := HeldNumber(s, i); }
      ExpectedDelivered(s.receiver, packet.payload);
    }
  }

  lemma {:induction false} ReachedOneByOne(c: Config, steps: seq<Step>)
    requires c.Valid() && c.ordered && c.sendWindow == 1 && Untroubled(Reached(c, steps))
    ensures OneByOne(Reached(c, steps))
  {
    if steps != [] {
      var before, step := steps[..|steps| - 1], steps[|steps| - 1];
      var s := Reached(c, before);
      ReachedInv(c, before);
      ReachedSingleInv(c, before);
      FailedGrows(c, s, step);
      RefusedGrows(c, s, step);
      ReachedOneByOne(c, before);
      if Enabled(c, s, step) {
        match step
        case DoSend(_, _, _, _, _) => SendOneByOne(c, s, step);
        case DoDeliverData(d) => DataOneByOne(c, s, d);
        case _ =>
      }
    }
  }

  /** With a send window of one, such a run loses nothing, whatever the receive window. */
  lemma OneByOneIsNeverLost(c: Config, steps: seq<Step>, a: int)
    requires c.Valid() && c.ordered && c.sendWindow == 1 && Untroubled(Reached(c, steps)) && a in Reached(c, steps).accepted
    ensures Safe(c, Reached(c, steps), a)
  {
    var s := Reached(c, steps);
    ReachedOneByOne(c, steps);
    ReachedInv(c, steps);
    ReachedSingleInv(c, steps);
    assert InSlot(s, a) || a in s.failed || a in s.arrived;
    if a in s.arrived { ArrivedBelowExpected(s); }
  }

  // ----- In terms of the steps -----

  /** Every packet sent encodes. */
  predicate AllEncode(steps: seq<Step>) {
    forall i :: 0 <= i < |steps| && steps[i].DoSend? ==> steps[i].encodes
  }

  function Encoding(step: Step): Step {
    if step.DoSend? then step.(encodes := true) else step
  }

  lemma {:induction false} NoneRefused(c: Config, steps: seq<Step>)
    requires c.Valid() && AllEncode(steps)
    ensures Reached(c, steps).refused == {}
  {
    if steps != [] {
      var before, step := steps[..|steps| - 1], steps[|steps| - 1];
      NoneRefused(c, before);
      ReachedInv(c, before);
      if step.DoSend? { SendOutcomes(c, Reached(c, before), step); }
    }
  }

  /** If the codec refuses nothing, it might as well never refuse. */
  lemma EncodingStep(c: Config, s: System, step: Step)
    requires SenderInv(s) && Next(c, s, step).refused == {}
    ensures Next(c, s, Encoding(step)) == Next(c, s, step)
  {
    if step.DoSend? {
      SendOutcomes(c, s, step);
      SendOutcomes(c, s, Encoding(step));
      assert s.next in s.refused + {s.next};
    }
  }

  lemma {:induction false} AsIfEncoding(c: Config, steps: seq<Step>) returns (encoding: seq<Step>)
    requires c.Valid() && Reached(c, steps).refused == {}
    ensures AllEncode(encoding) && Reached(c, encoding) == Reached(c, steps)
  {
    if steps == [] {
      encoding := [];
    } else {
      var before, step := steps[..|steps| - 1], steps[|steps| - 1];
      ReachedInv(c, before);
      RefusedGrows(c, Reached(c, before), step);
      var first := AsIfEncoding(c, before);
      EncodingStep(c, Reached(c, before), step);
      encoding := first + [Encoding(step)];
      assert encoding[..|first|] == first;
    }
  }
}

/**
  One number is missing at an ordered receiver.  The ones after it are sent, arrive and are acknowledged one
  by one, until two of them meet in one slot of the receive buffer; the second one, or the missing one
  itself, is then recorded, thrown away, acknowledged and lost.
 */
module Collisions {
  import opened Serial
  import opened Words
  import opened Packets
  import opened AckTracker
  import opened OrderedReceiver
  import opened Protocol
  import opened OrderedDelivery
  import opened NoSilentLoss
  import opened AckTops
  import opened Runs
  import Receiver = ReliableReceiver

  /** Number `e` is expected and has not arrived. */
  ghost predicate Missing(c: Config, s: System, e: nat) {
    c.ordered && Reachable(c, s) && s.expected == e == |s.delivered| && e !in s.arrived
  }

  lemma NothingDrained(r: Receiver.Receiver)
    requires Receiver.HasShape(r) && Receiver.Drain(r).1 == []
    ensures Receiver.Drain(r).0 == r
  {
  }

  /** The buffer after the arrival of number `z`: the first packet to come keeps the slot. */
  function Stored(r: Receiver.Receiver, z: int, payload: Payload): seq<Option<Receiver.Buffered>>
    requires Receiver.HasShape(r)
  {
    var i := Wrap(z) % r.window;
    if r.buffer[i].Some? then r.buffer else r.buffer[i := Some(Receiver.Buffered(Wrap(z), payload))]
  }

  lemma StoredOnly(r: Receiver.Receiver, z: int, payload: Payload)
    requires Receiver.HasShape(r) && Receiver.InOrderedWindow(r, Wrap(z))
    requires Receiver.ReceiveOrdered(r, Wrap(z), payload).1 == []
    ensures Receiver.ReceiveOrdered(r, Wrap(z), payload).0.buffer == Stored(r, z, payload)
  {
    var i := Wrap(z) % r.window;
    if r.buffer[i].None? {
      NothingDrained(r.(tracker := Marked(r.tracker, Wrap(z)),
                        buffer := r.buffer[i := Some(Receiver.Buffered(Wrap(z), payload))]));
    }
  }

  lemma NotPastMissing(s: System, e: nat)
    requires OrderedInv(s) && e !in s.arrived
    ensures s.expected <= e
  {
    ArrivedBelowExpected(s);
  }

  /** Another number of the window arrives: it is recorded and buffered, if its slot is free, and `e` stays missing. */
  lemma ArrivesBehind(c: Config, s: System, e: nat, z: int) returns (t: System)
    requires Missing(c, s, e) && z in s.accepted && e < z < e + c.recvWindow
    ensures Missing(c, t, e) && Recorded(c, s, t, z) && s.receiver.window == t.receiver.window == c.recvWindow
    ensures t.receiver.buffer == Stored(s.receiver, z, s.accepted[z])
  {
    t := ArrivesInWindow(c, s, z);
    assert e !in t.arrived;
    InWindow(c, s, e, z);
    StaysMissing(c, t, e);
    assert Receiver.ReceiveOrdered(s.receiver, Wrap(z), s.accepted[z]).1 == [];
    StoredOnly(s.receiver, z, s.accepted[z]);
  }

  lemma InWindow(c: Config, s: System, e: nat, z: int)
    requires Missing(c, s, e) && e < z < e + c.recvWindow
    ensures Receiver.HasShape(s.receiver) && Receiver.InOrderedWindow(s.receiver, Wrap(z))
  {
    ReachableInv(c, s);
    WindowDistance(s.receiver, s.expected, z);
  }

  lemma StaysMissing(c: Config, s: System, e: nat)
    requires c.ordered && Reachable(c, s) && e !in s.arrived
    ensures s.expected <= e && s.receiver.window == c.recvWindow
  {
    ReachableInv(c, s);
    NotPastMissing(s, e);
  }

  /** Nothing but number `e` can be in flight. */
  ghost predicate OnlyMaybe(s: System, e: int)
    requires HasShape(s)
  {
    forall i :: 0 <= i < |s.sender.slots| && s.sender.slots[i].Some? ==> s.slotNumbers[i] == e
  }

  /** Number `e` is missing, at most it is in flight, and the summary has come to one of the last two numbers. */
  ghost predicate Pending(c: Config, s: System, e: nat) {
    && Missing(c, s, e) && OnlyMaybe(s, e) && e < s.next
    && s.receiver.tracker.hasReceived && s.receiver.tracker.latest == Wrap(s.top)
    && s.next - 2 <= s.top < s.next
  }

  /** A number is sent, arrives, and is recorded as the newest. */
  lemma SentBehind(c: Config, s: System, e: nat) returns (t: System)
    requires Pending(c, s, e) && s.next < e + c.recvWindow && s.sender.slots[Wrap(s.next) % s.sender.window].None?
    ensures Missing(c, t, e) && s.receiver.window == t.receiver.window == c.recvWindow
    ensures t.next == s.next + 1 && t.accepted == s.accepted[s.next := []] && t.failed == s.failed && t.refused == s.refused
    ensures t.receiver.buffer == Stored(s.receiver, s.next, []) && t.arrived == s.arrived[s.next := []]
    ensures t.receiver.tracker == Marked(s.receiver.tracker, Wrap(s.next)) && t.receiver.tracker.hasReceived
    ensures t.top == s.next && t.receiver.tracker.latest == Wrap(s.next)
    ensures AckAfter(c, t.receiver, t.top) <= t.acks
    ensures t.sender.window == s.sender.window && |t.sender.slots| == |s.sender.slots|
    ensures var i := Wrap(s.next) % s.sender.window;
            t.slotNumbers == s.slotNumbers[i := s.next] && t.sender.slots == s.sender.slots[i := t.sender.slots[i]] &&
            t.sender.slots[i].Some?
  {
    var sent := SendNext(c, s);
    t := ArrivesBehind(c, sent, e, s.next);
    NewerIffGreater(s.next, s.top);
    TrackerMoves(s.receiver.tracker, Wrap(s.next));
  }

  /** Besides, it is acknowledged and leaves its slot. */
  lemma Round(c: Config, s: System, e: nat) returns (t: System)
    requires Pending(c, s, e) && s.next < e + c.recvWindow && s.sender.slots[Wrap(s.next) % s.sender.window].None?
    ensures Pending(c, t, e) && s.receiver.window == t.receiver.window == c.recvWindow
    ensures t.next == s.next + 1 && t.accepted == s.accepted[s.next := []] && t.failed == s.failed && t.refused == s.refused
    ensures t.receiver.buffer == Stored(s.receiver, s.next, []) && t.top == s.next
    ensures Idle(s) ==> Idle(t)
  {
    ReachableInv(c, s);
    var arrived := SentBehind(c, s, e);
    ReachableInv(c, arrived);
    var k;
    t, k := AckEffects(c, arrived);
    ReachableNext(c, arrived, DoDeliverAck(k));
  }

  /** The slots of the numbers up to `n` stay free: nothing is in flight, or they are not the slot of `e`. */
  ghost predicate Clear(s: System, e: int, n: int)
    requires HasShape(s)
  {
    Idle(s) || forall z {:trigger Wrap(z)} :: e < z < n ==> Wrap(z) % s.sender.window != Wrap(e) % s.sender.window
  }

  lemma SlotIsFree(s: System, e: int, n: int)
    requires SenderInv(s) && OnlyMaybe(s, e) && Clear(s, e, n) && e < s.next < n
    ensures s.sender.slots[Wrap(s.next) % s.sender.window].None?
  {
    var i := Wrap(s.next) % s.sender.window;
    assert s.sender.slots[i].Some? ==> SlotInv(s, i);
  }

  lemma {:induction false} RoundsTo(c: Config, s: System, e: nat, n: int) returns (t: System)
    requires Pending(c, s, e) && s.next <= n <= e + c.recvWindow && Clear(s, e, n)
    ensures Pending(c, t, e) && t.next == n && t.failed == s.failed && t.refused == s.refused
    ensures forall x {:trigger x in t.accepted} :: x in t.accepted <==> x in s.accepted || s.next <= x < n
    ensures s.receiver.window == t.receiver.window == c.recvWindow && t.sender.window == s.sender.window
    ensures forall i :: 0 <= i < |s.receiver.buffer| == |t.receiver.buffer| && s.receiver.buffer[i].Some? ==>
              t.receiver.buffer[i] == s.receiver.buffer[i]
    ensures Idle(s) ==> Idle(t)
    decreases n - s.next
  {
    t := s;
    ReachableInv(c, s);
    if s.next < n {
      SlotIsFree(s, e, n);
      var u := Round(c, s, e);
      ReachableInv(c, u);
      t := RoundsTo(c, u, e, n);
    }
  }

  // ----- Two numbers meet -----

  /** Numbers `x` and `y` of the window of `e` share a slot of the receive buffer, and no other number up to `y` does. */
  ghost predicate Meet(r: nat, e: int, x: int, y: int)
    requires r > 0
  {
    && e <= x < y < e + r && Wrap(x) != Wrap(y) && Wrap(x) % r == Wrap(y) % r
    && forall z {:trigger Wrap(z)} :: e < z < y && z != x ==> Wrap(z) % r != Wrap(x) % r
  }

  /** Number `e` is next to last, and everything before it has arrived in order. */
  ghost predicate JustMissing(c: Config, s: System, e: nat) {
    Pending(c, s, e) && s.next == e + 1
  }

  lemma HeldNumber(s: System, i: nat) returns (a: int)
    requires OrderedInv(s) && i < |s.receiver.buffer| && s.receiver.buffer[i].Some?
    ensures s.expected <= a && a in s.accepted && a in s.arrived && Wrap(a) % s.receiver.window == i
  {
    BufferedIsArrived(s, i);
    assert SlotInPlace(s.receiver, s.expected, s.arrived, i);
    a := s.expected + Receiver.Ahead(s.receiver, s.receiver.buffer[i].value.sequenceNumber);
    WrapOfAhead(s.expected, s.receiver.buffer[i].value.sequenceNumber);
  }

  /** A slot of the buffer to which no number sent since `e` goes is empty. */
  lemma SlotIsEmpty(c: Config, s: System, e: nat, i: nat)
    requires Missing(c, s, e) && i < c.recvWindow
    requires forall z {:trigger Wrap(z)} :: e < z < s.next ==> Wrap(z) % c.recvWindow != i
    ensures i < |s.receiver.buffer| && s.receiver.buffer[i].None?
  {
    ReachableInv(c, s);
    if s.receiver.buffer[i].Some? { var a := HeldNumber(s, i); }
  }

  /** Everything up to `y` has been sent, and `x` sits in the slot of `y`. */
  lemma FirstOfTwoSits(c: Config, s: System, e: nat, x: int, y: int) returns (t: System)
    requires JustMissing(c, s, e) && c.recvWindow <= HALF && Meet(c.recvWindow, e, x, y) && e < x && Clear(s, e, y + 1)
    ensures Pending(c, t, e) && t.next == y && t.failed == s.failed && t.refused == s.refused && Clear(t, e, y + 1)
    ensures forall z {:trigger z in t.accepted} :: z in t.accepted <==> z in s.accepted || e < z < y
    ensures t.receiver.window == c.recvWindow && t.sender.window == s.sender.window
    ensures var slot := t.receiver.buffer[Wrap(y) % c.recvWindow]; slot.Some? && slot.value.sequenceNumber == Wrap(x)
  {
    var u := RoundsTo(c, s, e, x);
    SlotIsEmpty(c, u, e, Wrap(x) % c.recvWindow);
    ReachableInv(c, u);
    SlotIsFree(u, e, y + 1);
    var v := Round(c, u, e);
    t := RoundsTo(c, v, e, y);
  }

  /** Freed at the sender, undelivered, and its buffer slot holding another packet: the message is gone. */
  lemma ThrownAwayIsLost(c: Config, s: System, a: int)
    requires c.ordered && HasShape(s) && |s.delivered| == s.expected <= a && a in s.accepted && a !in s.failed
    requires !InSlot(s, a)
    requires var slot := s.receiver.buffer[Wrap(a) % s.receiver.window];
             slot.Some? && slot.value.sequenceNumber != Wrap(a)
    ensures !Safe(c, s, a)
  {
  }

  /** The second of the two is recorded, thrown away, acknowledged, and lost. */
  lemma SecondIsLost(c: Config, s: System, e: nat, x: int, y: int) returns (t: System)
    requires JustMissing(c, s, e) && c.recvWindow <= HALF && Meet(c.recvWindow, e, x, y) && e < x && Clear(s, e, y + 1)
    requires s.failed == {}
    ensures Reachable(c, t) && t.failed == {} && t.refused == s.refused && t.next == y + 1
    ensures forall z {:trigger z in t.accepted} :: z in t.accepted <==> z in s.accepted || e < z <= y
    ensures y in t.accepted && !Safe(c, t, y)
  {
    var u := FirstOfTwoSits(c, s, e, x, y);
    ReachableInv(c, u);
    SlotIsFree(u, e, y + 1);
    t := Round(c, u, e);
    ThrownAwayIsLost(c, t, y);
  }

  // ----- The missing number itself is lost -----

  lemma MaskSetsBit(bits: U32, k: nat)
    requires k < HISTORY
    ensures TestBit(Or32(bits, Shl(1, k)), k)
  {
    BitOfOrMask(bits, k, k);
    TestBitIsBit(Or32(bits, Shl(1, k)), k);
  }

  lemma CoveredAt(a: Seq16, ack: Seq16, ackBits: U32, back: nat)
    requires Delta(ack, a) == back && 1 <= back <= HISTORY && TestBit(ackBits, back - 1)
    ensures IsAcknowledged(a, ack, ackBits)
  {
  }

  /** An arrival at most 32 back is covered by the ACK that follows. */
  lemma BackIsCovered(t: Tracker, top: int, a: int)
    requires t.hasReceived && t.latest == Wrap(top) && top - HISTORY <= a < top
    ensures var u := Marked(t, Wrap(a)); u.hasReceived && u.latest == Wrap(top) && IsAcknowledged(Wrap(a), u.latest, u.ackBits)
  {
    var bits := Or32(t.ackBits, Shl(1, top - a - 1));
    DeltaOfWraps(top, a);
    MaskSetsBit(t.ackBits, top - a - 1);
    CoveredAt(Wrap(a), Wrap(top), bits, top - a);
    MarkedBehind(t, top, a);
  }

  /** The expected packet finds its slot taken: it is recorded, and nothing else happens. */
  lemma ExpectedThrownAway(c: Config, s: System, e: nat, y: int) returns (t: System)
    requires Missing(c, s, e) && e in s.accepted && c.recvWindow >= 1
    requires s.receiver.tracker.hasReceived && s.top == y && s.receiver.tracker.latest == Wrap(y) && y - HISTORY <= e < y
    requires s.receiver.window == c.recvWindow && s.receiver.buffer[Wrap(e) % c.recvWindow].Some?
    ensures Reachable(c, t) && SameSender(s, t) && t.expected == e == |t.delivered|
    ensures t.receiver.buffer == s.receiver.buffer && t.receiver.window == c.recvWindow
    ensures var r := t.receiver.tracker;
            r.hasReceived && t.top == y && IsAcknowledged(Wrap(e), r.latest, r.ackBits) && AckAfter(c, t.receiver, t.top) <= t.acks
  {
    ReachableInv(c, s);
    WindowDistance(s.receiver, s.expected, e);
    BackIsCovered(s.receiver.tracker, y, e);
    NewerIffGreater(e, y);
    t := ArrivesInWindow(c, s, e);
  }

  /** Its ACK empties its slot. */
  lemma FreedThoughMissing(c: Config, s: System, e: nat, y: int) returns (t: System)
    requires Reachable(c, s) && OnlyMaybe(s, e) && e < y <= e + HISTORY && s.top == y
    requires var r := s.receiver.tracker;
             r.hasReceived && IsAcknowledged(Wrap(e), r.latest, r.ackBits) && AckAfter(c, s.receiver, s.top) <= s.acks
    ensures Reachable(c, t) && t == s.(sender := t.sender) && Idle(t)
  {
    ReachableInv(c, s);
    var k;
    t, k := AckEffects(c, s);
    ReachableNext(c, s, DoDeliverAck(k));
  }

  /** Number `y` takes the slot of the missing number. */
  lemma SlotOfMissingTaken(c: Config, s: System, e: nat, y: int) returns (t: System)
    requires JustMissing(c, s, e) && c.recvWindow <= HALF && Meet(c.recvWindow, e, e, y) && Clear(s, e, y + 1)
    ensures Pending(c, t, e) && t.failed == s.failed && t.refused == s.refused && t.next == y + 1 && t.top == y
    ensures forall z {:trigger z in t.accepted} :: z in t.accepted <==> z in s.accepted || e < z <= y
    ensures t.receiver.window == c.recvWindow
    ensures var slot := t.receiver.buffer[Wrap(e) % c.recvWindow]; slot.Some? && slot.value.sequenceNumber == Wrap(y)
  {
    var u := RoundsTo(c, s, e, y);
    SlotIsEmpty(c, u, e, Wrap(e) % c.recvWindow);
    ReachableInv(c, u);
    SlotIsFree(u, e, y + 1);
    t := Round(c, u, e);
  }

  /** The missing number then arrives too late. */
  lemma MissingIsLost(c: Config, s: System, e: nat, y: int) returns (t: System)
    requires JustMissing(c, s, e) && c.recvWindow <= HALF && Meet(c.recvWindow, e, e, y) && Clear(s, e, y + 1)
    requires y <= e + HISTORY && e in s.accepted && s.failed == {}
    ensures Reachable(c, t) && t.failed == {} && t.refused == s.refused && t.next == y + 1
    ensures forall z {:trigger z in t.accepted} :: z in t.accepted <==> z in s.accepted || e < z <= y
    ensures e in t.accepted && !Safe(c, t, e)
  {
    var v := SlotOfMissingTaken(c, s, e, y);
    var w := ExpectedThrownAway(c, v, e, y);
    t := FreedThoughMissing(c, w, e, y);
    ThrownAwayIsLost(c, t, e);
  }
}

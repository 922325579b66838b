/**
  The converse of `NoSilentLoss` for ordered channels: if the receive window does not divide 65536, some
  run loses an accepted message silently, whatever the send window.  At the wrap of the 16-bit numbers
  two packets of one window then share a slot; the second is recorded as received, acknowledged, and
  thrown away.
 */
module WindowMustDivide {
  import opened Serial
  import opened Packets
  import opened AckTracker
  import opened OrderedReceiver
  import opened Protocol
  import opened NoSilentLoss
  import opened Runs
  import opened Collisions
  import Receiver = ReliableReceiver

  // ----- The last turn of the slots before the numbers wrap -----

  /** 65537 is prime, so no window divides it. */
  lemma NoWindowDividesNext(w: int, q: int)
    requires 2 <= w < HALF
    ensures w * q != 65537
  {
  }

  /** The length of the last, incomplete turn of the slots before the numbers wrap. */
  function Remainder(w: nat): nat
    requires w > 0
  {
    MODULUS % w
  }

  /** The number before `first` goes to the last slot. */
  predicate EndsTurn(w: nat, first: int)
    requires w > 0
  {
    Wrap(first - 1) % w == w - 1
  }

  lemma TurnSlot(w: nat, q: nat, r: nat, i: nat)
    requires 1 <= w && MODULUS == w * q + r && i < r < w
    ensures InTurn(w, MODULUS - r, i)
  {
    ModUnique(MODULUS - r + i, q, i, w);
  }

  lemma LastSlotOfTurn(w: nat, q: nat, r: nat)
    requires 1 <= w < HALF && MODULUS == w * q + r && r < w
    ensures EndsTurn(w, MODULUS - r)
  {
    assert Wrap(MODULUS - r - 1) == MODULUS - r - 1;
    assert w * (q - 1) == w * q - w;
    ModUnique(MODULUS - r - 1, q - 1, w - 1, w);
  }

  lemma TurnIsShort(w: nat, q: nat, r: nat)
    requires 2 <= w < HALF && MODULUS == w * q + r && r < w
    ensures r + 2 <= w
  {
    NoWindowDividesNext(w, q + 1);
    assert w * (q + 1) == w * q + w;
  }

  lemma SlotsOfTurn(w: nat, q: nat, r: nat)
    requires 1 <= w && MODULUS == w * q + r && r < w
    ensures Turn(w, MODULUS - r, r)
  {
    forall i {:trigger InTurn(w, MODULUS - r, i)} | 0 <= i < r ensures InTurn(w, MODULUS - r, i) {
      TurnSlot(w, q, r, i);
    }
  }

  lemma DivideWithRemainder(w: nat) returns (q: nat, r: nat)
    requires 1 <= w
    ensures r == Remainder(w) && MODULUS == w * q + r && r < w
  {
    q, r := MODULUS / w, MODULUS % w;
  }

  // ----- Two numbers of one window share a slot -----

  /** Number `first - 1` is missing, and `first` waits in slot 0 of the buffer. */
  ghost predicate Waiting(s: System, first: int)
    requires HasShape(s)
  {
    && |s.delivered| == s.expected == first - 1
    && s.receiver.buffer[0].Some? && s.receiver.buffer[0].value.sequenceNumber == Wrap(first)
  }

  /** The summary's newest number is `a`, and the ACK that says so is on the network. */
  ghost predicate Newest(c: Config, s: System, a: int) {
    && s.receiver.tracker.hasReceived && s.top == a && s.receiver.tracker.latest == Wrap(a)
    && AckAfter(c, s.receiver, s.top) <= s.acks
  }

  /** Everything before `first - 1` has arrived; `first` arrives next and is buffered in slot 0. */
  lemma FirstOvertakes(c: Config, s: System, first: nat) returns (t: System)
    requires 1 <= first < MODULUS && 2 <= c.recvWindow
    requires c.ordered && Reachable(c, s) && InOrderUpTo(c, s, first - 1) && first in s.accepted
    requires InTurn(c.recvWindow, first, 0) && EndsTurn(c.recvWindow, first)
    ensures Reachable(c, t) && SameSender(s, t) && Waiting(t, first) && Newest(c, t, first)
  {
    ReachableInv(c, s);
    BufferIsEmpty(c, s, first - 1, 0);
    WindowDistance(s.receiver, s.expected, first);
    var r := s.receiver;
    var stored := r.(tracker := Marked(r.tracker, Wrap(first)),
                     buffer := r.buffer[0 := Some(Receiver.Buffered(Wrap(first), s.accepted[first]))]);
    BufferIsEmpty(c, s, first - 1, Wrap(first - 1) % c.recvWindow);
    assert !Receiver.Holds(stored, stored.expected);
    assert Receiver.Drain(stored) == (stored, []);
    t := ArrivesInWindow(c, s, first);
    if first > 1 {
      NewerIffGreater(first, first - 2);
      MarkedAhead(r.tracker, first - 2, first);
    }
  }

  lemma ZeroSlot(w: nat)
    requires w > 0
    ensures Wrap(MODULUS) == 0 && Wrap(MODULUS) % w == 0
  {
    ModUnique(0, 0, 0, w);
  }

  /** 65536 finds slot 0 taken: it is recorded and thrown away. */
  lemma ThrownAway(c: Config, s: System, first: nat) returns (t: System)
    requires c.ordered && Reachable(c, s) && Waiting(s, first) && MODULUS in s.accepted
    requires 1 <= first < MODULUS && MODULUS + 1 < first + c.recvWindow && c.recvWindow < HALF
    requires s.receiver.tracker.hasReceived && s.top == first && s.receiver.tracker.latest == Wrap(first)
    ensures Reachable(c, t) && SameSender(s, t) && Waiting(t, first) && Newest(c, t, MODULUS)
  {
    ReachableInv(c, s);
    ZeroSlot(c.recvWindow);
    WindowDistance(s.receiver, s.expected, MODULUS);
    t := ArrivesInWindow(c, s, MODULUS);
    NewerIffGreater(MODULUS, first);
    MarkedAhead(s.receiver.tracker, first, MODULUS);
  }

  /** Packets in flight are near enough to the end of the turn for an ACK not to be mistaken. */
  ghost predicate NearTheWrap(s: System)
    requires HasShape(s)
  {
    forall i :: 0 <= i < |s.sender.slots| && s.sender.slots[i].Some? ==> HALF <= s.slotNumbers[i] <= MODULUS
  }

  /** The ACK of the newest number frees its slot. */
  lemma NewestFreed(c: Config, s: System, a: int) returns (t: System)
    requires Reachable(c, s) && Newest(c, s, a) && NearTheWrap(s) && HALF <= a <= MODULUS && InSlot(s, a)
    ensures Reachable(c, t) && t == s.(sender := t.sender) && NearTheWrap(t)
    ensures t.sender.slots[Wrap(a) % t.sender.window].None?
    ensures forall i :: 0 <= i < |s.sender.slots| == |t.sender.slots| ==>
              t.sender.slots[i] == s.sender.slots[i] || t.sender.slots[i].None?
  {
    ReachableInv(c, s);
    var k;
    t, k := AckEffects(c, s);
    ReachableNext(c, s, DoDeliverAck(k));
  }

  /** 65536 is in flight: it arrives, is thrown away and acknowledged, and with that the message is gone. */
  lemma LostAtTheWrap(c: Config, s: System, first: nat) returns (t: System)
    requires c.ordered && Reachable(c, s) && Waiting(s, first) && InSlot(s, MODULUS) && NearTheWrap(s)
    requires MODULUS in s.accepted && MODULUS !in s.failed
    requires 1 <= first < MODULUS && MODULUS + 1 < first + c.recvWindow && c.recvWindow < HALF
    requires s.receiver.tracker.hasReceived && s.top == first && s.receiver.tracker.latest == Wrap(first)
    ensures Reachable(c, t) && t.failed == s.failed && t.accepted == s.accepted && t.next == s.next
    ensures MODULUS in t.accepted && !Safe(c, t, MODULUS)
  {
    var u := ThrownAway(c, s, first);
    t := NewestFreed(c, u, MODULUS);
    ZeroSlot(t.receiver.window);
    ThrownAwayIsLost(c, t, MODULUS);
  }

  // ----- Any send window -----

  /** Numbers 0 to 65535 are reported failed, and 65536 alone is in flight. */
  lemma TurnFailedReachable(c: Config) returns (s: System)
    requires c.Valid()
    ensures Reachable(c, s) && InOrderUpTo(c, s, 0) && InSlot(s, MODULUS) && NearTheWrap(s) && MODULUS !in s.failed
    ensures forall x {:trigger x in s.accepted} :: x in s.accepted <==> 0 <= x <= MODULUS
  {
    ReachableStart(c);
    var failed := AllFailed(c, Start(c), MODULUS);
    s := SendNext(c, failed);
  }

  lemma LostAfterOneTurn(c: Config, first: nat) returns (t: System)
    requires c.Valid() && c.ordered && 1 <= first < MODULUS && MODULUS + 1 < first + c.recvWindow && c.recvWindow < HALF
    requires InTurn(c.recvWindow, first, 0) && EndsTurn(c.recvWindow, first)
    ensures Reachable(c, t) && MODULUS in t.accepted && !Safe(c, t, MODULUS)
  {
    var failed := TurnFailedReachable(c);
    var s := AllInOrder(c, failed, 0, first - 1);
    var u := FirstOvertakes(c, s, first);
    t := LostAtTheWrap(c, u, first);
  }

  /** A receive window that does not divide 65536 loses a message in some run, whatever the send window. */
  lemma SomeRunLosesAMessage(c: Config)
    requires c.Valid() && c.ordered && MODULUS % c.recvWindow != 0
    ensures exists steps, a :: a in Reached(c, steps).accepted && !Safe(c, Reached(c, steps), a)
  {
    var q, r := DivideWithRemainder(c.recvWindow);
    TurnIsShort(c.recvWindow, q, r);
    LastSlotOfTurn(c.recvWindow, q, r);
    TurnSlot(c.recvWindow, q, r, 0);
    var t := LostAfterOneTurn(c, MODULUS - r);
    var steps :| Reached(c, steps) == t;
    assert MODULUS in Reached(c, steps).accepted && !Safe(c, Reached(c, steps), MODULUS);
  }

  /**
    For an ordered channel whose receive window is below 32768, and any send window, nothing accepted is
    ever lost silently exactly when the receive window divides 65536.
   */
  lemma NothingLostIffWindowDivides(c: Config)
    requires c.Valid() && c.ordered && c.recvWindow < HALF
    ensures (forall steps, a :: a in Reached(c, steps).accepted ==> Safe(c, Reached(c, steps), a))
            <==> MODULUS % c.recvWindow == 0
  {
    if MODULUS % c.recvWindow == 0 {
      forall steps, a | a in Reached(c, steps).accepted ensures Safe(c, Reached(c, steps), a) {
        AcceptedIsNeverLost(c, steps, a);
      }
    } else {
      SomeRunLosesAMessage(c);
    }
  }

  // ----- Without any failed send -----

  /** The first number of the last turn and the first after the wrap both go to slot 0, and none between does. */
  lemma MeetAtTheWrap(w: nat, q: nat, r: nat)
    requires 2 <= w < HALF && MODULUS == w * q + r && 1 <= r && r + 2 <= w
    ensures Meet(w, MODULUS - r - 1, MODULUS - r, MODULUS)
  {
    var first := MODULUS - r;
    TurnSlot(w, q, r, 0);
    ZeroSlot(w);
    assert Wrap(first) == first;
    forall z {:trigger Wrap(z)} | first < z < MODULUS ensures Wrap(z) % w != Wrap(first) % w {
      TurnSlot(w, q, r, z - first);
      assert first + (z - first) == z;
    }
  }

  /**
    A receive window that does not divide 65536 loses a message even in a run in which no send is reported
    failed: the codec refuses the packet before the last turn of the slots, and its number is used up.
   */
  lemma SomeFailureFreeRunLosesAMessage(c: Config)
    requires c.Valid() && c.ordered && MODULUS % c.recvWindow != 0
    ensures exists steps, a :: var s := Reached(c, steps); s.failed == {} && a in s.accepted && !Safe(c, s, a)
  {
    var q, r := DivideWithRemainder(c.recvWindow);
    TurnIsShort(c.recvWindow, q, r);
    MeetAtTheWrap(c.recvWindow, q, r);
    var e := MODULUS - r - 1;
    var quiet := QuietReachable(c, e);
    var hole := RefuseNext(c, quiet);
    var t := SecondIsLost(c, hole, e, MODULUS - r, MODULUS);
    var steps :| Reached(c, steps) == t;
    assert MODULUS in Reached(c, steps).accepted && !Safe(c, Reached(c, steps), MODULUS);
  }
}

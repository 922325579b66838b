/**
  Building blocks for runs of the two-party system: sends that fail, arrivals in order, and the ACK that
  answers the newest arrival.  They work for every configuration unless they say otherwise.
 */
module Runs {
  import opened Serial
  import opened Packets
  import opened Slots
  import opened AckTracker
  import opened OrderedReceiver
  import opened Protocol
  import opened OrderedDelivery
  import opened NoSilentLoss
  import opened AckTops
  import Receiver = ReliableReceiver
  import Codec

  ghost predicate Reachable(c: Config, s: System) {
    c.Valid() && HasShape(s) && exists steps :: Reached(c, steps) == s
  }

  lemma ReachableStart(c: Config)
    requires c.Valid()
    ensures Reachable(c, Start(c))
  {
    assert Reached(c, []) == Start(c);
  }

  lemma ReachableNext(c: Config, s: System, step: Step)
    requires Reachable(c, s)
    ensures Reachable(c, Next(c, s, step))
  {
    var steps :| Reached(c, steps) == s;
    assert (steps + [step])[..|steps|] == steps;
    assert Reached(c, steps + [step]) == Next(c, s, step);
  }

  lemma ReachableInv(c: Config, s: System)
    requires Reachable(c, s)
    ensures SenderInv(s) && (c.ordered ==> OrderedInv(s))
    ensures s.sender.window == c.sendWindow && s.receiver.window == c.recvWindow
  {
    var steps :| Reached(c, steps) == s;
    ReachedInv(c, steps);
  }

  // ----- Everything accepted is on the network -----

  ghost predicate AllSent(s: System) {
    forall a {:trigger a in s.accepted} :: a in s.accepted ==> exists d :: d in s.data && d.number == a
  }

  lemma NextKeepsAllSent(c: Config, s: System, step: Step)
    requires SenderInv(s) && AllSent(s)
    ensures AllSent(Next(c, s, step))
  {
    var t := Next(c, s, step);
    if step.DoSend? { SendOutcomes(c, s, step); }
    assert s.data <= t.data;
    forall a {:trigger a in t.accepted} | a in t.accepted ensures exists d :: d in t.data && d.number == a {
      if a in s.accepted {
        var d :| d in s.data && d.number == a;
        assert d in t.data;
      }
    }
  }

  lemma {:induction false} ReachedAllSent(c: Config, steps: seq<Step>)
    requires c.Valid()
    ensures AllSent(Reached(c, steps))
  {
    if steps != [] {
      var before := steps[..|steps| - 1];
      ReachedAllSent(c, before);
      ReachedInv(c, before);
      NextKeepsAllSent(c, Reached(c, before), steps[|steps| - 1]);
    }
  }

  /** The datagram of an accepted message is there to be delivered, however often. */
  lemma WasSent(c: Config, s: System, a: int) returns (d: Datagram)
    requires Reachable(c, s) && a in s.accepted
    ensures d in s.data && d.number == a
  {
    var steps :| Reached(c, steps) == s;
    ReachedAllSent(c, steps);
    d :| d in s.data && d.number == a;
  }

  // ----- Sending -----

  function SendStep(c: Config): Step {
    DoSend([], c.sendWindow, true, EMPTY, 0)
  }

  /** Every number used was accepted. */
  ghost predicate NoneUsedUp(s: System) {
    forall x {:trigger x in s.accepted} :: x in s.accepted <==> 0 <= x < s.next
  }

  /** The receiving side and the ACKs are the same. */
  ghost predicate SameReceiver(s: System, t: System) {
    && t.receiver == s.receiver && t.expected == s.expected && t.arrived == s.arrived && t.top == s.top
    && t.delivered == s.delivered && t.acks == s.acks
  }

  /** A send that finds its slot free is accepted: the window is open as well. */
  lemma SendEffects(c: Config, s: System) returns (t: System)
    requires SenderInv(s) && s.sender.window == c.sendWindow
    requires s.sender.slots[Wrap(s.next) % s.sender.window].None?
    ensures t == Next(c, s, SendStep(c)) && SameReceiver(s, t) && t.failed == s.failed && t.refused == s.refused
    ensures t.next == s.next + 1 && t.accepted == s.accepted[s.next := []]
    ensures var i := Wrap(s.next) % s.sender.window;
            && t.sender.slots == s.sender.slots[i := t.sender.slots[i]]
            && t.sender.slots[i].Some? && t.slotNumbers == s.slotNumbers[i := s.next]
  {
    CountBounds(s.sender.slots);
    t := Next(c, s, SendStep(c));
    SendOutcomes(c, s, SendStep(c));
  }

  lemma SendNext(c: Config, s: System) returns (t: System)
    requires Reachable(c, s) && s.sender.slots[Wrap(s.next) % s.sender.window].None?
    ensures Reachable(c, t) && SameReceiver(s, t) && t.failed == s.failed && t.refused == s.refused
    ensures t.next == s.next + 1 && t.accepted == s.accepted[s.next := []]
    ensures var i := Wrap(s.next) % s.sender.window;
            && t.sender.window == s.sender.window
            && t.sender.slots == s.sender.slots[i := t.sender.slots[i]]
            && t.sender.slots[i].Some? && t.slotNumbers == s.slotNumbers[i := s.next]
  {
    ReachableInv(c, s);
    t := SendEffects(c, s);
    ReachableNext(c, s, SendStep(c));
  }

  /** A send whose packet the codec refuses, while nothing is in flight: its number is used up, and that is all. */
  lemma RefuseNext(c: Config, s: System) returns (t: System)
    requires Reachable(c, s) && Idle(s)
    ensures Reachable(c, t) && t == s.(sender := t.sender, next := s.next + 1, refused := t.refused) && Idle(t)
  {
    ReachableInv(c, s);
    CountBounds(s.sender.slots);
    var step := DoSend([], c.sendWindow, false, EMPTY, 0);
    SendOutcomes(c, s, step);
    t := Next(c, s, step);
    ReachableNext(c, s, step);
  }

  /** The `i`-th number from `first` on goes to slot `i`. */
  predicate InTurn(w: nat, first: int, i: int)
    requires w > 0
  {
    Wrap(first + i) % w == i
  }

  ghost predicate Turn(w: nat, first: int, n: nat)
    requires w > 0
  {
    forall i {:trigger InTurn(w, first, i)} :: 0 <= i < n ==> InTurn(w, first, i)
  }

  /** The first `n` slots hold the numbers from `first` on, and the other slots are as they were. */
  ghost predicate Filled(s: System, t: System, first: int, n: nat)
    requires HasShape(s) && HasShape(t)
  {
    && t.sender.window == s.sender.window && t.next == first + n && t.failed == s.failed && t.refused == s.refused
    && (forall x {:trigger x in t.accepted} :: x in t.accepted <==> x in s.accepted || first <= x < first + n)
    && forall i {:trigger t.sender.slots[i]} :: 0 <= i < |t.sender.slots| ==>
         if i < n then t.sender.slots[i].Some? && t.slotNumbers[i] == first + i
         else t.sender.slots[i] == s.sender.slots[i] && t.slotNumbers[i] == s.slotNumbers[i]
  }

  lemma FilledOneMore(s: System, before: System, t: System, first: int, n: nat)
    requires HasShape(s) && HasShape(before) && HasShape(t) && n < |before.sender.slots|
    requires Filled(s, before, first, n)
    requires t.sender.window == before.sender.window && t.next == first + n + 1
    requires t.failed == before.failed && t.refused == before.refused
    requires t.accepted == before.accepted[first + n := []]
    requires t.sender.slots == before.sender.slots[n := t.sender.slots[n]] && t.sender.slots[n].Some?
    requires t.slotNumbers == before.slotNumbers[n := first + n]
    ensures Filled(s, t, first, n + 1)
  {
    forall i {:trigger t.sender.slots[i]} | 0 <= i < |t.sender.slots|
      ensures if i < n + 1 then t.sender.slots[i].Some? && t.slotNumbers[i] == first + i
              else t.sender.slots[i] == s.sender.slots[i] && t.slotNumbers[i] == s.slotNumbers[i]
    {
      if i != n { assert t.sender.slots[i] == before.sender.slots[i] && t.slotNumbers[i] == before.slotNumbers[i]; }
    }
  }

  lemma {:induction false} Fill(c: Config, s: System, n: nat) returns (t: System)
    requires Reachable(c, s) && n <= s.sender.window && Turn(s.sender.window, s.next, n)
    requires forall i :: 0 <= i < n ==> s.sender.slots[i].None?
    ensures Reachable(c, t) && SameReceiver(s, t) && Filled(s, t, s.next, n)
  {
    t := s;
    if n > 0 {
      var before := Fill(c, s, n - 1);
      assert InTurn(s.sender.window, s.next, n - 1);
      assert before.sender.slots[n - 1].None?;
      assert Wrap(before.next) % before.sender.window == n - 1;
      t := SendNext(c, before);
      FilledOneMore(s, before, t, s.next, n - 1);
    }
  }

  /** Nothing is in flight. */
  predicate Idle(s: System) {
    forall i :: 0 <= i < |s.sender.slots| ==> s.sender.slots[i].None?
  }

  /** At most number `a` is in flight, in its slot. */
  ghost predicate OnlyInFlight(s: System, a: int)
    requires HasShape(s)
  {
    forall i :: 0 <= i < |s.sender.slots| && s.sender.slots[i].Some? ==>
      i == Wrap(a) % s.sender.window && s.slotNumbers[i] == a
  }

  lemma FlushEffects(c: Config, s: System)
    requires SenderInv(s)
    ensures Next(c, s, DoFlush) == s
  {
    ResentIsKnown(s, 0, true);
  }

  lemma FailureEffects(c: Config, s: System, a: int) returns (t: System)
    requires SenderInv(s) && OnlyInFlight(s, a) && InSlot(s, a) && s.next == a + 1
    ensures t == Next(c, s, DoSendFailed(a)) && SameReceiver(s, t) && Idle(t)
    ensures t.next == s.next && t.accepted == s.accepted && t.failed == s.failed + {a}
  {
    var i := Wrap(a) % s.sender.window;
    assert SlotInv(s, i);
    t := Next(c, s, DoSendFailed(a));
    assert t.sender.slots == s.sender.slots[i := None];
  }

  /** One message is sent, sent again by a flush, and then its first send is reported as failed. */
  lemma SentAndFailed(c: Config, s: System) returns (t: System)
    requires Reachable(c, s) && Idle(s)
    ensures Reachable(c, t) && Idle(t) && SameReceiver(s, t)
    ensures t.next == s.next + 1 && t.accepted == s.accepted[s.next := []] && t.failed == s.failed + {s.next}
  {
    var sent := SendNext(c, s);
    ReachableInv(c, sent);
    FlushEffects(c, sent);
    ReachableNext(c, sent, DoFlush);
    t := FailureEffects(c, sent, s.next);
    ReachableNext(c, sent, DoSendFailed(s.next));
  }

  /** The numbers from `m` to `n - 1` were accepted since, and reported failed. */
  ghost predicate FailedSince(s: System, t: System, m: int, n: int) {
    && t.next == n
    && (forall x {:trigger x in t.accepted} :: x in t.accepted <==> x in s.accepted || m <= x < n)
    && (forall x {:trigger x in t.failed} :: x in t.failed <==> x in s.failed || m <= x < n)
  }

  lemma {:induction false} AllFailed(c: Config, s: System, n: int) returns (t: System)
    requires Reachable(c, s) && Idle(s) && s.next <= n
    ensures Reachable(c, t) && Idle(t) && SameReceiver(s, t) && FailedSince(s, t, s.next, n)
    decreases n - s.next
  {
    t := s;
    if s.next < n {
      var u := SentAndFailed(c, s);
      t := AllFailed(c, u, n);
    }
  }

  // ----- Arriving -----

  /** The sending side is the same. */
  ghost predicate SameSender(s: System, t: System) {
    && t.sender == s.sender && t.slotNumbers == s.slotNumbers && t.failed == s.failed && t.refused == s.refused
    && t.accepted == s.accepted && t.next == s.next && t.log == s.log
  }

  /** What the arrival of number `a` does to the history and the summary. */
  ghost predicate Recorded(c: Config, s: System, t: System, a: int) {
    && a in s.accepted && SameSender(s, t)
    && t.arrived == s.arrived[a := s.accepted[a]]
    && t.receiver.tracker == Marked(s.receiver.tracker, Wrap(a))
    && t.top == (if MovesSummary(s.receiver.tracker, Wrap(a)) then a else s.top)
    && AckAfter(c, t.receiver, t.top) <= t.acks
  }

  lemma OrderedArrivalEffects(c: Config, s: System, d: Datagram) returns (t: System)
    requires c.ordered && SenderInv(s) && OrderedInv(s)
    requires d in s.data && s.expected <= d.number < s.expected + s.receiver.window
    ensures t == Next(c, s, DoDeliverData(d)) && Recorded(c, s, t, d.number)
    ensures var (r, out) := Receiver.ReceiveOrdered(s.receiver, Wrap(d.number), s.accepted[d.number]);
            t.receiver == r && t.expected == s.expected + |out| && t.delivered == s.delivered + out
  {
    var packet := DataFrame(s, d);
    WindowDistance(s.receiver, s.expected, d.number);
    TrackerAfter(s.receiver, Wrap(d.number), packet.payload);
    t := Next(c, s, DoDeliverData(d));
  }

  /** An arrival inside the window of an ordered receiver. */
  lemma ArrivesInWindow(c: Config, s: System, a: int) returns (t: System)
    requires c.ordered && Reachable(c, s) && a in s.accepted && s.expected <= a < s.expected + c.recvWindow
    ensures Reachable(c, t) && Recorded(c, s, t, a)
    ensures s.receiver.window == c.recvWindow
    ensures var (r, out) := Receiver.ReceiveOrdered(s.receiver, Wrap(a), s.accepted[a]);
            t.receiver == r && t.expected == s.expected + |out| && t.delivered == s.delivered + out
  {
    ReachableInv(c, s);
    var d := WasSent(c, s, a);
    t := OrderedArrivalEffects(c, s, d);
    ReachableNext(c, s, DoDeliverData(d));
  }

  /** The first arrival of all, inside the window if there is one. */
  lemma ArrivesFirst(c: Config, s: System, a: int) returns (t: System)
    requires Reachable(c, s) && a in s.accepted && !s.receiver.tracker.hasReceived
    requires c.ordered ==> s.expected <= a < s.expected + c.recvWindow
    ensures Reachable(c, t) && Recorded(c, s, t, a)
  {
    if c.ordered {
      t := ArrivesInWindow(c, s, a);
    } else {
      ReachableInv(c, s);
      var d := WasSent(c, s, a);
      var packet := DataFrame(s, d);
      t := Next(c, s, DoDeliverData(d));
      ReachableNext(c, s, DoDeliverData(d));
    }
  }

  /** An ACK built after the newest arrival is delivered. */
  lemma AckEffects(c: Config, s: System) returns (t: System, k: AckDatagram)
    requires SenderInv(s) && s.receiver.tracker.hasReceived && AckAfter(c, s.receiver, s.top) <= s.acks
    requires forall i :: 0 <= i < |s.sender.slots| && s.sender.slots[i].Some? ==>
               s.top - HALF <= s.slotNumbers[i] <= s.top + HALF
    ensures t == Next(c, s, DoDeliverAck(k)) == AfterAck(s, k) && t == s.(sender := t.sender)
    ensures k in s.acks && k.top == s.top
    ensures t.sender.window == s.sender.window && |t.sender.slots| == |s.sender.slots|
    ensures var r := s.receiver.tracker;
            forall i :: 0 <= i < |s.sender.slots| ==>
              t.sender.slots[i] == if s.sender.slots[i].Some? &&
                                      IsAcknowledged(Wrap(s.slotNumbers[i]), r.latest, r.ackBits)
                                   then None else s.sender.slots[i]
  {
    var built := Receiver.AckPacket(s.receiver.tracker, c.id).value;
    k := AckDatagram(s.top, Codec.Frame(built));
    assert k in AckAfter(c, s.receiver, s.top);
    Codec.DecodeOfFrame(built);
    forall i | 0 <= i < |s.sender.slots| && s.sender.slots[i].Some?
      ensures NotAliased(s.slotNumbers[i], k.top - HISTORY, HISTORY + 1)
    {
      NearIsNotAliased(s.slotNumbers[i], k.top - HISTORY, HISTORY + 1);
    }
    t := Next(c, s, DoDeliverAck(k));
    forall i | 0 <= i < |s.sender.slots| && s.sender.slots[i].Some?
      ensures s.sender.slots[i].value.sequenceNumber == Wrap(s.slotNumbers[i])
    {
      assert SlotInv(s, i);
    }
  }

  /** The ACK of the newest arrival, when only that packet is in flight: nothing is in flight any more. */
  lemma NewestAcknowledged(c: Config, s: System, a: int) returns (t: System)
    requires Reachable(c, s) && OnlyInFlight(s, a) && s.top == a
    requires s.receiver.tracker.hasReceived && s.receiver.tracker.latest == Wrap(a)
    requires AckAfter(c, s.receiver, s.top) <= s.acks
    ensures Reachable(c, t) && Idle(t) && t == s.(sender := t.sender)
  {
    ReachableInv(c, s);
    var k;
    t, k := AckEffects(c, s);
    ReachableNext(c, s, DoDeliverAck(k));
  }

  // ----- Arriving in order -----

  /** Exactly the numbers below `e` have arrived, in order; all were delivered. */
  ghost predicate InOrderUpTo(c: Config, s: System, e: nat) {
    && (forall x {:trigger x in s.arrived} :: x in s.arrived <==> 0 <= x < e)
    && (c.ordered ==> s.expected == e)
    && |s.delivered| == e
    && Exact(s.receiver.tracker, s.arrived.Keys, s.top)
    && s.receiver.tracker.hasReceived == (e > 0)
    && (e > 0 ==> s.top == e - 1 && s.receiver.tracker.latest == Wrap(e - 1) && AckAfter(c, s.receiver, s.top) <= s.acks)
  }

  /** A buffered packet arrived under a number not yet delivered. */
  lemma BufferedIsArrived(s: System, i: nat)
    requires OrderedInv(s) && i < |s.receiver.buffer| && s.receiver.buffer[i].Some?
    ensures var a := s.expected + Receiver.Ahead(s.receiver, s.receiver.buffer[i].value.sequenceNumber);
            s.expected <= a && a in s.arrived && a in s.accepted
  {
    assert SlotInPlace(s.receiver, s.expected, s.arrived, i);
  }

  lemma BufferIsEmpty(c: Config, s: System, e: nat, i: nat)
    requires OrderedInv(s) && InOrderUpTo(c, s, e) && c.ordered && i < |s.receiver.buffer|
    ensures s.receiver.buffer[i].None?
  {
    if s.receiver.buffer[i].Some? { BufferedIsArrived(s, i); }
  }

  /** The expected packet, its slot free, is delivered at once. */
  lemma ExpectedDelivered(r: Receiver.Receiver, payload: Payload)
    requires Receiver.HasShape(r) && r.buffer[r.expected % r.window].None?
    ensures Receiver.ReceiveOrdered(r, r.expected, payload).1 != []
  {
    var i := r.expected % r.window;
    var stored := r.(tracker := Marked(r.tracker, r.expected),
                     buffer := r.buffer[i := Some(Receiver.Buffered(r.expected, payload))]);
    assert Receiver.Holds(stored, stored.expected);
  }

  lemma NextInOrderOrdered(c: Config, s: System, e: nat) returns (t: System)
    requires c.ordered && Reachable(c, s) && InOrderUpTo(c, s, e) && e in s.accepted
    ensures Reachable(c, t) && Recorded(c, s, t, e) && t.expected == |t.delivered| == e + 1
  {
    ReachableInv(c, s);
    BufferIsEmpty(c, s, e, Wrap(e) % s.receiver.window);
    t := ArrivesInWindow(c, s, e);
    ExpectedDelivered(s.receiver, s.accepted[e]);
    ReachableInv(c, t);
    ArrivedBelowExpected(t);
    assert e + 1 !in t.arrived;
  }

  lemma NextInOrderUnordered(c: Config, s: System, e: nat) returns (t: System)
    requires !c.ordered && Reachable(c, s) && InOrderUpTo(c, s, e) && e in s.accepted
    ensures Reachable(c, t) && Recorded(c, s, t, e) && |t.delivered| == e + 1
  {
    ReachableInv(c, s);
    var d := WasSent(c, s, e);
    var packet := DataFrame(s, d);
    if e > 0 { NewerIffGreater(e, e - 1); }
    t := Next(c, s, DoDeliverData(d));
    ReachableNext(c, s, DoDeliverData(d));
  }

  lemma ExactInOrder(s: System, t: System, e: nat)
    requires Exact(s.receiver.tracker, s.arrived.Keys, s.top)
    requires forall x {:trigger x in s.arrived} :: x in s.arrived <==> 0 <= x < e
    requires e > 0 ==> s.top == e - 1
    requires t.receiver.tracker == Marked(s.receiver.tracker, Wrap(e)) && t.arrived.Keys == s.arrived.Keys + {e}
    ensures Exact(t.receiver.tracker, t.arrived.Keys, e)
  {
    if e > 0 { assert e - 1 in s.arrived.Keys; }
    assert s.arrived.Keys == {} ==> 0 !in s.arrived;
    MarkedKeepsExact(s.receiver.tracker, s.arrived.Keys, s.top, e);
  }

  lemma NextInOrder(c: Config, s: System, e: nat) returns (t: System)
    requires Reachable(c, s) && InOrderUpTo(c, s, e) && e in s.accepted
    ensures Reachable(c, t) && InOrderUpTo(c, t, e + 1) && SameSender(s, t)
  {
    if c.ordered { t := NextInOrderOrdered(c, s, e); } else { t := NextInOrderUnordered(c, s, e); }
    ExactInOrder(s, t, e);
    if e > 0 {
      NewerIffGreater(e, e - 1);
      MarkedAhead(s.receiver.tracker, e - 1, e);
    }
  }

  /** A later number arrives ahead of its turn, inside the window if there is one. */
  lemma ArrivesAhead(c: Config, s: System, e: nat, x: int) returns (t: System)
    requires Reachable(c, s) && InOrderUpTo(c, s, e) && e > 0 && x in s.accepted
    requires e <= x < e + HALF - 1 && (c.ordered ==> x < e + c.recvWindow)
    ensures Reachable(c, t) && Recorded(c, s, t, x) && t.receiver.tracker.hasReceived && t.top == x
  {
    ReachableInv(c, s);
    NewerIffGreater(x, e - 1);
    if c.ordered {
      t := ArrivesInWindow(c, s, x);
    } else {
      var d := WasSent(c, s, x);
      var packet := DataFrame(s, d);
      t := Next(c, s, DoDeliverData(d));
      ReachableNext(c, s, DoDeliverData(d));
    }
    TrackerMoves(s.receiver.tracker, Wrap(x));
  }

  lemma {:induction false} AllInOrder(c: Config, s: System, e: nat, n: nat) returns (t: System)
    requires Reachable(c, s) && InOrderUpTo(c, s, e) && e <= n && forall x :: e <= x < n ==> x in s.accepted
    ensures Reachable(c, t) && InOrderUpTo(c, t, n) && SameSender(s, t)
    decreases n - e
  {
    t := s;
    if e < n {
      var u := NextInOrder(c, s, e);
      t := AllInOrder(c, u, e + 1, n);
    }
  }

  /** Everything sent so far, the numbers below `n`, has been delivered in order and acknowledged. */
  ghost predicate QuietAt(c: Config, s: System, n: nat) {
    && Reachable(c, s) && Idle(s) && InOrderUpTo(c, s, n)
    && s.next == n && s.failed == {} && s.refused == {}
    && (forall x {:trigger x in s.accepted} :: x in s.accepted <==> 0 <= x < n)
  }

  lemma QuietRound(c: Config, s: System, n: nat) returns (t: System)
    requires QuietAt(c, s, n)
    ensures QuietAt(c, t, n + 1)
  {
    var sent := SendNext(c, s);
    var arrived := NextInOrder(c, sent, n);
    t := NewestAcknowledged(c, arrived, n);
  }

  lemma {:induction false} QuietReachable(c: Config, n: nat) returns (s: System)
    requires c.Valid()
    ensures QuietAt(c, s, n)
  {
    if n == 0 {
      s := Start(c);
      ReachableStart(c);
    } else {
      var before := QuietReachable(c, n - 1);
      s := QuietRound(c, before, n - 1);
    }
  }
}

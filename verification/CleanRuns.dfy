/**
  Runs in which every number used was accepted and no send failed.  Which pairs of windows lose a message
  even then: a matter of how far each window falls short of a whole turn of the counter.
 */
module CleanRuns {
  import opened Serial
  import opened Packets
  import opened AckTracker
  import opened OrderedReceiver
  import opened Protocol
  import opened OrderedDelivery
  import opened NoSilentLoss
  import opened LargestWindowSafe
  import opened Runs
  import opened BlockedChannel
  import opened StuckSlot
  import opened WindowMustDivide
  import opened Collisions
  import opened HoleRuns
  import Receiver = ReliableReceiver
  import Codec

  /**
    The windows that lose a message: the last turn of the send slots, with one more turn of them, is longer
    than the last turn of the receive slots, and longer by two when the ACK history does not span the latter.
   */
  predicate LossyWindows(w: nat, r: nat)
    requires 1 <= w && 1 <= r
  {
    var sendRest, recvRest := MODULUS % w, MODULUS % r;
    && recvRest > 0
    && if recvRest <= HISTORY then w + sendRest > recvRest
       else w + sendRest > recvRest + 1 && !(sendRest == recvRest + 1 && r == recvRest + 2)
  }

  // ----- Where two numbers can meet -----

  lemma NoMeetingInTurn(u: nat, d: nat, r: nat)
    requires 0 < d < r
    ensures (u + d) % r != u % r
  {
    var k, i := u / r, u % r;
    ModOfSum(i + d, k, r);
    assert u + d == i + d + r * k;
    if (u + d) % r == i {
      StepsBackToSlot(i, d, r);
      ModUnique(d, 0, d, r);
    }
  }

  lemma SameRemainder(a: nat, b: nat, n: nat) returns (k: int)
    requires n > 0 && a % n == b % n
    ensures a - b == n * k
  {
    k := a / n - b / n;
    assert n * k == n * (a / n) - n * (b / n);
  }

  lemma MeetingOverWrap(u: nat, j: nat, d: nat, r: nat)
    requires 0 < d < r && u + d == MODULUS + j && u % r == j % r
    ensures d == MODULUS % r
  {
    var k := SameRemainder(u, j, r);
    ModUnique(MODULUS, k, d, r);
  }

  /** Numbers of a window share a slot only across the wrap, a last turn of the slots apart. */
  lemma MeetingDistance(r: nat, x: int, y: int)
    requires 2 <= r <= HALF && x < y < x + r && Wrap(x) % r == Wrap(y) % r
    ensures y - x == MODULUS % r && Wrap(y) == Wrap(x) + (y - x) - MODULUS
  {
    WrapAhead(x, y - x);
    if Wrap(x) + (y - x) < MODULUS {
      NoMeetingInTurn(Wrap(x), y - x, r);
    } else {
      MeetingOverWrap(Wrap(x), Wrap(y), y - x, r);
    }
  }

  /** The numbers from `e` to `y`, `d` of them before the wrap, go to other slots than `e`, except perhaps `e` itself. */
  ghost predicate Avoids(w: nat, e: int, y: int)
    requires w > 0
  {
    forall z {:trigger Wrap(z)} :: e < z <= y ==> Wrap(z) % w != Wrap(e) % w
  }

  /** So there are fewer of them than a turn of the slots, and what comes after the wrap stays below the slot of `e`. */
  lemma AvoidingIsShort(w: nat, e: int, y: int)
    requires 1 <= w <= HALF && e < y < e + HALF && Wrap(y) < y - e && Avoids(w, e, y)
    ensures var d := y - e - Wrap(y); 1 <= d <= w && Wrap(e) == MODULUS - d && Wrap(e) % w > Wrap(y)
  {
    var j := Wrap(y);
    var d := y - e - j;
    WrapAhead(e, y - e);
    assert Wrap(e) == MODULUS - d;
    if d > w {
      assert e < e + w <= y;
      NextSlotInTurn(e, w);
    }
    var v := Wrap(e) % w;
    if v <= j {
      assert e < e + d + v <= y;
      WrapAhead(e, d + v);
      ModUnique(v, 0, v, w);
    }
  }

  /** Two numbers of the receive window meet while all from the missing one on avoid its send slot. */
  lemma MeetingNeedsLossyWindows(w: nat, r: nat, e: int, x: int, y: int)
    requires 1 <= w <= HALF && 2 <= r < HALF && MODULUS % r != 0
    requires e <= x < y < e + r && Wrap(x) % r == Wrap(y) % r && Avoids(w, e, y)
    ensures LossyWindows(w, r) || (e == x && y > e + HISTORY)
  {
    MeetingDistance(r, x, y);
    AvoidingIsShort(w, e, y);
    LastTurnDistance(w, y - e - Wrap(y));
  }

  // ----- Windows that are not lossy -----

  /**
    The numbers in `held` are with the peer.  Every accepted one is there or in its slot, no ACK speaks of
    others, and what was recorded and thrown away is too old for the ACKs to come.
   */
  ghost predicate HeldInv(s: System, held: map<int, Payload>) {
    && HasShape(s) && Represents(s.receiver, s.expected, held) && SubMap(held, s.arrived)
    && (forall a {:trigger InSlot(s, a)} :: a in s.accepted ==> InSlot(s, a) || a in held)
    && (forall a {:trigger a in held} :: a in s.arrived && a !in held ==> a < s.top - HISTORY)
    && (forall k :: k in s.acks ==> AckSound(k, held.Keys))
  }

  lemma SendKeepsHeld(c: Config, s: System, step: Step, held: map<int, Payload>)
    requires SenderInv(s) && HeldInv(s, held) && step.DoSend?
    ensures HeldInv(AfterSend(c, s, step), held)
  {
    ApplyStepKeepsShape(c, s, step);
    SendOutcomes(c, s, step);
    var t := AfterSend(c, s, step);
    forall a {:trigger InSlot(t, a)} | a in t.accepted ensures InSlot(t, a) || a in held {
      if a != s.next || t.accepted == s.accepted { assert InSlot(s, a) || a in held; }
    }
  }

  lemma TickKeepsHeld(s: System, now: int, held: map<int, Payload>)
    requires SenderInv(s) && HeldInv(s, held)
    ensures HeldInv(AfterTick(s, now), held)
  {
    var t := AfterTick(s, now);
    forall a {:trigger InSlot(t, a)} | a in t.accepted ensures InSlot(t, a) || a in held { assert InSlot(s, a) || a in held; }
  }

  /** An ACK frees only what is held. */
  lemma AckKeepsHeld(s: System, k: AckDatagram, held: map<int, Payload>)
    requires SenderInv(s) && HeldInv(s, held) && k in s.acks && FreshAck(s, k)
    ensures HeldInv(AfterAck(s, k), held)
  {
    var t := AfterAck(s, k);
    assert AckSound(k, held.Keys);
    var packet := Codec.Decode(k.frame).value;
    forall a {:trigger InSlot(t, a)} | a in t.accepted ensures InSlot(t, a) || a in held {
      assert InSlot(s, a) || a in held;
      var i := Wrap(a) % s.sender.window;
      if InSlot(s, a) && t.sender.slots[i].None? {
        assert SlotInv(s, i);
        SoundAcknowledges(packet.ack, packet.ackBits, held.Keys, k.top, a);
      }
    }
  }

  lemma SendingStepKeepsHeld(c: Config, s: System, step: Step, held: map<int, Payload>)
    requires SenderInv(s) && HeldInv(s, held) && Enabled(c, s, step) && !step.DoDeliverData? && !step.DoSendFailed?
    ensures HeldInv(Next(c, s, step), held)
  {
    match step
    case DoSend(_, _, _, _, _) => SendKeepsHeld(c, s, step, held);
    case DoTick(now) => TickKeepsHeld(s, now, held);
    case DoFlush => ResentIsKnown(s, 0, true);
    case DoDeliverAck(k) => AckKeepsHeld(s, k, held);
  }

  /** The summary speaks only of what is held. */
  lemma SummaryOfHeld(t: Tracker, arrived: set<int>, held: set<int>, top: int)
    requires Exact(t, arrived, top) && held <= arrived
    requires forall a :: a in arrived && a !in held ==> a < top - HISTORY
    ensures Sound(t, held, top)
  {
  }

  lemma SubMapKeys(small: map<int, Payload>, big: map<int, Payload>)
    requires SubMap(small, big)
    ensures small.Keys <= big.Keys
  {
    forall x | x in small.Keys ensures x in big.Keys { assert x in small; }
  }

  /** The ACKs after an arrival, old and new, speak only of what is held. */
  lemma AcksOfHeld(c: Config, s: System, t: System, held: map<int, Payload>, held': map<int, Payload>)
    requires (forall k :: k in s.acks ==> AckSound(k, held.Keys)) && t.acks == s.acks + AckAfter(c, t.receiver, t.top)
    requires SummaryInv(t) && SubMap(held, held') && SubMap(held', t.arrived)
    requires forall a {:trigger a in held'} :: a in t.arrived && a !in held' ==> a < t.top - HISTORY
    ensures forall k :: k in t.acks ==> AckSound(k, held'.Keys)
  {
    SubMapKeys(held, held');
    SubMapKeys(held', t.arrived);
    forall a | a in t.arrived.Keys && a !in held'.Keys ensures a < t.top - HISTORY { assert a !in held'; }
    SummaryOfHeld(t.receiver.tracker, t.arrived.Keys, held'.Keys, t.top);
    BuiltAckIsSound(c, t.receiver, t.top, held'.Keys);
    forall k | k in t.acks ensures AckSound(k, held'.Keys) {
      if k in s.acks { AckSoundInMore(k, held.Keys, held'.Keys); }
    }
  }

  /** Whatever is held, the new state only has to keep track of the arrival. */
  lemma ArrivalKeepsHeld(c: Config, s: System, t: System, a: int, held: map<int, Payload>, held': map<int, Payload>)
    requires HeldInv(s, held) && SummaryInv(s) && SummaryInv(t) && SameSender(s, t) && HasShape(t)
    requires t.arrived.Keys == s.arrived.Keys + {a} && t.acks == s.acks + AckAfter(c, t.receiver, t.top)
    requires SubMap(held, held') && SubMap(held', t.arrived) && Represents(t.receiver, t.expected, held')
    requires a in held' || a < t.top - HISTORY
    ensures HeldInv(t, held')
  {
    if s.arrived.Keys != {} { assert s.top in s.arrived.Keys && s.top in t.arrived.Keys; }
    forall x {:trigger x in held'} | x in t.arrived && x !in held' ensures x < t.top - HISTORY {
      assert x in t.arrived.Keys;
      if x != a { assert x in s.arrived.Keys && x !in held; }
    }
    AcksOfHeld(c, s, t, held, held');
    forall x {:trigger InSlot(t, x)} | x in t.accepted ensures InSlot(t, x) || x in held' {
      assert InSlot(s, x) || x in held;
    }
  }

  // ----- Arrivals -----

  /** The number in an occupied slot of the buffer. */
  lemma HeldInBuffer(s: System, held: map<int, Payload>, i: nat) returns (b: int)
    requires HasShape(s) && Represents(s.receiver, s.expected, held) && i < |s.receiver.buffer| && s.receiver.buffer[i].Some?
    ensures b in held && s.expected < b < s.expected + s.receiver.window && Wrap(b) % s.receiver.window == i
  {
    assert SlotInPlace(s.receiver, s.expected, held, i);
    b := s.expected + Receiver.Ahead(s.receiver, s.receiver.buffer[i].value.sequenceNumber);
    WrapOfAhead(s.expected, s.receiver.buffer[i].value.sequenceNumber);
  }

  /** While the expected number is in its slot, the accepted ones above it go elsewhere. */
  lemma ExpectedIsAvoided(c: Config, s: System, held: map<int, Payload>, y: int)
    requires c.ordered && Inv(c, s) && HeldInv(s, held) && NoneUsedUp(s) && s.expected < y < s.next
    ensures InSlot(s, s.expected) && Avoids(s.sender.window, s.expected, y)
  {
    var e := s.expected;
    assert e in s.accepted && e !in held;
    assert InSlot(s, e) || e in held;
    forall z {:trigger Wrap(z)} | e < z <= y ensures Wrap(z) % s.sender.window != Wrap(e) % s.sender.window {
      assert z in s.accepted;
      if Wrap(z) % s.sender.window == Wrap(e) % s.sender.window { LaterOfSlot(c, s, e, z); }
    }
  }

  /** Unless the windows are lossy, what is thrown away is too old for the ACKs to come. */
  lemma ThrownAwayIsOld(c: Config, s: System, held: map<int, Payload>, a: int)
    requires c.ordered && Inv(c, s) && HeldInv(s, held) && NoneUsedUp(s) && 2 <= s.receiver.window < HALF
    requires s.sender.window <= HALF && MODULUS % s.receiver.window != 0 && !LossyWindows(s.sender.window, s.receiver.window)
    requires a in s.accepted && s.expected <= a < s.expected + s.receiver.window && a !in held
    requires s.receiver.buffer[Wrap(a) % s.receiver.window].Some?
    ensures a < s.top - HISTORY && s.arrived.Keys != {}
  {
    var b := HeldInBuffer(s, held, Wrap(a) % s.receiver.window);
    assert b in s.arrived && b in s.arrived.Keys && b in s.accepted;
    var x, y := if a < b then a else b, if a < b then b else a;
    ExpectedIsAvoided(c, s, held, y);
    MeetingNeedsLossyWindows(s.sender.window, s.receiver.window, s.expected, x, y);
  }

  /** What a recorded arrival does. */
  lemma RecordEffects(c: Config, s: System, d: Datagram) returns (t: System)
    requires c.ordered && Inv(c, s) && d in s.data && FreshData(c, s, d) && s.receiver.window < HALF && Records(c, s, d.number)
    ensures t == AfterData(c, s, d) && HasShape(t) && SameSender(s, t) && SummaryInv(t)
    ensures d.number in s.accepted && s.expected <= d.number < s.expected + s.receiver.window
    ensures t.arrived == s.arrived[d.number := s.accepted[d.number]] && t.acks == s.acks + AckAfter(c, t.receiver, t.top)
    ensures var (r, out) := Receiver.ReceiveOrdered(s.receiver, Wrap(d.number), s.accepted[d.number]);
            t.receiver == r && t.expected == s.expected + |out|
  {
    var packet := DataFrame(s, d);
    WindowDistance(s.receiver, s.expected, d.number);
    DataKeepsInv(c, s, d);
    t := AfterData(c, s, d);
  }

  /** Receiving a number into a free slot adds it to what the receiver stands for. */
  lemma StoredRepresents(r: Receiver.Receiver, e: int, held: map<int, Payload>, a: int, payload: Payload)
    requires Represents(r, e, held) && e <= a < e + r.window && r.buffer[Wrap(a) % r.window].None? && r.window <= HALF
    ensures a !in held
    ensures var (q, out) := Receiver.ReceiveOrdered(r, Wrap(a), payload); Represents(q, e + |out|, held[a := payload])
  {
    NearIsNotAliased(a, e, r.window);
    WindowDistance(r, e, a);
    var q := r.(tracker := Marked(r.tracker, Wrap(a)));
    MarkRepresents(r, e, held, q.tracker);
    var stored, drained, out := NewNumberDrained(q, e, held, a, payload);
  }

  /** Receiving a number into an occupied slot leaves it as it is. */
  lemma ThrownAwayRepresents(r: Receiver.Receiver, e: int, held: map<int, Payload>, a: int, payload: Payload)
    requires Represents(r, e, held) && e <= a < e + r.window && r.buffer[Wrap(a) % r.window].Some? && r.window <= HALF
    ensures var (q, out) := Receiver.ReceiveOrdered(r, Wrap(a), payload); out == [] && Represents(q, e, held)
  {
    NearIsNotAliased(a, e, r.window);
    WindowDistance(r, e, a);
    MarkRepresents(r, e, held, Marked(r.tracker, Wrap(a)));
  }

  lemma OneMoreKey(m: map<int, Payload>, a: int, payload: Payload)
    ensures m[a := payload].Keys == m.Keys + {a}
  {
  }

  lemma OneMoreHeld(s: System, held: map<int, Payload>, a: int)
    requires SubMap(held, s.arrived) && SubMap(s.arrived, s.accepted) && a in s.accepted && a !in held
    ensures SubMap(held, held[a := s.accepted[a]]) && SubMap(held[a := s.accepted[a]], s.arrived[a := s.accepted[a]])
  {
  }

  /** A number recorded in a free slot is held from now on. */
  lemma RecordedIsHeld(c: Config, s: System, d: Datagram, held: map<int, Payload>) returns (held': map<int, Payload>)
    requires c.ordered && Inv(c, s) && HeldInv(s, held) && d in s.data && FreshData(c, s, d) && s.receiver.window < HALF
    requires Records(c, s, d.number) && s.receiver.buffer[Wrap(d.number) % s.receiver.window].None?
    ensures HeldInv(AfterData(c, s, d), held')
  {
    var a := d.number;
    var t := RecordEffects(c, s, d);
    StoredRepresents(s.receiver, s.expected, held, a, s.accepted[a]);
    held' := held[a := s.accepted[a]];
    OneMoreHeld(s, held, a);
    OneMoreKey(s.arrived, a, s.accepted[a]);
    ArrivalKeepsHeld(c, s, t, a, held, held');
  }

  /** A number that arrives again brings the same message. */
  lemma HeldStillArrived(s: System, held: map<int, Payload>, a: int)
    requires SubMap(held, s.arrived) && SubMap(s.arrived, s.accepted) && a in s.accepted
    ensures SubMap(held, s.arrived[a := s.accepted[a]])
  {
  }

  lemma TopGrows(s: System, t: System, a: int)
    requires SummaryInv(s) && SummaryInv(t) && t.arrived.Keys == s.arrived.Keys + {a}
    ensures s.arrived.Keys != {} ==> s.top <= t.top
  {
    if s.arrived.Keys != {} { assert s.top in t.arrived.Keys; }
  }

  /** One recorded and thrown away is held already, or too old. */
  lemma ThrownAwayChangesNothing(c: Config, s: System, d: Datagram, held: map<int, Payload>)
    requires c.ordered && Inv(c, s) && HeldInv(s, held) && NoneUsedUp(s) && 2 <= s.receiver.window < HALF
    requires s.sender.window <= HALF && MODULUS % s.receiver.window != 0 && !LossyWindows(s.sender.window, s.receiver.window)
    requires d in s.data && FreshData(c, s, d)
    requires Records(c, s, d.number) && s.receiver.buffer[Wrap(d.number) % s.receiver.window].Some?
    ensures HeldInv(AfterData(c, s, d), held)
  {
    var a := d.number;
    var t := RecordEffects(c, s, d);
    ThrownAwayRepresents(s.receiver, s.expected, held, a, s.accepted[a]);
    OneMoreKey(s.arrived, a, s.accepted[a]);
    TopGrows(s, t, a);
    if a !in held { ThrownAwayIsOld(c, s, held, a); }
    HeldStillArrived(s, held, a);
    ArrivalKeepsHeld(c, s, t, a, held, held);
  }

  /** An arrival outside the window changes only the ACKs. */
  lemma NotRecordedChangesNothing(c: Config, s: System, d: Datagram, held: map<int, Payload>)
    requires c.ordered && Inv(c, s) && HeldInv(s, held) && d in s.data && !Records(c, s, d.number)
    ensures HeldInv(AfterData(c, s, d), held)
  {
    var packet := DataFrame(s, d);
    var t := AfterData(c, s, d);
    assert t == s.(acks := s.acks + AckAfter(c, s.receiver, s.top));
    AcksOfHeld(c, s, t, held, held);
    forall x {:trigger InSlot(t, x)} | x in t.accepted ensures InSlot(t, x) || x in held { assert InSlot(s, x) || x in held; }
  }

  lemma {:induction false} ReachedHeld(c: Config, steps: seq<Step>) returns (held: map<int, Payload>)
    requires c.Valid() && c.ordered && MODULUS % c.recvWindow != 0 && !LossyWindows(c.sendWindow, c.recvWindow)
    requires Reached(c, steps).failed == {} && NoneUsedUp(Reached(c, steps))
    ensures HeldInv(Reached(c, steps), held)
  {
    if steps == [] {
      held := map[];
      InitRepresents(c.recvWindow);
    } else {
      var before, step := steps[..|steps| - 1], steps[|steps| - 1];
      var s := Reached(c, before);
      StartInv(c);
      RunFromKeepsInv(c, Start(c), before);
      FailedGrows(c, s, step);
      NoneUsedUpBefore(c, s, step);
      held := ReachedHeld(c, before);
      if Enabled(c, s, step) { held := NextHeld(c, s, step, held); }
    }
  }

  lemma NextHeld(c: Config, s: System, step: Step, held: map<int, Payload>) returns (held': map<int, Payload>)
    requires c.ordered && Inv(c, s) && HeldInv(s, held) && NoneUsedUp(s) && 2 <= s.receiver.window < HALF
    requires s.sender.window <= HALF && MODULUS % s.receiver.window != 0 && !LossyWindows(s.sender.window, s.receiver.window)
    requires Enabled(c, s, step) && !step.DoSendFailed?
    ensures HeldInv(Next(c, s, step), held')
  {
    held' := held;
    if !step.DoDeliverData? {
      SendingStepKeepsHeld(c, s, step, held);
    } else if !Records(c, s, step.datagram.number) {
      NotRecordedChangesNothing(c, s, step.datagram, held);
    } else if s.receiver.buffer[Wrap(step.datagram.number) % s.receiver.window].None? {
      held' := RecordedIsHeld(c, s, step.datagram, held);
    } else {
      ThrownAwayChangesNothing(c, s, step.datagram, held);
    }
  }

  lemma HeldIsSafe(c: Config, s: System, held: map<int, Payload>, a: int)
    requires c.ordered && Inv(c, s) && HeldInv(s, held) && a in s.accepted
    ensures Safe(c, s, a)
  {
    assert InSlot(s, a) || a in held;
    if a in held {
      assert a in s.arrived;
      if a < s.expected {
        ArrivedBelowExpected(s);
      } else {
        assert Receiver.Holds(s.receiver, Wrap(a));
        assert SlotInPlace(s.receiver, s.expected, s.arrived, Wrap(a) % s.receiver.window);
        WindowDistance(s.receiver, s.expected, a);
      }
    }
  }

  /** So no message is lost in such a run. */
  lemma CleanIsNeverLost(c: Config, steps: seq<Step>, a: int)
    requires c.Valid() && c.ordered && !LossyWindows(c.sendWindow, c.recvWindow)
    requires Reached(c, steps).failed == {} && NoneUsedUp(Reached(c, steps)) && a in Reached(c, steps).accepted
    ensures Safe(c, Reached(c, steps), a)
  {
    if MODULUS % c.recvWindow == 0 {
      NeverLostWithoutFailure(c, steps, a);
    } else {
      var held := ReachedHeld(c, steps);
      StartInv(c);
      RunFromKeepsInv(c, Start(c), steps);
      HeldIsSafe(c, Reached(c, steps), held, a);
    }
  }

  // ----- Windows that are lossy -----

  /** Before the wrap, numbers less than a window apart go to different slots. */
  lemma DifferentBeforeWrap(x: int, z: int, w: nat)
    requires 0 <= x < MODULUS && 0 <= z < MODULUS && x != z && -(w as int) < x - z < w
    ensures Wrap(x) % w != Wrap(z) % w
  {
    if x < z { DifferentInWindow(x, z, x, w); } else { DifferentInWindow(z, x, z, w); }
  }

  lemma AfterWrap(i: int, w: nat)
    requires 0 <= i < w <= HALF
    ensures Wrap(MODULUS + i) == i && i % w == i
  {
    ModUnique(i, 0, i, w);
  }

  /** If the slot of `e`, `d` before the wrap, is above `j`, the numbers up to `j` after the wrap avoid it. */
  lemma AvoidedUpTo(w: nat, d: nat, j: nat)
    requires 1 <= d <= w <= HALF && (MODULUS - d) % w > j
    ensures Avoids(w, MODULUS - d, MODULUS + j)
  {
    var e := MODULUS - d;
    assert Wrap(e) == e;
    forall z {:trigger Wrap(z)} | e < z <= MODULUS + j ensures Wrap(z) % w != Wrap(e) % w {
      if z < MODULUS { DifferentBeforeWrap(z, e, w); } else { AfterWrap(z - MODULUS, w); }
    }
  }

  /** The number `j` after the wrap meets the one a last turn before it, and no other one since `e`. */
  lemma MeetAfterWrap(w: nat, q: nat, r: nat, d: nat, j: nat)
    requires 2 <= w < HALF && MODULUS == w * q + r && j < r && d + j + 1 <= w && r <= d + j && d >= 1
    ensures Meet(w, MODULUS - d, MODULUS + j - r, MODULUS + j)
  {
    var e, x, y := MODULUS - d, MODULUS + j - r, MODULUS + j;
    TurnSlot(w, q, r, j);
    assert Wrap(x) == x && x % w == j by { assert MODULUS - r + j == x; }
    AfterWrap(j, w);
    forall z {:trigger Wrap(z)} | e < z < y && z != x ensures Wrap(z) % w != Wrap(x) % w {
      if z < MODULUS { DifferentBeforeWrap(z, x, w); } else { AfterWrap(z - MODULUS, w); }
    }
  }

  /** Everything before `e` is done, and `e` is in flight. */
  lemma OneInFlight(c: Config, e: nat) returns (s: System)
    requires c.Valid() && c.ordered && e >= 1
    ensures JustMissing(c, s, e) && s.failed == {} && NoneUsedUp(s) && s.next == e + 1
    ensures s.sender.window == c.sendWindow && s.receiver.window == c.recvWindow
  {
    var quiet := QuietReachable(c, e);
    s := SendNext(c, quiet);
    ReachableInv(c, s);
  }

  /** The missing number `d` before the wrap, the meeting `j` after it: some message is lost. */
  lemma LostCleanly(c: Config, q: nat, r: nat, d: nat, j: nat) returns (t: System, a: int)
    requires c.Valid() && c.ordered && 2 <= c.recvWindow < HALF && MODULUS == c.recvWindow * q + r
    requires j < r && d + j + 1 <= c.recvWindow && r <= d + j && (r < d + j || r <= HISTORY)
    requires 1 <= d <= c.sendWindow && (MODULUS - d) % c.sendWindow > j
    ensures Reachable(c, t) && t.failed == {} && NoneUsedUp(t) && a in t.accepted && !Safe(c, t, a)
  {
    var e, x, y := MODULUS - d, MODULUS + j - r, MODULUS + j;
    MeetAfterWrap(c.recvWindow, q, r, d, j);
    AvoidedUpTo(c.sendWindow, d, j);
    var s := OneInFlight(c, e);
    if r < d + j {
      t := SecondIsLost(c, s, e, x, y);
      a := y;
    } else {
      t := MissingIsLost(c, s, e, y);
      a := e;
    }
  }

  /** Lossy windows leave room for such a missing number. */
  lemma RoomForMeeting(w: nat, r: nat) returns (d: nat, j: nat)
    requires 1 <= w <= HALF && 2 <= r < HALF && LossyWindows(w, r) && MODULUS % r + 2 <= r
    ensures var rest := MODULUS % r;
            j < rest && d + j + 1 <= r && rest <= d + j && (rest < d + j || rest <= HISTORY)
    ensures 1 <= d <= w && (MODULUS - d) % w > j
  {
    var q, rest := MODULUS % w, MODULUS % r;
    if q > rest && rest <= HISTORY {
      d, j := 1, rest - 1;
    } else if q >= rest + 2 {
      d, j := 2, rest - 1;
    } else if q == rest + 1 {
      d, j := rest + 2, 0;
    } else if q < rest && rest <= HISTORY {
      d := if rest <= w then rest else w;
      j := rest - d;
    } else {
      d := if rest + 1 <= w then rest + 1 else w;
      j := rest + 1 - d;
    }
    LastTurnDistance(w, d);
  }

  lemma SomeCleanRunLosesAMessage(c: Config) returns (t: System, a: int)
    requires c.Valid() && c.ordered && LossyWindows(c.sendWindow, c.recvWindow)
    ensures Reachable(c, t) && t.failed == {} && NoneUsedUp(t) && a in t.accepted && !Safe(c, t, a)
  {
    var q, r := DivideWithRemainder(c.recvWindow);
    TurnIsShort(c.recvWindow, q, r);
    var d, j := RoomForMeeting(c.sendWindow, c.recvWindow);
    t, a := LostCleanly(c, q, r, d, j);
  }

  /**
    Ordered channels with any two windows, over the runs in which no send failed and every number used was
    accepted: nothing is ever lost silently if and only if the windows are not lossy.
   */
  lemma NothingLostCleanlyIff(c: Config)
    requires c.Valid() && c.ordered
    ensures (forall steps, a :: var s := Reached(c, steps);
               s.failed == {} && NoneUsedUp(s) && a in s.accepted ==> Safe(c, s, a))
            <==> !LossyWindows(c.sendWindow, c.recvWindow)
  {
    if LossyWindows(c.sendWindow, c.recvWindow) {
      var t, a := SomeCleanRunLosesAMessage(c);
      var steps :| Reached(c, steps) == t;
      assert a in Reached(c, steps).accepted && !Safe(c, Reached(c, steps), a);
    } else {
      forall steps, a | var s := Reached(c, steps); s.failed == {} && NoneUsedUp(s) && a in s.accepted
        ensures Safe(c, Reached(c, steps), a)
      {
        CleanIsNeverLost(c, steps, a);
      }
    }
  }
}

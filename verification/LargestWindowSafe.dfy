/**
  Where the largest receive window, 32768, loses nothing after all: when the sender has one packet in
  flight at a time, and in every run in which no send fails, whatever the send window.
 */
module LargestWindowSafe {
  import opened Serial
  import opened AckTracker
  import opened OrderedReceiver
  import opened Protocol
  import opened OrderedDelivery
  import opened NoSilentLoss
  import opened AckTops
  import Codec

  ghost predicate Largest(c: Config) {
    c.Valid() && c.ordered && c.recvWindow == HALF
  }

  // ----- One packet in flight at a time -----

  ghost predicate SingleInv(s: System) {
    HasShape(s) && WindowInv(s) && TopsInv(s) && LossInv(s)
  }

  /** The only packet in flight is the newest accepted, so an ACK that covers it names it. */
  lemma SingleFreesOnlyArrived(s: System, k: AckDatagram)
    requires SenderInv(s) && SubMap(s.arrived, s.accepted) && s.sender.window == 1 && TopsInv(s)
    requires k in s.acks && FreshAck(s, k)
    ensures FreesOnlyArrived(s, k)
  {
    var t := AfterAck(s, k);
    var packet := Codec.Decode(k.frame).value;
    assert AckTop(k, s.arrived.Keys);
    if s.sender.slots[0].Some? && t.sender.slots[0].None? {
      assert SlotInv(s, 0);
      AckedIsNear(s.slotNumbers[0], k.top, packet.ackBits);
      assert k.top in s.arrived;
    }
  }

  lemma {:induction false} ReachedSingleInv(c: Config, steps: seq<Step>)
    requires c.Valid() && c.ordered && c.sendWindow == 1
    ensures SingleInv(Reached(c, steps))
  {
    ReachedTops(c, steps);
    if steps != [] {
      var before, step := steps[..|steps| - 1], steps[|steps| - 1];
      var s := Reached(c, before);
      ReachedSingleInv(c, before);
      ReachedInv(c, before);
      if Enabled(c, s, step) {
        if step.DoDeliverData? {
          DataKeepsLossInv(c, s, step.datagram);
        } else {
          if step.DoDeliverAck? { SingleFreesOnlyArrived(s, step.ack); }
          SendingStepKeepsLossInv(c, s, step);
        }
      }
    }
  }

  /** With a send window of one, nothing is lost behind any receive window that divides 65536. */
  lemma SingleIsNeverLost(c: Config, steps: seq<Step>, a: int)
    requires c.Valid() && c.ordered && c.sendWindow == 1 && MODULUS % c.recvWindow == 0
    requires a in Reached(c, steps).accepted
    ensures Safe(c, Reached(c, steps), a)
  {
    var s := Reached(c, steps);
    ReachedSingleInv(c, steps);
    ReachedInv(c, steps);
    ReachedRepresents(c, steps);
    assert InSlot(s, a) || a in s.failed || a in s.arrived;
    if a in s.arrived { OrderedArrivedIsHeld(c, s, a); }
  }

  // ----- No failed sends -----

  /** Accepted numbers the summary has not got to are still in their slots. */
  ghost predicate HeldAbove(s: System)
    requires HasShape(s)
  {
    forall x {:trigger InSlot(s, x)} ::
      x in s.accepted && (s.receiver.tracker.hasReceived ==> x > s.top) ==> InSlot(s, x)
  }

  ghost predicate HoleBelow(s: System, x: int) {
    exists h :: 0 <= h < x && IsHole(s, h)
  }

  /** An arrival the summary has not got to has a number below it that was used up and never sent. */
  ghost predicate JumpsAreBlocked(s: System) {
    forall x {:trigger HoleBelow(s, x)} :: x in s.arrived && x > s.top ==> HoleBelow(s, x)
  }

  /** ACKs are sound, and none speaks of numbers above the summary's newest. */
  ghost predicate AcksBelow(s: System) {
    && AcksInv(s)
    && forall k :: k in s.acks ==> s.receiver.tracker.hasReceived && k.top <= s.top
  }

  ghost predicate FailureFreeInv(s: System) {
    && HasShape(s) && s.failed == {} && WindowInv(s) && LossInv(s)
    && Sound(s.receiver.tracker, s.arrived.Keys, s.top)
    && (s.arrived.Keys != {} ==> s.receiver.tracker.hasReceived)
    && AcksBelow(s) && HeldAbove(s)
    && (s.sender.window < HALF ==> JumpsAreBlocked(s))
  }

  /** In a send window of 32768 numbers half a turn apart share a slot. */
  lemma OnePerSlot(s: System, a: int)
    requires HasShape(s) && s.sender.window == HALF
    ensures !(InSlot(s, a) && InSlot(s, a - HALF))
  {
    assert Wrap(a) % HALF == Wrap(a - HALF) % HALF;
  }

  lemma NoHoleBelowExpected(s: System, b: int)
    requires OrderedInv(s) && b <= s.expected
    ensures !HoleBelow(s, b)
  {
    ArrivedBelowExpected(s);
  }

  /** So an arrival is never more than half a turn away from the summary's newest number. */
  lemma NeverTooFar(s: System, a: int)
    requires SenderInv(s) && OrderedInv(s) && FailureFreeInv(s) && s.sender.window <= HALF == s.receiver.window
    requires a in s.accepted && s.expected <= a < s.expected + HALF && s.receiver.tracker.hasReceived
    ensures -HALF <= a - s.top <= HALF
  {
    var b := a - HALF;
    assert s.top in s.arrived.Keys && s.top in s.accepted;
    ArrivedBelowExpected(s);
    NoHoleBelowExpected(s, b);
    assert a > s.top + HALF ==> b in s.arrived && b in s.accepted;
    if s.sender.window == HALF {
      OnePerSlot(s, a);
    }
  }

  /** The slots in which the numbers from `low + 1` to `low + n` sit are `n` different ones. */
  lemma {:induction false} DifferentSlots(s: System, low: int, n: nat) returns (slots: set<int>)
    requires HasShape(s) && forall x {:trigger InSlot(s, x)} :: low < x <= low + n ==> InSlot(s, x)
    ensures |slots| == n
    ensures forall i :: i in slots ==> 0 <= i < s.sender.window && low < s.slotNumbers[i] <= low + n
  {
    if n == 0 {
      slots := {};
    } else {
      var fewer := DifferentSlots(s, low, n - 1);
      assert InSlot(s, low + n);
      var i := Wrap(low + n) % s.sender.window;
      assert i !in fewer;
      slots := fewer + {i};
    }
  }

  lemma {:induction false} AtMost(slots: set<int>, n: nat)
    requires forall i :: i in slots ==> 0 <= i < n
    ensures |slots| <= n
  {
    if n == 0 {
      forall i: int ensures i !in slots { assert i in slots ==> 0 <= i < n; }
      assert slots == {};
    } else {
      AtMost(slots - {n - 1}, n - 1);
    }
  }

  /** A jump of exactly half a turn, over a smaller send window, leaps over a number never sent. */
  lemma JumpIsBlocked(s: System, a: int)
    requires SenderInv(s) && HeldAbove(s) && s.sender.window < HALF && s.receiver.tracker.hasReceived
    requires a in s.accepted && a == s.top + HALF && 0 <= s.top
    ensures HoleBelow(s, a)
  {
    if !HoleBelow(s, a) {
      forall x {:trigger InSlot(s, x)} | s.top < x <= s.top + HALF ensures InSlot(s, x) {
        assert x in s.accepted || IsHole(s, x);
      }
      var slots := DifferentSlots(s, s.top, HALF);
      AtMost(slots, s.sender.window);
    }
  }

  // ----- Every step keeps it -----

  lemma SendKeepsHeldAbove(c: Config, s: System, step: Step)
    requires SenderInv(s) && HeldAbove(s) && step.DoSend?
    ensures var t := AfterSend(c, s, step); HasShape(t) && HeldAbove(t)
  {
    ApplyStepKeepsShape(c, s, step);
    SendOutcomes(c, s, step);
    var t := AfterSend(c, s, step);
    forall x {:trigger InSlot(t, x)} | x in t.accepted && (t.receiver.tracker.hasReceived ==> x > t.top) ensures InSlot(t, x) {
      assert x in s.accepted ==> InSlot(s, x);
    }
  }

  lemma TickKeepsHeldAbove(s: System, now: int)
    requires SenderInv(s) && HeldAbove(s)
    ensures var t := AfterTick(s, now); HasShape(t) && HeldAbove(t)
  {
    var t := AfterTick(s, now);
    forall x {:trigger InSlot(t, x)} | x in t.accepted && (t.receiver.tracker.hasReceived ==> x > t.top) ensures InSlot(t, x) {
      assert InSlot(s, x);
    }
  }

  /** An ACK frees nothing above the summary's newest number. */
  lemma AckKeepsHeldAbove(s: System, k: AckDatagram)
    requires SenderInv(s) && HeldAbove(s) && AcksBelow(s) && k in s.acks && FreshAck(s, k)
    ensures var t := AfterAck(s, k); HasShape(t) && HeldAbove(t)
  {
    var t := AfterAck(s, k);
    var packet := Codec.Decode(k.frame).value;
    assert AckSound(k, s.arrived.Keys);
    forall x {:trigger InSlot(t, x)} | x in t.accepted && (t.receiver.tracker.hasReceived ==> x > t.top) ensures InSlot(t, x) {
      assert InSlot(s, x);
      var i := Wrap(x) % s.sender.window;
      assert SlotInv(s, i);
      assert NotAliased(s.slotNumbers[i], k.top - HISTORY, HISTORY + 1);
      if IsAcknowledged(Wrap(x), Wrap(k.top), packet.ackBits) { AckedIsNear(x, k.top, packet.ackBits); }
    }
  }

  lemma HolesStay(c: Config, s: System, step: Step)
    requires SenderInv(s) && JumpsAreBlocked(s) && !step.DoDeliverData?
    ensures JumpsAreBlocked(Next(c, s, step))
  {
    var t := Next(c, s, step);
    SendingStepKeepsReceiver(c, s, step);
    forall x {:trigger HoleBelow(t, x)} | x in t.arrived && x > t.top ensures HoleBelow(t, x) {
      assert HoleBelow(s, x);
      var h :| 0 <= h < x && IsHole(s, h);
      NextKeepsHole(c, s, step, h);
    }
  }

  lemma SendingStepKeepsHeldAbove(c: Config, s: System, step: Step)
    requires SenderInv(s) && HeldAbove(s) && AcksBelow(s) && Enabled(c, s, step)
    requires !step.DoDeliverData? && !step.DoSendFailed?
    ensures var t := ApplyStep(c, s, step); HasShape(t) && HeldAbove(t)
  {
    match step
    case DoSend(_, _, _, _, _) => SendKeepsHeldAbove(c, s, step);
    case DoTick(now) => TickKeepsHeldAbove(s, now);
    case DoFlush => ResentIsKnown(s, 0, true);
    case DoDeliverAck(k) => AckKeepsHeldAbove(s, k);
  }

  lemma SendingStepKeepsInv(c: Config, s: System, step: Step)
    requires SenderInv(s) && FailureFreeInv(s) && Enabled(c, s, step)
    requires !step.DoDeliverData? && !step.DoSendFailed?
    ensures FailureFreeInv(Next(c, s, step))
  {
    if step.DoDeliverAck? { SoundAckFreesOnlyArrived(s, step.ack); }
    SendingStepKeepsLossInv(c, s, step);
    SendingStepKeepsReceiver(c, s, step);
    SendingStepKeepsHeldAbove(c, s, step);
    if s.sender.window < HALF { HolesStay(c, s, step); }
    if step.DoSend? { SendOutcomes(c, s, step); }
  }

  /** The summary and the ACKs after the arrival of number `a`. */
  lemma ArrivalSound(c: Config, s: System, t: System, a: int)
    requires Sound(s.receiver.tracker, s.arrived.Keys, s.top) && AcksBelow(s)
    requires s.receiver.tracker.hasReceived ==> -HALF <= a - s.top <= HALF
    requires a in t.arrived && t.arrived.Keys == s.arrived.Keys + {a}
    requires t.receiver.tracker == Marked(s.receiver.tracker, Wrap(a))
    requires t.top == if MovesSummary(s.receiver.tracker, Wrap(a)) then a else s.top
    requires t.acks == s.acks + AckAfter(c, t.receiver, t.top)
    ensures Sound(t.receiver.tracker, t.arrived.Keys, t.top) && t.receiver.tracker.hasReceived && AcksBelow(t)
    ensures s.receiver.tracker.hasReceived ==> t.top >= s.top && (t.top == a || a <= s.top || a == s.top + HALF)
    ensures !s.receiver.tracker.hasReceived ==> t.top == a
  {
    if s.receiver.tracker.hasReceived { NewerIffGreater(a, s.top); }
    MarkedKeepsSound(s.receiver.tracker, s.arrived.Keys, s.top, a);
    BuiltAckIsSound(c, t.receiver, t.top, t.arrived.Keys);
    forall k | k in t.acks ensures AckSound(k, t.arrived.Keys) && k.top <= t.top {
      if k in s.acks { AckSoundInMore(k, s.arrived.Keys, t.arrived.Keys); }
    }
  }

  /** What was blocked stays blocked, and a jump of half a turn is. */
  lemma ArrivalKeepsBlocked(s: System, t: System, a: int)
    requires SenderInv(s) && FailureFreeInv(s) && s.sender.window < HALF && a in s.accepted
    requires t.accepted == s.accepted && t.next == s.next && t.arrived.Keys == s.arrived.Keys + {a}
    requires s.receiver.tracker.hasReceived ==> t.top >= s.top && (t.top == a || a <= s.top || a == s.top + HALF)
    requires !s.receiver.tracker.hasReceived ==> t.top == a
    ensures JumpsAreBlocked(t)
  {
    forall x {:trigger HoleBelow(t, x)} | x in t.arrived && x > t.top ensures HoleBelow(t, x) {
      assert x in t.arrived.Keys;
      if x in s.arrived {
        assert x in s.arrived.Keys;
        assert HoleBelow(s, x);
      } else {
        assert s.top in s.arrived.Keys;
        JumpIsBlocked(s, a);
      }
      var h :| 0 <= h < x && IsHole(s, h);
      assert IsHole(t, h);
    }
  }

  lemma DataKeepsFailureFreeInv(c: Config, s: System, d: Datagram)
    requires c.ordered && SenderInv(s) && OrderedInv(s) && FailureFreeInv(s)
    requires s.sender.window <= HALF == s.receiver.window
    requires d in s.data && FreshData(c, s, d)
    ensures FailureFreeInv(AfterData(c, s, d))
  {
    var a := d.number;
    var packet := DataFrame(s, d);
    var t := AfterData(c, s, d);
    WindowDistance(s.receiver, s.expected, a);
    DataKeepsWindowInv(c, s, d);
    DataKeepsLossInv(c, s, d);
    if Records(c, s, a) {
      if s.receiver.tracker.hasReceived { NeverTooFar(s, a); }
      var arrived' := s.arrived[a := packet.payload];
      InPlaceInMore(s.receiver, s.expected, s.arrived, arrived');
      var _, _ := OrderedStep(s.receiver, s.expected, arrived', a);
      assert t.arrived.Keys == s.arrived.Keys + {a};
      ArrivalSound(c, s, t, a);
      if s.sender.window < HALF { ArrivalKeepsBlocked(s, t, a); }
      forall x {:trigger InSlot(t, x)} | x in t.accepted && x > t.top ensures InSlot(t, x) { assert InSlot(s, x); }
    } else {
      NotRecorded(c, s, d);
    }
  }

  /** An arrival outside the window changes nothing but the ACKs, and repeats one of those. */
  lemma NotRecorded(c: Config, s: System, d: Datagram)
    requires c.ordered && SenderInv(s) && FailureFreeInv(s) && d in s.data && !Records(c, s, d.number)
    ensures FailureFreeInv(AfterData(c, s, d))
  {
    var packet := DataFrame(s, d);
    var t := AfterData(c, s, d);
    BuiltAckIsSound(c, s.receiver, s.top, s.arrived.Keys);
    assert t == s.(acks := s.acks + AckAfter(c, s.receiver, s.top));
    forall x {:trigger InSlot(t, x)} | x in t.accepted && (t.receiver.tracker.hasReceived ==> x > t.top) ensures InSlot(t, x) {
      assert InSlot(s, x);
    }
    DataKeepsLossInv(c, s, d);
    if s.sender.window < HALF {
      forall x {:trigger HoleBelow(t, x)} | x in t.arrived && x > t.top ensures HoleBelow(t, x) {
        assert HoleBelow(s, x);
        var h :| 0 <= h < x && IsHole(s, h);
        assert IsHole(t, h);
      }
    }
  }

  lemma FailedGrows(c: Config, s: System, step: Step)
    requires SenderInv(s)
    ensures s.failed <= Next(c, s, step).failed
    ensures step.DoSendFailed? && Enabled(c, s, step) ==> Next(c, s, step).failed != {}
  {
    if step.DoSend? { SendOutcomes(c, s, step); }
    assert step.DoSendFailed? && Enabled(c, s, step) ==> step.number in Next(c, s, step).failed;
  }

  lemma {:induction false} ReachedFailureFree(c: Config, steps: seq<Step>)
    requires Largest(c) && Reached(c, steps).failed == {}
    ensures FailureFreeInv(Reached(c, steps))
  {
    if steps != [] {
      var before, step := steps[..|steps| - 1], steps[|steps| - 1];
      var s := Reached(c, before);
      ReachedInv(c, before);
      FailedGrows(c, s, step);
      ReachedFailureFree(c, before);
      if Enabled(c, s, step) {
        if step.DoDeliverData? {
          DataKeepsFailureFreeInv(c, s, step.datagram);
        } else {
          SendingStepKeepsInv(c, s, step);
        }
      }
    }
  }

  /**
    If the receive window divides 65536, the largest window included, a run in which no send is reported
    failed loses nothing, whatever the send window.
   */
  lemma NeverLostWithoutFailure(c: Config, steps: seq<Step>, a: int)
    requires c.Valid() && c.ordered && MODULUS % c.recvWindow == 0
    requires Reached(c, steps).failed == {} && a in Reached(c, steps).accepted
    ensures Safe(c, Reached(c, steps), a)
  {
    if c.recvWindow < HALF {
      AcceptedIsNeverLost(c, steps, a);
    } else {
      var s := Reached(c, steps);
      ReachedFailureFree(c, steps);
      ReachedInv(c, steps);
      ReachedRepresents(c, steps);
      assert InSlot(s, a) || a in s.failed || a in s.arrived;
      if a in s.arrived { OrderedArrivedIsHeld(c, s, a); }
    }
  }
}

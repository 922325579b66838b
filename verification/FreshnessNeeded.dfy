/**
  What the freshness guards of `Protocol` are for.  Sixteen bits cannot tell a packet from the one
  65536 numbers later.  Too late, a failure callback empties the slot of another packet, a datagram is
  delivered a second time, and an ACK frees a packet that never arrived, on every channel.  The exact limits
  are one turn of the counter, a turn less the receive window (half a turn when unordered), and a turn less 33.
 */
module FreshnessNeeded {
  import opened Serial
  import opened Packets
  import opened AckTracker
  import opened ReliableSender
  import opened OrderedReceiver
  import opened Protocol
  import opened OrderedDelivery
  import opened NoSilentLoss
  import opened LargestWindow
  import opened LargestWindowSafe
  import opened Runs
  import UnorderedReceiver
  import Receiver = ReliableReceiver
  import Codec

  // ----- Late failures -----

  /** The callback for an accepted number frees the slot of a different packet. */
  ghost predicate RemovesAnother(s: System, number: int)
    requires HasShape(s)
  {
    var i := Wrap(number) % s.sender.window;
    && number in s.accepted
    && s.sender.slots[i].Some? && s.slotNumbers[i] != number
    && Erase(s.sender, Wrap(number)).slots == s.sender.slots[i := None]
  }

  /** Within one turn of the counter, a failure callback changes nothing but the slot of its own packet. */
  lemma FailureInTimeIsHarmless(c: Config, steps: seq<Step>, number: int)
    requires c.Valid() && FreshFailure(Reached(c, steps), number)
    ensures var s := Reached(c, steps);
            var t := Erase(s.sender, Wrap(number));
            && |t.slots| == |s.sender.slots|
            && forall i :: 0 <= i < |s.sender.slots| && t.slots[i] != s.sender.slots[i] ==> s.slotNumbers[i] == number
  {
    ReachedInv(c, steps);
    FailureErasesItsPacket(Reached(c, steps), number);
  }

  /** Number 0 is delivered and acknowledged, the rest of the turn fails, and number 65536 takes the slot that number 0 had. */
  lemma SlotTakenOver(c: Config) returns (s: System)
    requires c.Valid()
    ensures Reachable(c, s) && s.next == MODULUS + 1 && 0 in s.accepted && 0 !in s.failed && InSlot(s, MODULUS)
  {
    var done := QuietReachable(c, 1);
    var failed := AllFailed(c, done, MODULUS);
    s := SendNext(c, failed);
  }

  /**
    On every channel, a callback just over one turn late, for a send that was delivered and acknowledged
    long ago, frees the slot of a different packet.
   */
  lemma TooLateFailureRemovesAnother(c: Config)
    requires c.Valid()
    ensures exists steps, number :: var s := Reached(c, steps);
              RemovesAnother(s, number) && number !in s.failed && s.next == number + MODULUS + 1
  {
    var s := SlotTakenOver(c);
    ReachableInv(c, s);
    assert Wrap(MODULUS) == Wrap(0);
    assert SlotInv(s, Wrap(MODULUS) % s.sender.window);
    var steps :| Reached(c, steps) == s;
    assert RemovesAnother(Reached(c, steps), 0);
  }

  /** On every channel, callbacks at most `late` numbers late never remove another packet exactly up to one turn. */
  lemma LateFailuresHarmlessIff(c: Config, late: int)
    requires c.Valid()
    ensures (forall steps, number :: var s := Reached(c, steps);
               number in s.accepted && s.next <= number + late ==> !RemovesAnother(s, number))
            <==> late <= MODULUS
  {
    if late <= MODULUS {
      forall steps, number | var s := Reached(c, steps); number in s.accepted && s.next <= number + late
        ensures !RemovesAnother(Reached(c, steps), number)
      {
        FailureInTimeIsHarmless(c, steps, number);
      }
    } else {
      TooLateFailureRemovesAnother(c);
    }
  }

  // ----- Late datagrams -----

  /** One number for each message: no more were accepted than numbers used. */
  lemma LogIsShort(s: System)
    requires SenderInv(s)
    ensures |s.log| <= s.next
  {
    if s.log != [] {
      LogAtLeastIndex(s, |s.log| - 1);
      assert s.log[|s.log| - 1] in s.accepted;
    }
  }

  /** Everything of the first turn was sent and delivered in order, each message once. */
  lemma TurnDelivered(c: Config) returns (s: System)
    requires c.Valid()
    ensures Reachable(c, s) && s.next == MODULUS && 0 in s.accepted && InOrderUpTo(c, s, MODULUS)
  {
    ReachableStart(c);
    var sent := AllFailed(c, Start(c), MODULUS);
    s := AllInOrder(c, sent, 0, MODULUS);
  }

  /** A datagram a full turn old looks like the one expected, or like one newer than the newest. */
  lemma OldDatagramTaken(c: Config, s: System, d: Datagram)
    requires SenderInv(s) && (c.ordered ==> OrderedInv(s)) && InOrderUpTo(c, s, MODULUS)
    requires d in s.data && d.number == 0
    ensures !FreshData(c, s, d) && |AfterData(c, s, d).delivered| > |s.delivered|
  {
    var packet := DataFrame(s, d);
    if c.ordered {
      assert s.receiver.expected == Wrap(MODULUS) == 0;
      ModUnique(0, 0, 0, s.receiver.window);
      BufferIsEmpty(c, s, MODULUS, 0);
      ExpectedDelivered(s.receiver, packet.payload);
    }
  }

  ghost predicate DeliversTooMuch(c: Config, s: System, d: Datagram)
    requires HasShape(s)
  {
    !FreshData(c, s, d) && |AfterData(c, s, d).delivered| > |s.log|
  }

  /** Without the guard every channel, ordered or not, delivers more messages than were ever accepted. */
  lemma StaleDatagramIsDeliveredAgain(c: Config)
    requires c.Valid()
    ensures exists steps, d :: d in Reached(c, steps).data && DeliversTooMuch(c, Reached(c, steps), d)
  {
    var s := TurnDelivered(c);
    ReachableInv(c, s);
    var d := WasSent(c, s, 0);
    OldDatagramTaken(c, s, d);
    LogIsShort(s);
    var steps :| Reached(c, steps) == s;
    assert DeliversTooMuch(c, Reached(c, steps), d);
  }

  /** Number `a` was delivered already, or is recorded as received, and is at most `late` behind. */
  ghost predicate Repeat(c: Config, s: System, a: int, late: int) {
    if c.ordered then s.expected - late <= a < s.expected
    else a in s.arrived && s.top - late <= a
  }

  /** How late a datagram may come: a turn less the window, or half a turn where there is no window. */
  function LatestDatagram(c: Config): int {
    if c.ordered then MODULUS - c.recvWindow else HALF
  }

  lemma RepeatInTimeIsIgnored(c: Config, steps: seq<Step>, a: int, late: int)
    requires c.Valid() && late <= LatestDatagram(c) && Repeat(c, Reached(c, steps), a, late)
    ensures !Records(c, Reached(c, steps), a)
  {
    var s := Reached(c, steps);
    ReachedInv(c, steps);
    if c.ordered {
      NearIsNotAliased(a, s.expected, s.receiver.window);
      WindowDistance(s.receiver, s.expected, a);
    } else {
      StartInv(c);
      RunFromKeepsInv(c, Start(c), steps);
      assert a in s.arrived.Keys;
      UnorderedReceiver.DuplicateTestIsExact(s.receiver.tracker, s.arrived.Keys, s.top, a);
    }
  }

  /** Seen from one past the limit, number 0 is the last of the window, or the farthest one that looks newer. */
  lemma ZeroLooksNew(w: nat)
    requires 1 <= w <= HALF
    ensures Delta(0, Wrap(MODULUS - w + 1)) == w - 1
    ensures Delta(0, Wrap(HALF + 1)) == HALF - 1
  {
    DeltaOfWraps(0, MODULUS - w + 1);
  }

  lemma ZeroIsRecorded(c: Config, s: System, n: nat)
    requires HasShape(s) && 1 <= s.receiver.window == c.recvWindow <= HALF
    requires c.ordered ==> s.receiver.expected == Wrap(n)
    requires InOrderUpTo(c, s, n) && n == if c.ordered then MODULUS - c.recvWindow + 1 else HALF + 2
    ensures Repeat(c, s, 0, LatestDatagram(c) + 1) && Records(c, s, 0)
  {
    ZeroLooksNew(c.recvWindow);
  }

  /** Everything up to one past the limit was sent and delivered in order: number 0 looks new again. */
  lemma RepeatTooLateIsRecorded(c: Config) returns (s: System)
    requires c.Valid()
    ensures Reachable(c, s) && 0 in s.accepted
    ensures Repeat(c, s, 0, LatestDatagram(c) + 1) && Records(c, s, 0)
  {
    var n := if c.ordered then MODULUS - c.recvWindow + 1 else HALF + 2;
    ReachableStart(c);
    var sent := AllFailed(c, Start(c), n);
    s := AllInOrder(c, sent, 0, n);
    ReachableInv(c, s);
    ZeroIsRecorded(c, s, n);
  }

  /**
    On every channel: a datagram that repeats a number at most `late` behind is never taken for a new one,
    in any reachable state, exactly up to a turn less the receive window, or half a turn when unordered.
   */
  lemma LateDatagramsHarmlessIff(c: Config, late: int)
    requires c.Valid()
    ensures (forall steps, d :: var s := Reached(c, steps);
               d in s.data && Repeat(c, s, d.number, late) ==> !Records(c, s, d.number))
            <==> late <= LatestDatagram(c)
  {
    if late <= LatestDatagram(c) {
      forall steps, d | var s := Reached(c, steps); d in s.data && Repeat(c, s, d.number, late)
        ensures !Records(c, Reached(c, steps), d.number)
      {
        RepeatInTimeIsIgnored(c, steps, d.number, late);
      }
    } else {
      var s := RepeatTooLateIsRecorded(c);
      var d := WasSent(c, s, 0);
      var steps :| Reached(c, steps) == s;
      assert Repeat(c, Reached(c, steps), d.number, late);
    }
  }

  // ----- Late ACKs -----

  /** The ACK empties slot `i`, although the peer never recorded its number. */
  ghost predicate WronglyFrees(s: System, k: AckDatagram, i: int)
    requires HasShape(s)
  {
    var t := AfterAck(s, k);
    0 <= i < |s.sender.slots| <= |t.sender.slots| &&
    s.sender.slots[i].Some? && t.sender.slots[i].None? && s.slotNumbers[i] !in s.arrived
  }

  /** Slot `i` holds a number at most `late` ahead of the ACK, and less than a turn behind it. */
  ghost predicate WithinReach(s: System, k: AckDatagram, i: int, late: int)
    requires HasShape(s)
  {
    0 <= i < |s.slotNumbers| && k.top - MODULUS < s.slotNumbers[i] <= k.top + late
  }

  /** Where an ACK in time never frees a packet that has not been recorded. */
  predicate AcksAreRight(c: Config) {
    c.ordered ==> c.recvWindow < HALF || c.sendWindow == 1
  }

  lemma AckInTimeIsRight(c: Config, steps: seq<Step>, k: AckDatagram, i: int, late: int)
    requires c.Valid() && AcksAreRight(c) && late < MODULUS - HISTORY
    requires var s := Reached(c, steps); k in s.acks && WithinReach(s, k, i, late)
    ensures !WronglyFrees(Reached(c, steps), k, i)
  {
    var s := Reached(c, steps);
    NearIsNotAliased(s.slotNumbers[i], k.top - HISTORY, HISTORY + 1);
    if WronglyFrees(s, k, i) {
      if c.ordered ==> c.recvWindow < HALF {
        StartInv(c);
        RunFromKeepsInv(c, Start(c), steps);
        FreedIsReceived(s, k, i);
      } else {
        ReachedInv(c, steps);
        ReachedSingleInv(c, steps);
        SingleFreesOnlyArrived(s, k);
      }
    }
  }

  /** Numbers 0 to 32 are done, the rest of the turn failed, and 65536 is in flight; the ACK is from before the failures. */
  lemma OneTurnAfterAck(c: Config) returns (s: System)
    requires c.Valid()
    ensures Reachable(c, s) && s.top == HISTORY && AckAfter(c, s.receiver, s.top) <= s.acks
    ensures InSlot(s, MODULUS) && MODULUS in s.accepted && MODULUS !in s.failed && MODULUS !in s.arrived
    ensures |s.delivered| == HISTORY + 1 && (c.ordered ==> s.expected == HISTORY + 1)
    ensures 0 in s.arrived && Exact(s.receiver.tracker, s.arrived.Keys, s.top)
  {
    var quiet := QuietReachable(c, HISTORY + 1);
    var failed := AllFailed(c, quiet, MODULUS);
    s := SendNext(c, failed);
  }

  /** The ACK covers number 0, and 65536 has the same number on the wire. */
  lemma OldAckFrees(c: Config, s: System) returns (k: AckDatagram, i: int)
    requires SenderInv(s) && s.top == HISTORY && AckAfter(c, s.receiver, s.top) <= s.acks
    requires InSlot(s, MODULUS) && MODULUS !in s.arrived
    requires 0 in s.arrived && Exact(s.receiver.tracker, s.arrived.Keys, s.top)
    ensures k in s.acks && k.top == HISTORY && WronglyFrees(s, k, i) && s.slotNumbers[i] == MODULUS
    ensures HasShape(AfterAck(s, k)) && AfterAck(s, k) == s.(sender := AfterAck(s, k).sender) && !InSlot(AfterAck(s, k), MODULUS)
  {
    assert 0 in s.arrived.Keys;
    var r := s.receiver.tracker;
    var built := Receiver.AckPacket(r, c.id).value;
    k := AckDatagram(s.top, Codec.Frame(built));
    assert k in AckAfter(c, s.receiver, s.top);
    Codec.DecodeOfFrame(built);
    i := Wrap(MODULUS) % s.sender.window;
    assert SlotInv(s, i);
    ExactAcknowledges(r, s.arrived.Keys, s.top, 0);
    assert Wrap(MODULUS) == Wrap(0);
  }

  /** The message is in no slot, not reported failed, and not with the peer. */
  lemma NotArrivedNotHeld(c: Config, s: System)
    requires Reachable(c, s) && MODULUS in s.accepted && MODULUS !in s.arrived && |s.delivered| == HISTORY + 1
    requires c.ordered ==> s.expected == HISTORY + 1
    ensures !PeerHas(c, s, MODULUS, s.accepted[MODULUS])
  {
    if !c.ordered {
      var steps :| Reached(c, steps) == s;
      StartInv(c);
      RunFromKeepsInv(c, Start(c), steps);
      forall i | 0 <= i < |s.deliveredNumbers| ensures s.deliveredNumbers[i] != MODULUS {
        assert s.deliveredNumbers[i] in Elements(s.deliveredNumbers);
      }
    }
  }

  /** On every channel, an ACK a turn less 32 too late frees a message that never arrived, and it is lost. */
  lemma TooLateAckLosesAMessage(c: Config)
    requires c.Valid()
    ensures exists steps, k, i :: var s := Reached(c, steps);
              && k in s.acks && WronglyFrees(s, k, i) && s.slotNumbers[i] == k.top + MODULUS - HISTORY
              && var t := AfterAck(s, k); HasShape(t) && s.slotNumbers[i] in t.accepted && !Safe(c, t, s.slotNumbers[i])
  {
    var s := OneTurnAfterAck(c);
    ReachableInv(c, s);
    var k, i := OldAckFrees(c, s);
    NotArrivedNotHeld(c, s);
    var steps :| Reached(c, steps) == s;
    assert k in Reached(c, steps).acks && WronglyFrees(Reached(c, steps), k, i);
  }

  /** Elsewhere even an ACK in time, naming a number above the packet's, can be wrong. */
  lemma SomeAckInTimeErrs(c: Config)
    requires c.Valid() && !AcksAreRight(c)
    ensures exists steps, k, i :: var s := Reached(c, steps);
              k in s.acks && WronglyFrees(s, k, i) && WithinReach(s, k, i, 0)
  {
    var s := VictimGetsCovered(c);
    ReachableInv(c, s);
    var t, k := AckEffects(c, s);
    var i := Wrap(VICTIM) % s.sender.window;
    assert VICTIM !in s.arrived;
    var steps :| Reached(c, steps) == s;
    assert WronglyFrees(Reached(c, steps), k, i) && WithinReach(s, k, i, 0);
  }

  /**
    Every channel: an ACK frees no packet that has not been recorded, among those at most `late` ahead of it,
    in any reachable state, exactly if `late` is at most one turn less 33 and the channel is unordered, or its
    receive window is below 32768 or faces a send window of one.
   */
  lemma LateAcksHarmlessIff(c: Config, late: nat)
    requires c.Valid()
    ensures (forall steps, k, i :: var s := Reached(c, steps);
               k in s.acks && WithinReach(s, k, i, late) ==> !WronglyFrees(s, k, i))
            <==> late <= MODULUS - HISTORY - 1 && AcksAreRight(c)
  {
    if late <= MODULUS - HISTORY - 1 && AcksAreRight(c) {
      forall steps, k, i | var s := Reached(c, steps); k in s.acks && WithinReach(s, k, i, late)
        ensures !WronglyFrees(Reached(c, steps), k, i)
      {
        AckInTimeIsRight(c, steps, k, i, late);
      }
    } else if AcksAreRight(c) {
      TooLateAckLosesAMessage(c);
      var steps, k, i :| var s := Reached(c, steps);
        k in s.acks && WronglyFrees(s, k, i) && s.slotNumbers[i] == k.top + MODULUS - HISTORY;
      assert WithinReach(Reached(c, steps), k, i, late);
    } else {
      SomeAckInTimeErrs(c);
      var steps, k, i :| var s := Reached(c, steps); k in s.acks && WronglyFrees(s, k, i) && WithinReach(s, k, i, 0);
      assert WithinReach(Reached(c, steps), k, i, late);
    }
  }
}

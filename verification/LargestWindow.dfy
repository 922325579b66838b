/**
  The largest window, 32768, divides 65536 and still loses messages.  A jump of exactly 2^15 is invisible
  to the ACK summary, so arrivals can be arranged to leave it a full half turn behind the receiver; from
  there one more arrival makes it acknowledge a message that never came.  The run is an unlikely one: all
  sends but two are reported failed although their frames, flushed once more, arrive.  `LargestWindowSafe`
  shows that it takes such failures.
 */
module LargestWindow {
  import opened Serial
  import opened Words
  import opened AckTracker
  import opened OrderedReceiver
  import opened Protocol
  import opened OrderedDelivery
  import opened NoSilentLoss
  import opened Runs
  import Receiver = ReliableReceiver

  /** The message that will be lost, and the one that makes it look acknowledged. */
  const VICTIM := 98303
  const WITNESS := 98304

  /** A largest receive window, and a send window in which two packets can be in flight. */
  ghost predicate Setup(c: Config) {
    c.Valid() && c.ordered && 2 <= c.sendWindow && c.recvWindow == HALF
  }

  lemma ReachableRepresents(c: Config, s: System)
    requires Setup(c) && Reachable(c, s)
    ensures Represents(s.receiver, s.expected, s.arrived)
  {
    var steps :| Reached(c, steps) == s;
    ReachedRepresents(c, steps);
  }

  // ----- Sending: all but two fail at the sender, and reach the network all the same -----

  /** The packets in flight are among the last two. */
  ghost predicate InFlightFrom(s: System, n: int, m: int)
    requires HasShape(s)
  {
    forall i :: 0 <= i < |s.sender.slots| && s.sender.slots[i].Some? ==> m <= s.slotNumbers[i] < n
  }

  /** The last two messages are in flight; all earlier ones were reported failed. */
  ghost predicate LastTwoInFlight(s: System)
    requires HasShape(s)
  {
    && (forall x {:trigger x in s.accepted} :: x in s.accepted <==> 0 <= x <= WITNESS)
    && InFlightFrom(s, WITNESS + 1, VICTIM)
    && InSlot(s, VICTIM) && VICTIM !in s.failed
  }

  /** 32767 and 32768, the wire numbers of the two, are in different slots of every such window. */
  lemma SlotsDiffer(w: nat)
    requires 2 <= w <= HALF
    ensures Wrap(VICTIM) % w != Wrap(WITNESS) % w
  {
    var q, r := (HALF - 1) / w, (HALF - 1) % w;
    if r + 1 < w { ModUnique(HALF, q, r + 1, w); } else { ModUnique(HALF, q + 1, 0, w); }
  }

  lemma AllSentReachable(c: Config) returns (s: System)
    requires Setup(c)
    ensures Reachable(c, s) && LastTwoInFlight(s) && s.expected == 0 && s.arrived == map[] && s.receiver.tracker == EMPTY
  {
    ReachableStart(c);
    var failed := AllFailed(c, Start(c), VICTIM);
    var one := SendNext(c, failed);
    SlotsDiffer(c.sendWindow);
    s := SendNext(c, one);
  }

  // ----- Arriving: the summary is left behind -----

  predicate IsNumber(x: int, low: int, high: int) {
    0 <= x < low || HALF <= x < high
  }

  /** Exactly the numbers below `low`, and those from 32768 up to `high`, have arrived. */
  ghost predicate ArrivedAre(s: System, low: int, high: int) {
    forall x {:trigger x in s.arrived} :: x in s.arrived <==> IsNumber(x, low, high)
  }

  /** The sending side is as it was when everything had been sent; the summary's newest number is `latest`. */
  ghost predicate Receiving(c: Config, s: System, latest: int) {
    && Setup(c) && Reachable(c, s) && LastTwoInFlight(s)
    && s.receiver.tracker.hasReceived && s.receiver.tracker.latest == Wrap(latest) && s.top == latest
  }

  /** An arrival inside the window leaves the sending side as it is. */
  lemma Arrives(c: Config, s: System, a: int) returns (t: System)
    requires Setup(c) && Reachable(c, s) && LastTwoInFlight(s) && 0 <= a <= WITNESS
    requires s.expected <= a < s.expected + HALF
    ensures Reachable(c, t) && LastTwoInFlight(t) && Recorded(c, s, t, a)
  {
    t := ArrivesInWindow(c, s, a);
  }

  /** The expected number is determined by what has arrived. */
  lemma ExpectedIs(c: Config, s: System, low: int, high: int)
    requires Setup(c) && Reachable(c, s) && ArrivedAre(s, low, high)
    requires 0 <= low <= HALF <= high
    ensures s.expected == if low < HALF then low else high
  {
    ReachableRepresents(c, s);
    ExpectedIsLeast(s, if low < HALF then low else high);
  }

  lemma ExpectedIsLeast(s: System, e: nat)
    requires Represents(s.receiver, s.expected, s.arrived)
    requires e !in s.arrived && forall x :: 0 <= x < e ==> x in s.arrived
    ensures s.expected == e
  {
    assert s.expected < e ==> s.expected in s.arrived;
    assert e < s.expected ==> e in s.arrived;
  }

  /** The first message arrives. */
  lemma FirstArrives(c: Config, s: System) returns (t: System)
    requires Setup(c) && Reachable(c, s) && LastTwoInFlight(s)
    requires s.expected == 0 && s.arrived == map[] && s.receiver.tracker == EMPTY
    ensures Receiving(c, t, 0) && ArrivedAre(t, 1, HALF)
  {
    t := Arrives(c, s, 0);
  }

  /** A number exactly 2^15 above the summary's newest arrives, and the summary ignores it. */
  lemma JumpArrives(c: Config, s: System, i: nat) returns (t: System)
    requires 1 <= i <= HALF && Receiving(c, s, i - 1) && ArrivedAre(s, i, HALF + i - 1)
    ensures Receiving(c, t, i - 1) && ArrivedAre(t, i, HALF + i)
  {
    ExpectedIs(c, s, i, HALF + i - 1);
    t := Arrives(c, s, HALF + i - 1);
    MarkedIgnores(s.receiver.tracker, i - 1, HALF + i - 1);
    NewerIffGreater(HALF + i - 1, i - 1);
  }

  /** The expected number arrives, and the summary moves up by one. */
  lemma NextArrives(c: Config, s: System, i: nat) returns (t: System)
    requires 1 <= i < HALF && Receiving(c, s, i - 1) && ArrivedAre(s, i, HALF + i)
    ensures Receiving(c, t, i) && ArrivedAre(t, i + 1, HALF + i)
  {
    ExpectedIs(c, s, i, HALF + i);
    t := Arrives(c, s, i);
    MarkedAhead(s.receiver.tracker, i - 1, i);
    NewerIffGreater(i, i - 1);
  }

  /** Pair by pair, until half a turn has arrived twice over and the summary has seen only the lower half. */
  lemma {:induction false} LeftBehind(c: Config, s: System, i: nat) returns (t: System)
    requires 1 <= i <= HALF && Receiving(c, s, 0) && ArrivedAre(s, 1, HALF)
    ensures Receiving(c, t, i - 1) && ArrivedAre(t, i, HALF + i - 1)
  {
    if i == 1 {
      t := s;
    } else {
      var before := LeftBehind(c, s, i - 1);
      var jumped := JumpArrives(c, before, i - 1);
      t := NextArrives(c, jumped, i - 1);
    }
  }

  /** Number 65536 looks like number 0, too old for the summary's history: it is ignored as well. */
  lemma OldNumberArrives(c: Config, s: System) returns (t: System)
    requires Receiving(c, s, HALF - 1) && ArrivedAre(s, HALF, MODULUS)
    ensures Receiving(c, t, HALF - 1) && ArrivedAre(t, HALF, MODULUS + 1)
  {
    ExpectedIs(c, s, HALF, MODULUS);
    t := Arrives(c, s, MODULUS);
    MarkedIgnores(s.receiver.tracker, HALF - 1, 0);
  }

  /** The summary takes the witness for the number after its newest, and so the victim for received. */
  lemma WitnessArrives(c: Config, s: System) returns (t: System)
    requires Receiving(c, s, HALF - 1) && ArrivedAre(s, HALF, MODULUS + 1)
    ensures Reachable(c, t) && LastTwoInFlight(t)
    ensures t.top == WITNESS && AckAfter(c, t.receiver, t.top) <= t.acks
    ensures forall x :: x in t.arrived <==> IsNumber(x, HALF, MODULUS + 1) || x == WITNESS
    ensures var r := t.receiver.tracker;
            r.hasReceived && IsAcknowledged(Wrap(VICTIM), r.latest, r.ackBits)
  {
    ExpectedIs(c, s, HALF, MODULUS + 1);
    WitnessAcknowledgesVictim(s.receiver.tracker);
    t := Arrives(c, s, WITNESS);
  }

  lemma WitnessAcknowledgesVictim(before: Tracker)
    requires before.hasReceived && before.latest == HALF - 1
    ensures var after := Marked(before, Wrap(WITNESS));
            MovesSummary(before, Wrap(WITNESS)) && after.hasReceived && after.latest == Wrap(WITNESS) &&
            IsAcknowledged(Wrap(VICTIM), after.latest, after.ackBits)
  {
    var after := Marked(before, Wrap(WITNESS));
    assert after.ackBits == BitsAhead(before.ackBits, 1);
    BitAfterForward(before.ackBits, 1, 0);
    TestBitIsBit(after.ackBits, 0);
  }

  // ----- Lost -----

  /** The ACK built at the end frees the victim. */
  lemma VictimFreed(c: Config, s: System) returns (t: System)
    requires Reachable(c, s) && LastTwoInFlight(s) && s.top == WITNESS
    requires AckAfter(c, s.receiver, s.top) <= s.acks
    requires var r := s.receiver.tracker;
             r.hasReceived && IsAcknowledged(Wrap(VICTIM), r.latest, r.ackBits)
    ensures Reachable(c, t) && t == s.(sender := t.sender) && !InSlot(t, VICTIM)
  {
    ReachableInv(c, s);
    var k;
    t, k := AckEffects(c, s);
    ReachableNext(c, s, DoDeliverAck(k));
  }

  /** The peer has neither delivered nor buffered the victim. */
  lemma VictimNotHeld(c: Config, s: System)
    requires c.ordered && HasShape(s) && OrderedInv(s) && Represents(s.receiver, s.expected, s.arrived) && VICTIM in s.accepted
    requires forall x :: x in s.arrived <==> IsNumber(x, HALF, MODULUS + 1) || x == WITNESS
    ensures !PeerHas(c, s, VICTIM, s.accepted[VICTIM])
  {
    ExpectedIsLeast(s, MODULUS + 1);
    if Receiver.HoldsPayload(s.receiver, Wrap(VICTIM), s.accepted[VICTIM]) {
      assert SlotInPlace(s.receiver, s.expected, s.arrived, Wrap(VICTIM) % s.receiver.window);
      WindowDistance(s.receiver, s.expected, VICTIM);
    }
  }

  /** The witness has arrived: the victim is in flight, has not arrived, and is covered by the ACK just built. */
  ghost predicate VictimCovered(c: Config, s: System) {
    && Reachable(c, s) && LastTwoInFlight(s) && s.top == WITNESS && AckAfter(c, s.receiver, s.top) <= s.acks
    && (forall x :: x in s.arrived <==> IsNumber(x, HALF, MODULUS + 1) || x == WITNESS)
    && var r := s.receiver.tracker;
       r.hasReceived && IsAcknowledged(Wrap(VICTIM), r.latest, r.ackBits)
  }

  lemma VictimGetsCovered(c: Config) returns (seen: System)
    requires Setup(c)
    ensures VictimCovered(c, seen)
  {
    var sent := AllSentReachable(c);
    var first := FirstArrives(c, sent);
    var behind := LeftBehind(c, first, HALF);
    var jumped := JumpArrives(c, behind, HALF);
    var more := OldNumberArrives(c, jumped);
    seen := WitnessArrives(c, more);
  }

  lemma SomeStateLosesTheVictim(c: Config) returns (t: System)
    requires Setup(c)
    ensures Reachable(c, t) && VICTIM in t.accepted && VICTIM !in t.failed && !InSlot(t, VICTIM)
    ensures !PeerHas(c, t, VICTIM, t.accepted[VICTIM])
  {
    var seen := VictimGetsCovered(c);
    t := VictimFreed(c, seen);
    ReachableInv(c, t);
    ReachableRepresents(c, t);
    VictimNotHeld(c, t);
  }

  /** With the receive window 32768 and any send window of two or more, some run loses a message silently. */
  lemma LargestWindowLosesAMessage(c: Config)
    requires Setup(c)
    ensures exists steps, a :: a in Reached(c, steps).accepted && !Safe(c, Reached(c, steps), a)
  {
    var t := SomeStateLosesTheVictim(c);
    var steps :| Reached(c, steps) == t;
    assert VICTIM in Reached(c, steps).accepted && !Safe(c, Reached(c, steps), VICTIM);
  }

  // ----- What the summary records -----

  /** Right after the first delivery, the last number of the largest window arrives and goes unrecorded. */
  lemma SomeJumpIsMissed(c: Config) returns (s: System)
    requires c.Valid() && c.ordered && c.recvWindow == HALF
    ensures Reachable(c, s) && !SummaryInv(s)
  {
    ReachableStart(c);
    var failed := AllFailed(c, Start(c), HALF + 1);
    var one := NextInOrder(c, failed, 0);
    s := ArrivesInWindow(c, one, HALF);
    MarkedIgnores(one.receiver.tracker, 0, HALF);
    NewerIffGreater(HALF, 0);
    assert HALF in s.arrived.Keys;
  }

  /**
    On every channel: in every reachable state the ACK summary describes exactly the numbers recorded, if
    and only if the channel is unordered or its receive window is below 32768.
   */
  lemma SummaryExactIff(c: Config)
    requires c.Valid()
    ensures (forall steps :: SummaryInv(Reached(c, steps))) <==> (c.ordered ==> c.recvWindow < HALF)
  {
    if c.ordered ==> c.recvWindow < HALF {
      forall steps ensures SummaryInv(Reached(c, steps)) {
        StartInv(c);
        RunFromKeepsInv(c, Start(c), steps);
      }
    } else {
      var s := SomeJumpIsMissed(c);
      var steps :| Reached(c, steps) == s;
      assert !SummaryInv(Reached(c, steps));
    }
  }
}

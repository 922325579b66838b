/**
  The exact conditions under which a reliable channel loses nothing silently: over all runs, for every
  channel and any two windows; and over the runs in which no send is reported failed.
 */
module ExactLoss {
  import opened Serial
  import opened Protocol
  import opened OrderedDelivery
  import opened NoSilentLoss
  import opened WindowMustDivide
  import opened LargestWindow
  import opened LargestWindowSafe
  import opened HoleRuns

  /**
    Either the channel is unordered, or its receive window is a power of two; and behind the largest
    receive window, 32768, the sender may have only one packet in flight.
   */
  predicate NeverLoses(c: Config)
    requires c.Valid()
  {
    c.ordered ==> MODULUS % c.recvWindow == 0 && (c.recvWindow < HALF || c.sendWindow == 1)
  }

  /** Every channel, any two windows: nothing accepted is ever lost silently if and only if `NeverLoses`. */
  lemma NothingLostIff(c: Config)
    requires c.Valid()
    ensures (forall steps, a :: a in Reached(c, steps).accepted ==> Safe(c, Reached(c, steps), a)) <==> NeverLoses(c)
  {
    if NeverLoses(c) {
      forall steps, a | a in Reached(c, steps).accepted ensures Safe(c, Reached(c, steps), a) {
        if SafeWindow(c) { AcceptedIsNeverLost(c, steps, a); } else { SingleIsNeverLost(c, steps, a); }
      }
    } else if MODULUS % c.recvWindow != 0 {
      SomeRunLosesAMessage(c);
    } else {
      LargestWindowLosesAMessage(c);
    }
  }

  /** On those channels, in every reachable state, an ACK only ever frees a packet that the peer really has. */
  lemma AckFreesOnlyHeld(c: Config, steps: seq<Step>, k: AckDatagram, i: nat)
    requires c.Valid() && NeverLoses(c)
    requires var s := Reached(c, steps);
             && k in s.acks && FreshAck(s, k)
             && i < |s.sender.slots| == |AfterAck(s, k).sender.slots|
             && s.sender.slots[i].Some? && AfterAck(s, k).sender.slots[i].None?
    ensures var s := Reached(c, steps);
            s.slotNumbers[i] in s.accepted && PeerHas(c, s, s.slotNumbers[i], s.accepted[s.slotNumbers[i]])
  {
    if SafeWindow(c) {
      AckFreesOnlyWhatPeerHas(c, steps, k, i);
    } else {
      var s := Reached(c, steps);
      ReachedSingleInv(c, steps);
      ReachedInv(c, steps);
      ReachedRepresents(c, steps);
      SingleFreesOnlyArrived(s, k);
      OrderedArrivedIsHeld(c, s, s.slotNumbers[i]);
    }
  }

  /**
    Ordered channels with any two windows, over the runs in which no send is reported failed, though the
    codec may refuse packets: nothing is ever lost silently if and only if the receive window divides 65536,
    and then 32768 is as good as any.
   */
  lemma NothingLostWithoutFailureIff(c: Config)
    requires c.Valid() && c.ordered
    ensures (forall steps, a :: Reached(c, steps).failed == {} && a in Reached(c, steps).accepted ==>
               Safe(c, Reached(c, steps), a))
            <==> MODULUS % c.recvWindow == 0
  {
    if MODULUS % c.recvWindow == 0 {
      forall steps, a | Reached(c, steps).failed == {} && a in Reached(c, steps).accepted
        ensures Safe(c, Reached(c, steps), a)
      {
        NeverLostWithoutFailure(c, steps, a);
      }
    } else {
      SomeFailureFreeRunLosesAMessage(c);
    }
  }

  lemma UntroubledIsNeverLost(c: Config, steps: seq<Step>, a: int)
    requires c.Valid() && (c.ordered ==> MODULUS % c.recvWindow == 0 || c.sendWindow == 1)
    requires Untroubled(Reached(c, steps)) && a in Reached(c, steps).accepted
    ensures Safe(c, Reached(c, steps), a)
  {
    if !c.ordered {
      AcceptedIsNeverLost(c, steps, a);
    } else if MODULUS % c.recvWindow == 0 {
      NeverLostWithoutFailure(c, steps, a);
    } else {
      OneByOneIsNeverLost(c, steps, a);
    }
  }

  /**
    Every channel, any two windows, over the runs in which every packet encodes and no send is reported
    failed: nothing is ever lost silently if and only if the channel is unordered, or its receive window
    divides 65536, or its send window is one.
   */
  lemma NothingLostEncodingIff(c: Config)
    requires c.Valid()
    ensures (forall steps, a :: var s := Reached(c, steps);
               AllEncode(steps) && s.failed == {} && a in s.accepted ==> Safe(c, s, a))
            <==> (c.ordered ==> MODULUS % c.recvWindow == 0 || c.sendWindow == 1)
  {
    if c.ordered && MODULUS % c.recvWindow != 0 && c.sendWindow >= 2 {
      SomeUntroubledRunLosesAMessage(c);
      var steps, a :| var s := Reached(c, steps); Untroubled(s) && a in s.accepted && !Safe(c, s, a);
      var encoding := AsIfEncoding(c, steps);
      assert AllEncode(encoding) && a in Reached(c, encoding).accepted && !Safe(c, Reached(c, encoding), a);
    } else {
      forall steps, a | var s := Reached(c, steps); AllEncode(steps) && s.failed == {} && a in s.accepted
        ensures Safe(c, Reached(c, steps), a)
      {
        NoneRefused(c, steps);
        UntroubledIsNeverLost(c, steps, a);
      }
    }
  }
}

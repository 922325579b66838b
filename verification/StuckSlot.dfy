/**
  A packet that an ACK did not cover in time is never freed.  Once the summary's newest number is more
  than 32 above it, no ACK built from then on speaks about it, and an ordered channel cannot get past the
  next number of its slot.
 */
module StuckSlot {
  import opened Serial
  import opened Packets
  import opened AckTracker
  import opened Protocol
  import opened OrderedDelivery
  import opened NoSilentLoss
  import opened AckTops
  import opened Runs
  import opened BlockedChannel
  import Codec

  /** Number `a` is in flight and too old for the summary's history. */
  ghost predicate Stuck(s: System, a: int)
    requires HasShape(s)
  {
    InSlot(s, a) && s.receiver.tracker.hasReceived && a < s.top - HISTORY
  }

  /** The failure of `a` is not reported, and of the ACKs already on the network only those too new for it arrive. */
  predicate Passes(s: System, a: int, step: Step) {
    match step
    case DoSendFailed(number) => number != a
    case DoDeliverAck(k) => k in s.acks ==> a < k.top - HISTORY
    case _ => true
  }

  /** `t` is a later state in which `a` is still stuck, and every ACK built since is too new for it. */
  ghost predicate StillStuck(s: System, a: int, t: System) {
    && HasShape(t) && Stuck(t, a)
    && forall k :: k in t.acks ==> k in s.acks || a < k.top - HISTORY
  }

  lemma AckPasses(s: System, k: AckDatagram, a: int)
    requires SenderInv(s) && TopsInv(s) && k in s.acks && FreshAck(s, k) && InSlot(s, a) && a < k.top - HISTORY
    ensures var t := AfterAck(s, k); HasShape(t) && InSlot(t, a)
  {
    var packet := Codec.Decode(k.frame).value;
    assert AckTop(k, s.arrived.Keys);
    var i := Wrap(a) % s.sender.window;
    assert SlotInv(s, i);
    assert NotAliased(s.slotNumbers[i], k.top - HISTORY, HISTORY + 1);
    if IsAcknowledged(Wrap(a), Wrap(k.top), packet.ackBits) { AckedIsNear(a, k.top, packet.ackBits); }
  }

  lemma SendingStepLeavesSlot(c: Config, s: System, step: Step, a: int)
    requires SenderInv(s) && TopsInv(s) && InSlot(s, a) && Enabled(c, s, step) && !step.DoDeliverData?
    requires step.DoSendFailed? ==> step.number != a
    requires step.DoDeliverAck? ==> a < step.ack.top - HISTORY
    ensures InSlot(Next(c, s, step), a)
  {
    match step
    case DoSend(_, _, _, _, _) => SendOutcomes(c, s, step);
    case DoSendFailed(number) => FailureErasesItsPacket(s, number);
    case DoTick(now) =>
    case DoFlush =>
    case DoDeliverAck(k) => AckPasses(s, k, a);
  }

  lemma NextStillStuck(c: Config, s: System, t: System, step: Step, a: int)
    requires SenderInv(t) && TopsInv(t) && (c.ordered ==> OrderedInv(t) && WindowInv(t) && t.receiver.window <= HALF)
    requires StillStuck(s, a, t) && Passes(s, a, step)
    ensures StillStuck(s, a, Next(c, t, step))
  {
    if Enabled(c, t, step) {
      if step.DoDeliverData? {
        TopNeverFalls(c, t, step.datagram);
        AnsweredWithTop(c, t, step.datagram);
      } else {
        SendingStepLeavesSlot(c, t, step, a);
        SendingStepKeepsReceiver(c, t, step);
      }
    }
  }

  lemma {:induction false} RunStillStuck(c: Config, steps: seq<Step>, more: seq<Step>, a: int)
    requires c.Valid() && Stuck(Reached(c, steps), a)
    requires forall i :: 0 <= i < |more| ==> Passes(Reached(c, steps), a, more[i])
    ensures StillStuck(Reached(c, steps), a, Reached(c, steps + more))
  {
    if more == [] {
      assert steps + more == steps;
    } else {
      var n := |more| - 1;
      RunStillStuck(c, steps, more[..n], a);
      assert steps + more == (steps + more[..n]) + [more[n]];
      OneMoreStillStuck(c, Reached(c, steps), steps + more[..n], more[n], a);
    }
  }

  lemma OneMoreStillStuck(c: Config, s: System, before: seq<Step>, step: Step, a: int)
    requires c.Valid() && HasShape(s) && StillStuck(s, a, Reached(c, before)) && Passes(s, a, step)
    ensures StillStuck(s, a, Reached(c, before + [step]))
  {
    ReachedInv(c, before);
    ReachedTops(c, before);
    NextStillStuck(c, s, Reached(c, before), step, a);
    ReachedAppend(c, before, step, []);
  }

  /** While `a` is in its slot, no later number of that slot has been accepted, or delivered in order. */
  lemma LaterOfSlot(c: Config, s: System, a: int, x: int)
    requires SenderInv(s) && (c.ordered ==> OrderedInv(s)) && InSlot(s, a)
    requires x > a && Wrap(x) % s.sender.window == Wrap(a) % s.sender.window
    ensures x !in s.accepted && (c.ordered ==> s.expected <= x)
  {
    if c.ordered {
      assert SlotInv(s, Wrap(a) % s.sender.window);
      ArrivedBelowExpected(s);
    }
  }

  /**
    A reachable state in which number `a` is in flight and more than 32 below the summary's newest.  Over
    every continuation in which its failure is not reported, and of the older ACKs only those arrive that
    are themselves too new for it, `a` stays in its slot; no later number `x` of that slot is ever accepted,
    and an ordered receiver never gets past the first of them.
   */
  lemma StuckForever(c: Config, steps: seq<Step>, more: seq<Step>, a: int, x: int)
    requires c.Valid() && Stuck(Reached(c, steps), a)
    requires forall i :: 0 <= i < |more| ==> Passes(Reached(c, steps), a, more[i])
    ensures var t := Reached(c, steps + more);
            && InSlot(t, a)
            && (x > a && Wrap(x) % c.sendWindow == Wrap(a) % c.sendWindow ==>
                  x !in t.accepted && (c.ordered ==> t.expected <= x))
  {
    var t := Reached(c, steps + more);
    RunStillStuck(c, steps, more, a);
    ReachedInv(c, steps + more);
    if x > a && Wrap(x) % c.sendWindow == Wrap(a) % c.sendWindow { LaterOfSlot(c, t, a, x); }
  }

  /** One burst of 34 messages whose ACKs are all lost leaves the first of them stuck. */
  lemma LostAcksLeaveItStuck(c: Config)
    requires c.Valid() && c.sendWindow >= HISTORY + 2
    ensures exists steps :: var s := Reached(c, steps); Stuck(s, 0) && 0 in s.arrived && s.failed == {}
  {
    var s := WindowFull(c);
    var t := AllInOrder(c, s, 0, HISTORY + 2);
    assert s.sender.slots[0].Some? && s.slotNumbers[0] == 0;
    ZeroOf(t.sender.window);
    var steps :| Reached(c, steps) == t;
    assert Stuck(Reached(c, steps), 0);
  }

  lemma ZeroOf(w: nat)
    requires w > 0
    ensures Wrap(0) % w == 0
  {
    ModUnique(0, 0, 0, w);
  }

  // ----- Which channels can get there -----

  /** The wrapped number `d` further on. */
  lemma WrapAhead(a: int, d: nat)
    requires d <= MODULUS
    ensures Wrap(a + d) == if Wrap(a) + d < MODULUS then Wrap(a) + d else Wrap(a) + d - MODULUS
  {
  }

  lemma LastTurnDistance(w: nat, d: nat)
    requires 1 <= d <= w <= HALF
    ensures (MODULUS - d) % w == if d <= MODULUS % w then MODULUS % w - d else w + MODULUS % w - d
  {
    var k, q := MODULUS / w, MODULUS % w;
    if d <= q {
      ModUnique(MODULUS - d, k, q - d, w);
    } else {
      assert w * (k - 1) == w * k - w;
      ModUnique(MODULUS - d, k - 1, w + q - d, w);
    }
  }

  lemma NextSlotInTurn(a: int, w: nat)
    requires 1 <= w <= HALF && Wrap(a) + w < MODULUS
    ensures Wrap(a + w) % w == Wrap(a) % w
  {
    WrapAhead(a, w);
    ModOfSum(Wrap(a), 1, w);
  }

  lemma NextSlotOverTheWrap(a: int, w: nat, d: nat)
    requires 1 <= w <= HALF && d == MODULUS - Wrap(a) <= w
    ensures d + Wrap(a) % w <= w + MODULUS % w
    ensures Wrap(a + d + Wrap(a) % w) == Wrap(a) % w < w && (Wrap(a) % w) % w == Wrap(a) % w
  {
    var i := Wrap(a) % w;
    LastTurnDistance(w, d);
    WrapAhead(a, d + i);
    ModUnique(i, 0, i, w);
  }

  /** The next number of the same slot is at most a window and a remainder away; farthest when the wrap is between. */
  lemma NextOfSlot(a: int, w: nat) returns (x: int)
    requires 1 <= w <= HALF
    ensures a < x <= a + w + MODULUS % w && Wrap(x) % w == Wrap(a) % w
    ensures x > a + w ==> Wrap(x) < w
  {
    if Wrap(a) + w < MODULUS {
      x := a + w;
      NextSlotInTurn(a, w);
    } else {
      x := a + (MODULUS - Wrap(a)) + Wrap(a) % w;
      NextSlotOverTheWrap(a, w, MODULUS - Wrap(a));
    }
  }

  /** If the last number of the window is a multiple of `w` above `x`, it shares the slot. */
  lemma MultipleSharesSlot(x: int, w: nat, k: nat)
    requires 1 <= w <= HALF && w * k < HALF && (MODULUS % w == 0 || Wrap(x) < w)
    ensures Wrap(x + w * k) % w == Wrap(x) % w
  {
    if MODULUS % w == 0 {
      SlotOfWrap(x, w);
      SlotOfWrap(x + w * k, w);
      ModOfSum(x, k, w);
    } else {
      WrapAhead(x, w * k);
      ModOfSum(Wrap(x), k, w);
    }
  }

  lemma FarthestSharesSlot(a: int, x: int, w: nat, r: nat)
    requires 1 <= w <= HALF && 1 <= r <= HALF && (r - 1) % w == 0
    requires x == a + w + MODULUS % w && Wrap(x) % w == Wrap(a) % w && (x > a + w ==> Wrap(x) < w)
    ensures Wrap(x + r - 1) % w == Wrap(a) % w
  {
    var k := (r - 1) / w;
    assert r - 1 == w * k;
    MultipleSharesSlot(x, w, k);
    assert x + r - 1 == x + w * k;
  }

  /** How far above a packet in flight an ordered channel can record a number. */
  function Reach(w: nat, r: nat): int
    requires 1 <= w
  {
    w + MODULUS % w + r - if (r - 1) % w == 0 then 2 else 1
  }

  predicate CanGetStuck(c: Config)
    requires c.Valid()
  {
    c.sendWindow >= 2 && (c.ordered ==> Reach(c.sendWindow, c.recvWindow) > HISTORY)
  }

  /** Above a packet in flight nothing of its slot was accepted, and the window ends with the next number of it. */
  lemma RecordedWithinReach(c: Config, s: System, a: int)
    requires c.Valid() && c.ordered && s.sender.window == c.sendWindow && s.receiver.window == c.recvWindow
    requires SenderInv(s) && OrderedInv(s) && WindowInv(s) && InSlot(s, a) && s.top in s.arrived && s.top > a
    ensures s.top - a <= Reach(c.sendWindow, c.recvWindow)
  {
    var w, r := c.sendWindow, c.recvWindow;
    var x := NextOfSlot(a, w);
    LaterOfSlot(c, s, a, x);
    assert s.top < s.expected + r <= x + r;
    if (r - 1) % w == 0 && x == a + w + MODULUS % w {
      FarthestSharesSlot(a, x, w, r);
      if s.top == x + r - 1 { LaterOfSlot(c, s, a, s.top); }
    }
  }

  lemma StuckNeedsReach(c: Config, steps: seq<Step>, a: int)
    requires c.Valid() && Stuck(Reached(c, steps), a)
    ensures CanGetStuck(c)
  {
    var s := Reached(c, steps);
    ReachedInv(c, steps);
    ReachedTops(c, steps);
    assert s.top in s.arrived;
    if c.ordered {
      RecordedWithinReach(c, s, a);
      assert s.top in s.accepted;
    } else {
      StartInv(c);
      RunFromKeepsInv(c, Start(c), steps);
      assert s.top in s.accepted;
    }
    if c.sendWindow == 1 { LaterOfSlot(c, s, a, s.top); }
  }

  /** Number `a` is in flight and nothing else; above it, exactly the numbers of its slot were used up. */
  ghost predicate OnlyStuck(c: Config, s: System, a: nat) {
    && Reachable(c, s) && OnlyInFlight(s, a) && InSlot(s, a) && a < s.next && InOrderUpTo(c, s, a)
    && AllBesides(c.sendWindow, s.accepted, a, s.next)
  }

  predicate SharesSlot(w: nat, a: int, x: int) {
    w > 0 && Wrap(x) % w == Wrap(a) % w
  }

  /** Accepted are the numbers below `n`, except the later ones of the slot of `a`. */
  ghost predicate AllBesides(w: nat, accepted: map<int, Payload>, a: int, n: int) {
    forall x {:trigger x in accepted} :: x in accepted <==> 0 <= x < n && (x > a ==> !SharesSlot(w, a, x))
  }

  lemma OneMoreAccepted(w: nat, accepted: map<int, Payload>, a: int, n: int, payload: Payload)
    requires AllBesides(w, accepted, a, n) && 0 <= a < n
    ensures SharesSlot(w, a, n) ==> AllBesides(w, accepted, a, n + 1)
    ensures !SharesSlot(w, a, n) ==> AllBesides(w, accepted[n := payload], a, n + 1)
  {
  }

  lemma FirstInFlight(c: Config, a: nat) returns (s: System)
    requires c.Valid()
    ensures OnlyStuck(c, s, a) && s.next == a + 1
  {
    var quiet := QuietReachable(c, a);
    s := SendNext(c, quiet);
    ReachableInv(c, s);
  }

  lemma OtherFails(c: Config, s: System, a: int, z: int) returns (t: System)
    requires SenderInv(s) && s.next == z + 1 && InSlot(s, z) && InSlot(s, a) && a != z
    requires forall i :: 0 <= i < |s.sender.slots| && s.sender.slots[i].Some? ==> s.slotNumbers[i] == a || s.slotNumbers[i] == z
    ensures t == Next(c, s, DoSendFailed(z)) && SameReceiver(s, t) && t.next == s.next && t.accepted == s.accepted
    ensures OnlyInFlight(t, a) && InSlot(t, a)
  {
    assert SlotInv(s, Wrap(z) % s.sender.window);
    t := Next(c, s, DoSendFailed(z));
    forall i | 0 <= i < |t.sender.slots| && t.sender.slots[i].Some? ensures i == Wrap(a) % s.sender.window && s.slotNumbers[i] == a {
      assert SlotInv(s, i);
    }
  }

  /** The next number shares the slot of `a`: it is used up. */
  lemma OneMoreUsedUp(c: Config, s: System, a: nat) returns (t: System)
    requires OnlyStuck(c, s, a) && c.sendWindow >= 2 && SharesSlot(c.sendWindow, a, s.next)
    ensures OnlyStuck(c, t, a) && t.next == s.next + 1
  {
    ReachableInv(c, s);
    var busy := Wrap(a) % c.sendWindow;
    OpenButBusy(c, s, busy, if busy == 0 then 1 else 0);
    t := UsedUp(c, s);
    ReachableNext(c, s, SendStep(c));
    OneMoreAccepted(c.sendWindow, s.accepted, a, s.next, []);
  }

  /** The next number goes to another slot: it is sent, and its send is reported failed. */
  lemma OneMoreFailed(c: Config, s: System, a: nat) returns (t: System)
    requires OnlyStuck(c, s, a) && c.sendWindow > 0 && !SharesSlot(c.sendWindow, a, s.next)
    ensures OnlyStuck(c, t, a) && t.next == s.next + 1
  {
    ReachableInv(c, s);
    var sent := SendNext(c, s);
    ReachableInv(c, sent);
    t := OtherFails(c, sent, a, s.next);
    ReachableNext(c, sent, DoSendFailed(s.next));
    OneMoreAccepted(c.sendWindow, s.accepted, a, s.next, []);
  }

  lemma OneMoreBesides(c: Config, s: System, a: nat) returns (t: System)
    requires OnlyStuck(c, s, a) && c.sendWindow >= 2
    ensures OnlyStuck(c, t, a) && t.next == s.next + 1
  {
    if SharesSlot(c.sendWindow, a, s.next) {
      t := OneMoreUsedUp(c, s, a);
    } else {
      t := OneMoreFailed(c, s, a);
    }
  }

  lemma {:induction false} BesidesUpTo(c: Config, s: System, a: nat, n: nat) returns (t: System)
    requires OnlyStuck(c, s, a) && c.sendWindow >= 2 && s.next <= n
    ensures OnlyStuck(c, t, a) && t.next == n
    decreases n - s.next
  {
    t := s;
    if s.next < n {
      var u := OneMoreBesides(c, s, a);
      t := BesidesUpTo(c, u, a, n);
    }
  }

  /** Number `65536 - w` goes to slot `65536 % w`, and no number goes there again before the wrap and as many more. */
  lemma FreeUntil(w: nat, x: int)
    requires 1 <= w <= HALF && MODULUS - w < x < MODULUS + MODULUS % w
    ensures Wrap(MODULUS - w) % w == MODULUS % w != Wrap(x) % w
  {
    LastTurnDistance(w, w);
    if x < MODULUS {
      LastTurnDistance(w, MODULUS - x);
    } else {
      ModUnique(x - MODULUS, 0, x - MODULUS, w);
    }
  }

  /** The first number more than 32 above that does not go to its slot. */
  lemma FarEnough(w: nat) returns (x: int)
    requires 2 <= w <= HALF
    ensures MODULUS - w + HISTORY < x <= MODULUS - w + HISTORY + 2
    ensures Wrap(x) % w != Wrap(MODULUS - w) % w
    ensures x == MODULUS - w + HISTORY + 1 || Wrap(MODULUS - w + HISTORY + 1) % w == Wrap(MODULUS - w) % w
  {
    x := MODULUS - w + HISTORY + 1;
    if Wrap(x) % w == Wrap(MODULUS - w) % w {
      FreeNeighbour(x, w);
      x := x + 1;
    }
  }

  lemma FreeNeighbour(x: int, w: nat)
    requires 2 <= w <= HALF && 0 <= x < MODULUS + HALF
    requires x >= MODULUS - 1 ==> x >= MODULUS
    ensures Wrap(x + 1) % w != Wrap(x) % w
  {
    var q, i := Wrap(x) / w, Wrap(x) % w;
    assert Wrap(x + 1) == Wrap(x) + 1;
    if i + 1 < w { ModUnique(Wrap(x) + 1, q, i + 1, w); } else { ModUnique(Wrap(x) + 1, q + 1, 0, w); }
  }

  /** Everything up to the next number of its slot, or as far as needed, arrives in order, and then `far`. */
  lemma ArrivesFarAbove(c: Config, s: System, a: nat, m: nat, far: int) returns (t: System)
    requires OnlyStuck(c, s, a) && a < m <= far < s.next && a + HISTORY < far < a + HALF
    requires c.ordered ==> far < m + c.recvWindow
    requires !SharesSlot(c.sendWindow, a, far)
    requires forall x :: a < x < m ==> !SharesSlot(c.sendWindow, a, x)
    ensures Reachable(c, t) && Stuck(t, a)
  {
    var u := AllInOrder(c, s, a, m);
    t := ArrivesAhead(c, u, m, far);
  }

  lemma SomeSlotGetsStuck(c: Config) returns (t: System, a: int)
    requires c.Valid() && CanGetStuck(c)
    ensures Reachable(c, t) && Stuck(t, a)
  {
    var w := c.sendWindow;
    a := MODULUS - w;
    var far := FarEnough(w);
    var next := MODULUS + MODULUS % w;
    var m := if far < next then far else next;
    forall x | a < x < m ensures !SharesSlot(w, a, x) { FreeUntil(w, x); }
    var first := FirstInFlight(c, a);
    var s := BesidesUpTo(c, first, a, far + 1);
    if c.ordered { WithinTheWindow(c, far, next); }
    t := ArrivesFarAbove(c, s, a, m, far);
  }

  lemma StepsBackToSlot(i: nat, n: nat, w: nat)
    requires i < w && (i + n) % w == i
    ensures n % w == 0
  {
    var k, j := n / w, n % w;
    ModOfSum(i + j, k, w);
    if i + j < w { ModUnique(i + j, 0, i + j, w); } else { ModUnique(i + j, 1, i + j - w, w); }
  }

  /** That number is inside the window that ends at the next number of the slot. */
  lemma WithinTheWindow(c: Config, far: int, next: int)
    requires c.Valid() && c.ordered && CanGetStuck(c) && next == MODULUS + MODULUS % c.sendWindow
    requires var a := MODULUS - c.sendWindow;
             && a + HISTORY < far <= a + HISTORY + 2
             && (far == a + HISTORY + 1 || Wrap(a + HISTORY + 1) % c.sendWindow == Wrap(a) % c.sendWindow)
    ensures far < next + c.recvWindow
  {
    var w, q, r := c.sendWindow, MODULUS % c.sendWindow, c.recvWindow;
    LastTurnDistance(w, w);
    assert w + q + r >= HISTORY + 2;
    if far == MODULUS - w + HISTORY + 2 && w + q + r == HISTORY + 2 {
      assert MODULUS - w + HISTORY + 1 == MODULUS + (q + r - 1);
      assert Wrap(MODULUS - w + HISTORY + 1) == q + (r - 1);
      StepsBackToSlot(q, r - 1, w);
    }
  }

  /**
    On which channels a packet can get stuck at all: unordered ones with a send window of two or more, and
    ordered ones whose windows, with the remainder of the turn, reach more than 32 numbers above it.
   */
  lemma StuckIff(c: Config)
    requires c.Valid()
    ensures (exists steps, a :: Stuck(Reached(c, steps), a)) <==> CanGetStuck(c)
  {
    if CanGetStuck(c) {
      var t, a := SomeSlotGetsStuck(c);
      var steps :| Reached(c, steps) == t;
      assert Stuck(Reached(c, steps), a);
    } else {
      forall steps, a ensures !Stuck(Reached(c, steps), a) {
        if Stuck(Reached(c, steps), a) { StuckNeedsReach(c, steps, a); }
      }
    }
  }
}

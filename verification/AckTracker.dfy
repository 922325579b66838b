/**
  The receive-side ACK summary: the newest number received and a 32-bit history below it.
  The main result is that this summary is exact: it tells, for every number in its history,
  precisely whether that number was received, across any number of 16-bit wraps.
 */
module AckTracker {
  import opened Serial
  import opened Words

  const HISTORY := 32

  datatype Tracker = Tracker(hasReceived: bool, latest: Seq16, ackBits: U32)

  const EMPTY := Tracker(false, 0, 0)

  /** The history after the newest number moved forward by `d`. */
  function BitsAhead(ackBits: U32, d: nat): U32
    requires d >= 1
  {
    if d <= HISTORY then Or32(Shl(ackBits, d), Shl(1, d - 1)) else 0
  }

  /** One arrival of `s`; the specification of `ReceiveAckTracker.MarkReceived`. */
  function Marked(t: Tracker, s: Seq16): Tracker {
    if !t.hasReceived then
      Tracker(true, s, 0)
    else
      var forwardDelta := Delta(s, t.latest);
      if forwardDelta == 0 then
        t
      else if forwardDelta < HALF then
        Tracker(true, s, BitsAhead(t.ackBits, forwardDelta))
      else
        var backDelta := Delta(t.latest, s);
        if 1 <= backDelta <= HISTORY
        then t.(ackBits := Or32(t.ackBits, Shl(1, backDelta - 1)))
        else t
  }

  predicate IsAcknowledged(s: Seq16, ack: Seq16, ackBits: U32) {
    s == ack ||
    var backDelta := Delta(ack, s);
    backDelta != 0 && backDelta <= HISTORY && backDelta < HALF && TestBit(ackBits, backDelta - 1)
  }

  class ReceiveAckTracker {
    var hasReceived: bool
    var latestSequence: Seq16
    var ackBits: U32

    ghost function View(): Tracker
      reads this
    {
      Tracker(hasReceived, latestSequence, ackBits)
    }

    constructor ()
      ensures View() == EMPTY
    {
      hasReceived, latestSequence, ackBits := false, 0, 0;
    }

    method MarkReceived(sequenceNumber: Seq16)
      modifies this
      ensures View() == Marked(old(View()), sequenceNumber)
    {
      if !hasReceived {
        hasReceived := true;
        latestSequence := sequenceNumber;
        ackBits := 0;
        return;
      }
      var forwardDelta := Delta(sequenceNumber, latestSequence);
      if forwardDelta == 0 {
        return;
      }
      if forwardDelta < HALF {
        if forwardDelta <= HISTORY {
          ackBits := Or32(Shl(ackBits, forwardDelta), Shl(1, forwardDelta - 1));
        } else {
          ackBits := 0;
        }
        latestSequence := sequenceNumber;
        return;
      }
      var backDelta := Delta(latestSequence, sequenceNumber);
      if 1 <= backDelta <= HISTORY {
        ackBits := Or32(ackBits, Shl(1, backDelta - 1));
      }
    }
  }

  // ----- What the summary means -----

  /** Every number the summary vouches for was received; `top` is the absolute newest. */
  ghost predicate Sound(t: Tracker, received: set<int>, top: int) {
    t.hasReceived ==>
      && top in received
      && t.latest == Wrap(top)
      && forall j :: 0 <= j < HISTORY && Bit(t.ackBits, j) ==> top - 1 - j in received
  }

  /** `Sound`, and the summary misses nothing: `top` is the maximum and each history bit is right. */
  ghost predicate Exact(t: Tracker, received: set<int>, top: int) {
    && t.hasReceived == (received != {})
    && (received != {} ==>
          && top in received
          && t.latest == Wrap(top)
          && (forall r :: r in received ==> r <= top)
          && forall j :: 0 <= j < HISTORY ==> (Bit(t.ackBits, j) <==> top - 1 - j in received))
  }

  /** Bit `j` after a forward move by `d`. */
  lemma BitAfterForward(bits: U32, d: nat, j: nat)
    requires 1 <= d <= HISTORY && j < HISTORY
    ensures Bit(Or32(Shl(bits, d), Shl(1, d - 1)), j) <==> j == d - 1 || (j >= d && Bit(bits, j - d))
  {
    BitOfOrMask(Shl(bits, d), d - 1, j);
    BitOfShl(bits, d, j);
  }

  /** An arrival less than 2^15 ahead, in absolute numbers. */
  lemma MarkedAhead(t: Tracker, top: int, a: int)
    requires t.hasReceived && t.latest == Wrap(top) && top < a < top + HALF
    ensures Marked(t, Wrap(a)) == Tracker(true, Wrap(a), BitsAhead(t.ackBits, a - top))
  {
    DeltaOfWraps(a, top);
    assert Delta(Wrap(a), t.latest) == a - top;
  }

  /** An arrival inside the history. */
  lemma MarkedBehind(t: Tracker, top: int, a: int)
    requires t.hasReceived && t.latest == Wrap(top) && top - HISTORY <= a < top
    ensures Marked(t, Wrap(a)) == t.(ackBits := Or32(t.ackBits, Shl(1, top - a - 1)))
  {
    DeltaOfWraps(a, top);
    DeltaOfWraps(top, a);
    assert Delta(t.latest, Wrap(a)) == top - a;
    assert Delta(Wrap(a), t.latest) == MODULUS - (top - a);
  }

  /** A repeat of the newest, a number below the history, and a jump of exactly 2^15 change nothing. */
  lemma MarkedIgnores(t: Tracker, top: int, a: int)
    requires t.hasReceived && t.latest == Wrap(top)
    requires a == top || -HALF <= a - top < -HISTORY || a - top == HALF
    ensures Marked(t, Wrap(a)) == t
  {
    DeltaOfWraps(a, top);
    DeltaOfWraps(top, a);
  }

  lemma BitAhead(bits: U32, d: nat, j: nat)
    requires 1 <= d && j < HISTORY
    ensures Bit(BitsAhead(bits, d), j) <==> d <= HISTORY && (j == d - 1 || (j >= d && Bit(bits, j - d)))
  {
    if d <= HISTORY { BitAfterForward(bits, d, j); } else { BitOfZero(j); }
  }

  /** Bit `j` of a sound summary after a forward move, and of an exact one. */
  lemma ForwardBit(t: Tracker, received: set<int>, top: int, a: int, j: nat)
    requires t.hasReceived && Sound(t, received, top) && top < a && j < HISTORY
    ensures Bit(BitsAhead(t.ackBits, a - top), j) ==> a - 1 - j in received
    ensures Exact(t, received, top) && a - 1 - j in received ==> Bit(BitsAhead(t.ackBits, a - top), j)
  {
    var d := a - top;
    BitAhead(t.ackBits, d, j);
    if j >= d { assert top - 1 - (j - d) == a - 1 - j; }
  }

  lemma MarkForward(t: Tracker, received: set<int>, top: int, a: int)
    requires t.hasReceived && Sound(t, received, top) && top < a < top + HALF
    ensures Sound(Marked(t, Wrap(a)), received + {a}, a)
    ensures Exact(t, received, top) ==> Exact(Marked(t, Wrap(a)), received + {a}, a)
  {
    MarkedAhead(t, top, a);
    var bits := BitsAhead(t.ackBits, a - top);
    forall j | 0 <= j < HISTORY
      ensures Bit(bits, j) ==> a - 1 - j in received
      ensures Exact(t, received, top) && a - 1 - j in received ==> Bit(bits, j)
    {
      ForwardBit(t, received, top, a, j);
    }
  }

  lemma MarkBackward(t: Tracker, received: set<int>, top: int, a: int)
    requires t.hasReceived && Sound(t, received, top) && -HALF <= a - top <= 0
    ensures Sound(Marked(t, Wrap(a)), received + {a}, top)
    ensures Exact(t, received, top) ==> Exact(Marked(t, Wrap(a)), received + {a}, top)
  {
    if a == top || a < top - HISTORY {
      MarkedIgnores(t, top, a);
    } else {
      MarkedBehind(t, top, a);
      var u := Marked(t, Wrap(a));
      forall j | 0 <= j < HISTORY
        ensures Bit(u.ackBits, j) <==> Bit(t.ackBits, j) || j == top - a - 1
      {
        BitOfOrMask(t.ackBits, top - a - 1, j);
      }
    }
  }

  function Max(x: int, y: int): int {
    if x < y then y else x
  }

  /** One arrival keeps the summary sound even when it jumps forward by exactly 2^15, which it ignores. */
  lemma MarkedKeepsSound(t: Tracker, received: set<int>, top: int, a: int)
    requires Sound(t, received, top)
    requires t.hasReceived ==> -HALF <= a - top <= HALF
    ensures var top' := if !t.hasReceived then a else if a == top + HALF then top else Max(top, a);
            Sound(Marked(t, Wrap(a)), received + {a}, top')
  {
    if !t.hasReceived {
      forall j | 0 <= j < HISTORY ensures !Bit(0, j) { BitOfZero(j); }
    } else if a == top + HALF {
      MarkedIgnores(t, top, a);
    } else if a > top {
      MarkForward(t, received, top, a);
    } else {
      MarkBackward(t, received, top, a);
    }
  }

  lemma MarkedKeepsExact(t: Tracker, received: set<int>, top: int, a: int)
    requires Exact(t, received, top)
    requires received != {} ==> -HALF <= a - top < HALF
    ensures Exact(Marked(t, Wrap(a)), received + {a}, if received == {} then a else Max(top, a))
  {
    if received == {} {
      forall j | 0 <= j < HISTORY ensures !Bit(0, j) { BitOfZero(j); }
    } else if a > top {
      MarkForward(t, received, top, a);
    } else {
      MarkBackward(t, received, top, a);
    }
  }

  /**
    Within one turn of the counter the tracker stays exact exactly when the arrival is at most
    2^15 behind, or less than 2^15 ahead of, the newest number.
   */
  lemma MarkedExactIff(t: Tracker, received: set<int>, top: int, a: int)
    requires received != {} && Exact(t, received, top) && -MODULUS < a - top < MODULUS
    ensures Exact(Marked(t, Wrap(a)), received + {a}, Max(top, a)) <==> -HALF <= a - top < HALF
  {
    if -HALF <= a - top < HALF {
      MarkedKeepsExact(t, received, top, a);
    } else {
      LatestAfter(t, Wrap(a));
      DeltaOfWraps(a, top);
      assert Wrap(a) != Wrap(top);
    }
  }

  lemma LatestAfter(t: Tracker, s: Seq16)
    requires t.hasReceived
    ensures Marked(t, s).latest == if IsNewerSequence(s, t.latest) then s else t.latest
  {
  }

  // ----- Whole runs -----

  /** The tracker after the arrivals, oldest first. */
  function Run(arrivals: seq<int>): Tracker {
    if arrivals == [] then EMPTY
    else Marked(Run(arrivals[..|arrivals| - 1]), Wrap(arrivals[|arrivals| - 1]))
  }

  ghost function Elements(arrivals: seq<int>): set<int> {
    set r | r in arrivals
  }

  function Newest(arrivals: seq<int>): int
    requires arrivals != []
  {
    var n := |arrivals| - 1;
    if n == 0 then arrivals[0] else Max(Newest(arrivals[..n]), arrivals[n])
  }

  /** Every arrival is at most 2^15 behind, and less than 2^15 ahead of, the newest before it. */
  ghost predicate Timely(arrivals: seq<int>) {
    forall i {:trigger arrivals[i]} :: 0 < i < |arrivals| ==>
      -HALF <= arrivals[i] - Newest(arrivals[..i]) < HALF
  }

  lemma TimelyPrefix(arrivals: seq<int>)
    requires arrivals != [] && Timely(arrivals)
    ensures Timely(arrivals[..|arrivals| - 1])
  {
    var before := arrivals[..|arrivals| - 1];
    forall i {:trigger before[i]} | 0 < i < |before| ensures -HALF <= before[i] - Newest(before[..i]) < HALF {
      assert before[..i] == arrivals[..i];
      assert arrivals[i] == before[i];
    }
  }

  lemma ElementsOfSnoc(before: seq<int>, a: int)
    ensures Elements(before + [a]) == Elements(before) + {a}
    ensures Elements(before) == {} <==> before == []
  {
    if before != [] { assert before[0] in Elements(before); }
  }

  lemma {:induction false} RunIsExact(arrivals: seq<int>)
    requires Timely(arrivals)
    ensures Exact(Run(arrivals), Elements(arrivals), if arrivals == [] then 0 else Newest(arrivals))
  {
    if arrivals != [] {
      var n := |arrivals| - 1;
      var before := arrivals[..n];
      TimelyPrefix(arrivals);
      RunIsExact(before);
      assert arrivals == before + [arrivals[n]];
      ElementsOfSnoc(before, arrivals[n]);
      MarkedKeepsExact(Run(before), Elements(before), if before == [] then 0 else Newest(before), arrivals[n]);
    }
  }

  /** The newest number a non-empty exact tracker reports, and what it acknowledges. */
  /** A number not mistaken for another is at most 32 back on the wire exactly when it really is. */
  lemma DistanceBack(s: int, top: int)
    requires NotAliased(s, top - HISTORY, HISTORY + 1)
    ensures Delta(Wrap(top), Wrap(s)) == Wrap(top - s)
    ensures Wrap(top - s) <= HISTORY <==> top - HISTORY <= s <= top
    ensures Wrap(s) == Wrap(top) <==> s == top
  {
    DeltaOfWraps(top, s);
    assert Wrap(s - (top - HISTORY)) == Wrap(HISTORY - Wrap(top - s));
  }

  lemma ExactAcknowledges(t: Tracker, received: set<int>, top: int, s: int)
    requires received != {} && Exact(t, received, top)
    requires NotAliased(s, top - HISTORY, HISTORY + 1)
    ensures IsAcknowledged(Wrap(s), t.latest, t.ackBits) <==> s in received && top - HISTORY <= s
  {
    DistanceBack(s, top);
    if top - HISTORY <= s < top {
      assert Wrap(top - s) == top - s;
      TestBitIsBit(t.ackBits, top - 1 - s);
      assert Bit(t.ackBits, top - 1 - s) <==> top - 1 - (top - 1 - s) in received;
    }
  }

  /** What a sound summary acknowledges was received, provided `s` is not mistaken for a recent number. */
  lemma SoundAcknowledges(latest: Seq16, ackBits: U32, received: set<int>, top: int, s: int)
    requires Sound(Tracker(true, latest, ackBits), received, top)
    requires NotAliased(s, top - HISTORY, HISTORY + 1)
    requires IsAcknowledged(Wrap(s), latest, ackBits)
    ensures s in received
  {
    DistanceBack(s, top);
    if s != top {
      TestBitIsBit(ackBits, top - s - 1);
      assert Bit(ackBits, top - s - 1) ==> top - 1 - (top - s - 1) in received;
    }
  }

  /** `t` is the exact summary of the arrivals whose newest is `top`, seen at number `s`. */
  ghost predicate Summarises(t: Tracker, arrivals: seq<int>, top: int, s: int) {
    && t.hasReceived
    && t.latest == Wrap(top)
    && top in arrivals
    && (forall r :: r in arrivals ==> r <= top)
    && (IsAcknowledged(Wrap(s), t.latest, t.ackBits) <==> s in arrivals && top - HISTORY <= s)
  }

  lemma ExactSummarises(t: Tracker, arrivals: seq<int>, top: int, s: int)
    requires arrivals != [] && Exact(t, Elements(arrivals), top)
    requires NotAliased(s, top - HISTORY, HISTORY + 1)
    ensures Summarises(t, arrivals, top, s)
  {
    var received := Elements(arrivals);
    assert arrivals[0] in received;
    ExactAcknowledges(t, received, top, s);
    forall r | r in arrivals ensures r <= top { assert r in received; }
  }

  /**
    After any timely arrivals, across all wraps, `latestSequence_` is the newest number received
    and a number is acknowledged exactly when it was received and is at most 32 below the newest.
   */
  lemma SummaryIsExact(arrivals: seq<int>, s: int)
    requires arrivals != [] && Timely(arrivals)
    requires NotAliased(s, Newest(arrivals) - HISTORY, HISTORY + 1)
    ensures Summarises(Run(arrivals), arrivals, Newest(arrivals), s)
  {
    RunIsExact(arrivals);
    ExactSummarises(Run(arrivals), arrivals, Newest(arrivals), s);
  }
}

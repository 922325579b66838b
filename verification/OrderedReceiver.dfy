/**
  The ordered receiver in absolute numbers.

  For any window size it delivers what was sent, in order.  When the window divides 65536 it does
  more: it behaves exactly like a receiver that keeps an unbounded set of everything accepted.
 */
module OrderedReceiver {
  import opened Serial
  import opened Packets
  import opened Slots
  import opened AckTracker
  import opened ReliableReceiver

  /** Every buffered packet sits in its slot, inside the window from `e` on, with the content sent under its number. */
  ghost predicate InPlace(r: Receiver, e: int, content: map<int, Payload>) {
    && HasShape(r)
    && r.expected == Wrap(e)
    && forall i {:trigger SlotInPlace(r, e, content, i)} ::
         0 <= i < |r.buffer| && r.buffer[i].Some? ==> SlotInPlace(r, e, content, i)
  }

  ghost predicate SlotInPlace(r: Receiver, e: int, content: map<int, Payload>, i: nat)
    requires HasShape(r) && i < |r.buffer| && r.buffer[i].Some?
  {
    var p := r.buffer[i].value;
    var a := e + Ahead(r, p.sequenceNumber);
    && p.sequenceNumber % r.window == i
    && a < e + r.window
    && a in content && content[a] == p.payload
  }

  /** `out` is what was sent under the numbers from `e` on. */
  ghost predicate Delivers(content: map<int, Payload>, e: int, out: seq<Payload>) {
    forall k {:trigger out[k]} :: 0 <= k < |out| ==> IsContent(content, e + k, out[k])
  }

  ghost predicate IsContent(content: map<int, Payload>, a: int, payload: Payload) {
    a in content && content[a] == payload
  }

  /** In the window, the 16-bit distance is the true distance. */
  lemma WindowDistance(r: Receiver, e: int, a: int)
    requires HasShape(r) && r.expected == Wrap(e) && NotAliased(a, e, r.window)
    ensures InOrderedWindow(r, Wrap(a)) <==> e <= a < e + r.window
    ensures e <= a < e + MODULUS ==> Ahead(r, Wrap(a)) == a - e
  {
    DeltaOfWraps(a, e);
  }

  lemma EffectKeepsInPlace(r: Receiver, q: Receiver, out: seq<Payload>, e: int, content: map<int, Payload>)
    requires InPlace(r, e, content) && DrainEffect(r, q, out)
    ensures InPlace(q, e + |out|, content)
  {
    forall i | 0 <= i < |q.buffer| && q.buffer[i].Some?
      ensures SlotInPlace(q, e + |out|, content, i)
    {
      assert q.buffer[i] == if IsFront(r, i, |out|) then None else r.buffer[i];
      assert SlotInPlace(r, e, content, i);
      assert !IsFront(r, i, |out|);
      AheadAfter(r, q, |out|, r.buffer[i].value.sequenceNumber);
    }
  }

  lemma DrainKeepsInPlace(r: Receiver, e: int, content: map<int, Payload>)
    requires InPlace(r, e, content)
    ensures var (q, out) := Drain(r); InPlace(q, e + |out|, content) && Delivers(content, e, out)
  {
    var (q, out) := Drain(r);
    DrainSpec(r);
    CountBounds(r.buffer);
    DrainDelivers(r, e, content, out);
    EffectKeepsInPlace(r, q, out, e, content);
  }

  lemma AheadAfter(r: Receiver, q: Receiver, n: nat, s: Seq16)
    requires q.expected == Later(r, n) && n <= Ahead(r, s)
    ensures Ahead(q, s) == Ahead(r, s) - n
  {
  }

  lemma DrainDelivers(r: Receiver, e: int, content: map<int, Payload>, out: seq<Payload>)
    requires InPlace(r, e, content) && TakesFront(r, out) && |out| <= r.window
    ensures Delivers(content, e, out)
  {
    forall k {:trigger out[k]} | 0 <= k < |out| ensures IsContent(content, e + k, out[k]) {
      assert HoldsPayload(r, Later(r, k), out[k]);
      assert SlotInPlace(r, e, content, Later(r, k) % r.window);
      AheadOfLater(r, k);
    }
  }

  lemma AheadOfLater(r: Receiver, k: nat)
    requires k < MODULUS
    ensures Ahead(r, Later(r, k)) == k
  {
  }

  /** Putting a packet of the window into its free slot keeps everything in place. */
  lemma StoreKeepsInPlace(r: Receiver, e: int, content: map<int, Payload>, a: int, q: Receiver)
    requires InPlace(r, e, content) && e <= a < e + r.window && a in content
    requires q.window == r.window && q.expected == r.expected
    requires q.buffer == r.buffer[Wrap(a) % r.window := Some(Buffered(Wrap(a), content[a]))]
    ensures InPlace(q, e, content)
  {
    WindowDistance(r, e, a);
    forall i | 0 <= i < |q.buffer| && q.buffer[i].Some?
      ensures SlotInPlace(q, e, content, i)
    {
      if i != Wrap(a) % r.window {
        assert SlotInPlace(r, e, content, i);
      }
    }
  }

  /**
    For every window size: an arrival not mistaken for a number of the window leaves everything in
    place, and whatever it causes to be delivered continues the sequence at the expected number.
   */
  lemma OrderedStep(r: Receiver, e: int, content: map<int, Payload>, a: int) returns (q: Receiver, out: seq<Payload>)
    requires InPlace(r, e, content) && a in content && NotAliased(a, e, r.window)
    ensures (q, out) == ReceiveOrdered(r, Wrap(a), content[a])
    ensures q.window == r.window
    ensures InPlace(q, e + |out|, content)
    ensures Delivers(content, e, out)
    ensures q.tracker == if e <= a < e + r.window then Marked(r.tracker, Wrap(a)) else r.tracker
  {
    WindowDistance(r, e, a);
    if e <= a < e + r.window {
      var marked := r.(tracker := Marked(r.tracker, Wrap(a)));
      MarkKeepsInPlace(r, e, content, marked.tracker);
      if r.buffer[Wrap(a) % r.window].Some? {
        q, out := marked, [];
      } else {
        q, out := StoreAndDrain(marked, e, content, a);
      }
    } else {
      q, out := r, [];
    }
  }

  lemma StoreAndDrain(r: Receiver, e: int, content: map<int, Payload>, a: int) returns (q: Receiver, out: seq<Payload>)
    requires InPlace(r, e, content) && e <= a < e + r.window && a in content
    ensures var stored := r.(buffer := r.buffer[Wrap(a) % r.window := Some(Buffered(Wrap(a), content[a]))]);
            HasShape(stored) && (q, out) == Drain(stored)
    ensures q.window == r.window && q.tracker == r.tracker
    ensures InPlace(q, e + |out|, content) && Delivers(content, e, out)
  {
    var stored := r.(buffer := r.buffer[Wrap(a) % r.window := Some(Buffered(Wrap(a), content[a]))]);
    StoreKeepsInPlace(r, e, content, a, stored);
    DrainKeepsInPlace(stored, e, content);
    DrainSpec(stored);
    q, out := Drain(stored).0, Drain(stored).1;
  }

  // ----- Refinement of a set, when the window divides 65536 -----

  /** `e` is the least number never accepted. */
  ghost predicate LeastMissing(accepted: map<int, Payload>, e: int) {
    AllBelow(accepted, e) && e !in accepted
  }

  /**
    The receiver stands for the set of accepted numbers: it expects the least missing one, its
    buffer holds exactly the accepted numbers above that, and its ACK summary is exact.
   */
  ghost predicate Represents(r: Receiver, e: int, accepted: map<int, Payload>) {
    && InPlace(r, e, accepted)
    && LeastMissing(accepted, e)
    && HoldsAccepted(r, e, accepted)
  }

  ghost predicate SummaryExact(t: Tracker, accepted: map<int, Payload>) {
    exists top :: Exact(t, accepted.Keys, top)
  }

  /** An arrival as a receiver with an unbounded set would treat it; the first copy of a number wins. */
  function Accept(accepted: map<int, Payload>, e: int, window: nat, a: int, payload: Payload): map<int, Payload> {
    if e <= a < e + window && a !in accepted then accepted[a := payload] else accepted
  }

  /** An occupied slot at an arrival inside the window means a true duplicate. */
  lemma OccupiedMeansDuplicate(r: Receiver, e: int, accepted: map<int, Payload>, a: int)
    requires InPlace(r, e, accepted) && MODULUS % r.window == 0
    requires e <= a < e + r.window && r.buffer[Wrap(a) % r.window].Some?
    ensures a in accepted && Holds(r, Wrap(a))
  {
    var i := Wrap(a) % r.window;
    assert SlotInPlace(r, e, accepted, i);
    var s := r.buffer[i].value.sequenceNumber;
    var b := e + Ahead(r, s);
    WrapOfAhead(e, s);
    SlotOfWrap(a, r.window);
    SlotOfWrap(b, r.window);
    SlotInjectiveInWindow(a, b, e, r.window);
  }

  lemma WrapOfAhead(e: int, s: Seq16)
    ensures Wrap(e + Delta(s, Wrap(e))) == s
  {
  }

  lemma InPlaceInMore(r: Receiver, e: int, small: map<int, Payload>, big: map<int, Payload>)
    requires InPlace(r, e, small)
    requires forall x :: x in small ==> x in big && big[x] == small[x]
    ensures InPlace(r, e, big)
  {
    forall i | 0 <= i < |r.buffer| && r.buffer[i].Some? ensures SlotInPlace(r, e, big, i) {
      assert SlotInPlace(r, e, small, i);
    }
  }

  /** The buffer holds the accepted numbers from `e` on, and nothing beyond the window was accepted. */
  ghost predicate HoldsAccepted(r: Receiver, e: int, accepted: map<int, Payload>)
    requires HasShape(r)
  {
    && (forall x :: x in accepted ==> 0 <= x < e + r.window)
    && (forall x {:trigger Holds(r, Wrap(x))} :: x in accepted && x >= e ==> Holds(r, Wrap(x)))
  }

  ghost predicate AllBelow(accepted: map<int, Payload>, e: int) {
    0 <= e && forall x :: 0 <= x < e ==> x in accepted
  }

  lemma EffectHoldsAccepted(r: Receiver, q: Receiver, out: seq<Payload>, e: int, accepted: map<int, Payload>)
    requires InPlace(r, e, accepted) && HoldsAccepted(r, e, accepted) && DrainEffect(r, q, out)
    ensures HoldsAccepted(q, e + |out|, accepted)
  {
    forall x | x in accepted && x >= e + |out| ensures Holds(q, Wrap(x)) {
      WindowDistance(r, e, x);
      assert Holds(r, Wrap(x));
      var i := Wrap(x) % r.window;
      assert q.buffer[i] == if IsFront(r, i, |out|) then None else r.buffer[i];
    }
  }

  lemma DeliveredBelow(accepted: map<int, Payload>, e: int, out: seq<Payload>)
    requires AllBelow(accepted, e) && Delivers(accepted, e, out)
    ensures AllBelow(accepted, e + |out|)
  {
    forall x | 0 <= x < e + |out| ensures x in accepted {
      if x >= e { assert IsContent(accepted, e + (x - e), out[x - e]); }
    }
  }

  /** Draining a buffer that holds exactly the accepted numbers from `e` on stops at the least missing number. */
  lemma DrainRepresents(r: Receiver, e: int, accepted: map<int, Payload>) returns (q: Receiver, out: seq<Payload>)
    requires InPlace(r, e, accepted) && AllBelow(accepted, e) && HoldsAccepted(r, e, accepted)
    ensures (q, out) == Drain(r)
    ensures q.window == r.window && q.tracker == r.tracker
    ensures Represents(q, e + |out|, accepted) && Delivers(accepted, e, out)
  {
    q, out := Drain(r).0, Drain(r).1;
    DrainKeepsInPlace(r, e, accepted);
    DrainSpec(r);
    EffectHoldsAccepted(r, q, out, e, accepted);
    DeliveredBelow(accepted, e, out);
    assert !Holds(q, Wrap(e + |out|));
  }

  /** A new number of the window finds its slot free; storing it makes the buffer hold it too. */
  lemma StoreHoldsAccepted(r: Receiver, e: int, accepted: map<int, Payload>, a: int, payload: Payload, q: Receiver)
    requires InPlace(r, e, accepted) && HoldsAccepted(r, e, accepted)
    requires e <= a < e + r.window && 0 <= a
    requires q.window == r.window && q.expected == r.expected && r.buffer[Wrap(a) % r.window].None?
    requires q.buffer == r.buffer[Wrap(a) % r.window := Some(Buffered(Wrap(a), payload))]
    ensures a !in accepted
    ensures HasShape(q) && HoldsAccepted(q, e, accepted[a := payload])
  {
    assert a in accepted ==> Holds(r, Wrap(a));
    forall x | x in accepted && x != a && x >= e ensures Holds(q, Wrap(x)) {
      assert Holds(r, Wrap(x));
    }
  }

  lemma MarkKeepsInPlace(r: Receiver, e: int, content: map<int, Payload>, t: Tracker)
    requires InPlace(r, e, content)
    ensures InPlace(r.(tracker := t), e, content)
  {
    var q := r.(tracker := t);
    forall i | 0 <= i < |r.buffer| && r.buffer[i].Some? ensures SlotInPlace(q, e, content, i) {
      assert SlotInPlace(r, e, content, i);
    }
  }

  lemma MarkRepresents(r: Receiver, e: int, accepted: map<int, Payload>, t: Tracker)
    requires Represents(r, e, accepted)
    ensures Represents(r.(tracker := t), e, accepted)
  {
    MarkKeepsInPlace(r, e, accepted, t);
    forall x | x in accepted && x >= e ensures Holds(r.(tracker := t), Wrap(x)) {
      assert Holds(r, Wrap(x));
    }
  }

  /** A new number inside the window. */
  lemma NewNumberStep(r: Receiver, e: int, accepted: map<int, Payload>, a: int, payload: Payload, q: Receiver)
    requires Represents(r, e, accepted) && e <= a < e + r.window && r.buffer[Wrap(a) % r.window].None?
    requires q == r.(buffer := r.buffer[Wrap(a) % r.window := Some(Buffered(Wrap(a), payload))])
    ensures a !in accepted
    ensures InPlace(q, e, accepted[a := payload]) && AllBelow(accepted[a := payload], e)
    ensures HoldsAccepted(q, e, accepted[a := payload])
  {
    var accepted' := accepted[a := payload];
    StoreHoldsAccepted(r, e, accepted, a, payload, q);
    InPlaceInMore(r, e, accepted, accepted');
    StoreKeepsInPlace(r, e, accepted', a, q);
  }

  /** A new number: stored and drained. */
  lemma NewNumberDrained(r: Receiver, e: int, accepted: map<int, Payload>, a: int, payload: Payload)
    returns (stored: Receiver, q: Receiver, out: seq<Payload>)
    requires Represents(r, e, accepted) && e <= a < e + r.window && r.buffer[Wrap(a) % r.window].None?
    ensures a !in accepted
    ensures stored == r.(buffer := r.buffer[Wrap(a) % r.window := Some(Buffered(Wrap(a), payload))])
    ensures HasShape(stored) && (q, out) == Drain(stored)
    ensures q.window == r.window && q.tracker == r.tracker
    ensures Represents(q, e + |out|, accepted[a := payload])
    ensures Delivers(accepted[a := payload], e, out)
  {
    stored := r.(buffer := r.buffer[Wrap(a) % r.window := Some(Buffered(Wrap(a), payload))]);
    NewNumberStep(r, e, accepted, a, payload, stored);
    q, out := DrainRepresents(stored, e, accepted[a := payload]);
  }

  /** One arrival: the receiver does what the unbounded set does. */
  lemma RepresentsStep(r: Receiver, e: int, accepted: map<int, Payload>, a: int, payload: Payload)
    returns (q: Receiver, out: seq<Payload>)
    requires Represents(r, e, accepted) && MODULUS % r.window == 0
    requires NotAliased(a, e, r.window)
    ensures (q, out) == ReceiveOrdered(r, Wrap(a), payload)
    ensures q.window == r.window
    ensures Represents(q, e + |out|, Accept(accepted, e, r.window, a, payload))
    ensures Delivers(Accept(accepted, e, r.window, a, payload), e, out)
    ensures q.tracker == if e <= a < e + r.window then Marked(r.tracker, Wrap(a)) else r.tracker
    ensures e <= a < e + r.window ==> a in Accept(accepted, e, r.window, a, payload)
  {
    WindowDistance(r, e, a);
    if e <= a < e + r.window {
      var t := Marked(r.tracker, Wrap(a));
      MarkRepresents(r, e, accepted, t);
      if r.buffer[Wrap(a) % r.window].Some? {
        OccupiedMeansDuplicate(r, e, accepted, a);
        q, out := r.(tracker := t), [];
      } else {
        var stored;
        stored, q, out := NewNumberDrained(r.(tracker := t), e, accepted, a, payload);
      }
    } else {
      q, out := r, [];
    }
  }

  /** The window check alone keeps arrivals timely for the ACK summary, for windows below 32768. */
  lemma SummaryStep(r: Receiver, e: int, accepted: map<int, Payload>, a: int, payload: Payload)
    requires Represents(r, e, accepted) && r.window < HALF && SummaryExact(r.tracker, accepted)
    requires e <= a < e + r.window
    ensures SummaryExact(Marked(r.tracker, Wrap(a)), Accept(accepted, e, r.window, a, payload))
  {
    var top :| Exact(r.tracker, accepted.Keys, top);
    var accepted' := Accept(accepted, e, r.window, a, payload);
    assert accepted'.Keys == accepted.Keys + {a};
    if accepted.Keys != {} {
      if e > 0 { assert e - 1 in accepted.Keys; }
    }
    MarkedKeepsExact(r.tracker, accepted.Keys, top, a);
  }

  lemma SummaryAfter(r: Receiver, q: Receiver, e: int, accepted: map<int, Payload>, a: int, payload: Payload)
    requires Represents(r, e, accepted) && r.window < HALF && SummaryExact(r.tracker, accepted)
    requires q.tracker == if e <= a < e + r.window then Marked(r.tracker, Wrap(a)) else r.tracker
    ensures SummaryExact(q.tracker, Accept(accepted, e, r.window, a, payload))
  {
    if e <= a < e + r.window { SummaryStep(r, e, accepted, a, payload); }
  }

  // ----- Whole runs -----

  datatype Arrival = Arrival(number: int, payload: Payload)

  /** Receiver and everything it has delivered, after the arrivals. */
  function Run(window: nat, arrivals: seq<Arrival>): (s: (Receiver, seq<Payload>))
    requires 1 <= window <= HALF
    ensures HasShape(s.0) && s.0.window == window
  {
    if arrivals == [] then (Init(window), [])
    else
      var last := arrivals[|arrivals| - 1];
      var (r, delivered) := Run(window, arrivals[..|arrivals| - 1]);
      ReceiveKeepsShape(r, true, Wrap(last.number), last.payload);
      var (q, out) := ReceiveOrdered(r, Wrap(last.number), last.payload);
      (q, delivered + out)
  }

  /** The number after the consecutive accepted numbers from `e` on. */
  ghost function NextMissing(accepted: map<int, Payload>, e: int): int
    decreases |set x | x in accepted && x >= e|
  {
    if e !in accepted then e
    else
      assert (set x | x in accepted && x >= e) == (set x | x in accepted && x >= e + 1) + {e};
      NextMissing(accepted, e + 1)
  }

  /** The reference receiver: an unbounded map of everything accepted, and the least missing number. */
  ghost function Reference(window: nat, arrivals: seq<Arrival>): (map<int, Payload>, int) {
    if arrivals == [] then (map[], 0)
    else
      var last := arrivals[|arrivals| - 1];
      var (accepted, e) := Reference(window, arrivals[..|arrivals| - 1]);
      var accepted' := Accept(accepted, e, window, last.number, last.payload);
      (accepted', NextMissing(accepted', e))
  }

  /** No arrival is mistaken for a number of the window it meets. */
  ghost predicate Fresh(window: nat, arrivals: seq<Arrival>) {
    arrivals == [] ||
    var before := arrivals[..|arrivals| - 1];
    Fresh(window, before) &&
    NotAliased(arrivals[|arrivals| - 1].number, Reference(window, before).1, window)
  }

  lemma {:induction false} NextMissingIs(accepted: map<int, Payload>, from: int, e: int)
    requires from <= e && e !in accepted
    requires forall x :: from <= x < e ==> x in accepted
    ensures NextMissing(accepted, from) == e
    decreases e - from
  {
    if from < e { NextMissingIs(accepted, from + 1, e); }
  }

  lemma InitRepresents(window: nat)
    requires 1 <= window <= HALF
    ensures Represents(Init(window), 0, map[]) && SummaryExact(Init(window).tracker, map[])
  {
    var none: map<int, Payload> := map[];
    assert Exact(EMPTY, none.Keys, 0);
  }

  /** What `OrderedRefinesSet` says about a receiver, its deliveries and the reference. */
  ghost predicate Refines(r: Receiver, delivered: seq<Payload>, accepted: map<int, Payload>, e: int) {
    && Represents(r, e, accepted)
    && SummaryExact(r.tracker, accepted)
    && |delivered| == e
    && Delivers(accepted, 0, delivered)
  }

  lemma DeliversMore(before: map<int, Payload>, after: map<int, Payload>, delivered: seq<Payload>, out: seq<Payload>)
    requires Delivers(before, 0, delivered) && Delivers(after, |delivered|, out)
    requires forall x :: x in before ==> x in after && after[x] == before[x]
    ensures Delivers(after, 0, delivered + out)
  {
    forall k {:trigger (delivered + out)[k]} | 0 <= k < |delivered + out|
      ensures IsContent(after, 0 + k, (delivered + out)[k])
    {
      if k < |delivered| {
        assert IsContent(before, 0 + k, delivered[k]);
      } else {
        assert IsContent(after, |delivered| + (k - |delivered|), out[k - |delivered|]);
      }
    }
  }

  lemma RefinesStep(r: Receiver, delivered: seq<Payload>, accepted: map<int, Payload>, e: int, a: int, payload: Payload)
    returns (q: Receiver, out: seq<Payload>, accepted': map<int, Payload>)
    requires Refines(r, delivered, accepted, e)
    requires MODULUS % r.window == 0 && r.window < HALF && NotAliased(a, e, r.window)
    ensures (q, out) == ReceiveOrdered(r, Wrap(a), payload)
    ensures accepted' == Accept(accepted, e, r.window, a, payload)
    ensures Refines(q, delivered + out, accepted', NextMissing(accepted', e))
  {
    accepted' := Accept(accepted, e, r.window, a, payload);
    q, out := RepresentsStep(r, e, accepted, a, payload);
    SummaryAfter(r, q, e, accepted, a, payload);
    NextMissingAfter(accepted', e, out);
    DeliversMore(accepted, accepted', delivered, out);
  }

  lemma NextMissingAfter(accepted: map<int, Payload>, e: int, out: seq<Payload>)
    requires Delivers(accepted, e, out) && e + |out| !in accepted
    ensures NextMissing(accepted, e) == e + |out|
  {
    forall x | e <= x < e + |out| ensures x in accepted {
      assert IsContent(accepted, e + (x - e), out[x - e]);
    }
    NextMissingIs(accepted, e, e + |out|);
  }

  /**
    For every window that is a power of two up to 16384, and every run of arrivals that are not
    mistaken for other numbers: the expected number is always the least number never accepted, the
    buffer holds exactly the accepted numbers above it, the ACK summary describes exactly the accepted
    set, and the deliveries are the accepted payloads 0, 1, 2, ... up to there.
   */
  lemma {:induction false} OrderedRefinesSet(window: nat, arrivals: seq<Arrival>)
    requires 1 <= window < HALF && MODULUS % window == 0 && Fresh(window, arrivals)
    ensures var (r, delivered) := Run(window, arrivals);
            var (accepted, e) := Reference(window, arrivals);
            Refines(r, delivered, accepted, e)
  {
    if arrivals == [] {
      InitRepresents(window);
    } else {
      var before, last := arrivals[..|arrivals| - 1], arrivals[|arrivals| - 1];
      OrderedRefinesSet(window, before);
      var (r, delivered) := Run(window, before);
      var (accepted, e) := Reference(window, before);
      var _, _, _ := RefinesStep(r, delivered, accepted, e, last.number, last.payload);
    }
  }

  /**
    With the largest window, 32768, the window check no longer protects the ACK summary: right after
    the first delivery the last number of the window is a jump of exactly 2^15 and goes unrecorded.
   */
  lemma LargestWindowMissesAJump(first: Payload, last: Payload)
    ensures var (r, _) := Run(HALF, [Arrival(0, first)]);
            var (q, _) := ReceiveOrdered(r, Wrap(HALF), last);
            InOrderedWindow(r, Wrap(HALF)) && q.tracker == r.tracker == Tracker(true, 0, 0)
  {
    assert [Arrival(0, first)][..0] == [];
    var r0 := Init(HALF);
    var r1 := r0.(tracker := Marked(r0.tracker, 0), buffer := r0.buffer[0 := Some(Buffered(0, first))]);
    DrainSpec(r1);
    var (r, out) := Drain(r1);
    var t := TakeExpected(r1);
    assert !Holds(t, t.expected);
    assert Drain(t) == (t, []);
    assert r == t;
    var marked := r.(tracker := Marked(r.tracker, Wrap(HALF)));
    DrainSpec(marked.(buffer := marked.buffer[0 := Some(Buffered(Wrap(HALF), last))]));
  }
}

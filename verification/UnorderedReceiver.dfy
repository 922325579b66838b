/**
  The unordered receiver against a plain set of received numbers: each number is delivered at most
  once, and exactly when a receiver that remembers everything but looks back only 32 numbers would.
 */
module UnorderedReceiver {
  import opened Serial
  import opened Packets
  import opened AckTracker
  import opened ReliableReceiver

  /** What a receiver with a plain set of the delivered numbers and a 32-number history does. */
  predicate WouldDeliver(received: set<int>, top: int, a: int) {
    received == {} || a > top || (top - HISTORY <= a && a !in received)
  }

  /** The newest number after an arrival that was delivered. */
  function NewTop(received: set<int>, top: int, a: int): int {
    if received == {} then a else Max(top, a)
  }

  /** The 16-bit test with its bitmap decides as the plain set does. */
  lemma DuplicateTestIsExact(t: Tracker, received: set<int>, top: int, a: int)
    requires Exact(t, received, top)
    requires received != {} ==> -HALF <= a - top < HALF
    ensures DuplicateOrStale(t, Wrap(a)) <==> !WouldDeliver(received, top, a)
  {
    if received != {} {
      NewerIffGreater(a, top);
      DeltaOfWraps(top, a);
      NearIsNotAliased(a, top - HISTORY, HISTORY + 1);
      ExactAcknowledges(t, received, top, a);
    }
  }

  /**
    Within one turn of the counter the test errs everywhere outside half a turn, in both directions: what
    is too old looks new, and what is too new looks old.  The one exception are the last 32 numbers of the
    turn ahead, which are rightly delivered if the number 65536 below, for which they are taken, is missing.
   */
  lemma DuplicateTestExactIff(t: Tracker, received: set<int>, top: int, a: int)
    requires received != {} && Exact(t, received, top) && -MODULUS < a - top < MODULUS
    ensures (DuplicateOrStale(t, Wrap(a)) <==> !WouldDeliver(received, top, a)) <==>
            -HALF <= a - top < HALF || (MODULUS - HISTORY <= a - top && a - MODULUS !in received)
  {
    var seen := if a - top >= HALF then a - MODULUS else if a - top < -HALF then a + MODULUS else a;
    assert Wrap(seen) == Wrap(a);
    DuplicateTestIsExact(t, received, top, seen);
  }

  /** One arrival keeps the bitmap an exact summary of the delivered numbers. */
  lemma UnorderedStep(r: Receiver, received: set<int>, top: int, a: int, payload: Payload)
    returns (q: Receiver, out: seq<Payload>)
    requires Exact(r.tracker, received, top)
    requires received != {} ==> -HALF <= a - top < HALF
    ensures (q, out) == ReceiveUnordered(r, Wrap(a), payload)
    ensures q == r.(tracker := q.tracker)
    ensures out == if WouldDeliver(received, top, a) then [payload] else []
    ensures WouldDeliver(received, top, a) ==>
              a !in received && Exact(q.tracker, received + {a}, NewTop(received, top, a))
    ensures !WouldDeliver(received, top, a) ==> q == r
  {
    DuplicateTestIsExact(r.tracker, received, top, a);
    if WouldDeliver(received, top, a) {
      MarkedKeepsExact(r.tracker, received, top, a);
      q, out := r.(tracker := Marked(r.tracker, Wrap(a))), [payload];
    } else {
      q, out := r, [];
    }
  }

  // ----- Whole runs -----

  datatype Arrival = Arrival(number: int, payload: Payload)

  /** Receiver and everything it has delivered. */
  function Run(window: nat, arrivals: seq<Arrival>): (Receiver, seq<Payload>) {
    if arrivals == [] then (Init(window), [])
    else
      var last := arrivals[|arrivals| - 1];
      var (r, delivered) := Run(window, arrivals[..|arrivals| - 1]);
      var (q, out) := ReceiveUnordered(r, Wrap(last.number), last.payload);
      (q, delivered + out)
  }

  /** The reference receiver: what it has delivered, in order, and the newest number. */
  function Reference(arrivals: seq<Arrival>): (seq<Arrival>, int) {
    if arrivals == [] then ([], 0)
    else
      var last := arrivals[|arrivals| - 1];
      var (delivered, top) := Reference(arrivals[..|arrivals| - 1]);
      if WouldDeliver(Numbers(delivered), top, last.number)
      then (delivered + [last], NewTop(Numbers(delivered), top, last.number))
      else (delivered, top)
  }

  function Numbers(arrivals: seq<Arrival>): set<int> {
    set i | 0 <= i < |arrivals| :: arrivals[i].number
  }

  /** Every arrival is at most 2^15 behind, and less than 2^15 ahead of, the newest delivered number. */
  ghost predicate Timely(arrivals: seq<Arrival>) {
    arrivals == [] ||
    var before := arrivals[..|arrivals| - 1];
    && Timely(before)
    && (Reference(before).0 != [] ==> -HALF <= arrivals[|arrivals| - 1].number - Reference(before).1 < HALF)
  }

  ghost predicate NoRepeats(arrivals: seq<Arrival>) {
    forall i, j :: 0 <= i < j < |arrivals| ==> arrivals[i].number != arrivals[j].number
  }

  /** The deliveries are those of the reference, and the ACK summary describes exactly them. */
  ghost predicate Agrees(r: Receiver, payloads: seq<Payload>, delivered: seq<Arrival>, top: int) {
    && NoRepeats(delivered)
    && Exact(r.tracker, Numbers(delivered), top)
    && payloads == Payloads(delivered)
  }

  function Payloads(arrivals: seq<Arrival>): seq<Payload> {
    seq(|arrivals|, i requires 0 <= i < |arrivals| => arrivals[i].payload)
  }

  lemma NumbersOfSnoc(arrivals: seq<Arrival>, last: Arrival)
    ensures Numbers(arrivals + [last]) == Numbers(arrivals) + {last.number}
    ensures Payloads(arrivals + [last]) == Payloads(arrivals) + [last.payload]
    ensures NoRepeats(arrivals) && last.number !in Numbers(arrivals) ==> NoRepeats(arrivals + [last])
    ensures Numbers(arrivals) == {} <==> arrivals == []
  {
    var all := arrivals + [last];
    assert forall i :: 0 <= i < |arrivals| ==> all[i] == arrivals[i];
    assert all[|arrivals|] == last;
    if arrivals != [] { assert arrivals[0].number in Numbers(arrivals); }
    forall n | n in Numbers(arrivals) + {last.number} ensures n in Numbers(all) {
      if n == last.number {
        assert all[|arrivals|].number == n;
      } else {
        var i :| 0 <= i < |arrivals| && arrivals[i].number == n;
        assert all[i].number == n;
      }
    }
  }

  /**
    In every timely run: no number is delivered twice, the ACK summary describes exactly the
    delivered set, and an arrival is delivered exactly when the reference delivers it.
   */
  lemma {:induction false} UnorderedMatchesReference(window: nat, arrivals: seq<Arrival>)
    requires Timely(arrivals)
    ensures var (r, payloads) := Run(window, arrivals);
            var (delivered, top) := Reference(arrivals);
            Agrees(r, payloads, delivered, top)
  {
    if arrivals != [] {
      var before, last := arrivals[..|arrivals| - 1], arrivals[|arrivals| - 1];
      UnorderedMatchesReference(window, before);
      var (r, payloads) := Run(window, before);
      var (delivered, top) := Reference(before);
      NumbersOfSnoc(delivered, last);
      var _, _ := UnorderedStep(r, Numbers(delivered), top, last.number, last.payload);
    }
  }

  /** A number half a turn ahead of the newest is taken for an old one and dropped, though never received. */
  lemma HalfTurnIsDropped(window: nat, a: int, first: Payload, second: Payload)
    ensures Run(window, [Arrival(a, first), Arrival(a + HALF, second)]).1 == [first]
  {
    var one := [Arrival(a, first)];
    assert one[..0] == [];
    assert [Arrival(a, first), Arrival(a + HALF, second)][..1] == one;
    assert Run(window, []).1 == [];
    MarkedKeepsExact(EMPTY, {}, 0, a);
    assert {} + {a} == {a};
    DuplicateTestExactIff(Run(window, one).0.tracker, {a}, a, a + HALF);
  }
}

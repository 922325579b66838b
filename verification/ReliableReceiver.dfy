/**
  The receiving half of a reliable channel as a value: the ordered form, which buffers and drains,
  and the unordered form, which only suppresses duplicates.
 */
module ReliableReceiver {
  import opened Serial
  import opened Packets
  import opened Slots
  import opened AckTracker

  datatype Buffered = Buffered(sequenceNumber: Seq16, payload: Payload)

  datatype Receiver = Receiver(
    window: nat, expected: Seq16, buffer: seq<Option<Buffered>>, tracker: Tracker)

  function Init(window: nat): Receiver {
    Receiver(window, 0, seq(window, _ => None), AckTracker.EMPTY)
  }

  predicate HasShape(r: Receiver) {
    1 <= r.window == |r.buffer| <= HALF
  }

  /** `delta < max(1, sendWindow_) && delta < 32768`. */
  predicate InOrderedWindow(r: Receiver, s: Seq16) {
    var delta := Delta(s, r.expected);
    delta < (if r.window < 1 then 1 else r.window) && delta < HALF
  }

  predicate DuplicateOrStale(t: Tracker, s: Seq16) {
    && t.hasReceived
    && !IsNewerSequence(s, t.latest)
    && (Delta(t.latest, s) > HISTORY || IsAcknowledged(s, t.latest, t.ackBits))
  }

  /** The slot of number `s` holds number `s`. */
  predicate Holds(r: Receiver, s: Seq16)
    requires HasShape(r)
  {
    var slot := r.buffer[s % r.window];
    slot.Some? && slot.value.sequenceNumber == s
  }

  /** Hands the packet expected next to the application and moves on. */
  function TakeExpected(r: Receiver): (q: Receiver)
    requires HasShape(r) && Holds(r, r.expected)
    ensures HasShape(q) && Count(q.buffer) < Count(r.buffer)
  {
    CountOfUpdate(r.buffer, r.expected % r.window, None);
    r.(buffer := r.buffer[r.expected % r.window := None], expected := Succ(r.expected))
  }

  /** `drainReadyPackets`: the payloads delivered, oldest first. */
  function Drain(r: Receiver): (Receiver, seq<Payload>)
    requires HasShape(r)
    decreases Count(r.buffer)
  {
    if !Holds(r, r.expected) then
      (r, [])
    else
      var (q, out) := Drain(TakeExpected(r));
      (q, [r.buffer[r.expected % r.window].value.payload] + out)
  }

  /** Draining `start` comes down to delivering `out` and then draining `r`. */
  ghost predicate DrainsThrough(start: Receiver, r: Receiver, out: seq<Payload>)
    requires HasShape(start) && HasShape(r)
  {
    Drain(start).0 == Drain(r).0 && Drain(start).1 == out + Drain(r).1
  }

  lemma DrainsThroughNext(start: Receiver, r: Receiver, out: seq<Payload>)
    requires HasShape(start) && HasShape(r) && Holds(r, r.expected) && DrainsThrough(start, r, out)
    ensures DrainsThrough(start, TakeExpected(r), out + [r.buffer[r.expected % r.window].value.payload])
  {
  }

  function ReceiveOrdered(r: Receiver, s: Seq16, payload: Payload): (Receiver, seq<Payload>)
    requires HasShape(r)
  {
    if !InOrderedWindow(r, s) then
      (r, [])
    else
      var q := r.(tracker := Marked(r.tracker, s));
      if q.buffer[s % q.window].Some? then
        (q, [])
      else
        Drain(q.(buffer := q.buffer[s % q.window := Some(Buffered(s, payload))]))
  }

  function ReceiveUnordered(r: Receiver, s: Seq16, payload: Payload): (Receiver, seq<Payload>) {
    if DuplicateOrStale(r.tracker, s) then (r, [])
    else (r.(tracker := Marked(r.tracker, s)), [payload])
  }

  /** A data packet, in either form. */
  function Receive(r: Receiver, ordered: bool, s: Seq16, payload: Payload): (Receiver, seq<Payload>)
    requires HasShape(r)
  {
    if ordered then ReceiveOrdered(r, s, payload) else ReceiveUnordered(r, s, payload)
  }

  /** `buildAck`: the receive side's ACK state as a packet, once anything has been received. */
  function AckPacket(t: Tracker, id: Byte): Option<Packet> {
    if t.hasReceived then Some(Packet(ACK, 0, t.latest, t.ackBits, id, [], 0)) else None
  }

  // ----- What a drain does -----

  /** How far number `s` is ahead of the number expected next. */
  function Ahead(r: Receiver, s: Seq16): Seq16 {
    Delta(s, r.expected)
  }

  /** The number `k` places after the one expected next. */
  function Later(r: Receiver, k: nat): Seq16 {
    (r.expected + k) % MODULUS
  }

  /** `out` are the payloads of the first `|out|` numbers from the expected one on, all held. */
  ghost predicate TakesFront(r: Receiver, out: seq<Payload>)
    requires HasShape(r)
  {
    forall k {:trigger out[k]} :: 0 <= k < |out| ==> HoldsPayload(r, Later(r, k), out[k])
  }

  predicate HoldsPayload(r: Receiver, s: Seq16, payload: Payload)
    requires HasShape(r)
  {
    r.buffer[s % r.window] == Some(Buffered(s, payload))
  }

  /** The slot holds one of the first `n` numbers from the expected one on, in its own slot. */
  predicate IsFront(r: Receiver, i: nat, n: nat)
    requires HasShape(r) && i < |r.buffer|
  {
    && r.buffer[i].Some?
    && r.buffer[i].value.sequenceNumber % r.window == i
    && Ahead(r, r.buffer[i].value.sequenceNumber) < n
  }

  ghost predicate EmptiesFront(r: Receiver, n: nat, buffer: seq<Option<Buffered>>)
    requires HasShape(r)
  {
    && |buffer| == |r.buffer|
    && forall i :: 0 <= i < |buffer| ==> buffer[i] == if IsFront(r, i, n) then None else r.buffer[i]
  }

  ghost predicate DrainEffect(r: Receiver, q: Receiver, out: seq<Payload>)
    requires HasShape(r)
  {
    && HasShape(q) && q.window == r.window && q.tracker == r.tracker
    && q.expected == Later(r, |out|)
    && |out| <= Count(r.buffer)
    && !Holds(q, q.expected)
    && TakesFront(r, out)
    && EmptiesFront(r, |out|, q.buffer)
  }

  lemma LaterAfterTake(r: Receiver, k: nat)
    requires HasShape(r) && Holds(r, r.expected)
    ensures Later(TakeExpected(r), k) == Later(r, k + 1)
  {
    ModOfSum(r.expected + 1 + k, -((r.expected + 1) / MODULUS), MODULUS);
  }

  lemma TakesFrontExtends(r: Receiver, out: seq<Payload>)
    requires HasShape(r) && Holds(r, r.expected) && TakesFront(TakeExpected(r), out)
    ensures TakesFront(r, [r.buffer[r.expected % r.window].value.payload] + out)
  {
    var t := TakeExpected(r);
    var all := [r.buffer[r.expected % r.window].value.payload] + out;
    forall k | 0 <= k < |all| ensures HoldsPayload(r, Later(r, k), all[k]) {
      if k > 0 {
        LaterAfterTake(r, k - 1);
        assert all[k] == out[k - 1];
        assert HoldsPayload(t, Later(t, k - 1), out[k - 1]);
      }
    }
  }

  lemma AheadAfterTake(r: Receiver, s: Seq16)
    requires HasShape(r) && Holds(r, r.expected)
    ensures Ahead(TakeExpected(r), s) == if s == r.expected then MODULUS - 1 else Ahead(r, s) - 1
  {
  }

  lemma EmptiesFrontExtends(r: Receiver, n: nat, buffer: seq<Option<Buffered>>)
    requires HasShape(r) && Holds(r, r.expected) && EmptiesFront(TakeExpected(r), n, buffer)
    ensures EmptiesFront(r, n + 1, buffer)
  {
    var t := TakeExpected(r);
    forall i | 0 <= i < |buffer| ensures buffer[i] == if IsFront(r, i, n + 1) then None else r.buffer[i] {
      assert buffer[i] == if IsFront(t, i, n) then None else t.buffer[i];
      if i != r.expected % r.window && r.buffer[i].Some? {
        AheadAfterTake(r, r.buffer[i].value.sequenceNumber);
      }
    }
  }

  /**
    A drain delivers the run of consecutive packets the buffer holds from the expected number on,
    empties exactly their slots, and stops at a number the buffer does not hold.
   */
  lemma {:induction false} DrainSpec(r: Receiver)
    requires HasShape(r)
    ensures var (q, out) := Drain(r); DrainEffect(r, q, out)
    decreases Count(r.buffer)
  {
    if Holds(r, r.expected) {
      var t := TakeExpected(r);
      var (q, out) := Drain(t);
      DrainSpec(t);
      LaterAfterTake(r, |out|);
      TakesFrontExtends(r, out);
      EmptiesFrontExtends(r, |out|, q.buffer);
    }
  }

  lemma ReceiveKeepsShape(r: Receiver, ordered: bool, s: Seq16, payload: Payload)
    requires HasShape(r)
    ensures var q := Receive(r, ordered, s, payload).0; HasShape(q) && q.window == r.window
  {
    if ordered && InOrderedWindow(r, s) && r.buffer[s % r.window].None? {
      DrainSpec(r.(tracker := Marked(r.tracker, s), buffer := r.buffer[s % r.window := Some(Buffered(s, payload))]));
    }
  }
}

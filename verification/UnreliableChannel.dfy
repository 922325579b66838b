/**
  The unreliable sequenced channel: every send takes the next number, and the receiver delivers only
  packets newer than the last one delivered.
 */
module UnreliableChannel {
  import opened Serial
  import opened Packets
  import Queue = ReceiveQueue
  import Codec

  datatype Filter = Filter(hasDelivered: bool, lastSeq: Seq16)

  const FRESH := Filter(false, 0)

  predicate Delivers(f: Filter, sequence: Seq16) {
    !(f.hasDelivered && IsStaleOrDuplicate(sequence, f.lastSeq))
  }

  function Received(f: Filter, sequence: Seq16): Filter {
    if Delivers(f, sequence) then Filter(true, sequence) else f
  }

  class UnreliableChannel {
    const id: Byte
    const recvQueue: Queue.RecvQueue
    var nextSeq: Seq16
    var lastSeq: Seq16
    var hasDelivered: bool
    var wire: seq<seq<Byte>>

    ghost function View(): Filter
      reads this
    {
      Filter(hasDelivered, lastSeq)
    }

    constructor (id: Byte)
      ensures fresh(recvQueue) && this.id == id && nextSeq == 0 && View() == FRESH
      ensures recvQueue.View() == Queue.EMPTY && wire == []
    {
      this.id := id;
      recvQueue := new Queue.RecvQueue();
      nextSeq, lastSeq, hasDelivered, wire := 0, 0, false, [];
    }

    /** The number is used up even when the codec refuses the packet. */
    method AsyncSend(payload: Payload, encodes: bool) returns (refused: Option<Error>)
      modifies this`nextSeq, this`wire
      ensures nextSeq == Succ(old(nextSeq))
      ensures refused == if encodes then None else Some(BadPacket)
      ensures wire == old(wire) +
                      if encodes then [Codec.Frame(Packet(DATA, old(nextSeq), 0, 0, id, payload, 0))] else []
    {
      var packet := Packet(DATA, nextSeq, 0, 0, id, payload, 0);
      nextSeq := Succ(nextSeq);
      if !encodes {
        return Some(BadPacket);
      }
      wire := wire + [Codec.Frame(packet)];
      return None;
    }

    method OnRecv(packet: Packet)
      modifies this`hasDelivered, this`lastSeq, recvQueue
      ensures View() == if packet.kind == DATA then Received(old(View()), packet.sequence) else old(View())
      ensures recvQueue.View() ==
              if packet.kind == DATA && Delivers(old(View()), packet.sequence)
              then Queue.Deliver(old(recvQueue.View()), packet.payload)
              else old(recvQueue.View())
    {
      if packet.kind != DATA {
        return;
      }
      if hasDelivered && IsStaleOrDuplicate(packet.sequence, lastSeq) {
        return;
      }
      hasDelivered := true;
      lastSeq := packet.sequence;
      recvQueue.DeliverMessage(packet.payload);
    }
  }

  // ----- Runs -----

  /** The filter after the arrivals, and the indices of those it delivered. */
  function Run(arrivals: seq<int>): (Filter, seq<nat>) {
    if arrivals == [] then (FRESH, [])
    else
      var n := |arrivals| - 1;
      var (f, delivered) := Run(arrivals[..n]);
      (Received(f, Wrap(arrivals[n])), if Delivers(f, Wrap(arrivals[n])) then delivered + [n] else delivered)
  }

  /** Arrival `i` is larger than every one before it. */
  predicate IsRecord(arrivals: seq<int>, i: nat)
    requires i < |arrivals|
  {
    forall j :: 0 <= j < i ==> arrivals[j] < arrivals[i]
  }

  /** Every arrival is at most 2^15 behind, and less than 2^15 ahead of, the largest before it. */
  ghost predicate Timely(arrivals: seq<int>) {
    forall i, m :: 0 <= m < i < |arrivals| && IsLargest(arrivals, i, m) ==>
      -HALF <= arrivals[i] - arrivals[m] < HALF
  }

  /** `m` is the first place of the largest of the first `n` arrivals. */
  ghost predicate IsLargest(arrivals: seq<int>, n: nat, m: nat)
    requires n <= |arrivals| && m < n
  {
    IsRecord(arrivals, m) && forall j :: 0 <= j < n ==> arrivals[j] <= arrivals[m]
  }

  /** The filter remembers the largest arrival and has delivered exactly the records, in order. */
  ghost predicate DeliversRecords(arrivals: seq<int>, f: Filter, delivered: seq<nat>) {
    && (f.hasDelivered <==> arrivals != [])
    && (arrivals != [] ==>
          && delivered != [] && delivered[|delivered| - 1] < |arrivals|
          && IsLargest(arrivals, |arrivals|, delivered[|delivered| - 1])
          && f.lastSeq == Wrap(arrivals[delivered[|delivered| - 1]]))
    && (forall k :: 0 <= k < |delivered| ==> delivered[k] < |arrivals|)
    && (forall i :: 0 <= i < |arrivals| ==> (i in delivered <==> IsRecord(arrivals, i)))
    && (forall k, l :: 0 <= k < l < |delivered| ==> delivered[k] < delivered[l])
  }

  lemma TimelyPrefix(arrivals: seq<int>)
    requires arrivals != [] && Timely(arrivals)
    ensures Timely(arrivals[..|arrivals| - 1])
  {
    var before := arrivals[..|arrivals| - 1];
    forall i, m | 0 <= m < i < |before| && IsLargest(before, i, m)
      ensures -HALF <= before[i] - before[m] < HALF
    {
      assert IsLargest(arrivals, i, m);
    }
  }

  lemma RecordOfPrefix(before: seq<int>, a: int, i: nat)
    requires i < |before|
    ensures IsRecord(before + [a], i) <==> IsRecord(before, i)
  {
    var all := before + [a];
    assert forall j :: 0 <= j < |before| ==> all[j] == before[j];
    if IsRecord(all, i) {
      forall j | 0 <= j < i ensures before[j] < before[i] { assert all[j] < all[i]; }
    }
  }

  lemma LargestOfPrefix(before: seq<int>, a: int, m: nat)
    requires m < |before| && IsLargest(before, |before|, m)
    ensures IsLargest(before + [a], |before|, m)
    ensures IsRecord(before + [a], |before|) <==> a > before[m]
    ensures a <= before[m] ==> IsLargest(before + [a], |before| + 1, m)
    ensures a > before[m] ==> IsLargest(before + [a], |before| + 1, |before|)
  {
    var all := before + [a];
    assert forall j :: 0 <= j < |before| ==> all[j] == before[j];
    RecordOfPrefix(before, a, m);
    if IsRecord(all, |before|) { assert all[m] < all[|before|]; }
  }

  /** The comparison of the filter is the comparison with the largest arrival so far. */
  lemma DeliversIffRecord(before: seq<int>, a: int, f: Filter, delivered: seq<nat>)
    requires Timely(before + [a]) && DeliversRecords(before, f, delivered)
    ensures Delivers(f, Wrap(a)) <==> IsRecord(before + [a], |before|)
  {
    if before != [] {
      var m := delivered[|delivered| - 1];
      LargestOfPrefix(before, a, m);
      assert (before + [a])[|before|] == a && (before + [a])[m] == before[m];
      NewerIffGreater(a, before[m]);
    }
  }

  lemma StepDeliversRecords(before: seq<int>, a: int, f: Filter, delivered: seq<nat>)
    requires Timely(before + [a]) && DeliversRecords(before, f, delivered)
    ensures DeliversRecords(before + [a], Received(f, Wrap(a)),
                            if Delivers(f, Wrap(a)) then delivered + [|before|] else delivered)
  {
    DeliversIffRecord(before, a, f, delivered);
    if before != [] { LargestOfPrefix(before, a, delivered[|delivered| - 1]); }
    forall i | 0 <= i < |before| ensures i in delivered <==> IsRecord(before + [a], i) {
      RecordOfPrefix(before, a, i);
    }
  }

  lemma {:induction false} RunDeliversRecords(arrivals: seq<int>)
    requires Timely(arrivals)
    ensures var (f, delivered) := Run(arrivals); DeliversRecords(arrivals, f, delivered)
  {
    if arrivals != [] {
      var n := |arrivals| - 1;
      TimelyPrefix(arrivals);
      RunDeliversRecords(arrivals[..n]);
      var (f, delivered) := Run(arrivals[..n]);
      assert arrivals == arrivals[..n] + [arrivals[n]];
      StepDeliversRecords(arrivals[..n], arrivals[n], f, delivered);
    }
  }

  /**
    In every timely run, across all wraps, the arrivals delivered are exactly those larger than every
    earlier one, in order of arrival; so the delivered numbers strictly increase.
   */
  lemma DeliveredAreRecords(arrivals: seq<int>)
    requires Timely(arrivals)
    ensures var delivered := Run(arrivals).1;
            && (forall k :: 0 <= k < |delivered| ==> delivered[k] < |arrivals|)
            && (forall i :: 0 <= i < |arrivals| ==> (i in delivered <==> IsRecord(arrivals, i)))
            && (forall k, l :: 0 <= k < l < |delivered| ==>
                  delivered[k] < delivered[l] && arrivals[delivered[k]] < arrivals[delivered[l]])
  {
    RunDeliversRecords(arrivals);
    var delivered := Run(arrivals).1;
    forall k, l | 0 <= k < l < |delivered|
      ensures delivered[k] < delivered[l] && arrivals[delivered[k]] < arrivals[delivered[l]]
    {
      assert delivered[l] in delivered;
      assert IsRecord(arrivals, delivered[l]);
    }
  }
}

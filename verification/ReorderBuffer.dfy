/**
  The stand-alone reorder buffer.  Its drain does not look at the number stored in a slot, so it
  hands out packets in order exactly when the number of slots divides 65536.
 */
module ReorderBuffer {
  import opened Serial
  import opened Packets
  import opened Slots

  datatype Buffer = Buffer(slots: seq<Option<Packet>>, nextSeq: Seq16)

  function Init(n: nat): Buffer {
    Buffer(seq(n, _ => None), 0)
  }

  function Insert(b: Buffer, p: Packet): Buffer
    requires b.slots != []
  {
    var n := |b.slots|;
    if Delta(p.sequence, b.nextSeq) >= n || b.slots[p.sequence % n].Some? then b
    else b.(slots := b.slots[p.sequence % n := Some(p)])
  }

  predicate Ready(b: Buffer)
    requires b.slots != []
  {
    b.slots[b.nextSeq % |b.slots|].Some?
  }

  function Take(b: Buffer): (q: Buffer)
    requires b.slots != [] && Ready(b)
    ensures |q.slots| == |b.slots| && Count(q.slots) < Count(b.slots)
  {
    CountOfUpdate(b.slots, b.nextSeq % |b.slots|, None);
    Buffer(b.slots[b.nextSeq % |b.slots| := None], Succ(b.nextSeq))
  }

  /** All consecutively available packets; it ends because every packet taken empties a slot. */
  function Drain(b: Buffer): (Buffer, seq<Packet>)
    requires b.slots != []
    decreases Count(b.slots)
  {
    if !Ready(b) then (b, [])
    else
      var (q, out) := Drain(Take(b));
      (q, [b.slots[b.nextSeq % |b.slots|].value] + out)
  }

  ghost predicate DrainsThrough(start: Buffer, b: Buffer, out: seq<Packet>)
    requires start.slots != [] && b.slots != []
  {
    Drain(start).0 == Drain(b).0 && Drain(start).1 == out + Drain(b).1
  }

  lemma DrainsThroughNext(start: Buffer, b: Buffer, out: seq<Packet>)
    requires start.slots != [] && b.slots != [] && Ready(b) && DrainsThrough(start, b, out)
    ensures DrainsThrough(start, Take(b), out + [b.slots[b.nextSeq % |b.slots|].value])
  {
  }

  class ReorderBuffer {
    const slots: array<Option<Packet>>
    var nextSeq: Seq16
    var ready: seq<Packet>

    ghost function View(): Buffer
      reads this, slots
    {
      Buffer(slots[..], nextSeq)
    }

    constructor (n: nat)
      requires n >= 1
      ensures fresh(slots) && slots.Length == n && View() == Init(n)
    {
      slots := new Option<Packet>[n](_ => None);
      nextSeq, ready := 0, [];
      new;
      assert slots[..] == seq(n, _ => None);
    }

    method InsertPacket(p: Packet)
      requires slots.Length >= 1
      modifies slots
      ensures View() == Insert(old(View()), p)
    {
      var offset := Delta(p.sequence, nextSeq);
      if offset >= slots.Length {
        return;
      }
      if slots[p.sequence % slots.Length].Some? {
        return;
      }
      slots[p.sequence % slots.Length] := Some(p);
    }

    method DrainPackets() returns (out: seq<Packet>)
      requires slots.Length >= 1
      modifies this, slots
      ensures (View(), out) == Drain(old(View()))
    {
      ghost var start := View();
      ready := [];
      while slots[nextSeq % slots.Length].Some?
        invariant DrainsThrough(start, View(), ready)
        decreases Count(slots[..])
      {
        ghost var before := View();
        DrainsThroughNext(start, before, ready);
        ready := ready + [slots[nextSeq % slots.Length].value];
        slots[nextSeq % slots.Length] := None;
        nextSeq := Succ(nextSeq);
        assert View() == Take(before);
      }
      out := ready;
      assert ready + [] == ready;
    }

    method Empty() returns (empty: bool)
      requires slots.Length >= 1
      ensures empty <==> Drain(View()).1 == []
    {
      empty := slots[nextSeq % slots.Length].None?;
    }
  }

  // ----- Runs -----

  /** The buffer, everything drained, and, for each absolute number, the first packet inserted inside the window. */
  datatype State = State(buffer: Buffer, out: seq<Packet>, next: int, first: map<int, Packet>)

  /** An insert names the absolute number of its packet. */
  datatype Op = OpInsert(number: int, packet: Packet) | OpDrain

  function Start(n: nat): State {
    State(Init(n), [], 0, map[])
  }

  /** The packet carries the number, and the number is not mistaken for one of the window. */
  ghost predicate Enabled(s: State, op: Op) {
    match op
    case OpInsert(a, p) => p.sequence == Wrap(a) && NotAliased(a, s.next, |s.buffer.slots|)
    case OpDrain => true
  }

  function Apply(s: State, op: Op): State
    requires s.buffer.slots != []
  {
    match op
    case OpInsert(a, p) =>
      s.(buffer := Insert(s.buffer, p),
         first := if s.next <= a < s.next + |s.buffer.slots| && a !in s.first then s.first[a := p] else s.first)
    case OpDrain =>
      var (b, out) := Drain(s.buffer);
      s.(buffer := b, out := s.out + out, next := s.next + |out|)
  }

  lemma {:induction false} DrainKeepsLength(b: Buffer)
    requires b.slots != []
    ensures |Drain(b).0.slots| == |b.slots|
    decreases Count(b.slots)
  {
    if Ready(b) { DrainKeepsLength(Take(b)); }
  }

  /** The state after any list of operations; an operation whose guard fails does nothing. */
  ghost function Run(n: nat, ops: seq<Op>): (s: State)
    requires n >= 1
    ensures |s.buffer.slots| == n
  {
    if ops == [] then Start(n)
    else
      var s := Run(n, ops[..|ops| - 1]);
      var op := ops[|ops| - 1];
      DrainKeepsLength(s.buffer);
      if Enabled(s, op) then Apply(s, op) else s
  }

  /** Everything drained so far is, number by number from 0 on, the first packet inserted for it. */
  ghost predicate InOrder(s: State) {
    |s.out| == s.next && forall i {:trigger s.out[i]} :: 0 <= i < |s.out| ==> IsFirst(s.first, i, s.out[i])
  }

  ghost predicate IsFirst(first: map<int, Packet>, a: int, p: Packet) {
    a in first && first[a] == p
  }

  // ----- Dividing sizes: agreement with an unbounded map -----

  function Lookup(first: map<int, Packet>, a: int): Option<Packet> {
    if a in first then Some(first[a]) else None
  }

  predicate SlotAgrees(b: Buffer, first: map<int, Packet>, a: int)
    requires b.slots != []
  {
    b.slots[Wrap(a) % |b.slots|] == Lookup(first, a)
  }

  /** The slots are the unbounded map limited to the window. */
  ghost predicate Agrees(b: Buffer, next: int, first: map<int, Packet>) {
    && b.slots != [] && b.nextSeq == Wrap(next)
    && (forall a :: a in first ==> a < next + |b.slots|)
    && forall a {:trigger SlotAgrees(b, first, a)} :: next <= a < next + |b.slots| ==> SlotAgrees(b, first, a)
  }

  /** Different numbers of the window have different slots. */
  lemma DifferentSlots(n: nat, next: int, a: int, b: int)
    requires n >= 1 && MODULUS % n == 0
    requires next <= a < next + n && next <= b < next + n && a != b
    ensures Wrap(a) % n != Wrap(b) % n
  {
    SlotOfWrap(a, n);
    SlotOfWrap(b, n);
    if a % n == b % n { SlotInjectiveInWindow(a, b, next, n); }
  }

  lemma InsertAgrees(s: State, a: int, p: Packet)
    requires Agrees(s.buffer, s.next, s.first) && MODULUS % |s.buffer.slots| == 0
    requires p.sequence == Wrap(a) && NotAliased(a, s.next, |s.buffer.slots|)
    ensures var t := Apply(s, OpInsert(a, p)); Agrees(t.buffer, t.next, t.first)
  {
    var n := |s.buffer.slots|;
    var t := Apply(s, OpInsert(a, p));
    DeltaOfWraps(a, s.next);
    if s.next <= a < s.next + n {
      assert SlotAgrees(s.buffer, s.first, a);
      forall x {:trigger SlotAgrees(t.buffer, t.first, x)} | s.next <= x < s.next + n
        ensures SlotAgrees(t.buffer, t.first, x)
      {
        assert SlotAgrees(s.buffer, s.first, x);
        if x != a { DifferentSlots(n, s.next, a, x); }
      }
    } else {
      forall x {:trigger SlotAgrees(t.buffer, t.first, x)} | s.next <= x < s.next + n
        ensures SlotAgrees(t.buffer, t.first, x)
      {
        assert SlotAgrees(s.buffer, s.first, x);
      }
    }
  }

  lemma TakeAgrees(b: Buffer, next: int, first: map<int, Packet>)
    requires Agrees(b, next, first) && MODULUS % |b.slots| == 0 && Ready(b)
    ensures IsFirst(first, next, b.slots[b.nextSeq % |b.slots|].value)
    ensures Agrees(Take(b), next + 1, first)
  {
    var n, t := |b.slots|, Take(b);
    assert SlotAgrees(b, first, next);
    SuccOfWrap(next);
    forall a {:trigger SlotAgrees(t, first, a)} | next + 1 <= a < next + 1 + n ensures SlotAgrees(t, first, a) {
      if a < next + n {
        assert SlotAgrees(b, first, a);
        DifferentSlots(n, next, next, a);
      } else {
        SlotOfWrap(next, n);
        SlotOfWrap(a, n);
        ModOfSum(next, 1, n);
      }
    }
  }

  lemma {:induction false} DrainAgrees(b: Buffer, next: int, first: map<int, Packet>)
    returns (q: Buffer, out: seq<Packet>)
    requires Agrees(b, next, first) && MODULUS % |b.slots| == 0
    ensures (q, out) == Drain(b)
    ensures Agrees(q, next + |out|, first) && next + |out| !in first
    ensures forall k {:trigger out[k]} :: 0 <= k < |out| ==> IsFirst(first, next + k, out[k])
    decreases Count(b.slots)
  {
    if Ready(b) {
      TakeAgrees(b, next, first);
      var rest;
      q, rest := DrainAgrees(Take(b), next + 1, first);
      out := [b.slots[b.nextSeq % |b.slots|].value] + rest;
      forall k {:trigger out[k]} | 0 <= k < |out| ensures IsFirst(first, next + k, out[k]) {
        if k > 0 { assert IsFirst(first, next + 1 + (k - 1), rest[k - 1]); }
      }
    } else {
      assert SlotAgrees(b, first, next);
      q, out := b, [];
    }
  }

  ghost predicate Inv(s: State) {
    Agrees(s.buffer, s.next, s.first) && InOrder(s)
  }

  lemma ApplyKeepsInv(s: State, op: Op)
    requires Inv(s) && MODULUS % |s.buffer.slots| == 0 && Enabled(s, op)
    ensures Inv(Apply(s, op))
    ensures op.OpDrain? ==> Apply(s, op).next !in s.first
  {
    var t := Apply(s, op);
    match op
    case OpInsert(a, p) =>
      InsertAgrees(s, a, p);
      forall i {:trigger t.out[i]} | 0 <= i < |t.out| ensures IsFirst(t.first, i, t.out[i]) {
        assert IsFirst(s.first, i, s.out[i]);
      }
    case OpDrain =>
      var _, out := DrainAgrees(s.buffer, s.next, s.first);
      forall i {:trigger t.out[i]} | 0 <= i < |t.out| ensures IsFirst(t.first, i, t.out[i]) {
        if i < |s.out| {
          assert IsFirst(s.first, i, s.out[i]);
        } else {
          assert IsFirst(s.first, s.next + (i - s.next), out[i - s.next]);
        }
      }
  }

  /**
    For a size dividing 65536 and every run: the drained packets are numbers 0, 1, 2, ... without gap
    or repeat, each the first packet inserted for its number, and the slots are the unbounded map of
    those packets limited to the window.
   */
  lemma {:induction false} DividingSizeKeepsOrder(n: nat, ops: seq<Op>)
    requires n >= 1 && MODULUS % n == 0
    ensures Inv(Run(n, ops))
  {
    if ops == [] {
      var s := Start(n);
      forall a {:trigger SlotAgrees(s.buffer, s.first, a)} | 0 <= a < n ensures SlotAgrees(s.buffer, s.first, a) {
      }
    } else {
      var before, op := ops[..|ops| - 1], ops[|ops| - 1];
      DividingSizeKeepsOrder(n, before);
      if Enabled(Run(n, before), op) { ApplyKeepsInv(Run(n, before), op); }
    }
  }

  // ----- Other sizes: a packet handed out in place of another -----

  function Numbered(a: int): Packet {
    Packet(DATA, Wrap(a), 0, 0, 0, [], 0)
  }

  /** `k` packets have been inserted and drained one by one; nothing is waiting. */
  ghost predicate Smooth(s: State, k: nat) {
    && s.next == k == |s.out| && s.buffer.nextSeq == Wrap(k)
    && (forall i :: 0 <= i < |s.buffer.slots| ==> s.buffer.slots[i].None?)
    && (forall a :: a in s.first ==> a < k)
  }

  lemma SmoothRound(s: State, k: nat) returns (t: State, u: State)
    requires s.buffer.slots != [] && Smooth(s, k)
    ensures Enabled(s, OpInsert(k, Numbered(k))) && t == Apply(s, OpInsert(k, Numbered(k)))
    ensures t.buffer.slots != [] && u == Apply(t, OpDrain)
    ensures |u.buffer.slots| == |s.buffer.slots| && Smooth(u, k + 1)
  {
    t := Apply(s, OpInsert(k, Numbered(k)));
    DeltaOfWraps(k, k);
    SuccOfWrap(k);
    var b := Take(t.buffer);
    assert !Ready(b);
    assert Drain(b) == (b, []);
    u := Apply(t, OpDrain);
    assert u.buffer == b;
  }

  lemma RunAppend(n: nat, ops: seq<Op>, op: Op)
    requires n >= 1
    ensures var s := Run(n, ops);
            Run(n, ops + [op]) == if Enabled(s, op) then Apply(s, op) else s
  {
    assert (ops + [op])[..|ops|] == ops;
  }

  lemma {:induction false} SmoothReachable(n: nat, k: nat) returns (ops: seq<Op>)
    requires n >= 1
    ensures Smooth(Run(n, ops), k)
  {
    if k == 0 {
      ops := [];
    } else {
      var before := SmoothReachable(n, k - 1);
      var t, u := SmoothRound(Run(n, before), k - 1);
      RunAppend(n, before, OpInsert(k - 1, Numbered(k - 1)));
      RunAppend(n, before + [OpInsert(k - 1, Numbered(k - 1))], OpDrain);
      ops := before + [OpInsert(k - 1, Numbered(k - 1))] + [OpDrain];
    }
  }

  lemma WrapSlot(n: nat, r: nat)
    requires n >= 1 && r == MODULUS % n && r > 0
    ensures r <= MODULUS && Wrap(MODULUS - r) % n == 0 && NotAliased(MODULUS, MODULUS - r, n)
    ensures Delta(0, Wrap(MODULUS - r)) < n
  {
    WrapSlotOf(n, MODULUS / n, r);
  }

  lemma WrapSlotOf(n: nat, q: nat, r: nat)
    requires MODULUS == n * q + r && 0 < r < n
    ensures r <= MODULUS && Wrap(MODULUS - r) % n == 0 && NotAliased(MODULUS, MODULUS - r, n)
    ensures Delta(0, Wrap(MODULUS - r)) < n
  {
    assert Wrap(MODULUS - r) == MODULUS - r;
    ModUnique(MODULUS - r, q, 0, n);
  }

  /** A packet inserted for 65536 shares its slot with the number expected, and is handed out in its place. */
  lemma WrongPacketDrained(n: nat, s: State, r: nat)
    requires s.buffer.slots != [] && |s.buffer.slots| == n && r == MODULUS % n && r > 0
    requires r <= MODULUS && Smooth(s, MODULUS - r)
    ensures Enabled(s, OpInsert(MODULUS, Numbered(MODULUS)))
    ensures var t := Apply(s, OpInsert(MODULUS, Numbered(MODULUS)));
            t.buffer.slots != [] && !InOrder(Apply(t, OpDrain))
  {
    WrapSlot(n, r);
    var t := Apply(s, OpInsert(MODULUS, Numbered(MODULUS)));
    assert Ready(t.buffer);
    var u := Apply(t, OpDrain);
    var e := MODULUS - r;
    assert |u.out| > e && e !in u.first;
    assert !IsFirst(u.first, e, u.out[e]);
  }

  lemma SomeRunIsOutOfOrder(n: nat)
    requires n >= 1 && MODULUS % n != 0
    ensures exists ops :: !InOrder(Run(n, ops))
  {
    var r := MODULUS % n;
    WrapSlot(n, r);
    var ops := SmoothReachable(n, MODULUS - r);
    WrongPacketDrained(n, Run(n, ops), r);
    var insert := OpInsert(MODULUS, Numbered(MODULUS));
    RunAppend(n, ops, insert);
    RunAppend(n, ops + [insert], OpDrain);
    assert !InOrder(Run(n, ops + [insert] + [OpDrain]));
  }

  /** The buffer hands out packets in order in every run exactly when its size divides 65536. */
  lemma OrderIffSizeDivides(n: nat)
    requires n >= 1
    ensures (forall ops :: InOrder(Run(n, ops))) <==> MODULUS % n == 0
  {
    if MODULUS % n == 0 {
      forall ops ensures InOrder(Run(n, ops)) { DividingSizeKeepsOrder(n, ops); }
    } else {
      SomeRunIsOutOfOrder(n);
    }
  }
}

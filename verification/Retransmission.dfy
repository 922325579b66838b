/**
  The retransmission timer over whole runs of the sender: how far apart the transmissions of one
  packet are, and what the loss statistic counts.
 */
module Retransmission {
  import opened Packets
  import opened ReliableSender

  /** Timeouts waited before the `r`-th retransmission: 1 + 2 + 4 + 8 + 8 + ... */
  function Waits(r: nat): nat {
    if r == 0 then 0 else Waits(r - 1) + Backoff(r - 1)
  }

  /** The backoff doubles three times and then stays at eight timeouts. */
  lemma {:induction false} WaitsClosedForm(r: nat)
    ensures Waits(r) == if r <= 3 then Backoff(r) - 1 else 8 * r - 17
  {
    if r > 0 { WaitsClosedForm(r - 1); }
  }

  /** When slot `i` was last put on the wire after one more operation; `last` is the answer before it. */
  function SentBy(s: Sender, op: Op, i: nat, last: int): int
    requires 1 <= s.window == |s.slots| && i < s.window
  {
    match op
    case OpTick(now) => if IsDue(s.slots[i], now) then now else last
    case OpSend(payload, context) =>
      if s.nextSeq % s.window == i && Send(s, payload, context).1.Accepted? then context.now else last
    case _ => last
  }

  /** When the packet now in slot `i` was last put on the wire by a send or a tick. */
  ghost function LastSent(window: nat, timeout: nat, ops: seq<Op>, i: nat): int
    requires 1 <= window <= MAX_WINDOW && i < window
  {
    if ops == [] then 0
    else
      var before := ops[..|ops| - 1];
      RunShape(window, timeout, before);
      SentBy(Run(window, timeout, before), ops[|ops| - 1], i, LastSent(window, timeout, before, i))
  }

  /** A packet last transmitted at `last` respects the backoff schedule. */
  ghost predicate Paced(p: SentPacket, last: int, timeout: nat) {
    && p.nextRetx == last + timeout * Backoff(p.retxCount)
    && last >= p.sendTime + timeout * Waits(p.retxCount)
  }

  lemma TickKeepsPaced(p: SentPacket, last: int, timeout: nat, now: int)
    requires Paced(p, last, timeout) && p.nextRetx <= now
    ensures Paced(TickedSlot(Some(p), now, timeout).value, now, timeout)
  {
    assert timeout * Waits(p.retxCount + 1) ==
           timeout * Waits(p.retxCount) + timeout * Backoff(p.retxCount);
  }

  lemma {:induction false} RunShape(window: nat, timeout: nat, ops: seq<Op>)
    requires 1 <= window <= MAX_WINDOW
    ensures var s := Run(window, timeout, ops); s.window == window == |s.slots| && s.timeout == timeout
  {
    if ops != [] { RunShape(window, timeout, ops[..|ops| - 1]); }
  }

  lemma ApplyKeepsPaced(s: Sender, op: Op, i: nat, last: int)
    requires 1 <= s.window == |s.slots| && i < s.window
    requires s.slots[i].Some? ==> Paced(s.slots[i].value, last, s.timeout)
    ensures var slots := Apply(s, op).slots;
            i < |slots| && (slots[i].Some? ==> Paced(slots[i].value, SentBy(s, op, i, last), s.timeout))
  {
    match op
    case OpTick(now) =>
      if IsDue(s.slots[i], now) { TickKeepsPaced(s.slots[i].value, last, s.timeout, now); }
    case OpSend(_, _) =>
    case OpSendFailed(_) =>
    case OpAck(_, _) =>
  }

  /**
    In every run, whatever the tick times: a packet that has been retransmitted `r` times was last
    resent no earlier than T * (1 + 2 + 4 + 8 + 8 + ...) (r terms) after it was sent, and its next
    deadline is T * 2^min(r, 3) after that.
   */
  lemma {:induction false} RunIsPaced(window: nat, timeout: nat, ops: seq<Op>, i: nat)
    requires 1 <= window <= MAX_WINDOW && i < window
    ensures var slots := Run(window, timeout, ops).slots;
            i < |slots| && (slots[i].Some? ==>
                              Paced(slots[i].value, LastSent(window, timeout, ops, i), timeout))
  {
    if ops != [] {
      var before := ops[..|ops| - 1];
      RunIsPaced(window, timeout, before, i);
      RunShape(window, timeout, before);
      ApplyKeepsPaced(Run(window, timeout, before), ops[|ops| - 1], i, LastSent(window, timeout, before, i));
    }
  }

  // ----- The loss statistic -----

  function RetxSum(slots: seq<Option<SentPacket>>): nat {
    if slots == [] then 0
    else
      var last := slots[|slots| - 1];
      RetxSum(slots[..|slots| - 1]) + if last.Some? then last.value.retxCount else 0
  }

  /** Retransmit counts of the packets that left their slots. */
  function RetiredSum(before: seq<Option<SentPacket>>, after: seq<Option<SentPacket>>): nat
    requires |before| == |after|
  {
    if before == [] then 0
    else
      var n := |before| - 1;
      RetiredSum(before[..n], after[..n]) +
      if before[n].Some? && after[n].None? then before[n].value.retxCount else 0
  }

  /** Retransmit counts of all packets that have left their slots during the run. */
  ghost function Retired(window: nat, timeout: nat, ops: seq<Op>): nat
    requires 1 <= window <= MAX_WINDOW
  {
    if ops == [] then 0
    else
      var before := ops[..|ops| - 1];
      RunShape(window, timeout, before);
      RunShape(window, timeout, ops);
      Retired(window, timeout, before) +
      RetiredSum(Run(window, timeout, before).slots, Run(window, timeout, ops).slots)
  }

  /** Slots only lose packets, or gain packets that were never retransmitted. */
  ghost predicate NoRetransmission(before: seq<Option<SentPacket>>, after: seq<Option<SentPacket>>) {
    && |before| == |after|
    && forall i :: 0 <= i < |before| ==>
         if before[i].Some? then after[i] == before[i] || after[i].None?
         else after[i].Some? ==> after[i].value.retxCount == 0
  }

  lemma {:induction false} RetxSumRetired(before: seq<Option<SentPacket>>, after: seq<Option<SentPacket>>)
    requires NoRetransmission(before, after)
    ensures RetxSum(before) == RetxSum(after) + RetiredSum(before, after)
  {
    if before != [] {
      RetxSumRetired(before[..|before| - 1], after[..|before| - 1]);
    }
  }

  ghost predicate TickOf(before: seq<Option<SentPacket>>, after: seq<Option<SentPacket>>, now: int, timeout: nat) {
    |before| == |after| && forall i :: 0 <= i < |before| ==> after[i] == TickedSlot(before[i], now, timeout)
  }

  /** A tick adds one to the sum for every frame it resends and retires nothing. */
  lemma {:induction false} RetxSumTicked(before: seq<Option<SentPacket>>, after: seq<Option<SentPacket>>, now: int, timeout: nat)
    requires TickOf(before, after, now, timeout)
    ensures RetxSum(after) == RetxSum(before) + |Due(before, now)| && RetiredSum(before, after) == 0
  {
    if before != [] {
      var n := |before| - 1;
      RetxSumTicked(before[..n], after[..n], now, timeout);
      assert after[n] == TickedSlot(before[n], now, timeout);
    }
  }

  lemma ApplyCountsLosses(s: Sender, op: Op)
    requires 1 <= s.window == |s.slots|
    ensures var r := Apply(s, op);
            |r.slots| == |s.slots| &&
            r.lost - s.lost == RetxSum(r.slots) - RetxSum(s.slots) + RetiredSum(s.slots, r.slots)
  {
    var r := Apply(s, op);
    match op
    case OpTick(now) => RetxSumTicked(s.slots, r.slots, now, s.timeout);
    case OpSend(_, _) => RetxSumRetired(s.slots, r.slots);
    case OpSendFailed(_) => RetxSumRetired(s.slots, r.slots);
    case OpAck(_, _) => RetxSumRetired(s.slots, r.slots);
  }

  /**
    In every run `packetsLost_` is the sum of the retransmit counts of all packets ever sent: those
    still in flight and those that have left their slots.
   */
  lemma {:induction false} LostIsSumOfRetransmissions(window: nat, timeout: nat, ops: seq<Op>)
    requires 1 <= window <= MAX_WINDOW
    ensures var s := Run(window, timeout, ops);
            s.lost == RetxSum(s.slots) + Retired(window, timeout, ops)
  {
    if ops == [] {
      RetxSumOfInit(window);
    } else {
      var before := ops[..|ops| - 1];
      LostIsSumOfRetransmissions(window, timeout, before);
      RunShape(window, timeout, before);
      ApplyCountsLosses(Run(window, timeout, before), ops[|ops| - 1]);
    }
  }

  lemma {:induction false} RetxSumOfInit(n: nat)
    ensures RetxSum(seq(n, _ => None)) == 0
  {
    if n > 0 {
      RetxSumOfInit(n - 1);
      assert seq(n, _ => None)[..n - 1] == seq<Option<SentPacket>>(n - 1, _ => None);
    }
  }
}

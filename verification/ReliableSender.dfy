/**
  The sending half of a reliable channel as a value: the slots of the send window, the number to
  use next, and the step each operation takes.  `ReliableChannel` implements these steps in place.
 */
module ReliableSender {
  import opened Serial
  import opened Words
  import opened Packets
  import opened Slots
  import opened AckTracker
  import Codec

  const MAX_WINDOW := 32768

  datatype SentPacket = SentPacket(
    sequenceNumber: Seq16, frame: seq<Byte>, sendTime: int, nextRetx: int, retxCount: nat)

  /** `lost` is the statistic `packetsLost_`. */
  datatype Sender = Sender(
    window: nat, timeout: nat, nextSeq: Seq16, slots: seq<Option<SentPacket>>, inFlight: int, lost: nat)

  function NormalizeWindow(configured: Seq16): (w: nat)
    ensures 1 <= w <= MAX_WINDOW
    ensures 1 <= configured <= MAX_WINDOW ==> w == configured
    ensures configured < 1 ==> w == 1
    ensures configured > MAX_WINDOW ==> w == MAX_WINDOW
  {
    if configured == 0 then 1 else if configured < MAX_WINDOW then configured else MAX_WINDOW
  }

  function Init(window: nat, timeout: nat): Sender {
    Sender(window, timeout, 0, seq(window, _ => None), 0, 0)
  }

  function EffectiveWindow(window: nat, congestionWindow: nat): nat {
    var w := if window < congestionWindow then window else congestionWindow;
    if w < 1 then 1 else w
  }

  /** The data packet built for a payload, with the receive side's ACK state attached. */
  function DataPacket(sequence: Seq16, id: Byte, received: Tracker, payload: Payload): Packet {
    if received.hasReceived
    then Packet(DATA, sequence, received.latest, received.ackBits, id, payload, 0)
    else Packet(DATA, sequence, 0, 0, id, payload, 0)
  }

  // ----- Sending -----

  datatype SendOutcome = Refused(error: Error) | Accepted(sequenceNumber: Seq16, frame: seq<Byte>)

  /**
    What the surroundings decide about one send: the congestion window, whether the codec encodes
    the packet, the channel id, the ACK state to attach and the clock.
   */
  datatype SendContext = SendContext(
    congestionWindow: nat, encodes: bool, id: Byte, received: Tracker, now: int)

  /**
    One `asyncSend`.  The number is used up before the codec and the slot are consulted, so two of
    the three refusals still consume it.
   */
  function Send(s: Sender, payload: Payload, c: SendContext): (Sender, SendOutcome)
    requires 1 <= s.window == |s.slots|
  {
    if s.inFlight >= EffectiveWindow(s.window, c.congestionWindow) then
      (s, Refused(SendWindowFull))
    else
      var sequence := s.nextSeq;
      var s1 := s.(nextSeq := Succ(s.nextSeq));
      if !c.encodes then
        (s1, Refused(BadPacket))
      else
        var frame := Codec.Frame(DataPacket(sequence, c.id, c.received, payload));
        var i := sequence % s.window;
        if s.slots[i].Some? then
          (s1, Refused(SendWindowFull))
        else
          (s1.(slots := s.slots[i := Some(SentPacket(sequence, frame, c.now, c.now + s.timeout, 0))],
               inFlight := s.inFlight + 1),
           Accepted(sequence, frame))
  }

  /**
    The window refuses a send, leaving no trace, exactly when something is in flight and either the send
    window or the congestion window is used up.  One packet may always be in flight.
   */
  lemma RefusedByWindowIff(s: Sender, payload: Payload, c: SendContext)
    requires 1 <= s.window == |s.slots|
    ensures Send(s, payload, c) == (s, Refused(SendWindowFull)) <==>
            s.inFlight >= 1 && (s.inFlight >= s.window || s.inFlight >= c.congestionWindow)
  {
    assert Succ(s.nextSeq) != s.nextSeq;
  }

  /** So an accepted send had room in both windows, or nothing was in flight. */
  lemma AcceptedHadRoom(s: Sender, payload: Payload, c: SendContext)
    requires 1 <= s.window == |s.slots| && Send(s, payload, c).1.Accepted?
    ensures s.inFlight <= 0 || (s.inFlight < s.window && s.inFlight < c.congestionWindow)
  {
    RefusedByWindowIff(s, payload, c);
  }

  /** Past the window, a packet that does not encode is a bad one, and a taken slot counts as a full window. */
  lemma RefusedBehindWindow(s: Sender, payload: Payload, c: SendContext)
    requires 1 <= s.window == |s.slots| && Send(s, payload, c) != (s, Refused(SendWindowFull))
    ensures var (r, outcome) := Send(s, payload, c);
            && (outcome == Refused(BadPacket) <==> !c.encodes)
            && (outcome == Refused(SendWindowFull) <==> c.encodes && s.slots[s.nextSeq % s.window].Some?)
            && r.nextSeq == (s.nextSeq + 1) % 0x1_0000
  {
  }

  /** An accepted send puts the right packet on the wire: its number, channel, message, and the ACK state of the time. */
  lemma AcceptedFrame(s: Sender, payload: Payload, c: SendContext)
    requires 1 <= s.window == |s.slots| && Send(s, payload, c).1.Accepted?
    ensures var outcome := Send(s, payload, c).1;
            var decoded := Codec.Decode(outcome.frame);
            && outcome.sequenceNumber == s.nextSeq
            && decoded.Ok? && decoded.value.kind == 0x10 && decoded.value.channel == c.id
            && decoded.value.sequence == s.nextSeq && decoded.value.payload == payload
            && decoded.value.ack == (if c.received.hasReceived then c.received.latest else 0)
            && decoded.value.ackBits == (if c.received.hasReceived then c.received.ackBits else 0)
  {
    Codec.DecodeOfFrame(DataPacket(s.nextSeq, c.id, c.received, payload));
  }

  // ----- Freeing slots -----

  /** The late failure callback of a send. */
  function Erase(s: Sender, sequence: Seq16): Sender
    requires 1 <= s.window == |s.slots|
  {
    var i := sequence % s.window;
    if s.slots[i].None? || s.slots[i].value.sequenceNumber != sequence then s
    else s.(slots := s.slots[i := None], inFlight := s.inFlight - 1)
  }

  predicate IsFreed(slot: Option<SentPacket>, ack: Seq16, ackBits: U32) {
    slot.Some? && IsAcknowledged(slot.value.sequenceNumber, ack, ackBits)
  }

  function AckedSlot(slot: Option<SentPacket>, ack: Seq16, ackBits: U32): Option<SentPacket> {
    if IsFreed(slot, ack, ackBits) then None else slot
  }

  /** The slots after an ACK has been applied to the first `n` of them. */
  function AckedPrefix(slots: seq<Option<SentPacket>>, n: nat, ack: Seq16, ackBits: U32): (r: seq<Option<SentPacket>>)
    requires n <= |slots|
    ensures |r| == |slots|
    ensures forall i :: 0 <= i < |slots| ==>
              r[i] == if i < n then AckedSlot(slots[i], ack, ackBits) else slots[i]
  {
    if n == 0 then slots
    else AckedPrefix(slots, n - 1, ack, ackBits)[n - 1 := AckedSlot(slots[n - 1], ack, ackBits)]
  }

  function ProcessAck(s: Sender, ack: Seq16, ackBits: U32): Sender {
    var slots := AckedPrefix(s.slots, |s.slots|, ack, ackBits);
    s.(slots := slots, inFlight := s.inFlight - (Count(s.slots) - Count(slots)))
  }

  // ----- Retransmission -----

  predicate IsDue(slot: Option<SentPacket>, now: int) {
    slot.Some? && slot.value.nextRetx <= now
  }

  /** `1U << min(r, 3)`. */
  function Backoff(r: nat): nat {
    if r == 0 then 1 else if r == 1 then 2 else if r == 2 then 4 else 8
  }

  function TickedSlot(slot: Option<SentPacket>, now: int, timeout: nat): Option<SentPacket> {
    if IsDue(slot, now) then
      var p := slot.value;
      Some(p.(nextRetx := now + timeout * Backoff(p.retxCount + 1), retxCount := p.retxCount + 1))
    else slot
  }

  function TickedPrefix(slots: seq<Option<SentPacket>>, n: nat, now: int, timeout: nat): (r: seq<Option<SentPacket>>)
    requires n <= |slots|
    ensures |r| == |slots|
    ensures forall i :: 0 <= i < |slots| ==>
              r[i] == if i < n then TickedSlot(slots[i], now, timeout) else slots[i]
  {
    if n == 0 then slots
    else TickedPrefix(slots, n - 1, now, timeout)[n - 1 := TickedSlot(slots[n - 1], now, timeout)]
  }

  /** Frames resent by a tick, in slot order. */
  function Due(slots: seq<Option<SentPacket>>, now: int): seq<seq<Byte>> {
    if slots == [] then []
    else
      var last := slots[|slots| - 1];
      Due(slots[..|slots| - 1], now) + if IsDue(last, now) then [last.value.frame] else []
  }

  lemma DueOfPrefix(slots: seq<Option<SentPacket>>, i: nat, now: int)
    requires i < |slots|
    ensures Due(slots[..i + 1], now) == Due(slots[..i], now) + if IsDue(slots[i], now) then [slots[i].value.frame] else []
  {
    assert slots[..i + 1][..i] == slots[..i];
  }

  function Tick(s: Sender, now: int): Sender {
    s.(slots := TickedPrefix(s.slots, |s.slots|, now, s.timeout), lost := s.lost + |Due(s.slots, now)|)
  }

  /**
    A tick resends a packet exactly when its deadline has come, not before and not later, and waits two, four
    and then eight timeouts for the next one.
   */
  lemma TickDecides(s: Sender, now: int, i: nat)
    requires i < |s.slots|
    ensures var t := Tick(s, now).slots[i];
            match s.slots[i]
            case None => t.None?
            case Some(p) =>
              if now < p.nextRetx then t == Some(p)
              else t == Some(p.(retxCount := p.retxCount + 1,
                                nextRetx := now + (if p.retxCount == 0 then 2 * s.timeout
                                                   else if p.retxCount == 1 then 4 * s.timeout else 8 * s.timeout)))
  {
  }

  /** Frames resent by a flush, in slot order. */
  function InFlightFrames(slots: seq<Option<SentPacket>>): seq<seq<Byte>> {
    if slots == [] then []
    else
      var last := slots[|slots| - 1];
      InFlightFrames(slots[..|slots| - 1]) + if last.Some? then [last.value.frame] else []
  }

  /** The slots that are due. */
  function DueSlots(slots: seq<Option<SentPacket>>, now: int): set<int> {
    set i | 0 <= i < |slots| && IsDue(slots[i], now)
  }

  lemma DueSlotsOfSnoc(slots: seq<Option<SentPacket>>, n: nat, now: int)
    requires |slots| == n + 1
    ensures DueSlots(slots, now) == DueSlots(slots[..n], now) + if IsDue(slots[n], now) then {n} else {}
  {
    assert forall i :: 0 <= i < n ==> slots[..n][i] == slots[i];
  }

  /** A tick resends exactly the frames of the slots that are due, one for each. */
  lemma {:induction false} DueFrames(slots: seq<Option<SentPacket>>, now: int, frame: seq<Byte>)
    ensures frame in Due(slots, now) <==>
            exists i :: 0 <= i < |slots| && IsDue(slots[i], now) && slots[i].value.frame == frame
    ensures |Due(slots, now)| == |DueSlots(slots, now)|
  {
    if slots != [] {
      var n := |slots| - 1;
      DueFrames(slots[..n], now, frame);
      DueSlotsOfSnoc(slots, n, now);
      if i :| 0 <= i < |slots| && IsDue(slots[i], now) && slots[i].value.frame == frame {
        assert i < n ==> slots[..n][i] == slots[i];
      }
      if i :| 0 <= i < n && IsDue(slots[..n][i], now) && slots[..n][i].value.frame == frame {
        assert slots[i] == slots[..n][i];
      }
    }
  }

  /** A flush resends exactly the frames in flight, one for each occupied slot. */
  lemma {:induction false} FlushedFrames(slots: seq<Option<SentPacket>>, frame: seq<Byte>)
    ensures frame in InFlightFrames(slots) <==>
            exists i :: 0 <= i < |slots| && slots[i].Some? && slots[i].value.frame == frame
    ensures |InFlightFrames(slots)| == Count(slots)
  {
    if slots != [] {
      var n := |slots| - 1;
      FlushedFrames(slots[..n], frame);
      if i :| 0 <= i < |slots| && slots[i].Some? && slots[i].value.frame == frame {
        assert i < n ==> slots[..n][i] == slots[i];
      }
      if i :| 0 <= i < n && slots[..n][i].Some? && slots[..n][i].value.frame == frame {
        assert slots[i] == slots[..n][i];
      }
    }
  }

  // ----- Accounting -----

  /**
    The count is exact, every packet sits in the slot of its number, and the window is never
    exceeded.
   */
  ghost predicate Accounted(s: Sender) {
    && 1 <= s.window == |s.slots| <= MAX_WINDOW
    && s.inFlight == Count(s.slots)
    && forall i :: 0 <= i < |s.slots| && s.slots[i].Some? ==> s.slots[i].value.sequenceNumber % s.window == i
  }

  lemma {:induction false} CountOfTicked(slots: seq<Option<SentPacket>>, n: nat, now: int, timeout: nat)
    requires n <= |slots|
    ensures Count(TickedPrefix(slots, n, now, timeout)) == Count(slots)
  {
    if n > 0 {
      CountOfTicked(slots, n - 1, now, timeout);
      CountOfUpdate(TickedPrefix(slots, n - 1, now, timeout), n - 1, TickedSlot(slots[n - 1], now, timeout));
    }
  }

  lemma InitAccounted(window: nat, timeout: nat)
    requires 1 <= window <= MAX_WINDOW
    ensures Accounted(Init(window, timeout))
  {
    CountBounds(Init(window, timeout).slots);
  }

  /** A send keeps the account; when it is accepted the window had room, whatever the controller said. */
  lemma SendAccounted(s: Sender, payload: Payload, c: SendContext)
    requires Accounted(s)
    ensures var (r, outcome) := Send(s, payload, c);
            && Accounted(r)
            && (outcome.Accepted? ==> s.inFlight < EffectiveWindow(s.window, c.congestionWindow) <= s.window)
            && (outcome.Accepted? <==> r.inFlight == s.inFlight + 1)
  {
    var i := s.nextSeq % s.window;
    CountOfUpdate(s.slots, i,
      Some(SentPacket(s.nextSeq, Codec.Frame(DataPacket(s.nextSeq, c.id, c.received, payload)),
                      c.now, c.now + s.timeout, 0)));
  }

  lemma EraseAccounted(s: Sender, sequence: Seq16)
    requires Accounted(s)
    ensures Accounted(Erase(s, sequence))
  {
    CountOfUpdate(s.slots, sequence % s.window, None);
  }

  lemma ProcessAckAccounted(s: Sender, ack: Seq16, ackBits: U32)
    requires Accounted(s)
    ensures Accounted(ProcessAck(s, ack, ackBits))
  {
  }

  lemma TickAccounted(s: Sender, now: int)
    requires Accounted(s)
    ensures Accounted(Tick(s, now))
  {
    CountOfTicked(s.slots, |s.slots|, now, s.timeout);
  }

  datatype Op =
    | OpSend(payload: Payload, context: SendContext)
    | OpSendFailed(sequence: Seq16)
    | OpAck(ack: Seq16, ackBits: U32)
    | OpTick(now: int)

  function Apply(s: Sender, op: Op): Sender
    requires 1 <= s.window == |s.slots|
  {
    match op
    case OpSend(payload, context) => Send(s, payload, context).0
    case OpSendFailed(sequence) => Erase(s, sequence)
    case OpAck(ack, ackBits) => ProcessAck(s, ack, ackBits)
    case OpTick(now) => Tick(s, now)
  }

  lemma ApplyAccounted(s: Sender, op: Op)
    requires Accounted(s)
    ensures Accounted(Apply(s, op))
  {
    match op
    case OpSend(payload, context) => SendAccounted(s, payload, context);
    case OpSendFailed(sequence) => EraseAccounted(s, sequence);
    case OpAck(ack, ackBits) => ProcessAckAccounted(s, ack, ackBits);
    case OpTick(now) => TickAccounted(s, now);
  }

  ghost function Run(window: nat, timeout: nat, ops: seq<Op>): (s: Sender)
    requires 1 <= window <= MAX_WINDOW
    ensures Accounted(s)
  {
    if ops == [] then
      InitAccounted(window, timeout);
      Init(window, timeout)
    else
      var before := Run(window, timeout, ops[..|ops| - 1]);
      ApplyAccounted(before, ops[|ops| - 1]);
      Apply(before, ops[|ops| - 1])
  }

  /**
    Over every interleaving of sends, late failures, ACKs and ticks, `inFlightCount_` is the number
    of occupied slots and stays between 0 and the window, and slot `i` holds a number congruent to `i`.
   */
  lemma RunAccounted(window: nat, timeout: nat, ops: seq<Op>)
    requires 1 <= window <= MAX_WINDOW
    ensures var s := Run(window, timeout, ops);
            && s.inFlight == Count(s.slots)
            && 0 <= s.inFlight <= |s.slots|
            && forall i :: 0 <= i < |s.slots| && s.slots[i].Some? ==>
                 s.slots[i].value.sequenceNumber % s.window == i
  {
    CountBounds(Run(window, timeout, ops).slots);
  }
}
